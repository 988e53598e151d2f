/**
 The printers of time spans of systemd-analyze: one of whole units, and one with a decimal last unit
 and an accuracy.
 */
module TimeSpan {
  import opened Text
  import opened Decimal
  import opened Division

  const U64_MAX: nat := 0xFFFF_FFFF_FFFF_FFFF

  const USEC_PER_MSEC: nat := 1_000
  const USEC_PER_SEC: nat := 1_000_000
  const USEC_PER_MINUTE: nat := 60_000_000
  const USEC_PER_HOUR: nat := 3_600_000_000
  const USEC_PER_DAY: nat := 86_400_000_000
  const USEC_PER_WEEK: nat := 604_800_000_000
  const USEC_PER_MONTH: nat := 2_629_800_000_000
  const USEC_PER_YEAR: nat := 31_557_600_000_000

  datatype Unit = Unit(suffix: string, usec: nat)

  /** The units both printers use, largest first. */
  const TABLE: seq<Unit> := [
    Unit("y", USEC_PER_YEAR), Unit("month", USEC_PER_MONTH), Unit("w", USEC_PER_WEEK), Unit("d", USEC_PER_DAY),
    Unit("h", USEC_PER_HOUR), Unit("min", USEC_PER_MINUTE), Unit("s", USEC_PER_SEC), Unit("ms", USEC_PER_MSEC),
    Unit("us", 1)
  ]

  /** How many whole units of index `i` are in `t`, and what is left. */
  function Count(t: nat, i: nat): nat
    requires i < |TABLE|
  {
    t / TABLE[i].usec
  }

  function Left(t: nat, i: nat): nat
    requires i < |TABLE|
  {
    t % TABLE[i].usec
  }

  // ---------- printed terms ----------

  /** One printed unit: a whole count, perhaps decimals, and the index of the unit. */
  datatype Term = Term(whole: nat, decimals: string, unit: nat)

  predicate WellFormed(terms: seq<Term>)
  {
    forall k :: 0 <= k < |terms| ==> terms[k].unit < |TABLE| && Digits(terms[k].decimals)
  }

  predicate Descending(terms: seq<Term>)
  {
    forall j, k :: 0 <= j < k < |terms| ==> terms[j].unit < terms[k].unit
  }

  function TermNumber(term: Term): string
  {
    ToDecimal(term.whole) + (if term.decimals == [] then "" else "." + term.decimals)
  }

  function TermText(term: Term): string
    requires term.unit < |TABLE|
  {
    TermNumber(term) + TABLE[term.unit].suffix
  }

  function Texts(terms: seq<Term>): seq<string>
    requires WellFormed(terms)
  {
    seq(|terms|, k requires 0 <= k < |terms| => TermText(terms[k]))
  }

  /** The terms with a space between them. */
  function Render(terms: seq<Term>): string
    requires WellFormed(terms)
  {
    Join(Texts(terms), " ")
  }

  // ---------- the printer of whole units ----------

  /** Greedy counts from unit `i` on. */
  function Greedy(i: nat, t: nat): (terms: seq<Term>)
    requires i <= |TABLE|
    ensures WellFormed(terms) && Descending(terms)
    ensures forall k :: 0 <= k < |terms| ==> i <= terms[k].unit && terms[k].decimals == ""
    decreases |TABLE| - i
  {
    if i == |TABLE| then []
    else
      if t >= TABLE[i].usec then [Term(Count(t, i), "", i)] + Greedy(i + 1, Left(t, i)) else Greedy(i + 1, t)
  }

  function DisplayText(t: nat): string
  {
    if t == U64_MAX then "infinity" else if t == 0 then "0" else Render(Greedy(0, t))
  }

  /** Microseconds that whole terms stand for. */
  function WholeValue(terms: seq<Term>): nat
    requires WellFormed(terms)
  {
    if terms == [] then 0 else terms[0].whole * TABLE[terms[0].unit].usec + WholeValue(terms[1..])
  }

  lemma WholeValueCons(term: Term, rest: seq<Term>)
    requires term.unit < |TABLE| && Digits(term.decimals) && WellFormed(rest)
    ensures WholeValue([term] + rest) == term.whole * TABLE[term.unit].usec + WholeValue(rest)
  {
    hide TABLE;
    assert ([term] + rest)[1..] == rest;
  }

  lemma CountAndLeft(t: nat, i: nat)
    requires i < |TABLE|
    ensures Count(t, i) * TABLE[i].usec + Left(t, i) == t && Left(t, i) < TABLE[i].usec
    ensures i + 1 == |TABLE| ==> Left(t, i) == 0
  {
  }

  /** The greedy decomposition loses nothing. */
  lemma {:induction false} GreedyConserves(i: nat, t: nat)
    requires i < |TABLE| || (i == |TABLE| && t == 0)
    ensures WholeValue(Greedy(i, t)) == t
    decreases |TABLE| - i
  {
    hide TABLE, WholeValue, Count, Left;
    if i < |TABLE| {
      GreedyStep(i, t);
      if t >= TABLE[i].usec {
        CountAndLeft(t, i);
        GreedyConserves(i + 1, Left(t, i));
        WholeValueCons(Term(Count(t, i), "", i), Greedy(i + 1, Left(t, i)));
      } else {
        GreedyConserves(i + 1, t);
      }
    } else {
      assert WholeValue([]) == 0 by { NoTerms(); }
    }
  }

  lemma NoTerms()
    ensures WholeValue([]) == 0
  {
  }

  lemma GreedyStep(i: nat, t: nat)
    requires i <= |TABLE|
    ensures i < |TABLE| ==>
      Greedy(i, t) == if t >= TABLE[i].usec then [Term(Count(t, i), "", i)] + Greedy(i + 1, Left(t, i)) else Greedy(i + 1, t)
    ensures i + 1 == |TABLE| ==> TABLE[i].usec == 1
    ensures i == |TABLE| ==> Greedy(i, t) == []
  {
    hide Count, Left;
  }

  lemma TextsSnoc(terms: seq<Term>, term: Term)
    requires WellFormed(terms) && term.unit < |TABLE| && Digits(term.decimals)
    ensures WellFormed(terms + [term]) && Texts(terms + [term]) == Texts(terms) + [TermText(term)]
  {
    hide TABLE;
  }

  /** One unit taken off the greedy terms that are still to come. */
  lemma GreedyTaken(terms: seq<Term>, i: nat, t: nat)
    requires i <= |TABLE|
    ensures i < |TABLE| ==>
      terms + Greedy(i, t)
      == if t >= TABLE[i].usec then terms + [Term(Count(t, i), "", i)] + Greedy(i + 1, Left(t, i)) else terms + Greedy(i + 1, t)
    ensures i == |TABLE| ==> terms + Greedy(i, t) == terms
  {
    hide Count, Left, TABLE, Greedy;
    GreedyStep(i, t);
    if i < |TABLE| {
      PushBack(terms, Term(Count(t, i), "", i), Greedy(i + 1, Left(t, i)));
    }
  }

  lemma NoTexts()
    ensures WellFormed([]) && Texts([]) == []
  {
  }

  lemma PushBack<T>(a: seq<T>, x: T, b: seq<T>)
    ensures a + [x] + b == a + ([x] + b)
  {
  }

  method Display(usec: nat) returns (s: string)
    requires usec <= U64_MAX
    ensures s == DisplayText(usec)
  {
    if usec == U64_MAX {
      return "infinity";
    }
    if usec == 0 {
      return "0";
    }
    hide TABLE, TermText, Greedy, ToDecimal, Join, Count, Left, Texts, WellFormed, Descending;
    NoTexts();
    var remaining: nat, parts: seq<string> := usec, [];
    ghost var terms: seq<Term> := [];
    for i := 0 to |TABLE|
      invariant WellFormed(terms) && parts == Texts(terms)
      invariant terms + Greedy(i, remaining) == Greedy(0, usec)
    {
      GreedyTaken(terms, i, remaining);
      if remaining >= TABLE[i].usec {
        ghost var term := Term(Count(remaining, i), "", i);
        WholeTermText(term);
        TextsSnoc(terms, term);
        parts := parts + [ToDecimal(Count(remaining, i)) + TABLE[i].suffix];
        terms := terms + [term];
        remaining := Left(remaining, i);
      }
    }
    GreedyTaken(terms, |TABLE|, remaining);
    s := Join(parts, " ");
  }

  lemma WholeTermText(term: Term)
    requires term.unit < |TABLE| && term.decimals == ""
    ensures TermText(term) == ToDecimal(term.whole) + TABLE[term.unit].suffix
  {
    assert ToDecimal(term.whole) + "" == ToDecimal(term.whole);
  }

  // ---------- what is printed, by its amounts ----------

  /** Every term is of the largest unit that fits what is left, and leaves less than that unit. */
  ghost predicate LargestFirst(terms: seq<Term>, from: nat)
    requires WellFormed(terms)
  {
    terms == []
    || (&& from <= terms[0].unit && terms[0].whole > 0
        && WholeValue(terms[1..]) < TABLE[terms[0].unit].usec
        && (forall i :: from <= i < terms[0].unit ==> WholeValue(terms) < TABLE[i].usec)
        && LargestFirst(terms[1..], terms[0].unit + 1))
  }

  lemma {:induction false} GreedyLargestFirst(i: nat, t: nat)
    requires i < |TABLE| || (i == |TABLE| && t == 0)
    ensures LargestFirst(Greedy(i, t), i)
    decreases |TABLE| - i
  {
    hide TABLE, WholeValue, Count, Left;
    if i < |TABLE| {
      GreedyStep(i, t);
      GreedyConserves(i, t);
      CountAndLeft(t, i);
      if t >= TABLE[i].usec {
        CountPositive(t, i);
        var rest := Greedy(i + 1, Left(t, i));
        GreedyConserves(i + 1, Left(t, i));
        GreedyLargestFirst(i + 1, Left(t, i));
        assert Greedy(i, t)[1..] == rest;
      } else {
        GreedyLargestFirst(i + 1, t);
      }
    }
  }

  lemma CountPositive(t: nat, i: nat)
    requires i < |TABLE| && t >= TABLE[i].usec
    ensures Count(t, i) > 0
  {
  }

  lemma NineUnits()
    ensures |TABLE| == 9
  {
  }

  /** The text of a span is terms of whole units that add up to it, the largest possible unit first at every place. */
  lemma DisplayMeans(t: nat)
    requires 0 < t < U64_MAX
    ensures exists terms: seq<Term> ::
      && WellFormed(terms) && Descending(terms) && DisplayText(t) == Render(terms)
      && WholeValue(terms) == t && LargestFirst(terms, 0) && forall k :: 0 <= k < |terms| ==> terms[k].decimals == ""
  {
    hide TABLE, Render, Greedy, Descending, WellFormed, WholeValue, LargestFirst;
    NineUnits();
    GreedyConserves(0, t);
    GreedyLargestFirst(0, t);
    assert DisplayText(t) == Render(Greedy(0, t));
  }

  lemma {:induction false} GreedySkips(j: nat, i: nat, t: nat)
    requires j <= i < |TABLE| && forall k :: j <= k < i ==> t < TABLE[k].usec
    ensures Greedy(j, t) == Greedy(i, t)
    decreases i - j
  {
    hide TABLE, Greedy, Count, Left;
    if j < i {
      GreedyStep(j, t);
      GreedySkips(j + 1, i, t);
    }
  }

  lemma {:induction false} GreedyOfNothing(i: nat)
    requires i <= |TABLE|
    ensures Greedy(i, 0) == []
    decreases |TABLE| - i
  {
    if i < |TABLE| {
      GreedyOfNothing(i + 1);
    }
  }

  lemma SingleUnit(i: nat, n: nat)
    requires i < |TABLE| && n > 0 && n * TABLE[i].usec < U64_MAX && forall k :: 0 <= k < i ==> n * TABLE[i].usec < TABLE[k].usec
    ensures DisplayText(n * TABLE[i].usec) == ToDecimal(n) + TABLE[i].suffix
  {
    hide TABLE, Greedy, ToDecimal;
    var t := n * TABLE[i].usec;
    GreedySkips(0, i, t);
    GreedyStep(i, t);
    WholeMultiple(i, n);
    GreedyOfNothing(i + 1);
    var term := Term(n, "", i);
    assert [term] + [] == [term];
    WholeTermText(term);
  }

  lemma WholeMultiple(i: nat, n: nat)
    requires i < |TABLE| && n > 0
    ensures var t := n * TABLE[i].usec; t >= TABLE[i].usec && t > 0 && Count(t, i) == n && Left(t, i) == 0
  {
    var u := TABLE[i].usec;
    assert u >= 1;
    Multiples(n, u);
    QuotientUnique(n * u, u, n, 0);
  }

  /** The units and their sizes, as printed amounts show them. */
  lemma WholeUnitsPrint(n: nat)
    requires n > 0
    ensures n < 1000 ==> DisplayText(n) == ToDecimal(n) + "us"
    ensures n < 1000 ==> DisplayText(n * 1_000) == ToDecimal(n) + "ms"
    ensures n < 60 ==> DisplayText(n * 1_000_000) == ToDecimal(n) + "s"
    ensures n < 60 ==> DisplayText(n * 60_000_000) == ToDecimal(n) + "min"
    ensures n < 24 ==> DisplayText(n * 3_600_000_000) == ToDecimal(n) + "h"
    ensures n < 7 ==> DisplayText(n * 86_400_000_000) == ToDecimal(n) + "d"
    ensures n <= 4 ==> DisplayText(n * 604_800_000_000) == ToDecimal(n) + "w"
    ensures n < 12 ==> DisplayText(n * 2_629_800_000_000) == ToDecimal(n) + "month"
    ensures n * 31_557_600_000_000 < U64_MAX ==> DisplayText(n * 31_557_600_000_000) == ToDecimal(n) + "y"
  {
    hide DisplayText, ToDecimal;
    if n < 1000 {
      SingleUnit(8, n);
      SingleUnit(7, n);
    }
    if n < 60 {
      SingleUnit(6, n);
      SingleUnit(5, n);
    }
    if n < 24 {
      SingleUnit(4, n);
    }
    if n < 7 {
      SingleUnit(3, n);
    }
    if n <= 4 {
      SingleUnit(2, n);
    }
    if n < 12 {
      SingleUnit(1, n);
    }
    if n * 31_557_600_000_000 < U64_MAX {
      SingleUnit(0, n);
    }
  }

  // ---------- the printer with an accuracy ----------

  /** How often `n` can be divided by ten before it is at most 1. */
  function Tens(n: nat): nat { if n > 1 then 1 + Tens(n / 10) else 0 }

  function Pow10(k: nat): (p: nat)
    ensures p >= 1
  {
    if k == 0 then 1 else 10 * Pow10(k - 1)
  }

  /** The power of ten the remainder is cut down by. */
  function Step(accuracy: nat): nat { Pow10(Tens(accuracy)) }

  /** A value below a minute with a remainder that the accuracy leaves digits of. */
  predicate ShowsDecimals(i: nat, t: nat, accuracy: nat)
    requires i < |TABLE|
  {
    t < USEC_PER_MINUTE && Left(t, i) > 0 && Tens(TABLE[i].usec) > Tens(accuracy)
  }

  function CutDown(i: nat, t: nat, accuracy: nat): nat
    requires i < |TABLE|
  {
    Quotient(Left(t, i), Step(accuracy))
  }

  /** The decimals of the last term. */
  function Decimals(i: nat, t: nat, accuracy: nat): (s: string)
    requires i < |TABLE| && ShowsDecimals(i, t, accuracy)
    ensures Digits(s)
  {
    ZeroPadDenotes(ToDecimal(CutDown(i, t, accuracy)), Tens(TABLE[i].usec) - Tens(accuracy));
    ZeroPad(ToDecimal(CutDown(i, t, accuracy)), Tens(TABLE[i].usec) - Tens(accuracy))
  }

  /** What is still to print after the unit `i`; a remainder below a minute has been cut down by then. */
  function Carried(i: nat, t: nat, accuracy: nat): nat
    requires i < |TABLE|
  {
    if t < USEC_PER_MINUTE && Left(t, i) > 0 then CutDown(i, t, accuracy) else Left(t, i)
  }

  /** The terms printed from unit `i` on; `something` says whether a unit has been printed. */
  function Rounded(i: nat, t: nat, accuracy: nat, something: bool): (terms: seq<Term>)
    requires i <= |TABLE|
    ensures WellFormed(terms) && Descending(terms)
    ensures forall k :: 0 <= k < |terms| ==> i <= terms[k].unit
    decreases |TABLE| - i
  {
    hide TABLE, Decimals, Carried, ShowsDecimals, TermText, Count, Left;
    if i == |TABLE| || t == 0 || (t < accuracy && something) then []
    else if t < TABLE[i].usec then Rounded(i + 1, t, accuracy, something)
    else if ShowsDecimals(i, t, accuracy) then [Term(Count(t, i), Decimals(i, t, accuracy), i)]
    else [Term(Count(t, i), "", i)] + Rounded(i + 1, Carried(i, t, accuracy), accuracy, true)
  }

  function FullText(t: nat, accuracy: nat): string
  {
    if t == U64_MAX then "infinity" else if t == 0 then "0" else Render(Rounded(0, t, accuracy, false))
  }

  lemma RoundedStep(i: nat, t: nat, accuracy: nat, something: bool)
    requires i <= |TABLE|
    ensures i == |TABLE| || t == 0 || (t < accuracy && something) ==> Rounded(i, t, accuracy, something) == []
    ensures i < |TABLE| && t != 0 && !(t < accuracy && something) ==>
      Rounded(i, t, accuracy, something)
      == if t < TABLE[i].usec then Rounded(i + 1, t, accuracy, something)
         else if ShowsDecimals(i, t, accuracy) then [Term(Count(t, i), Decimals(i, t, accuracy), i)]
         else [Term(Count(t, i), "", i)] + Rounded(i + 1, Carried(i, t, accuracy), accuracy, true)
    ensures Rounded(|TABLE|, t, accuracy, something) == []
  {
    hide Decimals, Carried, ShowsDecimals, Count, Left, TermText;
  }

  lemma {:induction false} RoundedSkips(j: nat, i: nat, t: nat, accuracy: nat)
    requires j <= i < |TABLE| && t > 0 && forall k :: j <= k < i ==> t < TABLE[k].usec
    ensures Rounded(j, t, accuracy, false) == Rounded(i, t, accuracy, false)
    decreases i - j
  {
    hide TABLE, Rounded, Count, Left, ShowsDecimals, Decimals, Carried;
    if j < i {
      RoundedStep(j, t, accuracy, false);
      RoundedSkips(j + 1, i, t, accuracy);
    }
  }

  /** The largest unit that fits comes first, with its whole count; decimals only for seconds and milliseconds. */
  lemma LargestUnitFirst(i: nat, t: nat, accuracy: nat)
    requires i < |TABLE| && 0 < t && TABLE[i].usec <= t && forall k :: 0 <= k < i ==> t < TABLE[k].usec
    ensures var terms := Rounded(0, t, accuracy, false);
      && terms != [] && terms[0].unit == i && terms[0].whole == t / TABLE[i].usec
      && (terms[0].decimals != "" ==> t < 60_000_000 && |terms| == 1)
  {
    hide TABLE, Rounded, Decimals, Carried, Left;
    RoundedSkips(0, i, t, accuracy);
    RoundedStep(i, t, accuracy, false);
  }

  lemma SecondsParts(s: nat, us: nat)
    requires 1 <= s < 60 && 0 < us < 1_000_000
    ensures var t := s * 1_000_000 + us;
      && |TABLE| == 9 && TABLE[6].suffix == "s" && TABLE[6].usec <= t < USEC_PER_MINUTE
      && Count(t, 6) == s && Left(t, 6) == us && forall k :: 0 <= k < 6 ==> t < TABLE[k].usec
  {
  }

  /** At an accuracy of a microsecond, seconds below a minute are printed with six decimals. */
  lemma SecondsWithDecimals(s: nat, us: nat)
    requires 1 <= s < 60 && 0 < us < 1_000_000
    ensures FullText(s * 1_000_000 + us, 1) == ToDecimal(s) + "." + ZeroPad(ToDecimal(us), 6) + "s"
  {
    hide ToDecimal, ZeroPad, Rounded, TABLE, Count, Left, Decimals, ShowsDecimals;
    var t := s * 1_000_000 + us;
    SecondsParts(s, us);
    RoundedSkips(0, 6, t, 1);
    RoundedStep(6, t, 1, false);
    SixDecimals(t);
    ZeroPadDenotes(ToDecimal(us), 6);
    OneTermText(Term(s, ZeroPad(ToDecimal(us), 6), 6));
  }

  lemma OneTermText(term: Term)
    requires term.unit < |TABLE| && Digits(term.decimals) && term.decimals != ""
    ensures Render([term]) == ToDecimal(term.whole) + "." + term.decimals + TABLE[term.unit].suffix
  {
    hide TABLE, ToDecimal;
    assert Render([term]) == TermText(term);
    assert ToDecimal(term.whole) + ("." + term.decimals) == ToDecimal(term.whole) + "." + term.decimals;
  }

  lemma SixDecimals(t: nat)
    requires t < USEC_PER_MINUTE && Left(t, 6) > 0
    ensures ShowsDecimals(6, t, 1) && Decimals(6, t, 1) == ZeroPad(ToDecimal(Left(t, 6)), 6)
  {
    hide ToDecimal, ZeroPad;
    PowZero();
    assert Tens(1) == 0 && Tens(100) == 2;
    assert Tens(10_000) == 4;
    assert Tens(1_000_000) == 6;
    assert Step(1) == 1;
  }

  lemma DivideByTen(b: nat, k: nat)
    ensures Quotient(b, Pow10(k)) / 10 == Quotient(b, Pow10(k + 1))
  {
    DivideTwice(b, Pow10(k), 10);
  }

  /** The two counting loops: decimal places of the unit less those the accuracy takes away. */
  method CutToAccuracy(unit: nat, accuracy: nat, b0: nat) returns (j: int, b: nat)
    ensures j == Tens(unit) - Tens(accuracy)
    ensures b == Quotient(b0, Step(accuracy))
  {
    hide Pow10;
    j, b := 0, b0;
    var cc := unit;
    while cc > 1
      invariant j + Tens(cc) == Tens(unit)
    {
      j, cc := j + 1, cc / 10;
    }
    cc := accuracy;
    ghost var k := 0;
    PowZero();
    while cc > 1
      invariant k + Tens(cc) == Tens(accuracy) && j + k == Tens(unit)
      invariant b == Quotient(b0, Pow10(k))
    {
      DivideByTen(b0, k);
      b, j, cc, k := b / 10, j - 1, cc / 10, k + 1;
    }
  }

  lemma PowZero()
    ensures Pow10(0) == 1 && forall b: nat :: Quotient(b, 1) == b
  {
  }

  /** One printed unit: the text, and what is left of the span. */
  method PrintUnit(i: nat, t: nat, accuracy: nat) returns (text: string, rest: nat, ghost term: Term)
    requires i < |TABLE|
    ensures term.unit == i && Digits(term.decimals) && text == TermText(term)
    ensures ShowsDecimals(i, t, accuracy) ==> term == Term(Count(t, i), Decimals(i, t, accuracy), i) && rest == 0
    ensures !ShowsDecimals(i, t, accuracy) ==> term == Term(Count(t, i), "", i) && rest == Carried(i, t, accuracy)
  {
    hide TABLE, Count, Left, Tens, Pow10, ToDecimal, ZeroPad;
    var a, b := Count(t, i), Left(t, i);
    if t < USEC_PER_MINUTE && b > 0 {
      var j;
      j, b := CutToAccuracy(TABLE[i].usec, accuracy, b);
      if j > 0 {
        ZeroPadDenotes(ToDecimal(b), j);
        term := Term(a, ZeroPad(ToDecimal(b), j), i);
        text := ToDecimal(a) + "." + ZeroPad(ToDecimal(b), j) + TABLE[i].suffix;
        assert ToDecimal(a) + ("." + ZeroPad(ToDecimal(b), j)) == ToDecimal(a) + "." + ZeroPad(ToDecimal(b), j);
        return text, 0, term;
      }
    }
    term := Term(a, "", i);
    WholeTermText(term);
    return ToDecimal(a) + TABLE[i].suffix, b, term;
  }

  /** One printed unit moves from the terms still to come to those printed. */
  lemma UnitPrinted(terms: seq<Term>, term: Term, i: nat, t: nat, rest: nat, accuracy: nat, something: bool)
    requires i < |TABLE| && TABLE[i].usec <= t && t != 0 && !(t < accuracy && something)
    requires WellFormed(terms) && term.unit == i && Digits(term.decimals) && |Texts(terms)| == |terms|
    requires ShowsDecimals(i, t, accuracy) ==> term == Term(Count(t, i), Decimals(i, t, accuracy), i) && rest == 0
    requires !ShowsDecimals(i, t, accuracy) ==> term == Term(Count(t, i), "", i) && rest == Carried(i, t, accuracy)
    ensures terms + Rounded(i, t, accuracy, something) == terms + [term] + Rounded(i + 1, rest, accuracy, true)
    ensures WellFormed(terms + [term]) && |Texts(terms + [term])| == |terms| + 1
    ensures Join(Texts(terms + [term]), " ")
         == if terms == [] then TermText(term) else Join(Texts(terms), " ") + " " + TermText(term)
  {
    hide TABLE, TermText, Rounded, Join, Count, Left, Texts, WellFormed, Descending, Decimals, Carried, ShowsDecimals;
    RoundedStep(i, t, accuracy, something);
    RoundedStep(i + 1, 0, accuracy, true);
    TextsSnoc(terms, term);
    JoinSnoc(Texts(terms), TermText(term), " ");
    PushBack(terms, term, Rounded(i + 1, rest, accuracy, true));
    assert [term] + [] == [term];
  }

  method FormatTimespanFull(t0: nat, accuracy: nat) returns (out: string)
    requires t0 <= U64_MAX
    ensures out == FullText(t0, accuracy)
  {
    if t0 == U64_MAX {
      return "infinity";
    }
    if t0 == 0 {
      return "0";
    }
    hide TABLE, TermText, Rounded, Join, Count, Left, Texts, WellFormed, Descending, Decimals, Carried, ShowsDecimals;
    NoTexts();
    var t: nat, something := t0, false;
    out := "";
    ghost var terms: seq<Term> := [];
    ghost var all := Rounded(0, t0, accuracy, false);
    for i := 0 to |TABLE|
      invariant WellFormed(terms) && out == Join(Texts(terms), " ") && |Texts(terms)| == |terms|
      invariant something <==> terms != []
      invariant terms + Rounded(i, t, accuracy, something) == all
    {
      RoundedStep(i, t, accuracy, something);
      if t == 0 || (t < accuracy && something) {
        assert terms + [] == terms;
        break;
      }
      if t < TABLE[i].usec {
        continue;
      }
      var text, rest;
      ghost var term;
      text, rest, term := PrintUnit(i, t, accuracy);
      UnitPrinted(terms, term, i, t, rest, accuracy, something);
      out := if something then out + " " + text else text;
      terms, t, something := terms + [term], rest, true;
    }
    RoundedStep(|TABLE|, t, accuracy, something);
    assert terms + [] == terms;
  }
}
