/**
 What a printed time span is worth, and how far the printer with an accuracy stays from the span: the
 accuracy bounds the loss exactly when it is led by a digit 1 or is a second or more.
 */
module TimeSpanAccuracy {
  import opened Text
  import opened Decimal
  import opened Division
  import opened TimeSpan
  import opened TimeSpanParser

  // ---------- what a text with decimals is worth ----------

  /** A decimal number as written, read exactly. */
  function ExactNumber(s: string): Option<real>
  {
    match SplitOnce(s, '.')
    case None => if Digits(s) && s != "" then Some(NumberOf(s) as real) else None
    case Some((whole, frac)) =>
      if Digits(whole) && Digits(frac) && whole + frac != "" then
        Some(NumberOf(whole) as real + NumberOf(frac) as real / Pow10(|frac|) as real)
      else None
  }

  function ExactSum(tokens: seq<Token>): Option<real>
  {
    if tokens == [] then Some(0.0)
    else
      var x, rest := ExactNumber(tokens[0].0), ExactSum(tokens[1..]);
      if x.Some? && rest.Some? then Some(x.value * tokens[0].1 as real + rest.value) else None
  }

  /** The microseconds a text stands for, when the parser's tokens are read without rounding. */
  function Worth(text: string): Option<real>
  {
    match Tokens(text)
    case None => None
    case Some(tokens) => ExactSum(tokens)
  }

  /** The microseconds a term stands for, decimals counted in steps of the accuracy. */
  function TermMicros(term: Term, accuracy: nat): nat
    requires term.unit < |TABLE| && Digits(term.decimals)
  {
    term.whole * TABLE[term.unit].usec + NumberOf(term.decimals) * Step(accuracy)
  }

  function Micros(terms: seq<Term>, accuracy: nat): nat
    requires WellFormed(terms)
  {
    if terms == [] then 0 else TermMicros(terms[0], accuracy) + Micros(terms[1..], accuracy)
  }

  /** Decimals stand for as many microseconds as their places say. */
  predicate Scaled(terms: seq<Term>, accuracy: nat)
    requires WellFormed(terms)
  {
    forall k :: 0 <= k < |terms| ==>
      terms[k].decimals == "" || TABLE[terms[k].unit].usec == Pow10(|terms[k].decimals|) * Step(accuracy)
  }

  lemma ExactTerm(term: Term, accuracy: nat)
    requires term.unit < |TABLE| && Digits(term.decimals)
    requires term.decimals == "" || TABLE[term.unit].usec == Pow10(|term.decimals|) * Step(accuracy)
    ensures var x := ExactNumber(TermNumber(term));
      x.Some? && x.value * TABLE[term.unit].usec as real == TermMicros(term, accuracy) as real
  {
    hide TABLE, ToDecimal, Pow10, Step, NumberOf;
    var w, d := ToDecimal(term.whole), term.decimals;
    var usec := TABLE[term.unit].usec;
    assert '.' !in w && '.' !in d;
    ProductAsReal(term.whole, usec);
    ProductAsReal(NumberOf(d), Step(accuracy));
    if d == "" {
      assert w + "" == w;
      NoDecimals();
    } else {
      assert w + ("." + d) == w + ['.'] + d;
      SplitOnceFirst(w, '.', d);
      ProductAsReal(Pow10(|d|), Step(accuracy));
      Scale(term.whole as real, NumberOf(d) as real, Pow10(|d|) as real, Step(accuracy) as real);
    }
  }

  lemma NoDecimals()
    ensures NumberOf("") == 0
  {
  }

  lemma ProductAsReal(a: nat, b: nat)
    ensures (a * b) as real == a as real * b as real
  {
  }

  lemma Scale(a: real, n: real, p: real, s: real)
    requires p > 0.0
    ensures (a + n / p) * (p * s) == a * (p * s) + n * s
  {
    assert n / p * p == n;
    assert n / p * (p * s) == n / p * p * s;
  }

  lemma ExactSumCons(token: Token, rest: seq<Token>)
    requires ExactNumber(token.0).Some? && ExactSum(rest).Some?
    ensures ExactSum([token] + rest).Some?
    ensures ExactSum([token] + rest).value == ExactNumber(token.0).value * token.1 as real + ExactSum(rest).value
  {
    assert ([token] + rest)[1..] == rest;
  }

  lemma {:induction false} WorthOfTerms(terms: seq<Term>, accuracy: nat)
    requires WellFormed(terms) && Scaled(terms, accuracy)
    ensures ExactSum(TermTokens(terms)).Some? && ExactSum(TermTokens(terms)).value == Micros(terms, accuracy) as real
  {
    hide TABLE, TermMicros, ExactNumber, TermNumber;
    if terms != [] {
      var token := (TermNumber(terms[0]), TABLE[terms[0].unit].usec);
      assert TermTokens(terms) == [token] + TermTokens(terms[1..]);
      assert TermTokens(terms)[1..] == TermTokens(terms[1..]);
      ExactTerm(terms[0], accuracy);
      WorthOfTerms(terms[1..], accuracy);
      ExactSumCons(token, TermTokens(terms[1..]));
    }
  }

  // ---------- the accuracy ----------

  lemma {:induction false} PowAdds(j: nat, k: nat)
    ensures Pow10(j + k) == Pow10(j) * Pow10(k)
  {
    if j > 0 {
      PowAdds(j - 1, k);
      assert 10 * (Pow10(j - 1) * Pow10(k)) == 10 * Pow10(j - 1) * Pow10(k);
    }
  }

  lemma {:induction false} TensMonotone(m: nat, n: nat)
    requires m <= n
    ensures Tens(m) <= Tens(n)
  {
    if m > 1 {
      TensMonotone(m / 10, n / 10);
    }
  }

  lemma {:induction false} PowMonotone(j: nat, k: nat)
    requires j <= k
    ensures Pow10(j) <= Pow10(k)
  {
    if j > 0 {
      PowMonotone(j - 1, k - 1);
    }
  }

  /** A power of ten is its own step. */
  lemma {:induction false} StepOfPower(p: nat)
    ensures Step(Pow10(p)) == Pow10(p)
  {
    if p > 0 {
      StepOfPower(p - 1);
      assert Pow10(p) / 10 == Pow10(p - 1);
    }
  }

  lemma SmallUnits(i: nat)
    requires i < |TABLE| && TABLE[i].usec < USEC_PER_MINUTE
    ensures i >= 6 && TABLE[i].usec <= USEC_PER_SEC && TABLE[i].usec == Pow10(Tens(TABLE[i].usec))
    ensures Tens(USEC_PER_SEC) == 6 && Pow10(6) == USEC_PER_SEC
  {
    assert Tens(USEC_PER_SEC) == 6;
    assert Tens(USEC_PER_MSEC) == 3;
    assert Pow10(6) == USEC_PER_SEC;
  }

  /** The decimals shown are the remainder in whole steps, in exactly their places. */
  lemma DecimalsDenote(i: nat, t: nat, accuracy: nat)
    requires i < |TABLE| && ShowsDecimals(i, t, accuracy) && TABLE[i].usec <= t
    ensures NumberOf(Decimals(i, t, accuracy)) == CutDown(i, t, accuracy)
    ensures TABLE[i].usec == Pow10(|Decimals(i, t, accuracy)|) * Step(accuracy)
  {
    hide Pow10, Tens, ToDecimal, ZeroPad, TABLE, NumberOf;
    var j := Tens(TABLE[i].usec) - Tens(accuracy);
    var shown := CutDown(i, t, accuracy);
    SmallUnits(i);
    PowAdds(j, Tens(accuracy));
    CountAndLeft(t, i);
    QuotientBelow(Left(t, i), Pow10(j), Step(accuracy));
    DigitCount(shown, j);
    ZeroPadDenotes(ToDecimal(shown), j);
  }

  lemma QuotientBelow(b: nat, p: nat, s: nat)
    requires s > 0 && b < p * s
    ensures b / s < p
  {
  }

  lemma {:induction false} DigitCount(n: nat, j: nat)
    requires 1 <= j && n < Pow10(j)
    ensures |ToDecimal(n)| <= j
  {
    if n >= 10 {
      DigitCount(n / 10, j - 1);
    }
  }

  /** What the printed terms are worth, from unit `i` on: no more than the span, and how much less. */
  function Lost(i: nat, t: nat, accuracy: nat, something: bool): int
    requires i <= |TABLE|
  {
    t - Micros(Rounded(i, t, accuracy, something), accuracy)
  }

  /** The accuracies that bound what is lost: those led by a digit 1, and whole seconds and more. */
  predicate Bounds(accuracy: nat) { accuracy >= 1 && (Step(accuracy) <= accuracy || accuracy >= USEC_PER_SEC) }

  lemma MicrosCons(term: Term, rest: seq<Term>, accuracy: nat)
    requires term.unit < |TABLE| && Digits(term.decimals) && WellFormed(rest)
    ensures Micros([term] + rest, accuracy) == TermMicros(term, accuracy) + Micros(rest, accuracy)
    ensures Micros([], accuracy) == 0
    ensures term.decimals == "" ==> TermMicros(term, accuracy) == term.whole * TABLE[term.unit].usec
  {
    hide TABLE, Step;
    assert ([term] + rest)[1..] == rest;
  }

  /** A remainder below a minute that shows no decimals is cut down to nothing, and is below the step. */
  lemma CutToNothing(i: nat, t: nat, accuracy: nat)
    requires i < |TABLE| && TABLE[i].usec <= t < USEC_PER_MINUTE
    requires Left(t, i) > 0 && !ShowsDecimals(i, t, accuracy)
    ensures Carried(i, t, accuracy) == 0 && Left(t, i) < Step(accuracy) && Left(t, i) < USEC_PER_SEC
  {
    hide Pow10, Tens, TABLE;
    SmallUnits(i);
    CountAndLeft(t, i);
    PowMonotone(Tens(TABLE[i].usec), Tens(accuracy));
  }

  /** Decimals are never shown at accuracies of a second and more. */
  lemma NoDecimalsPastSeconds(i: nat, t: nat, accuracy: nat)
    requires i < |TABLE| && ShowsDecimals(i, t, accuracy) && TABLE[i].usec <= t
    ensures accuracy < USEC_PER_SEC
  {
    hide Tens, TABLE;
    SmallUnits(i);
    if accuracy >= USEC_PER_SEC {
      TensMonotone(TABLE[i].usec, accuracy);
    }
  }

  lemma {:induction false} LossBelow(i: nat, t: nat, accuracy: nat, something: bool)
    requires i < |TABLE| || (i == |TABLE| && t == 0)
    requires Bounds(accuracy)
    ensures 0 <= Lost(i, t, accuracy, something) < accuracy
    ensures Scaled(Rounded(i, t, accuracy, something), accuracy)
    decreases |TABLE| - i
  {
    RoundedStep(i, t, accuracy, something);
    MicrosCons(Term(0, "", 0), [], accuracy);
    if t != 0 && !(t < accuracy && something) {
      GreedyStep(i, t);
      if t < TABLE[i].usec {
        LossBelow(i + 1, t, accuracy, something);
      } else {
        LossAtUnit(i, t, accuracy, something);
      }
    }
  }

  lemma LossAtUnit(i: nat, t: nat, accuracy: nat, something: bool)
    requires i < |TABLE| && t >= TABLE[i].usec && t != 0 && !(t < accuracy && something)
    requires Bounds(accuracy)
    ensures 0 <= Lost(i, t, accuracy, something) < accuracy
    ensures Scaled(Rounded(i, t, accuracy, something), accuracy)
    decreases |TABLE| - i, 1
  {
    hide Rounded, Micros, Count, Left, Carried, ShowsDecimals, Decimals, Step, TABLE, Scaled;
    if ShowsDecimals(i, t, accuracy) {
      RoundedStep(i, t, accuracy, something);
      LossInDecimals(i, t, accuracy);
    } else {
      LossInWhole(i, t, accuracy, something);
    }
  }

  lemma ScaledCons(term: Term, rest: seq<Term>, accuracy: nat)
    requires term.unit < |TABLE| && term.decimals == "" && WellFormed(rest) && Scaled(rest, accuracy)
    ensures Scaled([term] + rest, accuracy)
  {
    hide TABLE, Pow10, Step;
  }

  lemma BoundsStep(accuracy: nat)
    requires Bounds(accuracy)
    ensures accuracy >= 1 && (Step(accuracy) <= accuracy || accuracy >= USEC_PER_SEC)
  {
  }

  lemma LossInWhole(i: nat, t: nat, accuracy: nat, something: bool)
    requires i < |TABLE| && t >= TABLE[i].usec && t != 0 && !(t < accuracy && something)
    requires Bounds(accuracy) && !ShowsDecimals(i, t, accuracy)
    ensures 0 <= Lost(i, t, accuracy, something) < accuracy
    ensures Scaled(Rounded(i, t, accuracy, something), accuracy)
    decreases |TABLE| - i, 0, 0
  {
    hide Rounded, Micros, TermMicros, Count, Left, Carried, ShowsDecimals, Decimals, CutDown, Step, TABLE, Scaled, Bounds;
    RoundedStep(i, t, accuracy, something);
    var rest := Carried(i, t, accuracy);
    var later := Rounded(i + 1, rest, accuracy, true);
    CountAndLeft(t, i);
    MicrosCons(Term(Count(t, i), "", i), later, accuracy);
    CarriedIsLeft(i, t, accuracy);
    LossBelow(i + 1, rest, accuracy, true);
    ScaledCons(Term(Count(t, i), "", i), later, accuracy);
    assert Lost(i, t, accuracy, something) == Left(t, i) - Micros(later, accuracy);
    if rest != Left(t, i) {
      BoundsStep(accuracy);
      CutToNothing(i, t, accuracy);
      RoundedStep(i + 1, 0, accuracy, true);
      MicrosCons(Term(0, "", 0), [], accuracy);
    }
  }

  lemma CarriedIsLeft(i: nat, t: nat, accuracy: nat)
    requires i < |TABLE|
    ensures Carried(i, t, accuracy) != Left(t, i) ==> t < USEC_PER_MINUTE && Left(t, i) > 0
    ensures i + 1 == |TABLE| ==> Carried(i, t, accuracy) == 0
  {
    CountAndLeft(t, i);
  }

  lemma LossInDecimals(i: nat, t: nat, accuracy: nat)
    requires i < |TABLE| && t >= TABLE[i].usec && Bounds(accuracy) && ShowsDecimals(i, t, accuracy)
    ensures var terms := [Term(Count(t, i), Decimals(i, t, accuracy), i)];
      0 <= t - Micros(terms, accuracy) < accuracy && Scaled(terms, accuracy)
  {
    hide TABLE, Count, Left, Tens, Pow10, Decimals;
    var term := Term(Count(t, i), Decimals(i, t, accuracy), i);
    assert [term] == [term] + [];
    MicrosCons(term, [], accuracy);
    CountAndLeft(t, i);
    DecimalsDenote(i, t, accuracy);
    NoDecimalsPastSeconds(i, t, accuracy);
    WholeSteps(Left(t, i), Step(accuracy));
  }

  lemma WholeSteps(b: nat, s: nat)
    requires s > 0
    ensures 0 <= b - b / s * s < s
  {
  }

  /** The printed text is worth no more than the span, and less than the accuracy short of it. */
  predicate WithinAccuracy(t: nat, accuracy: nat)
  {
    var worth := Worth(FullText(t, accuracy));
    worth.Some? && worth.value <= t as real < worth.value + accuracy as real
  }

  /** The accuracy bounds what is lost, and the units are in descending order. */
  lemma TextWithinAccuracy(t: nat, accuracy: nat)
    requires t < U64_MAX && Bounds(accuracy)
    ensures WithinAccuracy(t, accuracy)
    ensures Descending(Rounded(0, t, accuracy, false))
  {
    if t == 0 {
      WorthOfZero();
    } else {
      hide Tokens, Render, TermTokens, Micros, TermMicros, Rounded, Scaled;
      var terms := Rounded(0, t, accuracy, false);
      LossBelow(0, t, accuracy, false);
      TokensOfRendered(terms);
      WorthOfTerms(terms, accuracy);
    }
  }

  lemma WorthOfZero()
    ensures Worth("0").Some? && Worth("0").value == 0.0
  {
    assert ToDecimal(0) == "0" && ("0")[..1] == "0";
    assert UnitAt("") == Some((USEC_PER_SEC, 0)) by {
      forall k: nat | k < |SUFFIXES| ensures !SuffixApplies(k, "") { NoSpaces(k); }
    }
    hide UnitAt, SUFFIXES;
    TokensUnfoldNumber("0");
    assert SplitOnce("0", '.') == None;
  }

  lemma TokensUnfoldNumber(s: string)
    requires s == "0" && UnitAt("") == Some((USEC_PER_SEC, 0))
    ensures Tokens(s) == Some([(s, USEC_PER_SEC)])
  {
    hide UnitAt;
    NumberEndAll(s);
    var u := TrimStart(s[1..]);
    assert TrimStart(s) == s && s[..1] == s && s[1..] == "" && u == "" && u[0..] == "";
    NothingLeft(0, (s: string, m: nat) => None);
    assert [(s, USEC_PER_SEC)] + [] == [(s, USEC_PER_SEC)];
  }

  lemma NumberEndAll(s: string)
    requires s == "0"
    ensures NumberEnd(s) == 1
  {
  }

  lemma StepLimits(accuracy: nat)
    requires accuracy >= 1 && !Bounds(accuracy)
    ensures 1 < Step(accuracy) <= USEC_PER_SEC
  {
    hide Tens, Pow10;
    SmallUnits(6);
    TensMonotone(accuracy, USEC_PER_SEC);
    PowMonotone(Tens(accuracy), 6);
  }

  lemma {:induction false} SkipToSeconds(i: nat, t: nat, accuracy: nat)
    requires i <= 6 && USEC_PER_SEC < t < 2 * USEC_PER_SEC
    ensures Rounded(i, t, accuracy, false) == Rounded(6, t, accuracy, false)
    decreases 6 - i
  {
    if i < 6 {
      RoundedStep(i, t, accuracy, false);
      hide Rounded;
      SkipToSeconds(i + 1, t, accuracy);
    }
  }

  /**
   Where the accuracy is led by another digit and below a second, a second and all but a microsecond
   of a step prints as a plain second, a whole accuracy or more short.
   */
  lemma SecondAndAlmostAStep(accuracy: nat)
    requires accuracy >= 1 && !Bounds(accuracy)
    ensures var t := USEC_PER_SEC + Step(accuracy) - 1;
      var terms := Rounded(0, t, accuracy, false);
      Micros(terms, accuracy) == USEC_PER_SEC && Scaled(terms, accuracy)
  {
    hide Step, Tens, Rounded, Decimals, Micros, TermMicros, Count, Left, CutDown, ShowsDecimals;
    StepLimits(accuracy);
    var t := USEC_PER_SEC + Step(accuracy) - 1;
    SkipToSeconds(0, t, accuracy);
    RoundedStep(6, t, accuracy, false);
    SecondParts(accuracy);
    if ShowsDecimals(6, t, accuracy) {
      DecimalsDenote(6, t, accuracy);
      SecondWithZeros(Decimals(6, t, accuracy), accuracy);
    } else {
      RoundedStep(7, 0, accuracy, true);
      assert [Term(1, "", 6)] + [] == [Term(1, "", 6)];
      SecondWithZeros("", accuracy);
    }
  }

  lemma SecondParts(accuracy: nat)
    requires 1 < Step(accuracy) <= USEC_PER_SEC
    ensures var t := USEC_PER_SEC + Step(accuracy) - 1;
      && Count(t, 6) == 1 && Left(t, 6) == Step(accuracy) - 1 && CutDown(6, t, accuracy) == 0
      && (!ShowsDecimals(6, t, accuracy) ==> Carried(6, t, accuracy) == 0)
  {
    hide Step;
    QuotientUnique(Step(accuracy) - 1, Step(accuracy), 0, Step(accuracy) - 1);
    QuotientUnique(USEC_PER_SEC + Step(accuracy) - 1, USEC_PER_SEC, 1, Step(accuracy) - 1);
  }

  lemma SecondWithZeros(decimals: string, accuracy: nat)
    requires Digits(decimals) && NumberOf(decimals) == 0
    ensures Micros([Term(1, decimals, 6)], accuracy) == USEC_PER_SEC
  {
    MicrosCons(Term(1, decimals, 6), [], accuracy);
    assert [Term(1, decimals, 6)] + [] == [Term(1, decimals, 6)];
  }

  /** The accuracy bounds what every text loses exactly when it is led by a digit 1 or is a second or more. */
  lemma AccuracyExactly(accuracy: nat)
    requires accuracy >= 1
    ensures (forall t: nat :: t < U64_MAX ==> WithinAccuracy(t, accuracy)) <==> Bounds(accuracy)
  {
    hide WithinAccuracy, Bounds;
    if Bounds(accuracy) {
      forall t: nat | t < U64_MAX
        ensures WithinAccuracy(t, accuracy)
      {
        TextWithinAccuracy(t, accuracy);
      }
    } else {
      CoarserThanPromised(accuracy);
    }
  }

  lemma CoarserThanPromised(accuracy: nat)
    requires accuracy >= 1 && !Bounds(accuracy)
    ensures USEC_PER_SEC + Step(accuracy) - 1 < U64_MAX
    ensures !WithinAccuracy(USEC_PER_SEC + Step(accuracy) - 1, accuracy)
  {
    hide Tokens, Render, TermTokens, Micros, Rounded, Scaled, Step;
    StepLimits(accuracy);
    SecondAndAlmostAStep(accuracy);
    var terms := Rounded(0, USEC_PER_SEC + Step(accuracy) - 1, accuracy, false);
    TokensOfRendered(terms);
    WorthOfTerms(terms, accuracy);
  }

  /** Every power of ten bounds what is lost; at accuracy 1 nothing is. */
  lemma PowersOfTenBound(p: nat, t: nat)
    requires t < U64_MAX
    ensures WithinAccuracy(t, Pow10(p))
    ensures Worth(FullText(t, 1)).Some? && Worth(FullText(t, 1)).value == t as real
  {
    hide Worth, FullText;
    StepOfPower(p);
    TextWithinAccuracy(t, Pow10(p));
    StepOfPower(0);
    TextWithinAccuracy(t, 1);
    NothingLost(t);
  }

  lemma NothingLost(t: nat)
    requires t < U64_MAX
    ensures Worth(FullText(t, 1)).Some? && Worth(FullText(t, 1)).value == t as real
  {
    if t == 0 {
      WorthOfZero();
    } else {
      hide Tokens, Render, TermTokens, Micros, TermMicros, Rounded, Scaled;
      assert Step(1) == 1;
      var terms := Rounded(0, t, 1, false);
      LossBelow(0, t, 1, false);
      TokensOfRendered(terms);
      WorthOfTerms(terms, 1);
    }
  }
}
