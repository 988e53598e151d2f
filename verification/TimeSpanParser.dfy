/**
 The tokenising parser of time spans of systemd-analyze, and reading back what the printers print.
 The parser's floating point is a parameter.
 */
module TimeSpanParser {
  import opened Text
  import opened Decimal
  import opened TimeSpan

  /** Integers below this are exact in a double. */
  const EXACT_LIMIT: nat := 0x20_0000_0000_0000

  /** The suffixes the parser knows, tried in this order. */
  const SUFFIXES: seq<Unit> := [
    Unit("microseconds", 1), Unit("microsecond", 1), Unit("milliseconds", USEC_PER_MSEC),
    Unit("millisecond", USEC_PER_MSEC), Unit("minutes", USEC_PER_MINUTE), Unit("minute", USEC_PER_MINUTE),
    Unit("months", USEC_PER_MONTH), Unit("month", USEC_PER_MONTH), Unit("seconds", USEC_PER_SEC),
    Unit("second", USEC_PER_SEC), Unit("hours", USEC_PER_HOUR), Unit("hour", USEC_PER_HOUR),
    Unit("weeks", USEC_PER_WEEK), Unit("week", USEC_PER_WEEK), Unit("days", USEC_PER_DAY), Unit("day", USEC_PER_DAY),
    Unit("years", USEC_PER_YEAR), Unit("year", USEC_PER_YEAR), Unit("msec", USEC_PER_MSEC), Unit("usec", 1),
    Unit("\U{00B5}s", 1), Unit("min", USEC_PER_MINUTE), Unit("ms", USEC_PER_MSEC), Unit("us", 1),
    Unit("sec", USEC_PER_SEC), Unit("s", USEC_PER_SEC), Unit("m", USEC_PER_MINUTE), Unit("h", USEC_PER_HOUR),
    Unit("d", USEC_PER_DAY), Unit("w", USEC_PER_WEEK), Unit("y", USEC_PER_YEAR)
  ]

  // ---------- the parser ----------

  /** The suffix at the start of `s`, capitals or not. */
  predicate StartsWithSuffix(s: string, suffix: string)
  {
    |suffix| <= |s| && forall k :: 0 <= k < |suffix| ==> LowerAscii(s[k]) == suffix[k]
  }

  /** What may follow a unit. */
  predicate EndsUnit(after: string) { after == "" || after[0] == ' ' || IsDigit(after[0]) }

  predicate SuffixApplies(k: nat, s: string)
    requires k < |SUFFIXES|
  {
    StartsWithSuffix(s, SUFFIXES[k].suffix) && EndsUnit(s[|SUFFIXES[k].suffix|..])
  }

  function FirstSuffix(k: nat, s: string): (r: nat)
    requires k <= |SUFFIXES|
    ensures k <= r <= |SUFFIXES|
    ensures r < |SUFFIXES| ==> SuffixApplies(r, s)
    ensures forall m :: k <= m < r ==> !SuffixApplies(m, s)
    decreases |SUFFIXES| - k
  {
    if k == |SUFFIXES| || SuffixApplies(k, s) then k else FirstSuffix(k + 1, s)
  }

  /** The unit at the start of `s`: a capital M alone is a month; no unit means seconds. */
  function UnitAt(s: string): (r: Option<(nat, nat)>)
    ensures r.Some? ==> r.value.1 <= |s|
  {
    if s != "" && s[0] == 'M' && EndsUnit(s[1..]) then Some((USEC_PER_MONTH, 1))
    else
      var k := FirstSuffix(0, s);
      if k < |SUFFIXES| then Some((SUFFIXES[k].usec, |SUFFIXES[k].suffix|))
      else if s == "" || IsDigit(s[0]) then Some((USEC_PER_SEC, 0))
      else None
  }

  method ParseTimeUnit(s: string) returns (r: Option<(nat, nat)>)
    ensures r == UnitAt(s)
  {
    hide SUFFIXES;
    if s != "" && s[0] == 'M' && EndsUnit(s[1..]) {
      return Some((USEC_PER_MONTH, 1));
    }
    for k := 0 to |SUFFIXES|
      invariant FirstSuffix(0, s) == FirstSuffix(k, s)
    {
      if SuffixApplies(k, s) {
        return Some((SUFFIXES[k].usec, |SUFFIXES[k].suffix|));
      }
    }
    return if s == "" || IsDigit(s[0]) then Some((USEC_PER_SEC, 0)) else None;
  }

  function NumberEnd(s: string): (n: nat)
    ensures n <= |s|
  {
    if s != "" && (IsDigit(s[0]) || s[0] == '.') then 1 + NumberEnd(s[1..]) else 0
  }

  /** A number as written and the microseconds of its unit. */
  type Token = (string, nat)

  /** The numbers and units of a text, or None where it is malformed. */
  function Tokens(s: string): Option<seq<Token>>
    decreases |s|
  {
    var r := TrimStart(s);
    var n := NumberEnd(r);
    if r == "" then Some([])
    else if n == 0 then None
    else
      var u := TrimStart(r[n..]);
      match UnitAt(u)
      case None => None
      case Some((usec, length)) =>
        match Tokens(u[length..])
        case None => None
        case Some(tokens) => Some([(r[..n], usec)] + tokens)
  }

  /**
   The floating point of the parser: the number as written times a whole factor, truncated to an
   unsigned integer; None where the number does not parse.
   */
  type Product = (string, nat) -> Option<nat>

  /** Products of whole numbers are exact where doubles are. */
  ghost predicate ExactOnIntegers(product: Product)
  {
    forall s: string, m: nat :: s != "" && Digits(s) && NumberOf(s) * m < EXACT_LIMIT ==> product(s, m) == Some(NumberOf(s) * m)
  }

  function SaturatingAdd(a: nat, b: nat): nat { if a + b <= U64_MAX then a + b else U64_MAX }

  function Evaluate(tokens: seq<Token>, total: nat, product: Product): Option<nat>
  {
    if tokens == [] then Some(total)
    else match product(tokens[0].0, tokens[0].1)
      case None => None
      case Some(n) => Evaluate(tokens[1..], SaturatingAdd(total, n), product)
  }

  /** What a text is worth on top of `total`. */
  function ValueFrom(s: string, total: nat, product: Product): Option<nat>
  {
    match Tokens(s)
    case None => None
    case Some(tokens) => Evaluate(tokens, total, product)
  }

  function ParseText(input: string, product: Product): Option<nat>
  {
    var s := Trim(input);
    var plain := ParseUnsigned(s, U64_MAX + 1);
    if s == "infinity" then Some(U64_MAX)
    else if plain.Some? then Some(if plain.value * USEC_PER_SEC <= U64_MAX then plain.value * USEC_PER_SEC else U64_MAX)
    else if Tokens(s) == Some([]) then None
    else ValueFrom(s, 0, product)
  }

  lemma ValueFromStep(s: string, total: nat, product: Product)
    ensures var r := TrimStart(s);
      if r == "" then Tokens(s) == Some([]) && ValueFrom(s, total, product) == Some(total)
      else if NumberEnd(r) == 0 then Tokens(s) == None && ValueFrom(s, total, product) == None
      else
        var u := TrimStart(r[NumberEnd(r)..]);
        var unit := UnitAt(u);
        Tokens(s) != Some([]) &&
        if unit.None? then ValueFrom(s, total, product) == None
        else
          var n := product(r[..NumberEnd(r)], unit.value.0);
          ValueFrom(s, total, product)
          == if n.None? then None else ValueFrom(u[unit.value.1..], SaturatingAdd(total, n.value), product)
  {
    hide UnitAt, TrimStart, NumberEnd;
    var r := TrimStart(s);
    if r != "" && NumberEnd(r) > 0 {
      var u := TrimStart(r[NumberEnd(r)..]);
      var unit := UnitAt(u);
      if unit.Some? && Tokens(u[unit.value.1..]).Some? {
        var tokens := Tokens(u[unit.value.1..]).value;
        assert ([(r[..NumberEnd(r)], unit.value.0)] + tokens)[1..] == tokens;
      }
    }
  }

  method Parse(input: string, product: Product) returns (r: Option<nat>)
    ensures r == ParseText(input, product)
  {
    var s := Trim(input);
    if s == "infinity" {
      return Some(U64_MAX);
    }
    var plain := ParseUnsigned(s, U64_MAX + 1);
    if plain.Some? {
      return Some(if plain.value * USEC_PER_SEC <= U64_MAX then plain.value * USEC_PER_SEC else U64_MAX);
    }
    r := ParseTokens(s, product);
  }

  method ParseTokens(s: string, product: Product) returns (r: Option<nat>)
    ensures r == if Tokens(s) == Some([]) then None else ValueFrom(s, 0, product)
  {
    hide UnitAt, Tokens, ValueFrom, TrimStart, NumberEnd;
    var total: nat, remaining, found := 0, s, false;
    while remaining != ""
      invariant ValueFrom(remaining, total, product) == ValueFrom(s, 0, product)
      invariant if found then Tokens(s) != Some([]) else remaining == s
      decreases |remaining|
    {
      ValueFromStep(remaining, total, product);
      var trimmed := TrimStart(remaining);
      if trimmed == "" {
        remaining := "";
        NothingLeft(total, product);
        break;
      }
      var numEnd := NumberEnd(trimmed);
      if numEnd == 0 {
        return None;
      }
      var number, after := trimmed[..numEnd], TrimStart(trimmed[numEnd..]);
      var unit := ParseTimeUnit(after);
      if unit.None? {
        return None;
      }
      var value := product(number, unit.value.0);
      if value.None? {
        return None;
      }
      total, remaining, found := SaturatingAdd(total, value.value), after[unit.value.1..], true;
    }
    NothingLeft(total, product);
    r := if found then Some(total) else None;
  }

  lemma NothingLeft(total: nat, product: Product)
    ensures Tokens("") == Some([]) && ValueFrom("", total, product) == Some(total)
  {
  }

  // ---------- units and plain numbers ----------

  /** The size of a unit by its name. */
  function SizeByName(name: string): nat
    requires name != ""
  {
    match name[0]
    case 's' => 1_000_000
    case 'h' => 3_600_000_000
    case 'd' => 86_400_000_000
    case 'w' => 604_800_000_000
    case 'y' => 31_557_600_000_000
    case 'm' =>
      if |name| == 1 then 60_000_000
      else if name[1] == 's' then 1_000
      else if name[1] == 'o' then 2_629_800_000_000
      else if |name| > 2 && name[2] == 'n' then 60_000_000
      else if |name| > 2 && name[2] == 'l' then 1_000
      else 1
    case _ => 1
  }

  lemma LongNameSizes(k: nat)
    requires 0 <= k < 8
    ensures k < |SUFFIXES| && SUFFIXES[k].suffix != "" && SUFFIXES[k].usec == SizeByName(SUFFIXES[k].suffix)
  {
  }

  lemma MiddleNameSizes(k: nat)
    requires 8 <= k < 18
    ensures k < |SUFFIXES| && SUFFIXES[k].suffix != "" && SUFFIXES[k].usec == SizeByName(SUFFIXES[k].suffix)
  {
  }

  lemma ShortNameSizes(k: nat)
    requires 18 <= k < |SUFFIXES|
    ensures k < |SUFFIXES| && SUFFIXES[k].suffix != "" && SUFFIXES[k].usec == SizeByName(SUFFIXES[k].suffix)
  {
  }

  lemma SizesByName(k: nat)
    requires k < |SUFFIXES|
    ensures SUFFIXES[k].suffix != "" && SUFFIXES[k].usec == SizeByName(SUFFIXES[k].suffix)
  {
    hide SUFFIXES, SizeByName;
    if k < 8 {
      LongNameSizes(k);
    } else if k < 18 {
      MiddleNameSizes(k);
    } else {
      ShortNameSizes(k);
    }
  }

  predicate AllPlain(name: string) { forall m :: 0 <= m < |name| ==> PlainLetter(name[m]) }

  lemma LongNamesPlain(k: nat)
    requires 0 <= k < 4
    ensures k < |SUFFIXES| && AllPlain(SUFFIXES[k].suffix)
  {
  }

  lemma MiddleNamesPlain(k: nat)
    requires 4 <= k < 10
    ensures k < |SUFFIXES| && AllPlain(SUFFIXES[k].suffix)
  {
  }

  lemma UsualNamesPlain(k: nat)
    requires 10 <= k < 18
    ensures k < |SUFFIXES| && AllPlain(SUFFIXES[k].suffix)
  {
  }

  lemma ShortNamesPlain(k: nat)
    requires 18 <= k < |SUFFIXES|
    ensures k < |SUFFIXES| && AllPlain(SUFFIXES[k].suffix)
  {
  }

  lemma NamesPlain(k: nat)
    requires k < |SUFFIXES|
    ensures SUFFIXES[k].suffix != "" && AllPlain(SUFFIXES[k].suffix)
  {
    hide SUFFIXES, AllPlain;
    if k < 4 {
      LongNamesPlain(k);
    } else if k < 10 {
      MiddleNamesPlain(k);
    } else if k < 18 {
      UsualNamesPlain(k);
    } else {
      ShortNamesPlain(k);
    }
    SizesByName(k);
  }

  /** A character that is no capital, space or digit. */
  predicate PlainLetter(c: char) { LowerAscii(c) == c && c != ' ' && !IsDigit(c) }

  /** What may follow a unit: nothing, a space or a digit. */
  predicate MayFollow(rest: string) { rest == "" || rest[0] == ' ' || '0' <= rest[0] <= '9' }

  /** Of all suffixes only the very one that is written applies, however many others it starts with. */
  lemma AppliesAlone(j: nat, k: nat, rest: string)
    requires j < |SUFFIXES| && k < |SUFFIXES| && MayFollow(rest)
    ensures SuffixApplies(j, SUFFIXES[k].suffix + rest) <==> SUFFIXES[j].suffix == SUFFIXES[k].suffix
  {
    hide SUFFIXES;
    NamesPlain(j);
    NamesPlain(k);
    var v, w := SUFFIXES[j].suffix, SUFFIXES[k].suffix;
    var s := w + rest;
    if v == w {
      assert s[|v|..] == rest;
    } else if |v| < |w| {
      assert s[|v|..][0] == w[|v|];
    } else if |v| > |w| && rest != "" {
      assert s[|w|] == rest[0];
    }
  }

  /** Every unit the parser knows is worth its own size, whatever may follow a unit. */
  lemma UnitByName(k: nat, rest: string)
    requires k < |SUFFIXES| && MayFollow(rest)
    ensures UnitAt(SUFFIXES[k].suffix + rest) == Some((SizeByName(SUFFIXES[k].suffix), |SUFFIXES[k].suffix|))
  {
    hide SUFFIXES, SuffixApplies, SizeByName;
    var s := SUFFIXES[k].suffix + rest;
    forall j: nat | j < |SUFFIXES|
      ensures SuffixApplies(j, s) <==> SUFFIXES[j].suffix == SUFFIXES[k].suffix
    {
      AppliesAlone(j, k, rest);
    }
    SizesByName(k);
    NamesPlain(k);
    assert s[0] == SUFFIXES[k].suffix[0] && PlainLetter(s[0]);
    var j := FirstSuffix(0, s);
    assert SuffixApplies(k, s);
    SizesByName(j);
  }

  /** A capital M is a month, no unit at all is seconds. */
  lemma BareUnits(rest: string)
    requires MayFollow(rest)
    ensures UnitAt("M" + rest) == Some((2_629_800_000_000, 1))
    ensures rest == "" || rest[0] != ' ' ==> UnitAt(rest) == Some((1_000_000, 0))
  {
    hide SUFFIXES, SuffixApplies;
    assert ("M" + rest)[1..] == rest;
    forall j: nat | j < |SUFFIXES| && (rest == "" || rest[0] != ' ')
      ensures !SuffixApplies(j, rest)
    {
      NotASuffix(j, rest);
    }
  }

  lemma NotASuffix(j: nat, rest: string)
    requires j < |SUFFIXES| && (rest == "" || '0' <= rest[0] <= '9')
    ensures !SuffixApplies(j, rest)
  {
    hide SUFFIXES;
    NamesPlain(j);
    assert PlainLetter(SUFFIXES[j].suffix[0]);
  }

  predicate AllSpace(s: string) { forall k :: 0 <= k < |s| ==> IsWhitespace(s[k]) }

  lemma {:induction false} SpaceComesOff(space: string, s: string)
    requires AllSpace(space) && (s == "" || !IsWhitespace(s[0]))
    ensures TrimStart(space + s) == s
  {
    hide IsWhitespace;
    if space == "" {
      assert space + s == s;
    } else {
      assert (space + s)[1..] == space[1..] + s;
      SpaceComesOff(space[1..], s);
    }
  }

  /** Number, white space or none, unit: one token, whatever white space stands in front. */
  lemma OneToken(space: string, number: string, gap: string, k: nat, rest: string)
    requires AllSpace(space) && AllSpace(gap) && k < |SUFFIXES| && MayFollow(rest)
    requires number != "" && forall m :: 0 <= m < |number| ==> '0' <= number[m] <= '9' || number[m] == '.'
    ensures Tokens(space + number + gap + SUFFIXES[k].suffix + rest)
         == match Tokens(rest) case None => None case Some(ts) => Some([(number, SizeByName(SUFFIXES[k].suffix))] + ts)
  {
    hide SUFFIXES, SizeByName, UnitAt, NumberEnd, TrimStart, IsWhitespace, Tokens, AllSpace, MayFollow, IsDigit;
    var unit := SUFFIXES[k].suffix;
    var u := unit + rest;
    var s := number + (gap + u);
    UnitOpens(k, gap, rest);
    NumberIsNotSpace(number[0]);
    SpaceComesOff(space, s);
    SpaceComesOff(gap, u);
    DigitsOrDots(number);
    NumberEndOf(number, gap + u);
    UnitByName(k, rest);
    Pieces(space, number, gap, unit, rest);
    TokensStep(space + s, s, |number|, u, |unit|, SizeByName(unit));
  }

  lemma Pieces(space: string, number: string, gap: string, unit: string, rest: string)
    ensures var u := unit + rest; var s := number + (gap + u);
      && s[..|number|] == number && s[|number|..] == gap + u && u[|unit|..] == rest
      && space + number + gap + unit + rest == space + s && (number != "" ==> s[0] == number[0])
  {
  }

  lemma DigitsOrDots(number: string)
    requires forall m :: 0 <= m < |number| ==> '0' <= number[m] <= '9' || number[m] == '.'
    ensures forall m :: 0 <= m < |number| ==> IsDigit(number[m]) || number[m] == '.'
  {
  }

  lemma UnitOpens(k: nat, gap: string, rest: string)
    requires k < |SUFFIXES| && AllSpace(gap)
    ensures var u := SUFFIXES[k].suffix + rest;
      SUFFIXES[k].suffix != "" && !IsWhitespace(u[0]) && !IsDigit((gap + u)[0]) && (gap + u)[0] != '.'
  {
    hide SUFFIXES, IsWhitespace, IsDigit;
    NotSpaceNorNumber(k);
    if gap != "" {
      SpaceIsNoNumber(gap[0]);
    }
  }

  lemma SpaceIsNoNumber(c: char)
    requires IsWhitespace(c)
    ensures !IsDigit(c) && c != '.'
  {
  }

  lemma TokensStep(text: string, s: string, n: nat, u: string, length: nat, usec: nat)
    requires s == TrimStart(text) && s != "" && 0 < n == NumberEnd(s) && u == TrimStart(s[n..])
    requires UnitAt(u) == Some((usec, length)) && length <= |u|
    ensures Tokens(text) == match Tokens(u[length..]) case None => None case Some(ts) => Some([(s[..n], usec)] + ts)
  {
    hide UnitAt, NumberEnd, TrimStart;
  }

  lemma NotSpaceNorNumber(k: nat)
    requires k < |SUFFIXES|
    ensures SUFFIXES[k].suffix != ""
    ensures var c := SUFFIXES[k].suffix[0]; !IsWhitespace(c) && !IsDigit(c) && c != '.'
  {
    hide IsWhitespace, IsDigit;
    UnitInitial(k);
    InitialIsLetter(SUFFIXES[k].suffix[0]);
  }

  lemma UnitInitial(k: nat)
    requires k < |SUFFIXES|
    ensures SUFFIXES[k].suffix != "" && SUFFIXES[k].suffix[0] in {'m', 's', 'h', 'd', 'w', 'y', 'u', '\U{00B5}'}
  {
  }

  lemma InitialIsLetter(c: char)
    requires c in {'m', 's', 'h', 'd', 'w', 'y', 'u', '\U{00B5}'}
    ensures !IsWhitespace(c) && !IsDigit(c) && c != '.'
  {
  }

  lemma NumberIsNotSpace(c: char)
    requires '0' <= c <= '9' || c == '.'
    ensures !IsWhitespace(c)
  {
  }

  /** Text without a number where one is due is refused, and so is a number whose unit is not known. */
  lemma Malformed(space: string, c: char, rest: string)
    requires AllSpace(space) && !IsWhitespace(c) && !('0' <= c <= '9') && c != '.'
    ensures Tokens(space + ([c] + rest)) == None
  {
    hide IsWhitespace;
    SpaceComesOff(space, [c] + rest);
  }

  ghost function ProductSum(tokens: seq<Token>, product: Product): nat
    requires forall k :: 0 <= k < |tokens| ==> product(tokens[k].0, tokens[k].1).Some?
  {
    if tokens == [] then 0 else product(tokens[0].0, tokens[0].1).value + ProductSum(tokens[1..], product)
  }

  /** The terms are added up, and stop at the largest 64-bit number. */
  lemma {:induction false} EvaluateSaturates(tokens: seq<Token>, total: nat, product: Product)
    requires total <= 0xFFFF_FFFF_FFFF_FFFF && forall k :: 0 <= k < |tokens| ==> product(tokens[k].0, tokens[k].1).Some?
    ensures var sum := total + ProductSum(tokens, product);
      Evaluate(tokens, total, product) == Some(if sum <= 0xFFFF_FFFF_FFFF_FFFF then sum else 0xFFFF_FFFF_FFFF_FFFF)
  {
    if tokens != [] {
      EvaluateSaturates(tokens[1..], SaturatingAdd(total, product(tokens[0].0, tokens[0].1).value), product);
    }
  }

  /** A plain number is seconds. */
  lemma PlainNumberIsSeconds(n: nat, product: Product)
    requires n <= U64_MAX
    ensures ParseText(ToDecimal(n), product) == Some(if n * 1_000_000 <= 0xFFFF_FFFF_FFFF_FFFF then n * 1_000_000 else 0xFFFF_FFFF_FFFF_FFFF)
  {
    hide ToDecimal, Tokens;
    var s := ToDecimal(n);
    assert IsDigit(s[0]) && IsDigit(s[|s| - 1]);
    TrimTight(s);
  }

  // ---------- reading what was printed ----------

  predicate IsLower(c: char) { 'a' <= c <= 'z' }

  /** What follows a printed term: nothing, or a space and more. */
  predicate Separated(rest: string) { rest == "" || rest[0] == ' ' }

  /** The suffix that applies to a printed unit is that unit's own, letter for letter. */
  lemma OnlyItself(k: nat, suffix: string, rest: string)
    requires k < |SUFFIXES| && Separated(rest)
    requires forall m :: 0 <= m < |suffix| ==> IsLower(suffix[m])
    requires SUFFIXES[k].suffix != "" && forall m :: 0 <= m < |SUFFIXES[k].suffix| ==> SUFFIXES[k].suffix[m] != ' '
    ensures SuffixApplies(k, suffix + rest) <==> SUFFIXES[k].suffix == suffix
  {
    hide SUFFIXES;
    var w := SUFFIXES[k].suffix;
    var s := suffix + rest;
    assert forall m :: 0 <= m < |suffix| ==> s[m] == suffix[m] && LowerAscii(suffix[m]) == suffix[m];
    if w == suffix {
      assert s[|w|..] == rest;
    } else if |w| < |suffix| {
      assert s[|w|..][0] == suffix[|w|];
    } else if |w| > |suffix| && rest != "" {
      assert s[|suffix|] == ' ';
    }
  }

  lemma NoSpaces(k: nat)
    requires k < |SUFFIXES|
    ensures SUFFIXES[k].suffix != "" && forall m :: 0 <= m < |SUFFIXES[k].suffix| ==> SUFFIXES[k].suffix[m] != ' '
  {
    hide SUFFIXES;
    NamesPlain(k);
  }

  /** The place in the parser's list of each unit the printers use. */
  function Place(i: nat): (k: nat)
    requires i < |TABLE|
    ensures k < |SUFFIXES|
  {
    [30, 7, 29, 28, 27, 21, 25, 22, 23][i]
  }

  lemma PlaceOf(i: nat)
    requires i < |TABLE|
    ensures SUFFIXES[Place(i)] == TABLE[i]
    ensures TABLE[i].suffix != "" && forall m :: 0 <= m < |TABLE[i].suffix| ==> IsLower(TABLE[i].suffix[m])
  {
  }

  /** A suffix stands for one unit. */
  lemma OneUnit(i: nat, k: nat)
    requires i < |TABLE| && k < |SUFFIXES| && TABLE[i].suffix == SUFFIXES[k].suffix
    ensures TABLE[i].usec == SUFFIXES[k].usec
  {
  }

  lemma UnitOfPrinted(i: nat, rest: string)
    requires i < |TABLE| && Separated(rest)
    ensures UnitAt(TABLE[i].suffix + rest) == Some((TABLE[i].usec, |TABLE[i].suffix|))
  {
    hide SUFFIXES, TABLE, SuffixApplies;
    PlaceOf(i);
    var suffix := TABLE[i].suffix;
    forall k: nat | k < |SUFFIXES|
      ensures SuffixApplies(k, suffix + rest) <==> SUFFIXES[k].suffix == suffix
    {
      NoSpaces(k);
      OnlyItself(k, suffix, rest);
    }
    var k := FirstSuffix(0, suffix + rest);
    assert SuffixApplies(Place(i), suffix + rest);
    OneUnit(i, k);
    assert (suffix + rest)[0] == suffix[0];
  }

  lemma {:induction false} NumberEndOf(number: string, rest: string)
    requires forall k :: 0 <= k < |number| ==> IsDigit(number[k]) || number[k] == '.'
    requires rest != "" && !IsDigit(rest[0]) && rest[0] != '.'
    ensures NumberEnd(number + rest) == |number|
  {
    if number == "" {
      assert number + rest == rest;
    } else {
      assert (number + rest)[1..] == number[1..] + rest;
      NumberEndOf(number[1..], rest);
    }
  }

  /** The tokens of printed terms. */
  function TermTokens(terms: seq<Term>): seq<Token>
    requires WellFormed(terms)
  {
    if terms == [] then []
    else [(TermNumber(terms[0]), TABLE[terms[0].unit].usec)] + TermTokens(terms[1..])
  }

  lemma TermCharacters(term: Term)
    requires term.unit < |TABLE| && Digits(term.decimals)
    ensures TermNumber(term) != "" && IsDigit(TermNumber(term)[0])
    ensures forall k :: 0 <= k < |TermNumber(term)| ==> IsDigit(TermNumber(term)[k]) || TermNumber(term)[k] == '.'
    ensures TermText(term) != "" && IsDigit(TermText(term)[0])
    ensures IsLower(TermText(term)[|TermText(term)| - 1])
  {
    PlaceOf(term.unit);
    hide TABLE, ToDecimal;
    var w := TABLE[term.unit].suffix;
    assert TermText(term)[|TermText(term)| - 1] == w[|w| - 1];
  }

  /** One printed term is one token. */
  lemma TokenOfTerm(term: Term, rest: string)
    requires term.unit < |TABLE| && Digits(term.decimals) && Separated(rest)
    ensures Tokens(TermText(term) + rest)
         == match Tokens(rest) case None => None case Some(ts) => Some([(TermNumber(term), TABLE[term.unit].usec)] + ts)
  {
    hide TABLE, ToDecimal, TermNumber, UnitAt, NumberEnd, IsWhitespace, Tokens;
    PlaceOf(term.unit);
    TermCharacters(term);
    UnitOfPrinted(term.unit, rest);
    var number, suffix := TermNumber(term), TABLE[term.unit].suffix;
    var u := suffix + rest;
    assert u[0] == suffix[0] && u[|suffix|..] == rest;
    PrintedCharacters(number[0], u[0]);
    NumberEndOf(number, u);
    var s := number + u;
    assert TermText(term) + rest == s;
    assert s[..|number|] == number && s[|number|..] == u && s[0] == number[0];
    TokensUnfold(s, |number|, u, |suffix|, TABLE[term.unit].usec);
  }

  lemma PrintedCharacters(digit: char, letter: char)
    requires IsDigit(digit) && IsLower(letter)
    ensures !IsWhitespace(digit) && !IsWhitespace(letter) && !IsDigit(letter) && letter != '.'
  {
  }

  lemma TokensUnfold(s: string, n: nat, u: string, length: nat, usec: nat)
    requires s != "" && !IsWhitespace(s[0]) && 0 < n == NumberEnd(s)
    requires u == s[n..] && u != "" && !IsWhitespace(u[0])
    requires UnitAt(u) == Some((usec, length)) && length <= |u|
    ensures Tokens(s) == match Tokens(u[length..]) case None => None case Some(ts) => Some([(s[..n], usec)] + ts)
  {
    hide UnitAt, NumberEnd, IsWhitespace;
  }

  lemma TokensSkipSpace(s: string)
    ensures Tokens(" " + s) == Tokens(s)
  {
    assert (" " + s)[1..] == s;
  }

  /** The parser cuts a printed text into its terms. */
  lemma {:induction false} TokensOfRendered(terms: seq<Term>)
    requires WellFormed(terms)
    ensures Tokens(Render(terms)) == Some(TermTokens(terms))
  {
    hide Tokens, TermText, TermNumber, TABLE;
    if terms == [] {
      NothingLeft(0, (s: string, m: nat) => None);
    } else {
      var rest := terms[1..];
      assert Texts(terms)[1..] == Texts(rest);
      TokensOfRendered(rest);
      if rest == [] {
        TokenOfTerm(terms[0], "");
        assert TermText(terms[0]) + "" == TermText(terms[0]);
        NothingLeft(0, (s: string, m: nat) => None);
      } else {
        TokenOfTerm(terms[0], " " + Render(rest));
        TokensSkipSpace(Render(rest));
        assert Render(terms) == TermText(terms[0]) + (" " + Render(rest));
      }
    }
  }

  /** Whole terms are worth their sum, where doubles are exact. */
  lemma {:induction false} EvaluateWhole(terms: seq<Term>, total: nat, product: Product)
    requires WellFormed(terms) && ExactOnIntegers(product)
    requires forall k :: 0 <= k < |terms| ==> terms[k].decimals == ""
    requires total + WholeValue(terms) < EXACT_LIMIT
    ensures Evaluate(TermTokens(terms), total, product) == Some(total + WholeValue(terms))
  {
    hide TABLE;
    if terms != [] {
      var term, usec := terms[0], TABLE[terms[0].unit].usec;
      assert TermTokens(terms)[1..] == TermTokens(terms[1..]);
      assert TermNumber(term) == ToDecimal(term.whole);
      assert term.whole * usec < EXACT_LIMIT;
      assert product(ToDecimal(term.whole), usec) == Some(term.whole * usec);
      EvaluateWhole(terms[1..], total + term.whole * usec, product);
    }
  }

  lemma {:induction false} RenderEnds(terms: seq<Term>)
    requires WellFormed(terms) && terms != []
    ensures Render(terms) != "" && IsDigit(Render(terms)[0])
    ensures IsLower(Render(terms)[|Render(terms)| - 1])
  {
    hide TermText, TABLE;
    TermCharacters(terms[0]);
    if |terms| > 1 {
      assert Texts(terms)[1..] == Texts(terms[1..]);
      RenderEnds(terms[1..]);
    }
  }

  /**
   Reading back the printer of whole units: every span whose microseconds a double holds exactly,
   zero and infinity included.
   */
  lemma ReadsBack(t: nat, product: Product)
    requires ExactOnIntegers(product)
    requires t < EXACT_LIMIT || t == U64_MAX
    ensures ParseText(DisplayText(t), product) == Some(t)
  {
    if t == U64_MAX {
      TrimTight("infinity");
    } else if t == 0 {
      TrimTight("0");
      assert NumberOf("0") == 0 by { assert ToDecimal(0) == "0"; }
    } else {
      ReadsBackTerms(t, product);
    }
  }

  lemma ReadsBackTerms(t: nat, product: Product)
    requires ExactOnIntegers(product) && 0 < t < EXACT_LIMIT
    ensures ParseText(DisplayText(t), product) == Some(t)
  {
    hide Greedy, Tokens, Render, TermTokens, ExactOnIntegers, WholeValue, ParseUnsigned, Trim, Tight, Evaluate;
    var terms := Greedy(0, t);
    GreedyConserves(0, t);
    NoTerms();
    RenderEnds(terms);
    NotANumber(Render(terms));
    TrimTight(Render(terms));
    TokensOfRendered(terms);
    TokensNonempty(terms);
    EvaluateWhole(terms, 0, product);
  }

  lemma NotANumber(text: string)
    requires text != "" && IsDigit(text[0]) && IsLower(text[|text| - 1])
    ensures ParseUnsigned(text, U64_MAX + 1) == None && text != "infinity" && Tight(text)
  {
  }

  lemma TokensNonempty(terms: seq<Term>)
    requires WellFormed(terms) && terms != []
    ensures TermTokens(terms) != []
  {
  }
}
