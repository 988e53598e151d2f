/**
 The version order of bootctl: versions are split into runs of digits and of anything else, and
 compared run by run.  Where digit runs fit 64 bits the order is the lexicographic order of keys.
 */
module BootVersion {
  import opened Bytes
  import opened Text
  import opened Decimal
  import opened Lexicographic

  predicate IsSeparator(c: char) { c == '.' || c == '-' || c == '_' }

  /** How many characters from the start are of one kind, digits or others, and no separators. */
  function RunLength(s: string, digit: bool): (n: nat)
    ensures n <= |s|
    ensures forall k :: 0 <= k < n ==> !IsSeparator(s[k]) && IsDigit(s[k]) == digit
    ensures n < |s| ==> IsSeparator(s[n]) || IsDigit(s[n]) != digit
  {
    if s != "" && !IsSeparator(s[0]) && IsDigit(s[0]) == digit then 1 + RunLength(s[1..], digit) else 0
  }

  /** The maximal runs of one kind. */
  function Segments(s: string): seq<string>
    decreases |s|
  {
    if s == "" then []
    else if IsSeparator(s[0]) then Segments(s[1..])
    else
      var n := RunLength(s, IsDigit(s[0]));
      [s[..n]] + Segments(s[n..])
  }

  /** A segment is not empty, holds no separator, and is all digits or free of digits. */
  predicate IsSegment(p: string)
  {
    p != "" && (forall k :: 0 <= k < |p| ==> !IsSeparator(p[k])) && (forall k :: 0 <= k < |p| ==> IsDigit(p[k]) == IsDigit(p[0]))
  }

  function WithoutSeparators(s: string): string
  {
    if s == "" then "" else (if s[0] in ".-_" then "" else [s[0]]) + WithoutSeparators(s[1..])
  }

  function Concat(parts: seq<string>): string { if parts == [] then "" else parts[0] + Concat(parts[1..]) }

  lemma {:induction false} WithoutSeparatorsAppend(a: string, b: string)
    requires forall k :: 0 <= k < |a| ==> !IsSeparator(a[k])
    ensures WithoutSeparators(a + b) == a + WithoutSeparators(b)
  {
    if a == "" {
      assert a + b == b;
    } else {
      assert (a + b)[1..] == a[1..] + b;
      WithoutSeparatorsAppend(a[1..], b);
      assert [a[0]] + (a[1..] + WithoutSeparators(b)) == a + WithoutSeparators(b);
    }
  }

  /** The segments are segments, and together are the text without its separators. */
  lemma {:induction false} SegmentsPartition(s: string)
    ensures forall k :: 0 <= k < |Segments(s)| ==> IsSegment(Segments(s)[k])
    ensures Concat(Segments(s)) == WithoutSeparators(s)
    decreases |s|
  {
    if s != "" {
      if IsSeparator(s[0]) {
        SegmentsPartition(s[1..]);
      } else {
        var n := RunLength(s, IsDigit(s[0]));
        SegmentsPartition(s[n..]);
        assert Segments(s)[1..] == Segments(s[n..]);
        WithoutSeparatorsAppend(s[..n], s[n..]);
        assert s[..n] + s[n..] == s;
      }
    }
  }

  lemma {:induction false} RunLengthExtends(run: string, rest: string, digit: bool)
    requires forall k :: 0 <= k < |run| ==> !IsSeparator(run[k]) && IsDigit(run[k]) == digit
    requires rest == "" || IsSeparator(rest[0]) || IsDigit(rest[0]) != digit
    ensures RunLength(run + rest, digit) == |run|
  {
    if run == "" {
      assert run + rest == rest;
    } else {
      assert (run + rest)[1..] == run[1..] + rest;
      RunLengthExtends(run[1..], rest, digit);
    }
  }

  lemma FirstSegment(run: string, rest: string)
    requires IsSegment(run)
    requires rest == "" || IsSeparator(rest[0]) || IsDigit(rest[0]) != IsDigit(run[0])
    ensures Segments(run + rest) == [run] + Segments(rest)
  {
    RunLengthExtends(run, rest, IsDigit(run[0]));
    assert (run + rest)[..|run|] == run && (run + rest)[|run|..] == rest;
  }

  /** Text is cut at its separators and where digits and other characters meet, and nowhere else. */
  lemma {:induction false} SegmentsCut(a: string, b: string)
    requires a == "" || b == "" || a[|a| - 1] in ".-_" || b[0] in ".-_"
             || ('0' <= a[|a| - 1] <= '9') != ('0' <= b[0] <= '9')
    ensures Segments(a + b) == Segments(a) + Segments(b)
    decreases |a|
  {
    hide Segments, RunLength, IsSegment;
    if a == "" {
      NoSegments();
      assert a + b == b;
    } else if IsSeparator(a[0]) {
      SkipSeparator(a[0], a[1..]);
      SkipSeparator(a[0], a[1..] + b);
      assert a == [a[0]] + a[1..] && a + b == [a[0]] + (a[1..] + b);
      SegmentsCut(a[1..], b);
    } else {
      var n := RunLength(a, IsDigit(a[0]));
      RunNotEmpty(a);
      var run, rest := a[..n], a[n..];
      assert a == run + rest && a + b == run + (rest + b);
      FirstSegment(run, rest);
      FirstSegment(run, rest + b);
      SegmentsCut(rest, b);
    }
  }

  lemma RunNotEmpty(s: string)
    requires s != "" && !IsSeparator(s[0])
    ensures var n := RunLength(s, IsDigit(s[0]));
      0 < n <= |s| && IsSegment(s[..n]) && IsDigit(s[..n][0]) == IsDigit(s[0]) && IsDigit(s[n - 1]) == IsDigit(s[0])
      && !IsSeparator(s[n - 1])
      && (n < |s| ==> IsSeparator(s[n]) || IsDigit(s[n]) != IsDigit(s[0]))
  {
  }

  /** A text of one kind is one segment. */
  lemma OneRunIsOneSegment(run: string)
    requires run != "" && forall k :: 0 <= k < |run| ==> run[k] !in ".-_" && (('0' <= run[k] <= '9') <==> ('0' <= run[0] <= '9'))
    ensures Segments(run) == [run]
  {
    FirstSegment(run, "");
    NoSegments();
    assert run + "" == run;
  }

  lemma SegmentGrows(p: string, c: char)
    requires !IsSeparator(c) && (p == "" || (IsSegment(p) && IsDigit(c) == IsDigit(p[0])))
    ensures IsSegment(p + [c]) && IsDigit((p + [c])[0]) == IsDigit(c)
  {
    hide IsDigit, IsSeparator;
  }

  method SplitVersion(s: string) returns (parts: seq<string>)
    ensures parts == Segments(s)
  {
    hide Segments, IsSegment, IsDigit, IsSeparator;
    parts := [];
    var current := "";
    var wasDigit: Option<bool> := None;
    assert s[0..] == s && "" + s == s;
    for i := 0 to |s|
      invariant parts + Segments(current + s[i..]) == Segments(s)
      invariant if current == "" then wasDigit.None? else IsSegment(current) && wasDigit == Some(IsDigit(current[0]))
    {
      var ch := s[i];
      assert s[i..] == [ch] + s[i + 1..];
      if IsSeparator(ch) {
        SkipSeparator(ch, s[i + 1..]);
        if current != "" {
          FirstSegment(current, s[i..]);
          assert parts + ([current] + Segments(s[i..])) == parts + [current] + Segments(s[i..]);
          parts := parts + [current];
          current := "";
        }
        wasDigit := None;
        assert "" + s[i..] == s[i..] && "" + s[i + 1..] == s[i + 1..];
        continue;
      }
      var isDigit := IsDigit(ch);
      if wasDigit.Some? && wasDigit.value != isDigit && current != "" {
        FirstSegment(current, s[i..]);
        assert parts + ([current] + Segments(s[i..])) == parts + [current] + Segments(s[i..]);
        parts := parts + [current];
        current := "";
      }
      assert current + s[i..] == current + [ch] + s[i + 1..];
      assert current == "" ==> current + s[i..] == s[i..];
      SegmentGrows(current, ch);
      current := current + [ch];
      wasDigit := Some(isDigit);
    }
    if current != "" {
      FirstSegment(current, "");
      parts := parts + [current];
    }
    assert current + "" == current && Segments("") == [] by { NoSegments(); }
  }

  lemma NoSegments()
    ensures Segments("") == []
  {
  }

  lemma SkipSeparator(c: char, rest: string)
    requires IsSeparator(c)
    ensures Segments([c] + rest) == Segments(rest)
  {
    assert ([c] + rest)[1..] == rest;
  }

  // ---------- the order ----------

  /** Two segments: as numbers if both parse, else as text. */
  function SegmentOrder(p: string, q: string): int
  {
    var m, n := ParseUnsigned(p, U64_LIMIT), ParseUnsigned(q, U64_LIMIT);
    if m.Some? && n.Some? then Sign(m.value, n.value) else Compare(Codes(p), Codes(q))
  }

  function PartsOrder(a: seq<string>, b: seq<string>): int
  {
    if a == [] || b == [] then Sign(|a|, |b|)
    else if SegmentOrder(a[0], b[0]) != 0 then SegmentOrder(a[0], b[0])
    else PartsOrder(a[1..], b[1..])
  }

  function VersionOrder(a: string, b: string): int { PartsOrder(Segments(a), Segments(b)) }

  method VersionCompare(a: string, b: string) returns (r: int)
    ensures r == VersionOrder(a, b)
  {
    hide SegmentOrder, Segments;
    var aParts := SplitVersion(a);
    var bParts := SplitVersion(b);
    var n := if |aParts| <= |bParts| then |aParts| else |bParts|;
    assert aParts[0..] == aParts && bParts[0..] == bParts;
    for i := 0 to n
      invariant PartsOrder(aParts[i..], bParts[i..]) == PartsOrder(aParts, bParts)
    {
      assert aParts[i..][1..] == aParts[i + 1..] && bParts[i..][1..] == bParts[i + 1..];
      r := SegmentOrder(aParts[i], bParts[i]);
      if r != 0 {
        return;
      }
    }
    r := Sign(|aParts|, |bParts|);
  }

  /** Every run of digits is a number of 64 bits. */
  predicate Fits(s: string) { PartsFit(Segments(s)) }

  predicate PartFits(p: string) { IsSegment(p) && (IsDigit(p[0]) ==> Digits(p) && NumberOf(p) < U64_LIMIT) }

  predicate PartsFit(parts: seq<string>) { forall k :: 0 <= k < |parts| ==> PartFits(parts[k]) }

  /**
   A number contributes the code of a digit and its value; anything else its codes and a terminator.
   No other segment starts with the code of a digit, so that head ranks all numbers alike.
   */
  function SegmentKey(p: string): seq<int>
    requires IsSegment(p) && (IsDigit(p[0]) ==> Digits(p))
  {
    if IsDigit(p[0]) then [48, NumberOf(p)] else Codes(p) + [-1]
  }

  function PartsKey(parts: seq<string>): seq<int>
    requires PartsFit(parts)
  {
    if parts == [] then [] else SegmentKey(parts[0]) + PartsKey(parts[1..])
  }

  lemma {:induction false} TerminatedCodes(x: seq<int>, a: seq<int>, y: seq<int>, b: seq<int>)
    requires (forall k :: 0 <= k < |x| ==> x[k] >= 0) && (forall k :: 0 <= k < |y| ==> y[k] >= 0)
    ensures Compare(x + [-1] + a, y + [-1] + b) == if Compare(x, y) != 0 then Compare(x, y) else Compare(a, b)
  {
    if x == [] || y == [] {
      if x == y {
        assert x + [-1] + a == [-1] + a && y + [-1] + b == [-1] + b;
        CompareHead(-1, a, -1, b);
      }
    } else if x[0] == y[0] {
      assert (x + [-1] + a)[1..] == x[1..] + [-1] + a && (y + [-1] + b)[1..] == y[1..] + [-1] + b;
      TerminatedCodes(x[1..], a, y[1..], b);
    }
  }

  lemma SegmentParses(p: string)
    requires PartFits(p)
    ensures ParseUnsigned(p, U64_LIMIT) == if IsDigit(p[0]) then Some(NumberOf(p)) else None
  {
    if !IsDigit(p[0]) && p[0] == '+' && |p| > 1 {
      assert !IsDigit(p[1..][0]);
    }
  }

  /** Segment by segment the keys compare as the segments do. */
  lemma SegmentKeyOrder(p: string, a: seq<int>, q: string, b: seq<int>)
    requires PartFits(p) && PartFits(q)
    ensures Compare(SegmentKey(p) + a, SegmentKey(q) + b)
         == if SegmentOrder(p, q) != 0 then SegmentOrder(p, q) else Compare(a, b)
  {
    hide NumberOf;
    SegmentParses(p);
    SegmentParses(q);
    if IsDigit(p[0]) && IsDigit(q[0]) {
      var m, n := NumberOf(p), NumberOf(q);
      assert SegmentKey(p) + a == [48] + ([m] + a) && SegmentKey(q) + b == [48] + ([n] + b);
      CompareHead(48, [m] + a, 48, [n] + b);
      CompareHead(m, a, n, b);
    } else if !IsDigit(p[0]) && !IsDigit(q[0]) {
      TerminatedCodes(Codes(p), a, Codes(q), b);
    } else {
      assert Codes(p)[0] == p[0] as int && Codes(q)[0] == q[0] as int;
    }
  }

  lemma {:induction false} PartsKeyOrder(a: seq<string>, b: seq<string>)
    requires PartsFit(a) && PartsFit(b)
    ensures PartsOrder(a, b) == Compare(PartsKey(a), PartsKey(b))
  {
    hide SegmentKey, SegmentOrder;
    if a != [] && b != [] {
      PartsKeyOrder(a[1..], b[1..]);
      SegmentKeyOrder(a[0], PartsKey(a[1..]), b[0], PartsKey(b[1..]));
    } else {
      KeyNonempty(a);
      KeyNonempty(b);
    }
  }

  lemma KeyNonempty(a: seq<string>)
    requires PartsFit(a)
    ensures PartsKey(a) == [] <==> a == []
  {
  }

  function Key(s: string): seq<int>
    requires Fits(s)
  {
    PartsKey(Segments(s))
  }

  /** On versions that fit, a total preorder. */
  lemma TotalPreorder(a: string, b: string, c: string)
    requires Fits(a) && Fits(b) && Fits(c)
    ensures VersionOrder(a, a) == 0
    ensures VersionOrder(b, a) == -VersionOrder(a, b)
    ensures VersionOrder(a, b) <= 0 && VersionOrder(b, c) <= 0 ==> VersionOrder(a, c) <= 0
    ensures VersionOrder(a, b) <= 0 && VersionOrder(b, c) <= 0 && VersionOrder(a, c) == 0 ==>
      VersionOrder(a, b) == 0 && VersionOrder(b, c) == 0
  {
    hide PartsOrder, PartsKey, PartsFit, Segments;
    PartsKeyOrder(Segments(a), Segments(a));
    PartsKeyOrder(Segments(a), Segments(b));
    PartsKeyOrder(Segments(b), Segments(a));
    PartsKeyOrder(Segments(b), Segments(c));
    PartsKeyOrder(Segments(a), Segments(c));
    CompareReflexive(Key(a));
    CompareAntisymmetric(Key(a), Key(b));
    if VersionOrder(a, b) <= 0 && VersionOrder(b, c) <= 0 {
      CompareTransitive(Key(a), Key(b), Key(c));
    }
  }

  // ---------- exactly when the order is consistent ----------

  /** Every run of digits is below `n`. */
  predicate RunsBelow(s: string, n: nat)
  {
    forall k :: 0 <= k < |Segments(s)| ==>
      var p := Segments(s)[k]; IsSegment(p) && (IsDigit(p[0]) ==> Digits(p) && NumberOf(p) < n)
  }

  predicate TransitiveAt(a: string, b: string, c: string)
  {
    VersionOrder(a, b) <= 0 && VersionOrder(b, c) <= 0 ==> VersionOrder(a, c) <= 0
  }

  lemma OneNumber(n: nat)
    ensures Segments(ToDecimal(n)) == [ToDecimal(n)]
    ensures RunsBelow(ToDecimal(n), n + 1)
  {
    hide ToDecimal;
    var s := ToDecimal(n);
    assert IsDigit(s[0]);
    FirstSegment(s, "");
    assert s + "" == s;
    NoSegments();
  }

  lemma NumbersOrder(m: nat, n: nat)
    ensures VersionOrder(ToDecimal(m), ToDecimal(n))
         == if m < U64_LIMIT && n < U64_LIMIT then Sign(m, n) else Compare(Codes(ToDecimal(m)), Codes(ToDecimal(n)))
  {
    hide ToDecimal, Segments;
    OneNumber(m);
    OneNumber(n);
    assert IsDigit(ToDecimal(m)[0]) && IsDigit(ToDecimal(n)[0]);
    var x, y := [ToDecimal(m)], [ToDecimal(n)];
    assert x[1..] == [] && y[1..] == [];
    assert PartsOrder(x[1..], y[1..]) == 0;
    assert PartsOrder(x, y) == SegmentOrder(ToDecimal(m), ToDecimal(n));
  }

  /** The leading two digits. */
  function Lead(n: nat): nat { if n < 100 then n else Lead(n / 10) }

  lemma {:induction false} LeadingDigits(n: nat)
    requires n >= 10
    ensures |ToDecimal(n)| >= 2 && ToDecimal(n)[..2] == ToDecimal(Lead(n))
  {
    if n >= 100 {
      LeadingDigits(n / 10);
      assert ToDecimal(n)[..2] == ToDecimal(n / 10)[..2];
    } else {
      assert |ToDecimal(n / 10)| == 1;
      assert ToDecimal(n)[..2] == ToDecimal(n);
    }
  }

  lemma SmallTexts()
    ensures ToDecimal(2) == "2" && ToDecimal(10) == "10" && ToDecimal(18) == "18"
    ensures Lead(U64_LIMIT) == 18
  {
    assert Lead(1844) == 18;
    assert Lead(184467) == 18;
    assert Lead(18446744) == 18;
    assert Lead(1844674407) == 18;
    assert Lead(184467440737) == 18;
    assert Lead(18446744073709) == 18;
    assert Lead(1844674407370955) == 18;
    assert Lead(184467440737095516) == 18;
  }

  /** The least number that does not fit is before 2 and after 10. */
  lemma Cycle()
    ensures !TransitiveAt(ToDecimal(2), ToDecimal(10), ToDecimal(U64_LIMIT))
  {
    hide ToDecimal, VersionOrder, Segments, Lead;
    NumbersOrder(2, 10);
    NumbersOrder(10, U64_LIMIT);
    NumbersOrder(2, U64_LIMIT);
    SmallTexts();
    LeadingDigits(U64_LIMIT);
    var p := ToDecimal(U64_LIMIT);
    assert p[0] == p[..2][0] && p[1] == p[..2][1];
    var c, ten, two := Codes(p), Codes("10"), Codes("2");
    assert c[1..][0] == 56 && ten[1..][0] == 48;
  }

  /** The order is transitive on the versions with runs below a bound exactly when the bound fits 64 bits. */
  lemma TransitiveExactly(bound: nat)
    ensures
      (forall a: string, b: string, c: string ::
         RunsBelow(a, bound) && RunsBelow(b, bound) && RunsBelow(c, bound) ==> TransitiveAt(a, b, c))
      <==> bound <= U64_LIMIT
  {
    hide TransitiveAt, RunsBelow, ToDecimal, Fits;
    if bound <= U64_LIMIT {
      forall a: string, b: string, c: string | RunsBelow(a, bound) && RunsBelow(b, bound) && RunsBelow(c, bound)
        ensures TransitiveAt(a, b, c)
      {
        BelowFits(a, bound);
        BelowFits(b, bound);
        BelowFits(c, bound);
        TransitiveWhenFit(a, b, c);
      }
    } else {
      SmallRuns(2, bound);
      SmallRuns(10, bound);
      SmallRuns(U64_LIMIT, bound);
      Cycle();
    }
  }

  lemma BelowFits(s: string, bound: nat)
    requires RunsBelow(s, bound) && bound <= U64_LIMIT
    ensures Fits(s)
  {
    hide Segments, NumberOf;
  }

  lemma TransitiveWhenFit(a: string, b: string, c: string)
    requires Fits(a) && Fits(b) && Fits(c)
    ensures TransitiveAt(a, b, c)
  {
    hide VersionOrder;
    TotalPreorder(a, b, c);
  }

  lemma SmallRuns(n: nat, bound: nat)
    requires n < bound
    ensures RunsBelow(ToDecimal(n), bound)
  {
    hide ToDecimal, Segments;
    OneNumber(n);
  }
}
