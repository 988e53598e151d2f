/**
 The version order of systemd-analyze (strverscmp_improved): a two-pointer scan with six phases a
 round.  Every verdict of the scan depends on one integer, or one short run of integers, that each
 string contributes on its own, so the scan is the lexicographic comparison of two keys.
 */
module KernelVersion {
  import opened Bytes
  import opened Lexicographic
  import opened Decimal

  const TILDE: byte := 126
  const DASH: byte := 45
  const CARET: byte := 94
  const DOT: byte := 46
  const ZERO: byte := 48

  /** The head of the key of a numeric segment; above every byte, so above every alphabetic one. */
  const NUMERIC: int := 256

  predicate IsAlpha(c: int) { 65 <= c <= 90 || 97 <= c <= 122 }

  predicate IsValid(c: int) { IsDigitByte(c) || IsAlpha(c) || c == TILDE || c == DASH || c == CARET || c == DOT }

  /** The current byte, or NUL past the end. */
  function At(s: seq<byte>, k: nat): byte { if k < |s| then s[k] else 0 }

  // ---------- the key of one string ----------

  function SkipInvalid(s: seq<byte>): (r: seq<byte>)
    ensures |r| <= |s|
    ensures r != [] ==> IsValid(r[0])
    ensures s != [] && !IsValid(s[0]) ==> |r| < |s|
    ensures s == [] || IsValid(s[0]) ==> r == s
  {
    if s == [] || IsValid(s[0]) then s else SkipInvalid(s[1..])
  }

  predicate Heads(s: seq<byte>, c: byte) { s != [] && s[0] == c }

  /** 0 when `s` starts with the separator `c`, which is then the older side, else 1. */
  function Flag(s: seq<byte>, c: byte): int { if Heads(s, c) then 0 else 1 }

  function DropIf(s: seq<byte>, c: byte): seq<byte> { if Heads(s, c) then s[1..] else s }

  function DigitRun(s: seq<byte>): (n: nat)
    ensures n <= |s|
    ensures forall k :: 0 <= k < n ==> IsDigitByte(s[k])
    ensures n < |s| ==> !IsDigitByte(s[n])
  {
    if s != [] && IsDigitByte(s[0]) then 1 + DigitRun(s[1..]) else 0
  }

  function AlphaRun(s: seq<byte>): (n: nat)
    ensures n <= |s|
    ensures forall k :: 0 <= k < n ==> IsAlpha(s[k])
    ensures n < |s| ==> !IsAlpha(s[n])
  {
    if s != [] && IsAlpha(s[0]) then 1 + AlphaRun(s[1..]) else 0
  }

  predicate IsNumeric(s: seq<byte>) { s != [] && IsDigitByte(s[0]) }

  function SegmentLength(s: seq<byte>): (n: nat)
    ensures n <= |s|
  {
    if IsNumeric(s) then DigitRun(s) else AlphaRun(s)
  }

  /** A digit run contributes its number, of any size; a letter run its letters and a terminator. */
  function SegmentKey(s: seq<byte>): seq<int>
  {
    if IsNumeric(s) then [NUMERIC, DigitsValue(s[..DigitRun(s)])] else s[..AlphaRun(s)] + [0]
  }

  /** The separator looked for in each of the middle phases. */
  function Separator(phase: nat): byte { if phase == 2 then DASH else if phase == 3 then CARET else DOT }

  /** The phase that consumes the head of `s`; the end is met in phase 1. */
  function ConsumingPhase(s: seq<byte>): nat
  {
    if s == [] then 1
    else if s[0] == DASH then 2
    else if s[0] == CARET then 3
    else if s[0] == DOT then 4
    else if IsDigitByte(s[0]) || IsAlpha(s[0]) then 5
    else 0
  }

  /** What `s` contributes from the given phase on. */
  function Scan(phase: nat, s: seq<byte>): seq<int>
    requires phase < 6
    decreases |s|, (ConsumingPhase(s) + 6 - phase) % 6
  {
    if phase == 0 then
      var t := SkipInvalid(s);
      [Flag(t, TILDE)] + Scan(1, DropIf(t, TILDE))
    else if phase == 1 then
      if At(s, 0) == 0 then [0] else [1] + Scan(2, s)
    else if phase < 5 then
      [Flag(s, Separator(phase))] + Scan(phase + 1, DropIf(s, Separator(phase)))
    else
      SegmentKey(s) + Scan(0, s[SegmentLength(s)..])
  }

  function Key(s: seq<byte>): seq<int> { Scan(0, s) }

  /** The order itself. */
  function Order(a: seq<byte>, b: seq<byte>): int { Compare(Key(a), Key(b)) }

  // ---------- the scan ----------

  /** Two digit runs in the scan's way: strip zeros, then length, then text. */
  lemma StrippedRuns(x: seq<byte>, z: nat, y: seq<byte>, w: nat)
    requires AllDigits(x) && AllDigits(y) && z <= |x| && w <= |y|
    requires forall k :: 0 <= k < z ==> x[k] == ZERO
    requires forall k :: 0 <= k < w ==> y[k] == ZERO
    requires z < |x| ==> x[z] != ZERO
    requires w < |y| ==> y[w] != ZERO
    ensures Sign(DigitsValue(x), DigitsValue(y))
         == if |x| - z != |y| - w then Sign(|x| - z, |y| - w) else Compare(x[z..], y[w..])
  {
    LeadingZeros(x, z);
    LeadingZeros(y, w);
    if |x| - z < |y| - w {
      ShorterIsSmaller(x[z..], y[w..]);
    } else if |y| - w < |x| - z {
      ShorterIsSmaller(y[w..], x[z..]);
    } else {
      SameLengthCompare(x[z..], y[w..]);
    }
  }

  /** Two letter runs in the scan's way: the common length first, then length. */
  lemma {:induction false} TerminatedRuns(x: seq<byte>, a: seq<int>, y: seq<byte>, b: seq<int>)
    requires forall k :: 0 <= k < |x| ==> IsAlpha(x[k])
    requires forall k :: 0 <= k < |y| ==> IsAlpha(y[k])
    ensures var n := if |x| <= |y| then |x| else |y|;
      Compare(x + [0] + a, y + [0] + b)
      == if Compare(x[..n], y[..n]) != 0 then Compare(x[..n], y[..n])
         else if |x| != |y| then Sign(|x|, |y|)
         else Compare(a, b)
  {
    if x != [] && y != [] && x[0] == y[0] {
      var n := if |x| <= |y| then |x| else |y|;
      TerminatedRuns(x[1..], a, y[1..], b);
      assert (x + [0] + a)[1..] == x[1..] + [0] + a && (y + [0] + b)[1..] == y[1..] + [0] + b;
      assert x[1..][..n - 1] == x[..n][1..] && y[1..][..n - 1] == y[..n][1..];
    } else if x == [] && y == [] {
      assert x + [0] + a == [0] + a && y + [0] + b == [0] + b;
      CompareHead(0, a, 0, b);
    }
  }

  /** Phase 0 after skipping: a `~` on one side only makes that side older. */
  lemma TildeStep(u: seq<byte>, v: seq<byte>)
    requires (u == [] || IsValid(u[0])) && (v == [] || IsValid(v[0]))
    ensures Compare(Scan(0, u), Scan(0, v))
         == if Heads(u, TILDE) != Heads(v, TILDE) then CompareFlags(!Heads(u, TILDE), !Heads(v, TILDE))
            else Compare(Scan(1, DropIf(u, TILDE)), Scan(1, DropIf(v, TILDE)))
  {
    CompareHead(Flag(u, TILDE), Scan(1, DropIf(u, TILDE)), Flag(v, TILDE), Scan(1, DropIf(v, TILDE)));
  }

  /** Phase 1: the string that has ended is the older one. */
  lemma EndStep(u: seq<byte>, v: seq<byte>)
    ensures Compare(Scan(1, u), Scan(1, v))
         == if At(u, 0) == 0 || At(v, 0) == 0 then Sign(At(u, 0), At(v, 0)) else Compare(Scan(2, u), Scan(2, v))
  {
    if At(u, 0) != 0 && At(v, 0) != 0 {
      CompareHead(1, Scan(2, u), 1, Scan(2, v));
    }
  }

  /** Phases 2 to 4: a separator on one side only makes that side older. */
  lemma SeparatorStep(phase: nat, u: seq<byte>, v: seq<byte>)
    requires 2 <= phase < 5
    ensures var c := Separator(phase);
      Compare(Scan(phase, u), Scan(phase, v))
      == if Heads(u, c) != Heads(v, c) then CompareFlags(!Heads(u, c), !Heads(v, c))
         else Compare(Scan(phase + 1, DropIf(u, c)), Scan(phase + 1, DropIf(v, c)))
  {
    var c := Separator(phase);
    CompareHead(Flag(u, c), Scan(phase + 1, DropIf(u, c)), Flag(v, c), Scan(phase + 1, DropIf(v, c)));
  }

  /** Phase 5, the first integer tells a number from anything else. */
  lemma SegmentHead(s: seq<byte>)
    ensures Scan(5, s) != []
    ensures if IsNumeric(s) then Scan(5, s)[0] == NUMERIC else Scan(5, s)[0] < NUMERIC
  {
  }

  /** Phase 5, a number is newer than anything else. */
  lemma NumberAgainstOther(u: seq<byte>, v: seq<byte>)
    requires IsNumeric(u) != IsNumeric(v)
    ensures Compare(Scan(5, u), Scan(5, v)) == CompareFlags(IsNumeric(u), IsNumeric(v))
  {
    hide Scan;
    SegmentHead(u);
    SegmentHead(v);
  }

  lemma NumericScan(s: seq<byte>)
    requires IsNumeric(s)
    ensures Scan(5, s) == [NUMERIC] + ([DigitsValue(s[..DigitRun(s)])] + Scan(0, s[DigitRun(s)..]))
  {
  }

  /** Phase 5, a number against a number. */
  lemma NumericStep(u: seq<byte>, v: seq<byte>)
    requires IsNumeric(u) && IsNumeric(v)
    ensures var x, y := DigitsValue(u[..DigitRun(u)]), DigitsValue(v[..DigitRun(v)]);
      Compare(Scan(5, u), Scan(5, v))
      == if x != y then Sign(x, y) else Compare(Scan(0, u[DigitRun(u)..]), Scan(0, v[DigitRun(v)..]))
  {
    hide Compare;
    var ru, rv := Scan(0, u[DigitRun(u)..]), Scan(0, v[DigitRun(v)..]);
    var x, y := DigitsValue(u[..DigitRun(u)]), DigitsValue(v[..DigitRun(v)]);
    NumericScan(u);
    NumericScan(v);
    hide Scan;
    CompareHead(NUMERIC, [x] + ru, NUMERIC, [y] + rv);
    CompareHead(x, ru, y, rv);
  }

  lemma AlphaScan(s: seq<byte>)
    requires !IsNumeric(s)
    ensures Scan(5, s) == s[..AlphaRun(s)] + [0] + Scan(0, s[AlphaRun(s)..])
  {
  }

  /** Phase 5, two letter runs, either of which may be empty. */
  lemma AlphaStep(u: seq<byte>, v: seq<byte>)
    requires !IsNumeric(u) && !IsNumeric(v)
    ensures var x, y := AlphaRun(u), AlphaRun(v);
      var n := if x <= y then x else y;
      Compare(Scan(5, u), Scan(5, v))
      == if Compare(u[..n], v[..n]) != 0 then Compare(u[..n], v[..n])
         else if x != y then Sign(x, y)
         else Compare(Scan(0, u[x..]), Scan(0, v[y..]))
  {
    hide Scan, Compare;
    var x, y := AlphaRun(u), AlphaRun(v);
    var n := if x <= y then x else y;
    AlphaScan(u);
    AlphaScan(v);
    TerminatedRuns(u[..x], Scan(0, u[x..]), v[..y], Scan(0, v[y..]));
    assert u[..x][..n] == u[..n] && v[..y][..n] == v[..n];
  }

  /**
   The scan over both strings at once.  Returns the order of the two keys, whatever bytes the
   strings hold.
   */
  method CompareKernelVersions(a: seq<byte>, b: seq<byte>) returns (r: int)
    ensures r == Order(a, b)
  {
    assert a[0..] == a && b[0..] == b;
    var i, j := 0, 0;
    assert Compare(Scan(0, a[i..]), Scan(0, b[j..])) == Order(a, b);

    while true
      invariant 0 <= i <= |a| && 0 <= j <= |b|
      invariant Compare(Scan(0, a[i..]), Scan(0, b[j..])) == Order(a, b)
      decreases |a| - i
    {
      var done;
      r, i, j, done := CompareStart(a, i, b, j);
      if done {
        return;
      }
      r, i, j, done := CompareSeparators(a, i, b, j);
      if done {
        return;
      }
      if IsDigitByte(At(a, i)) || IsDigitByte(At(b, j)) {
        r, i, j, done := CompareNumeric(a, i, b, j);
      } else {
        r, i, j, done := CompareAlpha(a, i, b, j);
      }
      if done {
        return;
      }
    }
  }

  function CompareFlags(x: bool, y: bool): int { Sign(if x then 1 else 0, if y then 1 else 0) }

  /** Phases 0 and 1: decided, or passed on both sides. */
  method CompareStart(a: seq<byte>, i0: nat, b: seq<byte>, j0: nat) returns (r: int, i: nat, j: nat, done: bool)
    requires i0 <= |a| && j0 <= |b|
    ensures i0 <= i <= |a| && j0 <= j <= |b|
    ensures done ==> r == Compare(Scan(0, a[i0..]), Scan(0, b[j0..]))
    ensures !done ==> Compare(Scan(2, a[i..]), Scan(2, b[j..])) == Compare(Scan(0, a[i0..]), Scan(0, b[j0..]))
    ensures !done ==> i < |a| && (i == i0 ==> ConsumingPhase(a[i..]) >= 2)
  {
    hide Scan, Compare;
    done := true;
    i := PassInvalid(a, i0);
    j := PassInvalid(b, j0);
    TildeStep(a[i..], b[j..]);
    if At(a, i) == TILDE || At(b, j) == TILDE {
      r := CompareFlags(At(a, i) != TILDE, At(b, j) != TILDE);
      if r != 0 {
        return;
      }
      assert a[i + 1..] == a[i..][1..] && b[j + 1..] == b[j..][1..];
      i, j := i + 1, j + 1;
    }
    EndStep(a[i..], b[j..]);
    r := Sign(At(a, i), At(b, j));
    done := At(a, i) == 0 || At(b, j) == 0;
  }

  /** Phases 2 to 4: decided, or passed on both sides. */
  method CompareSeparators(a: seq<byte>, i0: nat, b: seq<byte>, j0: nat) returns (r: int, i: nat, j: nat, done: bool)
    requires i0 <= |a| && j0 <= |b|
    ensures i0 <= i <= |a| && j0 <= j <= |b|
    ensures done ==> r == Compare(Scan(2, a[i0..]), Scan(2, b[j0..]))
    ensures !done ==> Compare(Scan(5, a[i..]), Scan(5, b[j..])) == Compare(Scan(2, a[i0..]), Scan(2, b[j0..]))
    ensures !done && i == i0 ==> ConsumingPhase(a[i..]) !in {2, 3, 4}
  {
    hide Scan, Compare;
    r, i, j, done := 0, i0, j0, true;
    for phase := 2 to 5
      invariant i0 <= i <= |a| && j0 <= j <= |b|
      invariant Compare(Scan(phase, a[i..]), Scan(phase, b[j..])) == Compare(Scan(2, a[i0..]), Scan(2, b[j0..]))
      invariant i == i0 ==> ConsumingPhase(a[i..]) < 2 || phase <= ConsumingPhase(a[i..])
    {
      var sep := Separator(phase);
      SeparatorStep(phase, a[i..], b[j..]);
      if At(a, i) == sep || At(b, j) == sep {
        r := CompareFlags(At(a, i) != sep, At(b, j) != sep);
        if r != 0 {
          return;
        }
        assert a[i + 1..] == a[i..][1..] && b[j + 1..] == b[j..][1..];
        i, j := i + 1, j + 1;
      }
    }
    done := false;
  }

  lemma ScanSkip(s: seq<byte>)
    ensures Scan(0, SkipInvalid(s)) == Scan(0, s)
  {
  }

  method PassInvalid(s: seq<byte>, k0: nat) returns (k: nat)
    requires k0 <= |s|
    ensures k0 <= k <= |s| && s[k..] == SkipInvalid(s[k0..])
    ensures Scan(0, s[k..]) == Scan(0, s[k0..])
  {
    k := k0;
    while k < |s| && !IsValid(s[k])
      invariant k0 <= k <= |s| && SkipInvalid(s[k..]) == SkipInvalid(s[k0..])
    {
      k := k + 1;
    }
  }

  method PassDigits(s: seq<byte>, k0: nat) returns (k: nat)
    requires k0 <= |s|
    ensures k == k0 + DigitRun(s[k0..]) <= |s|
    ensures s[k..] == s[k0..][DigitRun(s[k0..])..] && s[k0..k] == s[k0..][..DigitRun(s[k0..])]
  {
    k := k0;
    while k < |s| && IsDigitByte(s[k])
      invariant k0 <= k <= |s| && k - k0 + DigitRun(s[k..]) == DigitRun(s[k0..])
    {
      k := k + 1;
    }
  }

  method PassAlphas(s: seq<byte>, k0: nat) returns (k: nat)
    requires k0 <= |s|
    ensures k == k0 + AlphaRun(s[k0..]) <= |s|
    ensures s[k..] == s[k0..][AlphaRun(s[k0..])..] && s[k0..k] == s[k0..][..AlphaRun(s[k0..])]
  {
    k := k0;
    while k < |s| && IsAlpha(s[k])
      invariant k0 <= k <= |s| && k - k0 + AlphaRun(s[k..]) == AlphaRun(s[k0..])
    {
      k := k + 1;
    }
  }

  method PassZeros(s: seq<byte>, k0: nat, end: nat) returns (k: nat)
    requires k0 <= end <= |s|
    ensures k0 <= k <= end && (k < end ==> s[k] != ZERO)
    ensures forall m :: k0 <= m < k ==> s[m] == ZERO
  {
    k := k0;
    while k < end && s[k] == ZERO
      invariant k0 <= k <= end
      invariant forall m :: k0 <= m < k ==> s[m] == ZERO
    {
      k := k + 1;
    }
  }

  /** Phase 5 with a digit on either side: decided, or both runs passed. */
  method CompareNumeric(a: seq<byte>, i0: nat, b: seq<byte>, j0: nat) returns (r: int, i: nat, j: nat, done: bool)
    requires i0 <= |a| && j0 <= |b|
    requires IsNumeric(a[i0..]) || IsNumeric(b[j0..])
    ensures i0 <= i <= |a| && j0 <= j <= |b|
    ensures done ==> r == Compare(Scan(5, a[i0..]), Scan(5, b[j0..]))
    ensures !done ==> i0 < i && Compare(Scan(0, a[i..]), Scan(0, b[j..])) == Compare(Scan(5, a[i0..]), Scan(5, b[j0..]))
  {
    hide Scan, Compare;
    i, j, done := i0, j0, true;
    var ii := PassDigits(a, i);
    var jj := PassDigits(b, j);
    r := CompareFlags(i != ii, j != jj);
    if r != 0 {
      NumberAgainstOther(a[i..], b[j..]);
      return;
    }
    NumericStep(a[i..], b[j..]);
    r := CompareDigits(a, i, ii, b, j, jj);
    if r != 0 {
      return;
    }
    i, j, done := ii, jj, false;
  }

  /** Two digit runs: strip zeros, then compare lengths, then text; that is, compare the numbers. */
  method CompareDigits(a: seq<byte>, i0: nat, ii: nat, b: seq<byte>, j0: nat, jj: nat) returns (r: int)
    requires i0 <= ii <= |a| && j0 <= jj <= |b|
    requires AllDigits(a[i0..ii]) && AllDigits(b[j0..jj])
    ensures r == Sign(DigitsValue(a[i0..ii]), DigitsValue(b[j0..jj]))
  {
    hide DigitsValue, Compare;
    var i := PassZeros(a, i0, ii);
    var j := PassZeros(b, j0, jj);
    ghost var x, y := a[i0..ii], b[j0..jj];
    StrippedRuns(x, i - i0, y, j - j0);
    assert x[i - i0..] == a[i..ii] && y[j - j0..] == b[j..jj];
    r := Sign(ii - i, jj - j);
    if r == 0 {
      r := Compare(a[i..ii], b[j..jj]);
    }
  }

  /** Phase 5 without a digit: decided, or both letter runs passed. */
  method CompareAlpha(a: seq<byte>, i0: nat, b: seq<byte>, j0: nat) returns (r: int, i: nat, j: nat, done: bool)
    requires i0 <= |a| && j0 <= |b|
    requires !IsNumeric(a[i0..]) && !IsNumeric(b[j0..])
    ensures i0 <= i <= |a| && j0 <= j <= |b|
    ensures done ==> r == Compare(Scan(5, a[i0..]), Scan(5, b[j0..]))
    ensures !done ==> Compare(Scan(0, a[i..]), Scan(0, b[j..])) == Compare(Scan(5, a[i0..]), Scan(5, b[j0..]))
    ensures !done && IsAlpha(At(a, i0)) ==> i0 < i
  {
    hide Scan, Compare;
    i, j, done := i0, j0, true;
    var ii := PassAlphas(a, i);
    var jj := PassAlphas(b, j);
    AlphaStep(a[i..], b[j..]);
    var n := if ii - i < jj - j then ii - i else jj - j;
    assert a[i..i + n] == a[i..][..n] && b[j..j + n] == b[j..][..n];
    r := Compare(a[i..i + n], b[j..j + n]);
    if r != 0 {
      return;
    }
    r := Sign(ii - i, jj - j);
    if r != 0 {
      return;
    }
    i, j, done := ii, jj, false;
  }

  // ---------- what the order promises ----------

  /** The order is a total preorder on all byte strings. */
  lemma TotalPreorder(a: seq<byte>, b: seq<byte>, c: seq<byte>)
    ensures Order(a, a) == 0
    ensures Order(b, a) == -Order(a, b)
    ensures Order(a, b) <= 0 && Order(b, c) <= 0 ==> Order(a, c) <= 0
    ensures Order(a, b) <= 0 && Order(b, c) <= 0 && Order(a, c) == 0 ==> Order(a, b) == 0 && Order(b, c) == 0
  {
    CompareReflexive(Key(a));
    CompareAntisymmetric(Key(a), Key(b));
    if Order(a, b) <= 0 && Order(b, c) <= 0 {
      CompareTransitive(Key(a), Key(b), Key(c));
    }
  }

  // ---------- appending text ----------

  predicate NulFree(s: seq<byte>) { 0 !in s }

  /** The last byte, or NUL of nothing. */
  function Last(s: seq<byte>): byte { if s == [] then 0 else s[|s| - 1] }

  /** The phase a scan is in once it has passed text whose last byte is `last`. */
  function PhaseAfter(last: byte): nat
  {
    if last == TILDE then 1 else if last == DASH then 3 else if last == CARET then 4 else if last == DOT then 5 else 0
  }

  /** Text that starts a round: nothing to it once invalid bytes are gone, or a `~`, or more version. */
  function FreshText(t: seq<byte>): int
  {
    var u := SkipInvalid(t);
    if u == [] then 0 else if u[0] == TILDE then -1 else 1
  }

  /** How text compares with the end of a string, in the given phase. */
  function AgainstEnd(phase: nat, t: seq<byte>): int
  {
    if phase == 1 then Sign(At(t, 0), 0)
    else if 2 <= phase <= ConsumingPhase(t) < 5 then -1
    else FreshText(t)
  }

  lemma FreshAgainstEnd(t: seq<byte>)
    ensures Compare(Scan(0, t), Scan(0, [])) == FreshText(t)
  {
    hide Scan, Compare;
    ScanSkip(t);
    TildeStep(SkipInvalid(t), []);
    EndStep(SkipInvalid(t), []);
  }

  /** More text against the end of a string, from any phase. */
  lemma {:induction false} EndAgainst(phase: nat, t: seq<byte>)
    requires phase < 6
    ensures Compare(Scan(phase, t), Scan(phase, [])) == AgainstEnd(phase, t)
    decreases 6 - phase
  {
    hide Scan, Compare;
    if phase == 0 {
      FreshAgainstEnd(t);
    } else if phase == 1 {
      EndStep(t, []);
    } else if phase < 5 {
      SeparatorStep(phase, t, []);
      if !Heads(t, Separator(phase)) {
        EndAgainst(phase + 1, t);
      }
    } else if IsNumeric(t) {
      NumberAgainstOther(t, []);
    } else {
      AlphaStep(t, []);
      assert t[..0] == [];
      CompareReflexive([]);
      if !IsAlpha(At(t, 0)) {
        assert t[0..] == t;
        FreshAgainstEnd(t);
      }
    }
  }

  /** The digits at the end of a string. */
  function LastRun(s: seq<byte>): (r: seq<byte>)
    ensures AllDigits(r)
  {
    if AllDigits(s) then s else LastRun(s[1..])
  }

  lemma {:induction false} LastRunDrop(s: seq<byte>, k: nat)
    requires k < |s| && (k > 0 ==> !IsDigitByte(s[k - 1]) || !IsDigitByte(s[k]))
    ensures LastRun(s[k..]) == LastRun(s) && Last(s[k..]) == Last(s)
  {
    if k > 1 {
      LastRunDrop(s[1..], k - 1);
    }
  }

  /** Digits that are appended to digits and make the number bigger. */
  predicate GrowsNumber(s: seq<byte>, t: seq<byte>)
  {
    IsNumeric(t) && IsDigitByte(Last(s)) && (DigitsValue(LastRun(s)) > 0 || DigitsValue(t[..DigitRun(t)]) > 0)
  }

  /** New text without the digits that continue a last number. */
  function AfterNumber(s: seq<byte>, t: seq<byte>): seq<byte>
  {
    if IsDigitByte(Last(s)) then t[DigitRun(t)..] else t
  }

  /** How `s + t` compares with `s`. */
  function Appended(s: seq<byte>, t: seq<byte>): int
  {
    if GrowsNumber(s, t) then 1 else AgainstEnd(PhaseAfter(Last(s)), AfterNumber(s, t))
  }

  lemma AppendedDrop(s: seq<byte>, k: nat, t: seq<byte>)
    requires k < |s| && (k > 0 ==> !IsDigitByte(s[k - 1]) || !IsDigitByte(s[k]))
    ensures Appended(s[k..], t) == Appended(s, t)
  {
    LastRunDrop(s, k);
  }

  lemma AfterOther(s: seq<byte>, t: seq<byte>)
    requires !IsDigitByte(Last(s))
    ensures Appended(s, t) == AgainstEnd(PhaseAfter(Last(s)), t)
  {
  }

  lemma {:induction false} ValueAppend(x: seq<byte>, y: seq<byte>)
    requires AllDigits(x) && AllDigits(y) && y != []
    ensures DigitsValue(x + y) >= DigitsValue(x)
    ensures DigitsValue(x + y) > DigitsValue(x) <==> DigitsValue(x) > 0 || DigitsValue(y) > 0
  {
    var n := |y| - 1;
    assert (x + y)[..|x| + n] == x + y[..n];
    if n == 0 {
      assert x + y[..n] == x;
    } else {
      ValueAppend(x, y[..n]);
    }
  }

  lemma {:induction false} RunsAppend(s: seq<byte>, t: seq<byte>)
    ensures DigitRun(s + t) == if DigitRun(s) < |s| then DigitRun(s) else |s| + DigitRun(t)
    ensures AlphaRun(s + t) == if AlphaRun(s) < |s| then AlphaRun(s) else |s| + AlphaRun(t)
  {
    if s != [] {
      RunsAppend(s[1..], t);
      assert (s + t)[1..] == s[1..] + t;
    } else {
      assert s + t == t;
    }
  }

  lemma {:induction false} SkipAppend(s: seq<byte>, t: seq<byte>)
    ensures SkipInvalid(s + t) == SkipInvalid(SkipInvalid(s) + t)
    ensures var k := |s| - |SkipInvalid(s)|;
      SkipInvalid(s) == s[k..] && forall m :: 0 <= m < k ==> !IsValid(s[m])
  {
    if s != [] && !IsValid(s[0]) {
      assert (s + t)[1..] == s[1..] + t;
      SkipAppend(s[1..], t);
    } else if s == [] {
      assert s + t == t;
    }
  }

  /** Appending text, from any phase. */
  lemma {:induction false} AppendFrom(phase: nat, s: seq<byte>, t: seq<byte>)
    requires phase < 6 && s != [] && NulFree(s)
    ensures Compare(Scan(phase, s + t), Scan(phase, s)) == Appended(s, t)
    decreases |s|, (ConsumingPhase(s) + 6 - phase) % 6
  {
    hide Scan, Compare, SkipInvalid, Appended, AgainstEnd;
    if phase == 0 {
      AppendStart(s, t);
      var u := SkipInvalid(s);
      var v := DropIf(u, TILDE);
      if v != [] {
        AppendFrom(1, v, t);
      }
    } else if phase == 1 {
      EndStep(s + t, s);
      AppendFrom(2, s, t);
    } else if phase < 5 {
      AppendSeparator(phase, s, t);
      var v := DropIf(s, Separator(phase));
      if v != [] {
        AppendFrom(phase + 1, v, t);
      }
    } else {
      AppendSegment(s, t);
      var v := s[SegmentLength(s)..];
      if v != [] {
        AppendFrom(0, v, t);
      }
    }
  }

  lemma AppendSeparator(phase: nat, s: seq<byte>, t: seq<byte>)
    requires 2 <= phase < 5 && s != []
    ensures var v := DropIf(s, Separator(phase));
      && (v != [] ==> Appended(v, t) == Appended(s, t))
      && Compare(Scan(phase, s + t), Scan(phase, s))
         == if v == [] then Appended(s, t) else Compare(Scan(phase + 1, v + t), Scan(phase + 1, v))
  {
    hide Scan, Compare, Appended, AgainstEnd;
    var c := Separator(phase);
    var v := DropIf(s, c);
    SeparatorStep(phase, s + t, s);
    assert DropIf(s + t, c) == v + t;
    if v == [] {
      assert v + t == t;
      EndAgainst(phase + 1, t);
      AfterOther(s, t);
    } else {
      AppendedDrop(s, |s| - |v|, t);
    }
  }

  lemma SkipStart(s: seq<byte>, t: seq<byte>)
    requires s != []
    ensures var u := SkipInvalid(s);
      && (u != [] ==> Last(u) == Last(s) && Appended(u, t) == Appended(s, t) && (NulFree(s) ==> NulFree(u)))
      && (u == [] ==> Appended(s, t) == AgainstEnd(0, t))
      && Scan(0, s) == Scan(0, u) && Scan(0, s + t) == Scan(0, u + t)
  {
    hide Scan, Appended, AgainstEnd;
    var u := SkipInvalid(s);
    SkipAppend(s, t);
    ScanSkip(s);
    ScanSkip(s + t);
    ScanSkip(u + t);
    if u == [] {
      AfterOther(s, t);
    } else {
      AppendedDrop(s, |s| - |u|, t);
    }
  }

  lemma AppendStart(s: seq<byte>, t: seq<byte>)
    requires s != []
    ensures var u := SkipInvalid(s); var v := DropIf(u, TILDE);
      && (v != [] ==> Appended(v, t) == Appended(s, t) && (NulFree(s) ==> NulFree(v)))
      && Compare(Scan(0, s + t), Scan(0, s))
         == if v == [] then Appended(s, t) else Compare(Scan(1, v + t), Scan(1, v))
  {
    hide Scan, Compare, Appended, AgainstEnd;
    var u := SkipInvalid(s);
    var v := DropIf(u, TILDE);
    SkipStart(s, t);
    if u == [] {
      assert u + t == t;
      EndAgainst(0, t);
    } else {
      TildeStep(u + t, u);
      assert DropIf(u + t, TILDE) == v + t;
      if v == [] {
        assert v + t == t;
        EndAgainst(1, t);
        AfterOther(u, t);
      } else {
        AppendedDrop(u, |u| - |v|, t);
      }
    }
  }

  /** Text after a string that is one number. */
  lemma NumberGrows(s: seq<byte>, t: seq<byte>)
    requires AllDigits(s) && s != []
    ensures DigitsValue(s + t[..DigitRun(t)]) >= DigitsValue(s)
    ensures DigitsValue(s + t[..DigitRun(t)]) > DigitsValue(s) <==> GrowsNumber(s, t)
    ensures !GrowsNumber(s, t) ==> Appended(s, t) == FreshText(t[DigitRun(t)..])
  {
    hide DigitsValue, DigitRun;
    var m := DigitRun(t);
    if m > 0 {
      ValueAppend(s, t[..m]);
    } else {
      assert s + t[..m] == s;
    }
  }

  lemma AppendNumber(s: seq<byte>, t: seq<byte>)
    requires IsNumeric(s)
    ensures var v := s[DigitRun(s)..];
      Compare(Scan(5, s + t), Scan(5, s))
      == if v == [] then Appended(s, t) else Compare(Scan(0, v + t), Scan(0, v))
  {
    hide Scan, Compare, DigitsValue, DigitRun, FreshText, GrowsNumber;
    var n, m := DigitRun(s), DigitRun(t);
    RunsAppend(s, t);
    NumericStep(s + t, s);
    if n < |s| {
      assert (s + t)[..n] == s[..n] && (s + t)[n..] == s[n..] + t;
    } else {
      assert s[..n] == s && s[n..] == [] && (s + t)[..n + m] == s + t[..m] && (s + t)[n + m..] == t[m..];
      NumberGrows(s, t);
      EndAgainst(0, t[m..]);
    }
  }

  lemma AppendLetters(s: seq<byte>, t: seq<byte>)
    requires !IsNumeric(s) && s != []
    ensures var v := s[AlphaRun(s)..];
      Compare(Scan(5, s + t), Scan(5, s))
      == if v == [] then Appended(s, t) else Compare(Scan(0, v + t), Scan(0, v))
  {
    hide Scan, Compare, Appended, AlphaRun, SkipInvalid;
    var n, m := AlphaRun(s), AlphaRun(t);
    RunsAppend(s, t);
    AlphaStep(s + t, s);
    assert (s + t)[..n] == s[..n];
    CompareReflexive(s[..n]);
    if n < |s| {
      assert (s + t)[n..] == s[n..] + t;
    } else {
      AfterOther(s, t);
      if m == 0 {
        assert (s + t)[n..] == t;
        EndAgainst(0, t);
      }
    }
  }

  lemma AppendSegment(s: seq<byte>, t: seq<byte>)
    requires s != []
    ensures var v := s[SegmentLength(s)..];
      && Compare(Scan(5, s + t), Scan(5, s))
         == (if v == [] then Appended(s, t) else Compare(Scan(0, v + t), Scan(0, v)))
      && (v != [] ==> Appended(v, t) == Appended(s, t))
  {
    hide Scan, Compare, Appended;
    if IsNumeric(s) {
      AppendNumber(s, t);
    } else {
      AppendLetters(s, t);
    }
    if SegmentLength(s) < |s| {
      AppendedDrop(s, SegmentLength(s), t);
    }
  }

  /** New text that begins with a separator whose turn in the round has passed. */
  predicate TooLate(last: byte, c: byte) { (c == CARET && last == DASH) || (c == DOT && (last == DASH || last == CARET)) }

  /**
   The suffix law, for all text.  After a final `~` any text makes the version newer, and so do
   digits that make the last number bigger.  Otherwise a separator whose turn has passed makes it
   older, and else what decides is the text after the digits that leave the number at zero, without
   its invalid bytes: none leaves the version equal, a `~` makes it older, and anything else newer.
   */
  lemma SuffixLaw(s: seq<byte>, t: seq<byte>)
    requires NulFree(s) && t != []
    ensures var u := SkipInvalid(AfterNumber(s, t));
      Order(s + t, s)
      == if Last(s) == TILDE then Sign(t[0], 0)
         else if GrowsNumber(s, t) then 1
         else if TooLate(Last(s), t[0]) then -1
         else if u == [] then 0
         else if u[0] == TILDE then -1
         else 1
  {
    hide Scan, Compare, LastRun, DigitsValue, SkipInvalid;
    if s == [] {
      assert s + t == t;
      EndAgainst(0, t);
    } else {
      AppendFrom(0, s, t);
    }
  }

  /** Exactly when appended text makes a version newer. */
  lemma LongerIsNewerExactly(s: seq<byte>, t: seq<byte>)
    requires NulFree(s) && t != []
    ensures var u := SkipInvalid(AfterNumber(s, t));
      Order(s + t, s) > 0
      <==> if Last(s) == TILDE then t[0] != 0
           else GrowsNumber(s, t) || (u != [] && u[0] != TILDE && !TooLate(Last(s), t[0]))
    ensures IsAlpha(t[0]) ==> Order(s + t, s) > 0
    ensures t[0] == TILDE && Last(s) != TILDE ==> Order(s + t, s) < 0
  {
    hide Order, LastRun, DigitsValue;
    SuffixLaw(s, t);
    if !IsNumeric(t) {
      assert t[DigitRun(t)..] == t;
    }
  }

  /**
   Where the rule that added text makes a version newer unless it starts with `~` fails: `00` and `1!`
   are equal to the shorter text, `1!~`, `1-^`, `1-.` and `1^.` older, and `~~` newer.
   */
  lemma SuffixRuleFails()
    ensures Order([ZERO] + [ZERO], [ZERO]) == 0
    ensures Order([49] + [33], [49]) == 0
    ensures Order([49] + [33, TILDE], [49]) == -1
    ensures Order([49, DASH] + [CARET], [49, DASH]) == -1
    ensures Order([49, DASH] + [DOT], [49, DASH]) == -1
    ensures Order([49, CARET] + [DOT], [49, CARET]) == -1
    ensures Order([TILDE] + [TILDE], [TILDE]) == 1
  {
    hide Order;
    SuffixLaw([ZERO], [ZERO]);
    SuffixLaw([49], [33]);
    SuffixLaw([49], [33, TILDE]);
    SuffixLaw([49, DASH], [CARET]);
    SuffixLaw([49, DASH], [DOT]);
    SuffixLaw([49, CARET], [DOT]);
    SuffixLaw([TILDE], [TILDE]);
    assert [ZERO][..0] == [];
    assert AllDigits([ZERO]) && [ZERO][..1] == [ZERO];
    assert [33, TILDE][0..] == [33, TILDE] && [33, TILDE][1..] == [TILDE];
  }

  // ---------- the order, byte by byte ----------

  predicate Letter(c: int) { 65 <= c <= 90 || 97 <= c <= 122 }

  predicate Digit(c: int) { 48 <= c <= 57 }

  /** Text that does not go on with the run that ends in `last`. */
  predicate Breaks(last: byte, t: seq<byte>)
  {
    t == [] || (Digit(last) && !Digit(t[0])) || (Letter(last) && !Letter(t[0]))
  }

  /** How the first byte of a text ranks: `~`, the end, `-`, `^`, `.`, a letter, a digit; 7 for a byte to skip. */
  function Rank(t: seq<byte>): nat
  {
    if t == [] then 1
    else if t[0] == 126 then 0
    else if t[0] == 45 then 2
    else if t[0] == 94 then 3
    else if t[0] == 46 then 4
    else if Letter(t[0]) then 5
    else if Digit(t[0]) then 6
    else 7
  }

  /** Two texts of different rank are ordered by it. */
  lemma RankDecides(t: seq<byte>, u: seq<byte>)
    requires Rank(t) < Rank(u) < 7
    ensures Order(t, u) == -1
  {
    hide Scan, Compare;
    TildeStep(t, u);
    EndStep(t, u);
    SeparatorStep(2, t, u);
    SeparatorStep(3, t, u);
    SeparatorStep(4, t, u);
    if Rank(u) == 6 {
      if Rank(t) == 5 {
        NumberAgainstOther(t, u);
      }
    }
  }

  /** A byte that is no letter, digit or separator does not count. */
  lemma OtherByteSkipped(c: byte, t: seq<byte>, u: seq<byte>)
    requires Rank([c]) == 7
    ensures Order([c] + t, u) == Order(t, u) && Order(u, [c] + t) == Order(u, t)
  {
    hide Scan, Compare;
    assert ([c] + t)[1..] == t;
    ScanSkip(t);
    ScanSkip([c] + t);
  }

  /** The same separator in front of more version on both sides does not count. */
  lemma SeparatorCancels(c: byte, t: seq<byte>, u: seq<byte>)
    requires c in {126, 45, 94, 46} && Rank(t) in {5, 6} && Rank(u) in {5, 6}
    ensures Order([c] + t, [c] + u) == Order(t, u)
  {
    hide Scan, Compare;
    assert ([c] + t)[1..] == t && ([c] + u)[1..] == u;
    FromSeparators([c] + t, [c] + u);
    FromSeparators(t, u);
  }

  /** The phases up to the segments, for heads that differ in nothing but what follows a common separator. */
  lemma FromSeparators(t: seq<byte>, u: seq<byte>)
    requires t != [] && u != [] && Rank(t) < 7 && Rank(u) < 7 && (Rank(t) >= 5 <==> Rank(u) >= 5)
    requires Rank(t) < 5 ==> t[0] == u[0] && |t| > 1 && |u| > 1 && Rank(t[1..]) in {5, 6} && Rank(u[1..]) in {5, 6}
    ensures Order(t, u) == if Rank(t) < 5 then Compare(Scan(5, t[1..]), Scan(5, u[1..])) else Compare(Scan(5, t), Scan(5, u))
  {
    hide Scan, Compare;
    TildeStep(t, u);
    var t1, u1 := DropIf(t, TILDE), DropIf(u, TILDE);
    EndStep(t1, u1);
    SeparatorStep(2, t1, u1);
    var t2, u2 := DropIf(t1, DASH), DropIf(u1, DASH);
    SeparatorStep(3, t2, u2);
    var t3, u3 := DropIf(t2, CARET), DropIf(u2, CARET);
    SeparatorStep(4, t3, u3);
  }

  lemma FirstLetters(x: seq<byte>, t: seq<byte>)
    requires x != [] && (forall k :: 0 <= k < |x| ==> Letter(x[k])) && (t != [] ==> !Letter(t[0]))
    ensures Rank(x + t) == 5 && !IsNumeric(x + t) && AlphaRun(x + t) == |x|
  {
    RunsAppend(x, t);
    WholeLetters(x);
    assert (x + t)[0] == x[0];
  }

  /** Two runs of letters are ordered as text, a prefix first; what follows decides between equal ones. */
  lemma LetterRuns(x: seq<byte>, t: seq<byte>, y: seq<byte>, u: seq<byte>)
    requires x != [] && y != [] && (forall k :: 0 <= k < |x| ==> Letter(x[k])) && (forall k :: 0 <= k < |y| ==> Letter(y[k]))
    requires (t != [] ==> !Letter(t[0])) && (u != [] ==> !Letter(u[0]))
    ensures Order(x + t, y + u) == if x != y then Compare(x, y) else Order(t, u)
  {
    hide Scan, Compare, Rank, AlphaRun, Letter, IsNumeric;
    FirstLetters(x, t);
    FirstLetters(y, u);
    FromSeparators(x + t, y + u);
    AlphaStep(x + t, y + u);
    assert (x + t)[|x|..] == t && (y + u)[|y|..] == u;
    var n := if |x| <= |y| then |x| else |y|;
    assert (x + t)[..n] == x[..n] && (y + u)[..n] == y[..n];
    PrefixThenLength(x, y);
    CompareEqual(x, y);
  }

  lemma {:induction false} WholeLetters(x: seq<byte>)
    requires forall k :: 0 <= k < |x| ==> Letter(x[k])
    ensures AlphaRun(x) == |x|
  {
    if x != [] {
      WholeLetters(x[1..]);
    }
  }

  lemma {:induction false} PrefixThenLength(x: seq<int>, y: seq<int>)
    ensures var n := if |x| <= |y| then |x| else |y|;
      Compare(x, y) == if Compare(x[..n], y[..n]) != 0 then Compare(x[..n], y[..n]) else Sign(|x|, |y|)
  {
    if x != [] && y != [] {
      var n := if |x| <= |y| then |x| else |y|;
      PrefixThenLength(x[1..], y[1..]);
      assert x[1..][..n - 1] == x[..n][1..] && y[1..][..n - 1] == y[..n][1..];
    }
  }

  /** Two runs of digits are ordered as numbers; what follows decides between equal ones. */
  lemma NumberRuns(x: seq<byte>, t: seq<byte>, y: seq<byte>, u: seq<byte>)
    requires x != [] && y != [] && (forall k :: 0 <= k < |x| ==> 48 <= x[k] <= 57) && (forall k :: 0 <= k < |y| ==> 48 <= y[k] <= 57)
    requires (t != [] ==> !Digit(t[0])) && (u != [] ==> !Digit(u[0]))
    ensures Order(x + t, y + u)
         == if DigitsValue(x) != DigitsValue(y) then Sign(DigitsValue(x), DigitsValue(y)) else Order(t, u)
  {
    hide Scan, Compare, DigitsValue;
    FromSeparators(x + t, y + u);
    RunsAppend(x, t);
    RunsAppend(y, u);
    NumericStep(x + t, y + u);
    assert (x + t)[..|x|] == x && (x + t)[|x|..] == t && (y + u)[..|y|] == y && (y + u)[|y|..] == u;
  }

  /** A common front that ends in a letter or digit does not count, unless the texts go on with its last run. */
  lemma CommonFront(s: seq<byte>, t: seq<byte>, u: seq<byte>)
    requires NulFree(s) && s != [] && Breaks(Last(s), t) && Breaks(Last(s), u) && Rank([Last(s)]) in {5, 6}
    ensures Order(s + t, s + u) == Order(t, u)
  {
    CommonFrom(0, s, t, u);
  }

  lemma {:induction false} CommonFrom(phase: nat, s: seq<byte>, t: seq<byte>, u: seq<byte>)
    requires phase < 6 && NulFree(s) && s != [] && Breaks(Last(s), t) && Breaks(Last(s), u) && Rank([Last(s)]) in {5, 6}
    ensures Compare(Scan(phase, s + t), Scan(phase, s + u)) == Order(t, u)
    decreases |s|, (ConsumingPhase(s) + 6 - phase) % 6
  {
    hide Scan, Compare, SkipInvalid, Breaks;
    if phase == 0 {
      CommonStart(s, t, u);
      CommonFrom(1, DropIf(SkipInvalid(s), TILDE), t, u);
    } else if phase == 1 {
      EndStep(s + t, s + u);
      CommonFrom(2, s, t, u);
    } else if phase < 5 {
      var c := Separator(phase);
      SeparatorStep(phase, s + t, s + u);
      var v := DropIf(s, c);
      assert DropIf(s + t, c) == v + t && DropIf(s + u, c) == v + u;
      CommonFrom(phase + 1, v, t, u);
    } else {
      CommonSegment(s, t, u);
      var v := s[SegmentLength(s)..];
      if v != [] {
        CommonFrom(0, v, t, u);
      } else {
        assert v + t == t && v + u == u;
      }
    }
  }

  lemma CommonStart(s: seq<byte>, t: seq<byte>, u: seq<byte>)
    requires s != [] && Rank([Last(s)]) in {5, 6}
    ensures var w := DropIf(SkipInvalid(s), TILDE);
      && w != [] && |w| <= |s| && Last(w) == Last(s) && (NulFree(s) ==> NulFree(w))
      && (|w| == |s| ==> w == s)
      && Compare(Scan(0, s + t), Scan(0, s + u)) == Compare(Scan(1, w + t), Scan(1, w + u))
  {
    hide Scan, Compare;
    var v := SkipInvalid(s);
    SkipAppend(s, t);
    SkipAppend(s, u);
    ScanSkip(s + t);
    ScanSkip(s + u);
    ScanSkip(v + t);
    ScanSkip(v + u);
    TildeStep(v + t, v + u);
    var w := DropIf(v, TILDE);
    assert DropIf(v + t, TILDE) == w + t && DropIf(v + u, TILDE) == w + u;
  }

  /** Text that does not go on with the last run leaves the first one alone. */
  lemma FirstRunKept(s: seq<byte>, t: seq<byte>)
    requires s != [] && Breaks(Last(s), t) && Rank([Last(s)]) in {5, 6}
    ensures IsNumeric(s + t) == IsNumeric(s)
    ensures DigitRun(s + t) == DigitRun(s) || !IsNumeric(s)
    ensures AlphaRun(s + t) == AlphaRun(s) || IsNumeric(s)
  {
    RunsAppend(s, t);
  }

  lemma CommonSegment(s: seq<byte>, t: seq<byte>, u: seq<byte>)
    requires s != [] && Breaks(Last(s), t) && Breaks(Last(s), u) && Rank([Last(s)]) in {5, 6}
    ensures var v := s[SegmentLength(s)..];
      Compare(Scan(5, s + t), Scan(5, s + u)) == Compare(Scan(0, v + t), Scan(0, v + u))
  {
    hide Scan, Compare, DigitsValue, Breaks, Rank, DigitRun, AlphaRun, Last;
    FirstRunKept(s, t);
    FirstRunKept(s, u);
    var n := SegmentLength(s);
    assert (s + t)[..n] == s[..n] && (s + u)[..n] == s[..n];
    assert (s + t)[n..] == s[n..] + t && (s + u)[n..] == s[n..] + u;
    if IsNumeric(s) {
      NumericStep(s + t, s + u);
    } else {
      AlphaStep(s + t, s + u);
      CompareReflexive(s[..n]);
    }
  }

  /** One byte put behind a version that ends in a letter or digit. */
  lemma OneByteMore(s: seq<byte>, c: byte)
    requires NulFree(s) && s != [] && (48 <= Last(s) <= 57 || 65 <= Last(s) <= 90 || 97 <= Last(s) <= 122)
    ensures 65 <= c <= 90 || 97 <= c <= 122 || c == 45 || c == 46 || c == 94 ==> Order(s + [c], s) == 1
    ensures c == 126 ==> Order(s + [c], s) == -1
    ensures 49 <= c <= 57 || (c == 48 && !(48 <= Last(s) <= 57)) ==> Order(s + [c], s) == 1
    ensures c < 45 || c == 47 || 58 <= c <= 64 || 91 <= c <= 93 || c == 95 || c == 96 || 123 <= c <= 125 || c > 126 ==>
      Order(s + [c], s) == 0
  {
    hide Order, LastRun, SkipInvalid;
    SuffixLaw(s, [c]);
    OneByteRest(s, c);
  }

  lemma OneByteRest(s: seq<byte>, c: byte)
    requires s != []
    ensures !Digit(c) ==> AfterNumber(s, [c]) == [c] && !GrowsNumber(s, [c])
    ensures SkipInvalid([c]) == if Rank([c]) < 7 then [c] else []
    ensures 49 <= c <= 57 && Digit(Last(s)) ==> GrowsNumber(s, [c])
    ensures Digit(c) && !Digit(Last(s)) ==> AfterNumber(s, [c]) == [c]
  {
    hide LastRun;
    assert [c][0..] == [c] && [c][1..] == [];
    if Digit(c) {
      assert DigitRun([c]) == 1 && [c][..1] == [c] && [c][..0] == [];
      assert DigitsValue([c]) == c - 48;
    }
  }
}
