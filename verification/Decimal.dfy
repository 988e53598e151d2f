/** Decimal digits, as numbers and as text. */
module Decimal {
  import opened Bytes
  import opened Lexicographic
  import opened Text

  predicate AllDigits(s: seq<byte>) { forall k :: 0 <= k < |s| ==> IsDigitByte(s[k]) }

  /** The number a run of ASCII digit bytes denotes, most significant digit first. */
  function DigitsValue(s: seq<byte>): (n: nat)
    requires AllDigits(s)
  {
    if s == [] then 0 else 10 * DigitsValue(s[..|s| - 1]) + (s[|s| - 1] as int - 48)
  }

  /** Leading zeros do not change the number. */
  lemma {:induction false} LeadingZeros(s: seq<byte>, k: nat)
    requires AllDigits(s) && k <= |s|
    requires forall m :: 0 <= m < k ==> s[m] == 48
    ensures DigitsValue(s[k..]) == DigitsValue(s)
  {
    if k < |s| {
      LeadingZeros(s[..|s| - 1], k);
      assert s[k..][..|s| - k - 1] == s[..|s| - 1][k..];
    } else if s != [] {
      LeadingZeros(s[..|s| - 1], k - 1);
      assert s[..|s| - 1][k - 1..] == [];
    }
  }

  /** Without leading zeros, the shorter run is the smaller number. */
  lemma {:induction false} ShorterIsSmaller(x: seq<byte>, y: seq<byte>)
    requires AllDigits(x) && AllDigits(y)
    requires |x| < |y| && y[0] != 48
    ensures DigitsValue(x) < DigitsValue(y)
    decreases |y|
  {
    if |y| > 1 {
      ShorterIsSmaller(if x == [] then x else x[..|x| - 1], y[..|y| - 1]);
    }
  }

  /** Runs of one length compare as text the way they compare as numbers. */
  lemma {:induction false} SameLengthCompare(x: seq<byte>, y: seq<byte>)
    requires AllDigits(x) && AllDigits(y)
    requires |x| == |y|
    ensures Compare(x, y) == Sign(DigitsValue(x), DigitsValue(y))
  {
    if x != [] {
      var n := |x| - 1;
      SameLengthCompare(x[..n], y[..n]);
      CompareSnoc(x[..n], x[n], y[..n], y[n]);
      assert x == x[..n] + [x[n]] && y == y[..n] + [y[n]];
    }
  }

  lemma {:induction false} CompareSnoc(x: seq<int>, c: int, y: seq<int>, d: int)
    requires |x| == |y|
    ensures Compare(x + [c], y + [d]) == if Compare(x, y) != 0 then Compare(x, y) else Sign(c, d)
  {
    if x != [] {
      assert (x + [c])[1..] == x[1..] + [c] && (y + [d])[1..] == y[1..] + [d];
      CompareSnoc(x[1..], c, y[1..], d);
    }
  }

  // ---------- as text ----------

  predicate IsDigit(c: char) { '0' <= c <= '9' }

  predicate Digits(s: string) { forall k :: 0 <= k < |s| ==> IsDigit(s[k]) }

  /** The number a run of decimal digits denotes. */
  function NumberOf(s: string): nat
    requires Digits(s)
  {
    if s == [] then 0 else 10 * NumberOf(s[..|s| - 1]) + (s[|s| - 1] as int - 48)
  }

  function DigitChar(d: nat): char
    requires d < 10
  {
    (48 + d) as char
  }

  /** The decimal notation of `n`. */
  function ToDecimal(n: nat): (s: string)
    ensures s != [] && Digits(s)
    ensures NumberOf(s) == n
  {
    if n < 10 then assert [DigitChar(n)][..0] == []; [DigitChar(n)]
    else
      var s := ToDecimal(n / 10) + [DigitChar(n % 10)];
      assert s[..|s| - 1] == ToDecimal(n / 10);
      s
  }

  /** `s` with zeros in front up to the width. */
  function ZeroPad(s: string, width: nat): (r: string)
    decreases width - |s|
  {
    if |s| < width then ZeroPad("0" + s, width) else s
  }

  lemma {:induction false} ZeroPadDenotes(s: string, width: nat)
    requires Digits(s)
    ensures Digits(ZeroPad(s, width)) && NumberOf(ZeroPad(s, width)) == NumberOf(s)
    ensures |ZeroPad(s, width)| == if |s| < width then width else |s|
    decreases width - |s|
  {
    if |s| < width {
      LeadingZero(s);
      ZeroPadDenotes("0" + s, width);
    }
  }

  lemma {:induction false} LeadingZero(s: string)
    requires Digits(s)
    ensures Digits("0" + s) && NumberOf("0" + s) == NumberOf(s)
  {
    if s == [] {
      assert ("0" + s)[..0] == [];
    } else {
      LeadingZero(s[..|s| - 1]);
      assert ("0" + s)[..|s|] == "0" + s[..|s| - 1];
    }
  }

  /** An unsigned number below `limit`: an optional plus sign and at least one digit. */
  function ParseUnsigned(s: string, limit: nat): (r: Option<nat>)
    ensures r.Some? ==> r.value < limit
  {
    var digits := if s != [] && s[0] == '+' then s[1..] else s;
    if digits != [] && Digits(digits) && NumberOf(digits) < limit then Some(NumberOf(digits)) else None
  }
}
