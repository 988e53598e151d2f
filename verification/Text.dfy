/** The string operations of the original's standard library that the model needs. */
module Text {

  datatype Option<+T> = None | Some(value: T)

  // ---------- positions and pieces ----------

  /** The position of the first `c` in `s`, or |s|. */
  function IndexOf(s: string, c: char): (k: nat)
    ensures k <= |s|
    ensures c !in s[..k]
    ensures k < |s| ==> s[k] == c
  {
    if s == [] || s[0] == c then 0 else 1 + IndexOf(s[1..], c)
  }

  lemma {:induction false} IndexOfFirst(x: string, c: char, rest: string)
    requires c !in x
    ensures IndexOf(x + [c] + rest, c) == |x|
  {
    if x == [] {
      assert x + [c] + rest == [c] + rest;
    } else {
      assert (x + [c] + rest)[1..] == x[1..] + [c] + rest;
      IndexOfFirst(x[1..], c, rest);
    }
  }

  lemma {:induction false} IndexOfAbsent(s: string, c: char)
    requires c !in s
    ensures IndexOf(s, c) == |s|
  {
    if s != [] {
      IndexOfAbsent(s[1..], c);
    }
  }

  /** The text before and after the first `c`, if there is one. */
  function SplitOnce(s: string, c: char): (r: Option<(string, string)>)
    ensures r.Some? ==> s == r.value.0 + [c] + r.value.1 && c !in r.value.0
    ensures r.None? ==> c !in s
  {
    var k := IndexOf(s, c);
    if k == |s| then assert s[..k] == s; None else Some((s[..k], s[k + 1..]))
  }

  lemma SplitOnceFirst(x: string, c: char, rest: string)
    requires c !in x
    ensures SplitOnce(x + [c] + rest, c) == Some((x, rest))
  {
    IndexOfFirst(x, c, rest);
    assert (x + [c] + rest)[..|x|] == x && (x + [c] + rest)[|x| + 1..] == rest;
  }

  /** The text before and after the last `c`, if there is one. */
  function RSplitOnce(s: string, c: char): (r: Option<(string, string)>)
    ensures r.Some? ==> s == r.value.0 + [c] + r.value.1 && c !in r.value.1
    ensures r.None? ==> c !in s
  {
    if s == [] then None
    else if s[|s| - 1] == c then Some((s[..|s| - 1], []))
    else match RSplitOnce(s[..|s| - 1], c)
      case None => None
      case Some((head, tail)) => Some((head, tail + [s[|s| - 1]]))
  }

  lemma {:induction false} RSplitOnceLast(head: string, c: char, x: string)
    requires c !in x
    ensures RSplitOnce(head + [c] + x, c) == Some((head, x))
  {
    var s := head + [c] + x;
    if x == [] {
      assert s[..|s| - 1] == head;
    } else {
      assert s[..|s| - 1] == head + [c] + x[..|x| - 1];
      RSplitOnceLast(head, c, x[..|x| - 1]);
      assert x == x[..|x| - 1] + [x[|x| - 1]];
    }
  }

  /** The pieces of `s` between the occurrences of `c`, empty ones included. */
  function Split(s: string, c: char): (parts: seq<string>)
    ensures |parts| > 0
    ensures forall k :: 0 <= k < |parts| ==> c !in parts[k]
    decreases |s|
  {
    var k := IndexOf(s, c);
    if k == |s| then assert s[..k] == s; [s] else [s[..k]] + Split(s[k + 1..], c)
  }

  lemma SplitFirst(x: string, c: char, rest: string)
    requires c !in x
    ensures Split(x + [c] + rest, c) == [x] + Split(rest, c)
  {
    IndexOfFirst(x, c, rest);
    assert (x + [c] + rest)[..|x|] == x && (x + [c] + rest)[|x| + 1..] == rest;
  }

  lemma SplitSingle(s: string, c: char)
    requires c !in s
    ensures Split(s, c) == [s]
  {
    IndexOfAbsent(s, c);
  }

  lemma SplitThree(x: string, y: string, z: string, c: char)
    requires c !in x && c !in y && c !in z
    ensures Split(x + [c] + (y + [c] + z), c) == [x, y, z]
  {
    SplitFirst(x, c, y + [c] + z);
    SplitFirst(y, c, z);
    SplitSingle(z, c);
  }

  /** The parts with `sep` between them. */
  function Join(parts: seq<string>, sep: string): string
  {
    if parts == [] then ""
    else if |parts| == 1 then parts[0]
    else parts[0] + sep + Join(parts[1..], sep)
  }

  lemma {:induction false} JoinSnoc(parts: seq<string>, x: string, sep: string)
    ensures Join(parts + [x], sep) == if parts == [] then x else Join(parts, sep) + sep + x
  {
    if |parts| == 1 {
      assert (parts + [x])[1..] == [x];
    } else if |parts| > 1 {
      assert (parts + [x])[1..] == parts[1..] + [x];
      JoinSnoc(parts[1..], x, sep);
    }
  }

  // ---------- characters and ends ----------

  function LowerAscii(c: char): char { if 'A' <= c <= 'Z' then (c as int + 32) as char else c }

  predicate EndsWith(s: string, suffix: string) { |suffix| <= |s| && s[|s| - |suffix|..] == suffix }

  // ---------- trimming ----------

  /** The White_Space property of Unicode. */
  predicate IsWhitespace(c: char)
  {
    '\U{0009}' <= c <= '\U{000D}' || c == ' ' || c == '\U{0085}' || c == '\U{00A0}' || c == '\U{1680}'
    || '\U{2000}' <= c <= '\U{200A}' || c == '\U{2028}' || c == '\U{2029}' || c == '\U{202F}' || c == '\U{205F}'
    || c == '\U{3000}'
  }

  function TrimStart(s: string): (r: string)
    ensures |r| <= |s|
  {
    if s != [] && IsWhitespace(s[0]) then TrimStart(s[1..]) else s
  }

  function TrimEnd(s: string): (r: string)
    ensures |r| <= |s|
  {
    if s != [] && IsWhitespace(s[|s| - 1]) then TrimEnd(s[..|s| - 1]) else s
  }

  function Trim(s: string): string { TrimEnd(TrimStart(s)) }

  /** Text with a character that is no white space at either end is left alone. */
  predicate Tight(s: string) { s != [] && !IsWhitespace(s[0]) && !IsWhitespace(s[|s| - 1]) }

  lemma TrimTight(s: string)
    requires Tight(s)
    ensures TrimStart(s) == TrimEnd(s) == Trim(s) == s
  {
  }

  // ---------- order ----------

  /** The characters as numbers, by which text is ordered. */
  function Codes(s: string): seq<int> { seq(|s|, k requires 0 <= k < |s| => s[k] as int) }

  lemma CodesInjective(a: string, b: string)
    requires Codes(a) == Codes(b)
    ensures a == b
  {
    forall k | 0 <= k < |a|
      ensures a[k] == b[k]
    {
      assert Codes(a)[k] == a[k] as int && Codes(b)[k] == b[k] as int;
    }
  }
}
