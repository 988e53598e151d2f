/**
 The two glob matchers of systemd-analyze.  One backtracks; the other walks the version once, taking
 the leftmost occurrence of each literal part.  The greedy one is complete: it decides the
 backtracking matcher on a related pattern.
 */
module Glob {
  import opened Text

  /** What a pattern matches; `question` says whether `?` is a wildcard or an ordinary character. */
  predicate Matches(pat: string, txt: string, question: bool)
    decreases |pat|
  {
    if pat == [] then txt == []
    else if pat[0] == '*' then exists i :: 0 <= i <= |txt| && Matches(pat[1..], txt[i..], question)
    else txt != [] && (txt[0] == pat[0] || (question && pat[0] == '?')) && Matches(pat[1..], txt[1..], question)
  }

  /** The backtracking matcher. */
  method GlobMatchInner(pat: string, txt: string) returns (b: bool)
    ensures b == Matches(pat, txt, true)
    decreases |pat|
  {
    if pat == [] {
      return txt == [];
    }
    if pat[0] == '*' {
      for i := 0 to |txt| + 1
        invariant forall k :: 0 <= k < i ==> !Matches(pat[1..], txt[k..], true)
      {
        var found := GlobMatchInner(pat[1..], txt[i..]);
        if found {
          return true;
        }
      }
      return false;
    }
    if txt == [] || (pat[0] != '?' && txt[0] != pat[0]) {
      return false;
    }
    b := GlobMatchInner(pat[1..], txt[1..]);
  }

  /** `x` occurs in `v` at `i`. */
  predicate OccursAt(v: string, x: string, i: nat) { i + |x| <= |v| && v[i..i + |x|] == x }

  /** The leftmost occurrence. */
  method Find(v: string, x: string) returns (r: Option<nat>)
    ensures r.None? ==> forall i: nat :: !OccursAt(v, x, i)
    ensures r.Some? ==> OccursAt(v, x, r.value) && forall i: nat :: i < r.value ==> !OccursAt(v, x, i)
  {
    var i := 0;
    while i + |x| <= |v|
      invariant forall k: nat :: k < i ==> !OccursAt(v, x, k)
    {
      if v[i..i + |x|] == x {
        return Some(i);
      }
      i := i + 1;
    }
    return None;
  }

  /** The pattern that remains once the parts before `parts` are placed; nothing anchors its end. */
  function Remaining(parts: seq<string>): (pat: string)
    ensures pat != [] && pat[0] == '*'
  {
    if parts == [] then "*" else "*" + parts[0] + Remaining(parts[1..])
  }

  lemma {:induction false} SplitRemaining(p: string)
    ensures var parts := Split(p, '*'); parts[0] + Remaining(parts[1..]) == p + "*"
    decreases |p|
  {
    var k := IndexOf(p, '*');
    if k < |p| {
      var rest := Split(p[k + 1..], '*');
      SplitRemaining(p[k + 1..]);
      assert Split(p, '*')[0] == p[..k] && Split(p, '*')[1..] == rest;
      RemainingStep(p[..k], rest, p[k + 1..]);
      assert p == p[..k] + "*" + p[k + 1..];
    } else {
      assert p[..k] == p && Split(p, '*')[1..] == [];
    }
  }

  lemma RemainingStep(x: string, rest: seq<string>, tail: string)
    requires rest != [] && rest[0] + Remaining(rest[1..]) == tail + "*"
    ensures x + Remaining(rest) == x + "*" + tail + "*"
  {
    assert "*" + rest[0] + Remaining(rest[1..]) == "*" + (rest[0] + Remaining(rest[1..]));
  }

  /** A literal prefix of the pattern is a prefix of the text. */
  lemma {:induction false} LiteralPrefix(x: string, q: string, v: string, question: bool)
    requires '*' !in x && (question ==> '?' !in x)
    ensures Matches(x + q, v, question) <==> x <= v && Matches(q, v[|x|..], question)
  {
    if x == [] {
      assert x + q == q;
    } else {
      assert (x + q)[1..] == x[1..] + q;
      if v != [] {
        LiteralPrefix(x[1..], q, v[1..], question);
        if v[0] == x[0] {
          assert v == [v[0]] + v[1..] && x == [x[0]] + x[1..];
          assert x[1..] <= v[1..] <==> x <= v;
        }
      }
    }
  }

  /** A pattern that starts with `*` still matches when text is put in front. */
  lemma StarAbsorbs(q: string, v: string, i: nat, question: bool)
    requires q != [] && q[0] == '*' && i <= |v|
    requires Matches(q, v[i..], question)
    ensures Matches(q, v, question)
  {
    var k :| 0 <= k <= |v[i..]| && Matches(q[1..], v[i..][k..], question);
    assert v[i..][k..] == v[i + k..];
  }

  /** A second `*` changes nothing. */
  lemma StarStar(q: string, v: string, question: bool)
    requires q != [] && q[0] == '*'
    ensures Matches("*" + q, v, question) <==> Matches(q, v, question)
  {
    assert ("*" + q)[1..] == q;
    if Matches("*" + q, v, question) {
      var i :| 0 <= i <= |v| && Matches(q, v[i..], question);
      StarAbsorbs(q, v, i, question);
    } else {
      assert v[0..] == v;
    }
  }

  /** If `*x` then `q` matches at all, it matches with `x` at its leftmost occurrence. */
  lemma LeftmostSuffices(x: string, q: string, v: string, i: nat, question: bool)
    requires '*' !in x && (question ==> '?' !in x)
    requires q != [] && q[0] == '*'
    requires OccursAt(v, x, i) && forall k: nat :: k < i ==> !OccursAt(v, x, k)
    ensures Matches("*" + x + q, v, question) <==> Matches(q, v[i + |x|..], question)
  {
    assert ("*" + x + q)[1..] == x + q;
    if Matches("*" + x + q, v, question) {
      var k :| 0 <= k <= |v| && Matches(x + q, v[k..], question);
      LiteralPrefix(x, q, v[k..], question);
      assert OccursAt(v, x, k);
      assert v[k..][|x|..] == v[i + |x|..][k - i..];
      StarAbsorbs(q, v[i + |x|..], k - i, question);
    }
    if Matches(q, v[i + |x|..], question) {
      LiteralPrefix(x, q, v[i..], question);
      assert v[i..][|x|..] == v[i + |x|..];
      assert Matches((("*" + x) + q)[1..], v[i..], question);
    }
  }

  lemma NoOccurrence(x: string, q: string, v: string, question: bool)
    requires '*' !in x && (question ==> '?' !in x)
    requires forall k: nat :: !OccursAt(v, x, k)
    ensures !Matches("*" + x + q, v, question)
  {
    assert ("*" + x + q)[1..] == x + q;
    forall k: nat | k <= |v|
      ensures !Matches(x + q, v[k..], question)
    {
      LiteralPrefix(x, q, v[k..], question);
      assert !OccursAt(v, x, k);
    }
  }

  lemma StarMatchesAll(v: string, question: bool)
    ensures Matches("*", v, question)
  {
    assert v[|v|..] == [] && "*"[1..] == [];
  }

  /** The pattern the greedy matcher decides: its end is never anchored, nor its start without `*`. */
  function Unanchored(pattern: string): string
  {
    if '*' in pattern then pattern + "*" else "*" + pattern + "*"
  }

  /** The greedy matcher. */
  method MatchesKernelGlob(pattern: string, version: string) returns (b: bool)
    ensures b == Matches(Unanchored(pattern), version, false)
    ensures '*' !in pattern ==>
      (b <==> exists x: string, y: string :: version == x + pattern + y)
    ensures '*' in pattern ==> b == Matches(pattern + "*", version, false)
  {
    hide Matches;
    if '*' !in pattern {
      var at := Find(version, pattern);
      if at.Some? {
        StarMatchesAll(version[at.value + |pattern|..], false);
        LeftmostSuffices(pattern, "*", version, at.value, false);
        assert version == version[..at.value] + pattern + version[at.value + |pattern|..];
      } else {
        NoOccurrence(pattern, "*", version, false);
        forall x: string, y: string | version == x + pattern + y
          ensures OccursAt(version, pattern, |x|)
        {
        }
      }
      return at.Some?;
    }
    var parts := Split(pattern, '*');
    SplitRemaining(pattern);
    LiteralPrefix(parts[0], Remaining(parts[1..]), version, false);
    if !(parts[0] <= version) {
      return false;
    }
    b := PlaceParts(parts[1..], version, |parts[0]|);
  }

  /** The parts after the first, each at its leftmost occurrence from `from` on. */
  method PlaceParts(parts: seq<string>, version: string, from: nat) returns (b: bool)
    requires from <= |version| && forall k :: 0 <= k < |parts| ==> '*' !in parts[k]
    ensures b == Matches(Remaining(parts), version[from..], false)
  {
    hide Matches;
    var pos := from;
    assert parts[0..] == parts;
    for i := 0 to |parts|
      invariant from <= pos <= |version|
      invariant Matches(Remaining(parts), version[from..], false) <==> Matches(Remaining(parts[i..]), version[pos..], false)
    {
      var part := parts[i];
      var rest := Remaining(parts[i + 1..]);
      assert Remaining(parts[i..]) == "*" + part + rest by {
        assert parts[i..][1..] == parts[i + 1..];
      }
      if part == [] {
        StarStar(rest, version[pos..], false);
        assert "*" + part + rest == "*" + rest;
        continue;
      }
      var at := Find(version[pos..], part);
      if at.None? {
        NoOccurrence(part, rest, version[pos..], false);
        return false;
      }
      LeftmostSuffices(part, rest, version[pos..], at.value, false);
      assert version[pos..][at.value + |part|..] == version[pos + at.value + |part|..];
      pos := pos + at.value + |part|;
    }
    StarMatchesAll(version[pos..], false);
    return true;
  }

  /** Without `?` the two readings of a pattern agree. */
  lemma {:induction false} QuestionFree(pat: string, txt: string)
    requires '?' !in pat
    ensures Matches(pat, txt, true) <==> Matches(pat, txt, false)
    decreases |pat|
  {
    if pat != [] {
      if pat[0] == '*' {
        forall i | 0 <= i <= |txt|
          ensures Matches(pat[1..], txt[i..], true) <==> Matches(pat[1..], txt[i..], false)
        {
          QuestionFree(pat[1..], txt[i..]);
        }
      } else if txt != [] {
        QuestionFree(pat[1..], txt[1..]);
      }
    }
  }

  /** A text for a pattern with its wildcards: nothing for `*`, an `a` for `?`. */
  function Instance(pat: string): (txt: string)
    ensures '?' !in txt
  {
    if pat == [] then [] else (if pat[0] == '*' then [] else if pat[0] == '?' then "a" else [pat[0]]) + Instance(pat[1..])
  }

  lemma {:induction false} InstanceMatches(pat: string)
    ensures Matches(pat, Instance(pat), true)
  {
    if pat != [] {
      InstanceMatches(pat[1..]);
      if pat[0] == '*' {
        assert Instance(pat)[0..] == Instance(pat[1..]);
      } else {
        assert Instance(pat)[1..] == Instance(pat[1..]);
      }
    }
  }

  /** An ordinary `?` in the pattern asks for one in the text. */
  lemma {:induction false} OrdinaryQuestion(pat: string, txt: string)
    requires '?' in pat && Matches(pat, txt, false)
    ensures '?' in txt
    decreases |pat|
  {
    if pat[0] == '*' {
      var i :| 0 <= i <= |txt| && Matches(pat[1..], txt[i..], false);
      OrdinaryQuestion(pat[1..], txt[i..]);
    } else if pat[0] != '?' {
      OrdinaryQuestion(pat[1..], txt[1..]);
    }
  }

  /**
   Greedy against backtracking: on every version the greedy matcher gives the backtracking answer for
   the pattern with its open ends written out, exactly when the pattern has no `?`.
   */
  lemma GreedyIsComplete(p: string)
    ensures (forall v: string :: Matches(Unanchored(p), v, false) <==> Matches(Unanchored(p), v, true)) <==> '?' !in p
    ensures '*' in p ==> Unanchored(p) == p + "*"
  {
    var q := Unanchored(p);
    assert '?' in q <==> '?' in p;
    if '?' in p {
      var v := Instance(q);
      InstanceMatches(q);
      if Matches(q, v, false) {
        OrdinaryQuestion(q, v);
      }
      assert Matches(q, v, true) && !Matches(q, v, false);
    } else {
      forall v: string
        ensures Matches(q, v, false) <==> Matches(q, v, true)
      {
        QuestionFree(q, v);
      }
    }
  }
}
