/** The one-hunk line diff of systemd-delta, and applying it. */
module LineDiff {
  import opened Text

  datatype Line = Context(text: string) | Removed(text: string) | Added(text: string)

  /** Starts count from 0; the printed header adds 1. */
  datatype Hunk = Hunk(startOld: nat, countOld: nat, startNew: nat, countNew: nat, lines: seq<Line>)

  const CONTEXT: nat := 3

  /** The lines of the old file that a hunk shows, and those of the new one. */
  function OldSide(lines: seq<Line>): (r: seq<string>)
    ensures |r| <= |lines|
  {
    if lines == [] then []
    else OldSide(lines[..|lines| - 1]) + (if lines[|lines| - 1].Added? then [] else [lines[|lines| - 1].text])
  }

  function NewSide(lines: seq<Line>): (r: seq<string>)
    ensures |r| <= |lines|
  {
    if lines == [] then []
    else NewSide(lines[..|lines| - 1]) + (if lines[|lines| - 1].Removed? then [] else [lines[|lines| - 1].text])
  }

  lemma SidesSnoc(lines: seq<Line>, line: Line)
    ensures OldSide(lines + [line]) == OldSide(lines) + (if line.Added? then [] else [line.text])
    ensures NewSide(lines + [line]) == NewSide(lines) + (if line.Removed? then [] else [line.text])
  {
    assert (lines + [line])[..|lines|] == lines;
  }

  /** A hunk that turns one list of lines into another, with at most three lines of context in front. */
  ghost predicate Describes(h: Hunk, before: seq<string>, after: seq<string>)
  {
    && h.startOld == h.startNew <= |before| && h.startNew <= |after|
    && before[..h.startOld] == after[..h.startNew]
    && OldSide(h.lines) == before[h.startOld..] && NewSide(h.lines) == after[h.startNew..]
    && h.countOld == |OldSide(h.lines)| && h.countNew == |NewSide(h.lines)|
    && LeadingContext(h)
  }

  /** The first change stands after all the context there is, or after three lines of it. */
  ghost predicate LeadingContext(h: Hunk) { exists k: nat :: FirstChange(h.lines, k, h.startOld) }

  predicate FirstChange(lines: seq<Line>, k: nat, start: nat)
  {
    k < |lines| && k <= CONTEXT && (k < CONTEXT ==> start == 0) && !lines[k].Context?
    && forall m :: 0 <= m < k ==> lines[m].Context?
  }

  /**
   A line is shown as removed only where it is not the new line that is due, and as added only when
   the old lines are used up; everything else is context.
   */
  ghost predicate Greedy(lines: seq<Line>, before: seq<string>, after: seq<string>, start: nat)
  {
    forall k :: 0 <= k < |lines| ==>
      var i, j := start + |OldSide(lines[..k])|, start + |NewSide(lines[..k])|;
      && (lines[k].Removed? ==> j >= |after| || lines[k].text != after[j])
      && (lines[k].Added? ==> i >= |before|)
  }

  lemma ContextIsGreedy(lines: seq<Line>, before: seq<string>, after: seq<string>, start: nat)
    requires forall k :: 0 <= k < |lines| ==> lines[k].Context?
    ensures Greedy(lines, before, after, start)
  {
  }

  lemma GreedyGrows(lines: seq<Line>, line: Line, before: seq<string>, i: nat, after: seq<string>, j: nat, start: nat)
    requires Greedy(lines, before, after, start) && i == start + |OldSide(lines)| && j == start + |NewSide(lines)|
    requires line.Removed? ==> j >= |after| || line.text != after[j]
    requires line.Added? ==> i >= |before|
    ensures Greedy(lines + [line], before, after, start)
  {
    hide OldSide, NewSide;
    forall k | 0 <= k < |lines| + 1
      ensures (lines + [line])[..k] == lines[..k]
    {
    }
    assert lines[..|lines|] == lines;
  }

  /** What an open hunk shows when the scan has reached old line `i` and new line `j`. */
  ghost predicate Shows(lines: seq<Line>, before: seq<string>, i: nat, after: seq<string>, j: nat, start: nat)
  {
    && start <= i <= |before| && start <= j <= |after|
    && before[..start] == after[..start]
    && OldSide(lines) == before[start..i] && NewSide(lines) == after[start..j]
  }

  /** The context before the first difference, which opens the hunk. */
  method OpenHunk(before: seq<string>, after: seq<string>, i: nat) returns (start: nat, lines: seq<Line>)
    requires i <= |before| && i <= |after| && before[..i] == after[..i]
    ensures start == if i < CONTEXT then 0 else i - CONTEXT
    ensures |lines| == i - start && forall k :: 0 <= k < |lines| ==> lines[k].Context?
    ensures Shows(lines, before, i, after, i, start)
  {
    start := if i < CONTEXT then 0 else i - CONTEXT;
    lines := [];
    for k := start to i
      invariant |lines| == k - start && forall m :: 0 <= m < |lines| ==> lines[m].Context?
      invariant OldSide(lines) == NewSide(lines) == before[start..k]
    {
      SidesSnoc(lines, Context(before[k]));
      assert before[start..k + 1] == before[start..k] + [before[k]];
      lines := lines + [Context(before[k])];
    }
    assert before[start..i] == before[..i][start..] && after[start..i] == after[..i][start..];
    assert before[..start] == before[..i][..start] && after[..start] == after[..i][..start];
  }

  /** One line added to the hunk: the sides grow by what it shows. */
  lemma Grow(lines: seq<Line>, line: Line, before: seq<string>, i: nat, after: seq<string>, j: nat, start: nat, first: nat)
    requires Shows(lines, before, i, after, j, start)
    requires !line.Added? ==> i < |before| && line.text == before[i]
    requires !line.Removed? ==> j < |after| && line.text == after[j]
    ensures Shows(lines + [line], before, if line.Added? then i else i + 1, after, if line.Removed? then j else j + 1, start)
    ensures FirstChange(lines, first, start) ==> FirstChange(lines + [line], first, start)
  {
    hide OldSide, NewSide;
    SidesSnoc(lines, line);
  }

  method SimpleDiff(before: seq<string>, after: seq<string>) returns (r: Option<Hunk>)
    ensures r.None? <==> before == after
    ensures r.Some? ==> Describes(r.value, before, after)
    ensures r.Some? ==> Greedy(r.value.lines, before, after, r.value.startOld)
  {
    hide Shows, FirstChange, Describes, Greedy;
    var i: nat, j: nat, inHunk := 0, 0, false;
    var lines: seq<Line> := [];
    var start: nat, countOld: nat, countNew: nat := 0, 0, 0;
    ghost var first: nat := 0;
    while i < |before| || j < |after|
      invariant i <= |before| && j <= |after|
      invariant !inHunk ==> i == j && before[..i] == after[..j]
      invariant inHunk ==> before != after && Shows(lines, before, i, after, j, start) && FirstChange(lines, first, start)
      invariant inHunk ==> countOld + start == i && countNew + start == j
      invariant inHunk ==> Greedy(lines, before, after, start)
      decreases |before| - i + |after| - j
    {
      if i < |before| && j < |after| && before[i] == after[j] {
        if inHunk {
          Grow(lines, Context(before[i]), before, i, after, j, start, first);
          Reached(lines, before, i, after, j, start);
          GreedyGrows(lines, Context(before[i]), before, i, after, j, start);
          lines := lines + [Context(before[i])];
          countOld, countNew := countOld + 1, countNew + 1;
        }
        i, j := i + 1, j + 1;
      } else {
        ghost var opening := !inHunk;
        if !inHunk {
          inHunk := true;
          start, lines := OpenHunk(before, after, i);
          countOld, countNew, first := |lines|, |lines|, |lines|;
          DifferHere(before, after, i);
          ContextIsGreedy(lines, before, after, start);
        }
        var removing := i < |before| && (j >= |after| || before[i] != after[j]);
        var line := if removing then Removed(before[i]) else Added(after[j]);
        Grow(lines, line, before, i, after, j, start, first);
        Reached(lines, before, i, after, j, start);
        GreedyGrows(lines, line, before, i, after, j, start);
        if opening {
          FirstChangeIsNew(lines, line, start);
        }
        lines := lines + [line];
        if removing {
          countOld, i := countOld + 1, i + 1;
        } else {
          countNew, j := countNew + 1, j + 1;
        }
      }
    }
    if !inHunk {
      assert before[..i] == before && after[..j] == after;
      return None;
    }
    FinishedHunk(Hunk(start, countOld, start, countNew, lines), before, after, first);
    r := Some(Hunk(start, countOld, start, countNew, lines));
  }

  lemma Reached(lines: seq<Line>, before: seq<string>, i: nat, after: seq<string>, j: nat, start: nat)
    requires Shows(lines, before, i, after, j, start)
    ensures i == start + |OldSide(lines)| && j == start + |NewSide(lines)|
  {
    hide OldSide, NewSide;
  }

  lemma FirstChangeIsNew(lines: seq<Line>, line: Line, start: nat)
    requires !line.Context? && forall m :: 0 <= m < |lines| ==> lines[m].Context?
    requires |lines| <= CONTEXT && (|lines| < CONTEXT ==> start == 0)
    ensures FirstChange(lines + [line], |lines|, start)
  {
  }

  lemma FinishedHunk(h: Hunk, before: seq<string>, after: seq<string>, first: nat)
    requires h.startOld == h.startNew && Shows(h.lines, before, |before|, after, |after|, h.startOld)
    requires h.countOld + h.startOld == |before| && h.countNew + h.startNew == |after|
    requires FirstChange(h.lines, first, h.startOld)
    ensures Describes(h, before, after)
  {
    hide OldSide, NewSide, FirstChange;
    assert before[h.startOld..|before|] == before[h.startOld..] && after[h.startNew..|after|] == after[h.startNew..];
  }

  lemma DifferHere(before: seq<string>, after: seq<string>, i: nat)
    requires i <= |before| && i <= |after| && (i < |before| || i < |after|)
    requires i < |before| && i < |after| ==> before[i] != after[i]
    ensures before != after
  {
  }

  // ---------- the hunk is determined ----------

  /** A line of the hunk is the line its sides show in its place. */
  lemma {:induction false} LineShows(lines: seq<Line>, k: nat)
    requires k < |lines|
    ensures var i, j := |OldSide(lines[..k])|, |NewSide(lines[..k])|;
      && (!lines[k].Added? ==> i < |OldSide(lines)| && OldSide(lines)[i] == lines[k].text)
      && (!lines[k].Removed? ==> j < |NewSide(lines)| && NewSide(lines)[j] == lines[k].text)
  {
    var n := |lines| - 1;
    if k < n {
      LineShows(lines[..n], k);
      assert lines[..n][..k] == lines[..k];
    }
  }

  /** Where the lists first differ, if they do. */
  predicate DifferFirstAt(before: seq<string>, after: seq<string>, d: nat)
  {
    && d <= |before| && d <= |after| && before[..d] == after[..d]
    && (d < |before| || d < |after|) && (d < |before| && d < |after| ==> before[d] != after[d])
  }

  lemma FirstDifferenceUnique(before: seq<string>, after: seq<string>, d: nat, e: nat)
    requires DifferFirstAt(before, after, d) && DifferFirstAt(before, after, e)
    ensures d == e
  {
    assert forall k :: 0 <= k < e ==> before[k] == before[..e][k] && after[k] == after[..e][k];
    assert forall k :: 0 <= k < d ==> before[k] == before[..d][k] && after[k] == after[..d][k];
  }

  lemma {:induction false} ContextSides(lines: seq<Line>, k: nat)
    requires k <= |lines| && forall m :: 0 <= m < k ==> lines[m].Context?
    ensures |OldSide(lines[..k])| == |NewSide(lines[..k])| == k
  {
    if k > 0 {
      ContextSides(lines, k - 1);
      assert lines[..k][..k - 1] == lines[..k - 1];
    }
  }

  /** The hunk starts three lines before the first difference, or at the front. */
  lemma HunkStart(h: Hunk, before: seq<string>, after: seq<string>)
    requires Describes(h, before, after) && Greedy(h.lines, before, after, h.startOld)
    ensures exists d: nat :: DifferFirstAt(before, after, d) && h.startOld == if d < 3 then 0 else d - 3
  {
    hide OldSide, NewSide;
    var k: nat :| FirstChange(h.lines, k, h.startOld);
    var d := h.startOld + k;
    ContextSides(h.lines, k);
    LineShows(h.lines, k);
    forall m | h.startOld <= m < d
      ensures m < |before| && m < |after| && before[m] == after[m]
    {
      ContextSides(h.lines, m - h.startOld);
      LineShows(h.lines, m - h.startOld);
    }
    if k > 0 {
      ContextSides(h.lines, k - 1);
      LineShows(h.lines, k - 1);
    }
    assert before[..d] == before[..h.startOld] + before[h.startOld..d];
    assert after[..d] == after[..h.startOld] + after[h.startOld..d];
    assert DifferFirstAt(before, after, d);
  }

  lemma {:induction false} LinesDetermined(h: Hunk, g: Hunk, before: seq<string>, after: seq<string>, k: nat)
    requires Describes(h, before, after) && Greedy(h.lines, before, after, h.startOld)
    requires Describes(g, before, after) && Greedy(g.lines, before, after, g.startOld)
    requires h.startOld == g.startOld && k <= |h.lines|
    ensures k <= |g.lines| && h.lines[..k] == g.lines[..k]
  {
    hide OldSide, NewSide, LeadingContext;
    if k > 0 {
      LinesDetermined(h, g, before, after, k - 1);
      LineShows(h.lines, k - 1);
      assert g.lines[..|g.lines|] == g.lines;
      if k - 1 < |g.lines| {
        LineShows(g.lines, k - 1);
      }
      assert h.lines[..k] == h.lines[..k - 1] + [h.lines[k - 1]];
    }
  }

  /** There is only one hunk like that of a diff. */
  lemma HunkIsDetermined(h: Hunk, g: Hunk, before: seq<string>, after: seq<string>)
    requires Describes(h, before, after) && Greedy(h.lines, before, after, h.startOld)
    requires Describes(g, before, after) && Greedy(g.lines, before, after, g.startOld)
    ensures h == g
  {
    hide OldSide, NewSide, LeadingContext, Greedy, DifferFirstAt;
    HunkStart(h, before, after);
    HunkStart(g, before, after);
    var d: nat :| DifferFirstAt(before, after, d) && h.startOld == if d < 3 then 0 else d - 3;
    var e: nat :| DifferFirstAt(before, after, e) && g.startOld == if e < 3 then 0 else e - 3;
    FirstDifferenceUnique(before, after, d, e);
    LinesDetermined(h, g, before, after, |h.lines|);
    LinesDetermined(g, h, before, after, |g.lines|);
    assert h.lines[..|h.lines|] == h.lines && g.lines[..|g.lines|] == g.lines;
  }

  // ---------- applying a hunk ----------

  /** Walks the hunk along the old lines, which its context and removed lines must match. */
  function ApplyLines(rest: seq<string>, lines: seq<Line>): Option<seq<string>>
  {
    if lines == [] then Some(rest)
    else match lines[0]
      case Added(text) =>
        (match ApplyLines(rest, lines[1..]) case None => None case Some(tail) => Some([text] + tail))
      case Removed(text) =>
        if rest != [] && rest[0] == text then ApplyLines(rest[1..], lines[1..]) else None
      case Context(text) =>
        if rest != [] && rest[0] == text then
          (match ApplyLines(rest[1..], lines[1..]) case None => None case Some(tail) => Some([text] + tail))
        else None
  }

  function Apply(before: seq<string>, h: Hunk): Option<seq<string>>
  {
    if h.startOld > |before| then None
    else match ApplyLines(before[h.startOld..], h.lines)
      case None => None
      case Some(tail) => Some(before[..h.startOld] + tail)
  }

  /** The hunk that undoes a hunk. */
  function Undo(h: Hunk): Hunk
  {
    Hunk(h.startNew, h.countNew, h.startOld, h.countOld,
         seq(|h.lines|, k requires 0 <= k < |h.lines| =>
           match h.lines[k] case Context(t) => Context(t) case Removed(t) => Added(t) case Added(t) => Removed(t)))
  }

  lemma {:induction false} SidesCons(line: Line, lines: seq<Line>)
    ensures OldSide([line] + lines) == (if line.Added? then [] else [line.text]) + OldSide(lines)
    ensures NewSide([line] + lines) == (if line.Removed? then [] else [line.text]) + NewSide(lines)
  {
    hide OldSide, NewSide;
    if lines == [] {
      NoSides();
      assert [line] + lines == [] + [line];
      SidesSnoc([], line);
    } else {
      var n := |lines| - 1;
      SidesCons(line, lines[..n]);
      assert [line] + lines == [line] + lines[..n] + [lines[n]];
      assert lines == lines[..n] + [lines[n]];
      SidesSnoc(lines[..n], lines[n]);
      SidesSnoc([line] + lines[..n], lines[n]);
    }
  }

  lemma {:induction false} ApplyLinesGivesNewSide(lines: seq<Line>)
    ensures ApplyLines(OldSide(lines), lines) == Some(NewSide(lines))
  {
    hide OldSide, NewSide;
    if lines == [] {
      NoSides();
    } else {
      assert lines == [lines[0]] + lines[1..];
      SidesCons(lines[0], lines[1..]);
      ApplyLinesGivesNewSide(lines[1..]);
      var o := OldSide(lines[1..]);
      assert [] + o == o && ([lines[0].text] + o)[1..] == o;
      assert [] + NewSide(lines[1..]) == NewSide(lines[1..]);
    }
  }

  lemma NoSides()
    ensures OldSide([]) == [] && NewSide([]) == []
  {
  }

  lemma {:induction false} UndoSwapsSides(h: Hunk)
    ensures OldSide(Undo(h).lines) == NewSide(h.lines) && NewSide(Undo(h).lines) == OldSide(h.lines)
    decreases |h.lines|
  {
    if h.lines != [] {
      var n := |h.lines| - 1;
      UndoSwapsSides(h.(lines := h.lines[..n]));
      assert Undo(h).lines[..n] == Undo(h.(lines := h.lines[..n])).lines;
    }
  }

  /** The hunk of a diff turns the old lines into the new ones, and undone the new into the old. */
  lemma DiffApplies(h: Hunk, before: seq<string>, after: seq<string>)
    requires Describes(h, before, after)
    ensures Apply(before, h) == Some(after)
    ensures Apply(after, Undo(h)) == Some(before)
  {
    hide OldSide, NewSide, ApplyLines, LeadingContext;
    ApplyLinesGivesNewSide(h.lines);
    UndoSwapsSides(h);
    ApplyLinesGivesNewSide(Undo(h).lines);
    assert before[..h.startOld] + before[h.startOld..] == before;
    assert after[..h.startNew] + after[h.startNew..] == after;
  }
}
