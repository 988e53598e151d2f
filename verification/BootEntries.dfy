/**
 The boot menu of bootctl: entries ordered by sort key, version (newest first) and id, then the
 default and one-shot entries marked in place.
 */
module BootEntries {
  import opened Text
  import opened Lexicographic
  import opened BootVersion

  datatype Entry = Entry(id: string, version: Option<string>, sortKey: Option<string>, isDefault: bool, isOneshot: bool)

  function OrEmpty(s: Option<string>): string { match s case Some(t) => t case None => "" }

  /** The menu order. */
  function EntryOrder(a: Entry, b: Entry): int
  {
    var byKey := Compare(Codes(OrEmpty(a.sortKey)), Codes(OrEmpty(b.sortKey)));
    var byVersion := VersionOrder(OrEmpty(b.version), OrEmpty(a.version));
    if byKey != 0 then byKey else if byVersion != 0 then byVersion else Compare(Codes(a.id), Codes(b.id))
  }

  predicate EntryFits(e: Entry) { Fits(OrEmpty(e.version)) }

  lemma EntryAntisymmetric(a: Entry, b: Entry)
    requires EntryFits(a) && EntryFits(b)
    ensures EntryOrder(a, a) == 0
    ensures EntryOrder(b, a) == -EntryOrder(a, b)
    ensures EntryOrder(a, b) == 0 ==> a.id == b.id
  {
    hide Fits, VersionOrder, Compare, Codes;
    var ka, kb := Codes(OrEmpty(a.sortKey)), Codes(OrEmpty(b.sortKey));
    CompareReflexive(ka);
    CompareReflexive(Codes(a.id));
    CompareAntisymmetric(ka, kb);
    CompareAntisymmetric(Codes(a.id), Codes(b.id));
    TotalPreorder(OrEmpty(a.version), OrEmpty(b.version), OrEmpty(b.version));
    CompareEqual(Codes(a.id), Codes(b.id));
    if Codes(a.id) == Codes(b.id) {
      CodesInjective(a.id, b.id);
    }
  }

  /** On entries whose versions fit, the menu order is transitive. */
  lemma EntryTransitive(a: Entry, b: Entry, c: Entry)
    requires EntryFits(a) && EntryFits(b) && EntryFits(c)
    requires EntryOrder(a, b) <= 0 && EntryOrder(b, c) <= 0
    ensures EntryOrder(a, c) <= 0
  {
    hide Fits, VersionOrder, Compare, Codes;
    var ka, kb, kc := Codes(OrEmpty(a.sortKey)), Codes(OrEmpty(b.sortKey)), Codes(OrEmpty(c.sortKey));
    CompareTransitive(ka, kb, kc);
    TotalPreorder(OrEmpty(c.version), OrEmpty(b.version), OrEmpty(a.version));
    if Compare(Codes(a.id), Codes(b.id)) <= 0 && Compare(Codes(b.id), Codes(c.id)) <= 0 {
      CompareTransitive(Codes(a.id), Codes(b.id), Codes(c.id));
    }
  }

  predicate Sorted(menu: seq<Entry>)
  {
    forall i, j :: 0 <= i < j < |menu| ==> EntryOrder(menu[i], menu[j]) <= 0
  }

  predicate DistinctIds(menu: seq<Entry>)
  {
    forall i, j :: 0 <= i < j < |menu| ==> menu[i].id != menu[j].id
  }

  /** Neighbours in order make the whole menu ordered. */
  lemma {:induction false} SortedByNeighbours(menu: seq<Entry>)
    requires forall k :: 0 <= k < |menu| ==> EntryFits(menu[k])
    requires forall k :: 0 < k < |menu| ==> EntryOrder(menu[k - 1], menu[k]) <= 0
    ensures Sorted(menu)
  {
    hide EntryOrder, EntryFits;
    if |menu| > 1 {
      var n := |menu| - 1;
      SortedByNeighbours(menu[..n]);
      forall i | 0 <= i < n
        ensures EntryOrder(menu[i], menu[n]) <= 0
      {
        assert menu[..n][i] == menu[i] && menu[..n][n - 1] == menu[n - 1];
        if i < n - 1 {
          EntryTransitive(menu[i], menu[n - 1], menu[n]);
        }
      }
    }
  }

  predicate AllFit(menu: seq<Entry>) { forall k :: 0 <= k < |menu| ==> EntryFits(menu[k]) }

  // ---------- the sorted menu ----------

  /** The entries that compare equal to `e`, in the order they stand in. */
  function Peers(menu: seq<Entry>, e: Entry): seq<Entry>
  {
    if menu == [] then [] else (if EntryOrder(e, menu[0]) == 0 then [menu[0]] else []) + Peers(menu[1..], e)
  }

  ghost predicate SamePeers(x: seq<Entry>, y: seq<Entry>) { forall e :: EntryFits(e) ==> Peers(x, e) == Peers(y, e) }

  /** What a stable sort leaves: the entries found, in order, and those that compare equal as they were found. */
  ghost predicate IsStableSort(found: seq<Entry>, menu: seq<Entry>)
  {
    Sorted(menu) && multiset(menu) == multiset(found) && SamePeers(menu, found)
  }

  function InsertEntry(e: Entry, menu: seq<Entry>): seq<Entry>
  {
    if menu == [] || EntryOrder(e, menu[0]) <= 0 then [e] + menu else [menu[0]] + InsertEntry(e, menu[1..])
  }

  /** The menu of the entries found. */
  function Menu(found: seq<Entry>): seq<Entry>
  {
    if found == [] then [] else InsertEntry(found[0], Menu(found[1..]))
  }

  lemma MembersFit(x: seq<Entry>, y: seq<Entry>)
    requires AllFit(x) && multiset(x) == multiset(y)
    ensures AllFit(y)
  {
    hide EntryFits;
    forall k | 0 <= k < |y|
      ensures EntryFits(y[k])
    {
      assert y[k] in multiset(x);
    }
  }

  /** Entries that are equal to a third are equal to each other. */
  lemma PeersAreEqual(e: Entry, a: Entry, b: Entry)
    requires EntryFits(e) && EntryFits(a) && EntryFits(b) && EntryOrder(e, a) == 0 == EntryOrder(e, b)
    ensures EntryOrder(a, b) == 0
  {
    hide EntryOrder, EntryFits;
    EntryAntisymmetric(e, a);
    EntryAntisymmetric(e, b);
    EntryAntisymmetric(a, b);
    EntryTransitive(a, e, b);
    EntryTransitive(b, e, a);
  }

  lemma {:induction false} InsertKeepsPeers(e: Entry, menu: seq<Entry>, c: Entry)
    requires EntryFits(e) && AllFit(menu) && EntryFits(c)
    ensures Peers(InsertEntry(e, menu), c) == Peers([e] + menu, c)
    ensures multiset(InsertEntry(e, menu)) == multiset([e] + menu)
  {
    hide EntryOrder, EntryFits;
    if menu != [] && EntryOrder(e, menu[0]) > 0 {
      InsertKeepsPeers(e, menu[1..], c);
      if EntryOrder(c, e) == 0 && EntryOrder(c, menu[0]) == 0 {
        PeersAreEqual(c, e, menu[0]);
      }
      assert menu == [menu[0]] + menu[1..];
      assert ([e] + menu[1..])[1..] == menu[1..] && ([e] + menu)[1..] == menu;
    }
  }

  lemma {:induction false} InsertSorts(e: Entry, menu: seq<Entry>)
    requires EntryFits(e) && AllFit(menu) && Sorted(menu)
    ensures Sorted(InsertEntry(e, menu)) && AllFit(InsertEntry(e, menu))
    ensures InsertEntry(e, menu) != [] && (InsertEntry(e, menu)[0] == e || (menu != [] && InsertEntry(e, menu)[0] == menu[0]))
  {
    hide EntryOrder, EntryFits, Sorted;
    SortedTail(menu);
    if menu != [] && EntryOrder(e, menu[0]) > 0 {
      EntryAntisymmetric(e, menu[0]);
      InsertSorts(e, menu[1..]);
      SortedBefore(menu[0], InsertEntry(e, menu[1..]));
    } else {
      SortedBefore(e, menu);
    }
  }

  lemma SortedTail(x: seq<Entry>)
    requires Sorted(x)
    ensures x != [] ==> Sorted(x[1..])
    ensures |x| > 1 ==> EntryOrder(x[0], x[1]) <= 0
  {
    hide EntryOrder;
  }

  /** An entry that goes before the first of a menu goes before all of it. */
  lemma SortedBefore(e: Entry, menu: seq<Entry>)
    requires EntryFits(e) && AllFit(menu) && Sorted(menu)
    requires menu != [] ==> EntryOrder(e, menu[0]) <= 0
    ensures Sorted([e] + menu)
  {
    hide EntryOrder, EntryFits;
    forall k | 0 <= k < |menu|
      ensures EntryOrder(e, menu[k]) <= 0
    {
      if k > 0 {
        EntryTransitive(e, menu[0], menu[k]);
      }
    }
  }

  /** The menu is a stable sort of the entries found. */
  lemma {:induction false} MenuIsStable(found: seq<Entry>)
    requires AllFit(found)
    ensures IsStableSort(found, Menu(found)) && AllFit(Menu(found))
  {
    hide EntryOrder, EntryFits, Sorted;
    if found == [] {
      assert Sorted([]) by {
        SortedByNeighbours([]);
      }
    } else {
      var rest := Menu(found[1..]);
      MenuIsStable(found[1..]);
      InsertSorts(found[0], rest);
      assert found == [found[0]] + found[1..];
      InsertKeepsPeers(found[0], rest, found[0]);
      forall c | EntryFits(c)
        ensures Peers(Menu(found), c) == Peers(found, c)
      {
        InsertKeepsPeers(found[0], rest, c);
        assert ([found[0]] + rest)[1..] == rest;
      }
    }
  }

  lemma FirstIsLeast(x: seq<Entry>, e: Entry)
    requires Sorted(x) && e in x && EntryFits(e)
    ensures EntryOrder(x[0], e) <= 0
  {
    hide EntryFits, EntryOrder;
    var k :| 0 <= k < |x| && x[k] == e;
    if k == 0 {
      EntryAntisymmetric(e, e);
    }
  }

  lemma HeadsAgree(x: seq<Entry>, y: seq<Entry>)
    requires x != [] && y != [] && Sorted(x) && Sorted(y) && x[0] in y && y[0] in x
    requires AllFit(x) && EntryFits(y[0]) && SamePeers(x, y)
    ensures x[0] == y[0]
  {
    hide EntryOrder, EntryFits;
    FirstIsLeast(x, y[0]);
    FirstIsLeast(y, x[0]);
    EntryAntisymmetric(x[0], y[0]);
    assert Peers(x, x[0])[0] == x[0] && Peers(y, x[0])[0] == y[0];
  }

  lemma TailPeers(x: seq<Entry>, y: seq<Entry>)
    requires x != [] && y != [] && x[0] == y[0] && SamePeers(x, y)
    ensures SamePeers(x[1..], y[1..])
  {
    hide EntryOrder, EntryFits;
    forall e | EntryFits(e)
      ensures Peers(x[1..], e) == Peers(y[1..], e)
    {
      assert Peers(x, e) == Peers(y, e);
      if EntryOrder(e, x[0]) == 0 {
        assert Peers(x[1..], e) == Peers(x, e)[1..] && Peers(y[1..], e) == Peers(y, e)[1..];
      } else {
        assert Peers(x[1..], e) == Peers(x, e) && Peers(y[1..], e) == Peers(y, e);
      }
    }
  }

  lemma TailsAgree(x: seq<Entry>, y: seq<Entry>)
    requires x != [] && y != [] && x[0] == y[0] && multiset(x) == multiset(y) && AllFit(x)
    ensures multiset(x[1..]) == multiset(y[1..]) && AllFit(x[1..])
  {
    hide EntryFits;
    assert x == [x[0]] + x[1..] && y == [y[0]] + y[1..];
    assert multiset(x[1..]) == multiset(x) - multiset{x[0]} && multiset(y[1..]) == multiset(y) - multiset{y[0]};
  }

  /** Two menus in order that hold the same entries, equal ones in the same order, are the same. */
  lemma {:induction false} MenuIsDetermined(x: seq<Entry>, y: seq<Entry>)
    requires Sorted(x) && Sorted(y) && AllFit(x) && multiset(x) == multiset(y) && SamePeers(x, y)
    ensures x == y
  {
    hide EntryOrder, EntryFits, Sorted, SamePeers, AllFit;
    assert |x| == |multiset(x)| == |multiset(y)| == |y|;
    if x != [] {
      MembersFit(x, y);
      HeadFits(x);
      HeadFits(y);
      assert x[0] in multiset(y) && y[0] in multiset(x);
      HeadsAgree(x, y);
      TailPeers(x, y);
      SortedTail(x);
      SortedTail(y);
      TailsAgree(x, y);
      MenuIsDetermined(x[1..], y[1..]);
      assert x == [x[0]] + x[1..] && y == [y[0]] + y[1..];
    }
  }

  lemma HeadFits(x: seq<Entry>)
    requires AllFit(x) && x != []
    ensures EntryFits(x[0])
  {
  }

  /** The menu is the one stable sort there is, ids found twice included. */
  lemma StableSortIsMenu(found: seq<Entry>, menu: seq<Entry>)
    requires AllFit(found)
    ensures IsStableSort(found, menu) <==> menu == Menu(found)
  {
    hide EntryOrder, EntryFits, Sorted, Menu;
    MenuIsStable(found);
    if IsStableSort(found, menu) {
      MenuIsDetermined(Menu(found), menu);
    }
  }

  lemma {:induction false} PeersMembers(x: seq<Entry>, e: Entry)
    requires AllFit(x) && EntryFits(e)
    ensures forall p :: p in Peers(x, e) <==> p in x && EntryOrder(e, p) == 0
    ensures DistinctIds(x) ==> |Peers(x, e)| <= 1
  {
    hide EntryOrder, EntryFits;
    if x != [] {
      PeersMembers(x[1..], e);
      assert x == [x[0]] + x[1..];
      if DistinctIds(x) && EntryOrder(e, x[0]) == 0 && Peers(x[1..], e) != [] {
        var p := Peers(x[1..], e)[0];
        assert p in x[1..];
        EntryAntisymmetric(e, x[0]);
        EntryAntisymmetric(e, p);
      }
    }
  }

  lemma AtMostOne(x: seq<Entry>, y: seq<Entry>)
    requires |x| <= 1 && |y| <= 1 && forall p :: p in x <==> p in y
    ensures x == y
  {
    if x != [] {
      assert x[0] in y;
    }
    if y != [] {
      assert y[0] in x;
    }
  }

  /** Where no id is found twice, the menu does not depend on the order the entries were found in. */
  lemma DistinctIdsFix(x: seq<Entry>, y: seq<Entry>)
    requires AllFit(x) && DistinctIds(x) && DistinctIds(y) && multiset(x) == multiset(y)
    ensures Menu(x) == Menu(y)
  {
    hide EntryOrder, EntryFits, Sorted, Menu, DistinctIds;
    MembersFit(x, y);
    MenuIsStable(x);
    MenuIsStable(y);
    forall e | EntryFits(e)
      ensures Peers(x, e) == Peers(y, e)
    {
      PeersMembers(x, e);
      PeersMembers(y, e);
      assert forall p :: p in x <==> p in multiset(x);
      assert forall p :: p in y <==> p in multiset(y);
      AtMostOne(Peers(x, e), Peers(y, e));
    }
    MenuIsDetermined(Menu(x), Menu(y));
  }

  function TextOf(s: Option<string>): string { if s.Some? then s.value else "" }

  /**
   The menu by what it shows: sort keys ascend as text; under one sort key versions descend, newest
   first; and under one version ids ascend.
   */
  lemma MenuByContents(found: seq<Entry>, i: nat, j: nat)
    requires AllFit(found) && i < j < |Menu(found)|
    ensures var a, b := Menu(found)[i], Menu(found)[j];
      var ka, kb := Codes(TextOf(a.sortKey)), Codes(TextOf(b.sortKey));
      var byVersion := VersionOrder(TextOf(a.version), TextOf(b.version));
      && Compare(ka, kb) <= 0
      && (ka == kb ==> byVersion >= 0)
      && (ka == kb && byVersion == 0 ==> Compare(Codes(a.id), Codes(b.id)) <= 0)
  {
    hide Fits, VersionOrder, Compare, Codes, Menu;
    MenuIsStable(found);
    var a, b := Menu(found)[i], Menu(found)[j];
    CompareEqual(Codes(TextOf(a.sortKey)), Codes(TextOf(b.sortKey)));
    TotalPreorder(TextOf(a.version), TextOf(b.version), TextOf(b.version));
  }

  // ---------- marking ----------

  function StripSuffix(s: string, suffix: string): string { if EndsWith(s, suffix) then s[..|s| - |suffix|] else s }

  /** An id against a pattern: equal, a prefix before a final `*`, or equal but for `.conf`. */
  predicate EntryMatchesPattern(id: string, pattern: string)
  {
    if pattern == id then true
    else if EndsWith(pattern, "*") then pattern[..|pattern| - 1] <= id
    else StripSuffix(id, ".conf") == StripSuffix(pattern, ".conf")
  }

  /**
   What a pattern selects: its own id; with a final `*` every id that has the rest as a prefix; else
   the id that differs by a final `.conf` on either side.
   */
  lemma PatternMeans(id: string, stem: string)
    ensures EntryMatchesPattern(id, id)
    ensures EntryMatchesPattern(id, stem + "*") <==> stem <= id
    ensures stem == "" || stem[|stem| - 1] != '*' ==>
      (EntryMatchesPattern(id, stem) <==>
        id == stem || (id == stem + ".conf" && !EndsWith(stem, ".conf")) || (id + ".conf" == stem && !EndsWith(id, ".conf")))
  {
    assert (stem + "*")[|stem|..] == "*" && (stem + "*")[..|stem|] == stem;
    assert (stem + ".conf")[|stem|..] == ".conf" && (stem + ".conf")[..|stem|] == stem;
    assert (id + ".conf")[|id|..] == ".conf" && (id + ".conf")[..|id|] == id;
    assert EndsWith(id, ".conf") ==> id == id[..|id| - 5] + ".conf";
    assert EndsWith(stem, ".conf") ==> stem == stem[..|stem| - 5] + ".conf";
  }

  predicate Selects(pattern: Option<string>, id: string) { pattern.Some? && EntryMatchesPattern(id, pattern.value) }

  /** An entry after marking, before the fallback. */
  function Marked(e: Entry, default: Option<string>, oneshot: Option<string>): Entry
  {
    e.(isDefault := e.isDefault || Selects(default, e.id), isOneshot := e.isOneshot || Selects(oneshot, e.id))
  }

  predicate AnyDefault(menu: seq<Entry>) { exists k :: 0 <= k < |menu| && menu[k].isDefault }

  /** Marks in place; where nothing is the default, the first entry becomes it. */
  method MarkEntries(entries: array<Entry>, default: Option<string>, oneshot: Option<string>)
    modifies entries
    ensures forall k :: 0 < k < entries.Length ==> entries[k] == Marked(old(entries[k]), default, oneshot)
    ensures entries.Length > 0 ==>
      var first := Marked(old(entries[0]), default, oneshot);
      entries[0] == first
      || (entries[0] == first.(isDefault := true)
          && forall k :: 0 <= k < entries.Length ==> !Marked(old(entries[k]), default, oneshot).isDefault)
    ensures entries.Length > 0 ==> AnyDefault(entries[..])
    ensures forall k :: 0 <= k < entries.Length ==>
      var was, now := old(entries[k]), entries[k];
      && now.id == was.id && now.version == was.version && now.sortKey == was.sortKey
      && (now.isOneshot <==> was.isOneshot || (oneshot.Some? && EntryMatchesPattern(was.id, oneshot.value)))
      && (now.isDefault <==> was.isDefault || (default.Some? && EntryMatchesPattern(was.id, default.value))
                             || (k == 0 && forall m :: 0 <= m < entries.Length ==>
                                   !old(entries[m]).isDefault
                                   && !(default.Some? && EntryMatchesPattern(old(entries[m]).id, default.value))))
  {
    hide EntryMatchesPattern;
    for i := 0 to entries.Length
      invariant forall k :: 0 <= k < i ==> entries[k] == Marked(old(entries[k]), default, oneshot)
      invariant forall k :: i <= k < entries.Length ==> entries[k] == old(entries[k])
    {
      if Selects(default, entries[i].id) {
        entries[i] := entries[i].(isDefault := true);
      }
      if Selects(oneshot, entries[i].id) {
        entries[i] := entries[i].(isOneshot := true);
      }
    }
    if !AnyDefault(entries[..]) && entries.Length > 0 {
      forall k | 0 <= k < entries.Length
        ensures !entries[k].isDefault
      {
        assert entries[..][k] == entries[k];
      }
      entries[0] := entries[0].(isDefault := true);
      assert entries[..][0].isDefault;
    }
  }
}
