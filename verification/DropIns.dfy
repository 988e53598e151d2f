/**
 The directory scan of systemd-delta.  Directories are given highest priority first; the scan says
 for every unit file name how its copies relate, and lists every drop-in exactly once.
 */
module DropIns {
  import opened Lexicographic
  import opened Text

  /** A file of a drop-in directory. */
  datatype Child = Child(name: string, isFile: bool)

  /**
   A directory entry: where it links, if it is a link, and whether that exists; whether it is a file
   in the end, what a directory lists, and what reading it gives.
   */
  datatype Item = Item(
    name: string, link: Option<string>, targetExists: bool, isFile: bool, listing: Option<seq<Child>>,
    content: Option<string>)

  /** Directories by path; a path that is absent is no readable directory. */
  type FileSystem = map<string, seq<Item>>

  predicate DistinctNames(items: seq<Item>)
  {
    forall j, k :: 0 <= j < k < |items| ==> items[j].name != items[k].name
  }

  predicate DistinctDirs(dirs: seq<string>)
  {
    forall j, k :: 0 <= j < k < |dirs| ==> dirs[j] != dirs[k]
  }

  predicate DistinctChildren(children: seq<Child>)
  {
    forall j, k :: 0 <= j < k < |children| ==> children[j].name != children[k].name
  }

  /** Names are unique within a directory. */
  ghost predicate Proper(fs: FileSystem)
  {
    forall d :: d in fs ==>
      DistinctNames(fs[d])
      && forall k :: 0 <= k < |fs[d]| ==> fs[d][k].listing.Some? ==> DistinctChildren(fs[d][k].listing.value)
  }

  /** The extension is `conf`: text after the last dot, which is not the first character. */
  predicate IsConf(name: string) { |name| > 5 && EndsWith(name, ".conf") }

  predicate IsMasked(item: Item) { item.link == Some("/dev/null") }

  predicate IsRedirected(item: Item) { item.link.Some? && item.link.value != "/dev/null" && item.targetExists }

  predicate FilesEqual(a: Item, b: Item) { a.content.Some? && a.content == b.content }

  /** Drop-in directories are handled apart; otherwise files and links count. */
  predicate Counts(item: Item)
  {
    !(EndsWith(item.name, ".d") && item.listing.Some?) && (item.isFile || item.link.Some?)
  }

  // ---------- places and verdicts ----------

  datatype Place = FileAt(dir: string, name: string) | DropIn(dir: string, name: string, conf: string) | Target(path: string)

  datatype Kind = Overridden | Extended | Masked | Redirected | Equivalent

  datatype Delta = Delta(kind: Kind, top: Place, bottom: Option<Place>)

  function Find(items: seq<Item>, name: string): (r: Option<Item>)
    ensures r.Some? ==> r.value in items && r.value.name == name
  {
    if items == [] then None else if items[0].name == name then Some(items[0]) else Find(items[1..], name)
  }

  lemma {:induction false} FindUnique(items: seq<Item>, k: nat)
    requires DistinctNames(items) && k < |items|
    ensures Find(items, items[k].name) == Some(items[k])
  {
    if k > 0 {
      FindUnique(items[1..], k - 1);
    }
  }

  function ItemAt(fs: FileSystem, dir: string, name: string): Option<Item>
  {
    if dir in fs then Find(fs[dir], name) else None
  }

  predicate HasFile(fs: FileSystem, dir: string, name: string)
  {
    var item := ItemAt(fs, dir, name);
    item.Some? && Counts(item.value)
  }

  /** The directories that hold a file of the name, highest priority first. */
  function Locations(fs: FileSystem, dirs: seq<string>, name: string): (r: seq<string>)
    ensures forall d :: d in r ==> HasFile(fs, d, name)
    ensures |r| <= |dirs|
  {
    if dirs == [] then []
    else
      var last := dirs[|dirs| - 1];
      Locations(fs, dirs[..|dirs| - 1], name) + (if HasFile(fs, last, name) then [last] else [])
  }

  function FileItem(fs: FileSystem, dir: string, name: string): Item
    requires HasFile(fs, dir, name)
  {
    ItemAt(fs, dir, name).value
  }

  /** What the scan says of a name with the given locations, drop-ins aside. */
  function FileVerdict(fs: FileSystem, name: string, locations: seq<string>): Option<Delta>
    requires locations != [] && forall d :: d in locations ==> HasFile(fs, d, name)
  {
    var top, bottom := locations[0], locations[|locations| - 1];
    var topItem, bottomItem := FileItem(fs, top, name), FileItem(fs, bottom, name);
    var topPlace, bottomPlace := FileAt(top, name), FileAt(bottom, name);
    var several := |locations| >= 2;
    if IsMasked(topItem) then Some(Delta(Masked, topPlace, if several then Some(bottomPlace) else None))
    else if IsRedirected(topItem) then Some(Delta(Redirected, topPlace, Some(Target(topItem.link.value))))
    else if !several then None
    else if FilesEqual(topItem, bottomItem) then Some(Delta(Equivalent, topPlace, Some(bottomPlace)))
    else Some(Delta(Overridden, topPlace, Some(bottomPlace)))
  }

  /** A drop-in file: a conf file in a directory named after the unit. */
  predicate IsDropIn(fs: FileSystem, dir: string, name: string, conf: string)
  {
    var item := ItemAt(fs, dir, name + ".d");
    item.Some? && item.value.listing.Some? && IsConf(conf) && Child(conf, true) in item.value.listing.value
  }

  /** The one entry a place can be on top of, if any. */
  function EntryFor(fs: FileSystem, dirs: seq<string>, top: Place): Option<Delta>
  {
    match top
    case FileAt(dir, name) =>
      var locations := Locations(fs, dirs, name);
      if locations != [] && locations[0] == dir then FileVerdict(fs, name, locations) else None
    case DropIn(dir, name, conf) =>
      var locations := Locations(fs, dirs, name);
      if dir in dirs && IsDropIn(fs, dir, name, conf) then
        Some(Delta(Extended, top, if locations == [] then None else Some(FileAt(locations[0], name))))
      else None
    case Target(_) => None
  }

  // ---------- counting ----------

  function CountTop(entries: seq<Delta>, top: Place): nat
  {
    if entries == [] then 0 else (if entries[0].top == top then 1 else 0) + CountTop(entries[1..], top)
  }

  lemma {:induction false} CountAppend(a: seq<Delta>, b: seq<Delta>, top: Place)
    ensures CountTop(a + b, top) == CountTop(a, top) + CountTop(b, top)
  {
    if a == [] {
      assert a + b == b;
    } else {
      assert (a + b)[1..] == a[1..] + b;
      CountAppend(a[1..], b, top);
    }
  }

  lemma {:induction false} CountZero(entries: seq<Delta>, top: Place)
    requires forall k :: 0 <= k < |entries| ==> entries[k].top != top
    ensures CountTop(entries, top) == 0
  {
    if entries != [] {
      CountZero(entries[1..], top);
    }
  }

  predicate Distinct(places: seq<Place>)
  {
    forall j, k :: 0 <= j < k < |places| ==> places[j] != places[k]
  }

  function Extend(places: seq<Place>, base: Option<Place>): seq<Delta>
  {
    seq(|places|, k requires 0 <= k < |places| => Delta(Extended, places[k], base))
  }

  lemma {:induction false} CountExtended(places: seq<Place>, base: Option<Place>, top: Place)
    requires Distinct(places)
    ensures CountTop(Extend(places, base), top) == if top in places then 1 else 0
  {
    if places != [] {
      CountExtended(places[1..], base, top);
      assert Extend(places, base)[1..] == Extend(places[1..], base);
    }
  }

  // ---------- the order of a report ----------

  predicate NameBelow(n: string, m: string) { Compare(Codes(n), Codes(m)) < 0 }

  /** Names that have files come first and ascend. */
  predicate NameBefore(fs: FileSystem, dirs: seq<string>, n: string, m: string)
  {
    Locations(fs, dirs, m) == [] || (Locations(fs, dirs, n) != [] && NameBelow(n, m))
  }

  function Position(dirs: seq<string>, dir: string): nat { if dirs == [] || dirs[0] == dir then 0 else 1 + Position(dirs[1..], dir) }

  lemma {:induction false} PositionOf(dirs: seq<string>, i: nat)
    requires DistinctDirs(dirs) && i < |dirs|
    ensures Position(dirs, dirs[i]) == i
  {
    if i > 0 {
      PositionOf(dirs[1..], i - 1);
    }
  }

  /** What may stand before what: names in order, for one name its file first, then its drop-ins by directory. */
  predicate Precedes(fs: FileSystem, dirs: seq<string>, p: Place, q: Place)
  {
    && !p.Target? && !q.Target?
    && if p.name != q.name then NameBefore(fs, dirs, p.name, q.name)
       else q.DropIn? && (p.DropIn? ==> Position(dirs, p.dir) <= Position(dirs, q.dir))
  }

  ghost predicate InOrder(fs: FileSystem, dirs: seq<string>, entries: seq<Delta>)
  {
    forall j, k :: 0 <= j < k < |entries| ==> Precedes(fs, dirs, entries[j].top, entries[k].top)
  }

  ghost predicate NamesIn(entries: seq<Delta>, names: set<string>)
  {
    forall k :: 0 <= k < |entries| ==> !entries[k].top.Target? && entries[k].top.name in names
  }

  /** Drop-ins of directories in order. */
  ghost predicate ByDirectory(dirs: seq<string>, places: seq<Place>)
  {
    && (forall k :: 0 <= k < |places| ==> places[k].DropIn?)
    && (forall j, k :: 0 <= j < k < |places| ==> Position(dirs, places[j].dir) <= Position(dirs, places[k].dir))
  }

  lemma MoreInOrder(fs: FileSystem, dirs: seq<string>, entries: seq<Delta>, done: set<string>, block: seq<Delta>, name: string)
    requires InOrder(fs, dirs, entries) && NamesIn(entries, done)
    requires InOrder(fs, dirs, block) && NamesIn(block, {name}) && name !in done
    requires forall n :: n in done ==> NameBefore(fs, dirs, n, name)
    ensures InOrder(fs, dirs, entries + block) && NamesIn(entries + block, done + {name})
  {
    hide NameBefore, Position;
  }

  lemma BlockInOrder(fs: FileSystem, dirs: seq<string>, name: string, verdict: seq<Delta>, dropins: seq<Place>, base: Option<Place>)
    requires |verdict| <= 1 && forall k :: 0 <= k < |verdict| ==> verdict[k].top.FileAt? && verdict[k].top.name == name
    requires ByDirectory(dirs, dropins) && forall p :: p in dropins <==> IsFound(fs, dirs, name, p)
    ensures InOrder(fs, dirs, verdict + Extend(dropins, base)) && NamesIn(verdict + Extend(dropins, base), {name})
  {
    hide NameBefore, Position, IsDropIn;
    forall k | 0 <= k < |dropins|
      ensures dropins[k].name == name
    {
      assert dropins[k] in dropins;
    }
  }

  predicate IsLeast(names: set<string>, n: string)
  {
    n in names && forall m :: m in names && m != n ==> NameBelow(n, m)
  }

  lemma BelowTransitive(x: string, y: string, z: string)
    requires NameBelow(x, y) && NameBelow(y, z)
    ensures NameBelow(x, z)
  {
    CompareTransitive(Codes(x), Codes(y), Codes(z));
  }

  lemma {:induction false} LeastName(names: set<string>)
    requires names != {}
    ensures exists n :: IsLeast(names, n)
  {
    hide NameBelow;
    var x :| x in names;
    var rest := names - {x};
    assert names == {x} + rest;
    if rest == {} {
      assert IsLeast(names, x);
    } else {
      LeastName(rest);
      var y :| IsLeast(rest, y);
      LeastOfTwo(x, y);
      if NameBelow(x, y) {
        forall m | m in rest
          ensures NameBelow(x, m)
        {
          if m != y {
            BelowTransitive(x, y, m);
          }
        }
        assert IsLeast(names, x);
      } else {
        assert IsLeast(names, y);
      }
    }
  }

  lemma LeastOfTwo(x: string, y: string)
    requires x != y
    ensures NameBelow(x, y) || NameBelow(y, x)
  {
    CompareAntisymmetric(Codes(x), Codes(y));
    CompareEqual(Codes(x), Codes(y));
    if Codes(x) == Codes(y) {
      CodesInjective(x, y);
    }
  }

  // ---------- the scan ----------

  /** The files of drop-in directories of a unit, in the given directories. */
  predicate IsFound(fs: FileSystem, dirs: seq<string>, name: string, p: Place)
  {
    p.DropIn? && p.name == name && p.dir in dirs && IsDropIn(fs, p.dir, name, p.conf)
  }

  predicate IsChildPlace(dir: string, name: string, children: seq<Child>, p: Place)
  {
    p.DropIn? && p.name == name && p.dir == dir && IsConf(p.conf) && Child(p.conf, true) in children
  }

  lemma DistinctConcat(a: seq<Place>, b: seq<Place>)
    requires Distinct(a) && Distinct(b) && forall p :: p in a ==> p !in b
    ensures Distinct(a + b)
  {
    forall j, k | 0 <= j < k < |a + b|
      ensures (a + b)[j] != (a + b)[k]
    {
      if j < |a| <= k {
        assert a[j] in a && b[k - |a|] in b;
      }
    }
  }

  method FindDropIns(fs: FileSystem, name: string, dirs: seq<string>) returns (results: seq<Place>)
    requires Proper(fs) && DistinctDirs(dirs)
    ensures Distinct(results) && ByDirectory(dirs, results)
    ensures forall p :: p in results <==> IsFound(fs, dirs, name, p)
  {
    results := [];
    for i := 0 to |dirs|
      invariant Distinct(results) && ByDirectory(dirs, results)
      invariant forall k :: 0 <= k < |results| ==> Position(dirs, results[k].dir) < i
      invariant forall p :: p in results <==> IsFound(fs, dirs[..i], name, p)
    {
      hide IsConf, EndsWith, Find, Position;
      var found := DropInsIn(fs, name, dirs[i]);
      assert dirs[..i + 1] == dirs[..i] + [dirs[i]];
      assert dirs[i] !in dirs[..i];
      DistinctConcat(results, found);
      PositionOf(dirs, i);
      forall k | 0 <= k < |found|
        ensures found[k].DropIn? && found[k].dir == dirs[i]
      {
        assert found[k] in found;
      }
      results := results + found;
    }
    assert dirs[..|dirs|] == dirs;
  }

  /** The files of the drop-in directory of a unit in one directory. */
  method DropInsIn(fs: FileSystem, name: string, dir: string) returns (results: seq<Place>)
    requires Proper(fs)
    ensures Distinct(results)
    ensures forall p :: p in results <==> IsFound(fs, [dir], name, p)
  {
    hide IsConf, EndsWith, Find;
    results := [];
    var item := ItemAt(fs, dir, name + ".d");
    if item.Some? && item.value.listing.Some? {
      var children := item.value.listing.value;
      for k := 0 to |children|
        invariant Distinct(results)
        invariant forall p :: p in results <==> IsChildPlace(dir, name, children[..k], p)
      {
        assert DistinctChildren(children);
        assert children[..k + 1] == children[..k] + [children[k]];
        if IsConf(children[k].name) && children[k].isFile {
          assert Child(children[k].name, true) !in children[..k];
          assert DropIn(dir, name, children[k].name) !in results;
          DistinctConcat(results, [DropIn(dir, name, children[k].name)]);
          results := results + [DropIn(dir, name, children[k].name)];
        }
      }
      assert children[..|children|] == children;
    }
  }

  function Gather(m: map<string, seq<string>>, name: string): seq<string> { if name in m then m[name] else [] }

  /** Collects, for every file name, the directories that hold it. */
  method CollectFiles(fs: FileSystem, dirs: seq<string>) returns (fileMap: map<string, seq<string>>)
    requires Proper(fs)
    ensures forall n :: Gather(fileMap, n) == Locations(fs, dirs, n)
    ensures forall n :: n in fileMap ==> fileMap[n] != []
  {
    fileMap := map[];
    for i := 0 to |dirs|
      invariant forall n :: Gather(fileMap, n) == Locations(fs, dirs[..i], n)
      invariant forall n :: n in fileMap ==> fileMap[n] != []
    {
      hide Locations, HasFile, Counts;
      fileMap := CollectDirectory(fs, dirs, i, fileMap);
    }
    assert dirs[..|dirs|] == dirs;
  }

  /** Whether one of the items is a file of the name. */
  predicate Listed(items: seq<Item>, name: string)
  {
    exists k :: 0 <= k < |items| && items[k].name == name && Counts(items[k])
  }

  lemma ListedIsHasFile(fs: FileSystem, dir: string, name: string)
    requires Proper(fs) && dir in fs
    ensures Listed(fs[dir], name) <==> HasFile(fs, dir, name)
  {
    hide Counts;
    if Listed(fs[dir], name) {
      var k :| 0 <= k < |fs[dir]| && fs[dir][k].name == name && Counts(fs[dir][k]);
      FindUnique(fs[dir], k);
    }
  }

  method CollectDirectory(fs: FileSystem, dirs: seq<string>, i: nat, before: map<string, seq<string>>)
    returns (fileMap: map<string, seq<string>>)
    requires Proper(fs) && i < |dirs|
    requires forall n :: Gather(before, n) == Locations(fs, dirs[..i], n)
    requires forall n :: n in before ==> before[n] != []
    ensures forall n :: Gather(fileMap, n) == Locations(fs, dirs[..i + 1], n)
    ensures forall n :: n in fileMap ==> fileMap[n] != []
  {
    hide Locations, HasFile, Counts, Listed, Gather;
    var dir := dirs[i];
    fileMap := before;
    if dir in fs {
      fileMap := CollectItems(fs[dir], dir, before);
    }
    forall n
      ensures Locations(fs, dirs[..i + 1], n) == Locations(fs, dirs[..i], n) + (if dir in fs && Listed(fs[dir], n) then [dir] else [])
    {
      LocationsStep(fs, dirs, i, n);
      if dir in fs {
        ListedIsHasFile(fs, dir, n);
      }
    }
  }

  /** Adds a directory to the lists of the files it holds. */
  method CollectItems(items: seq<Item>, dir: string, before: map<string, seq<string>>) returns (fileMap: map<string, seq<string>>)
    requires DistinctNames(items) && forall n :: n in before ==> before[n] != []
    ensures forall n :: Gather(fileMap, n) == Gather(before, n) + (if Listed(items, n) then [dir] else [])
    ensures forall n :: n in fileMap ==> fileMap[n] != []
  {
    hide Counts, Listed, DistinctNames;
    fileMap := before;
    NoneListed();
    for k := 0 to |items|
      invariant forall n :: Gather(fileMap, n) == Gather(before, n) + (if Listed(items[..k], n) then [dir] else [])
      invariant forall n :: n in fileMap ==> fileMap[n] != []
    {
      ListedGrows(items, k);
      if Counts(items[k]) {
        fileMap := fileMap[items[k].name := Gather(fileMap, items[k].name) + [dir]];
      }
    }
    assert items[..|items|] == items;
  }

  lemma NoneListed()
    ensures forall n :: !Listed([], n)
  {
  }

  lemma ListedGrows(items: seq<Item>, k: nat)
    requires DistinctNames(items) && k < |items|
    ensures forall n :: Listed(items[..k + 1], n) <==> Listed(items[..k], n) || (n == items[k].name && Counts(items[k]))
    ensures !Listed(items[..k], items[k].name)
  {
    hide Counts;
    forall n
      ensures Listed(items[..k + 1], n) <==> Listed(items[..k], n) || (n == items[k].name && Counts(items[k]))
    {
      if Listed(items[..k], n) {
        var m :| 0 <= m < k && items[..k][m].name == n && Counts(items[..k][m]);
        assert items[..k + 1][m] == items[..k][m];
      }
      if n == items[k].name && Counts(items[k]) {
        assert items[..k + 1][k] == items[k];
      }
      if Listed(items[..k + 1], n) {
        var m :| 0 <= m < k + 1 && items[..k + 1][m].name == n && Counts(items[..k + 1][m]);
        if m < k {
          assert items[..k][m] == items[..k + 1][m];
        }
      }
    }
  }

  lemma LocationsStep(fs: FileSystem, dirs: seq<string>, i: nat, name: string)
    requires i < |dirs|
    ensures Locations(fs, dirs[..i + 1], name)
         == Locations(fs, dirs[..i], name) + (if HasFile(fs, dirs[i], name) then [dirs[i]] else [])
    ensures dirs[i] !in fs ==> !HasFile(fs, dirs[i], name)
  {
    assert dirs[..i + 1][..i] == dirs[..i];
  }

  // ---------- the whole scan ----------

  /** Entries so far: each is the one its place calls for, and those of finished names are all there. */
  ghost predicate Covers(fs: FileSystem, dirs: seq<string>, entries: seq<Delta>, done: set<string>)
  {
    && (forall k :: 0 <= k < |entries| ==> EntryFor(fs, dirs, entries[k].top) == Some(entries[k]))
    && (forall p: Place :: CountTop(entries, p) == if !p.Target? && p.name in done && EntryFor(fs, dirs, p).Some? then 1 else 0)
    && InOrder(fs, dirs, entries) && NamesIn(entries, done)
  }

  /** The entries of one name: its verdict, if any, and its drop-ins. */
  ghost predicate CoversName(fs: FileSystem, dirs: seq<string>, block: seq<Delta>, name: string)
  {
    && (forall k :: 0 <= k < |block| ==> EntryFor(fs, dirs, block[k].top) == Some(block[k]))
    && (forall p: Place :: CountTop(block, p) == if !p.Target? && p.name == name && EntryFor(fs, dirs, p).Some? then 1 else 0)
  }

  lemma CoversMore(fs: FileSystem, dirs: seq<string>, entries: seq<Delta>, done: set<string>, block: seq<Delta>, name: string)
    requires Covers(fs, dirs, entries, done) && CoversName(fs, dirs, block, name) && name !in done
    requires InOrder(fs, dirs, block) && NamesIn(block, {name}) && forall n :: n in done ==> NameBefore(fs, dirs, n, name)
    ensures Covers(fs, dirs, entries + block, done + {name})
  {
    hide EntryFor, CountTop, InOrder, NamesIn, NameBefore;
    MoreInOrder(fs, dirs, entries, done, block, name);
    forall p: Place
      ensures CountTop(entries + block, p)
           == if !p.Target? && p.name in done + {name} && EntryFor(fs, dirs, p).Some? then 1 else 0
    {
      CountAppend(entries, block, p);
    }
  }

  /** The verdict and the drop-ins of a name cover it. */
  lemma BlockCovers(fs: FileSystem, dirs: seq<string>, name: string, verdict: seq<Delta>, dropins: seq<Place>, base: Option<Place>)
    requires Distinct(dropins) && forall p :: p in dropins <==> IsFound(fs, dirs, name, p)
    requires var locations := Locations(fs, dirs, name);
      && base == (if locations == [] then None else Some(FileAt(locations[0], name)))
      && verdict == (if locations == [] then []
                     else match FileVerdict(fs, name, locations) case None => [] case Some(d) => [d])
    ensures CoversName(fs, dirs, verdict + Extend(dropins, base), name)
  {
    hide IsDropIn, Locations, FileVerdict, HasFile, CountTop;
    var locations := Locations(fs, dirs, name);
    forall p: Place
      ensures CountTop(verdict + Extend(dropins, base), p)
           == if !p.Target? && p.name == name && EntryFor(fs, dirs, p).Some? then 1 else 0
    {
      CountAppend(verdict, Extend(dropins, base), p);
      CountExtended(dropins, base, p);
      CountVerdict(fs, dirs, name, verdict, p);
    }
    forall k | 0 <= k < |verdict|
      ensures EntryFor(fs, dirs, verdict[k].top) == Some(verdict[k])
    {
      VerdictTop(fs, name, locations);
    }
    forall k | 0 <= k < |dropins|
      ensures EntryFor(fs, dirs, dropins[k]) == Some(Delta(Extended, dropins[k], base))
    {
      assert dropins[k] in dropins;
    }
  }

  lemma VerdictTop(fs: FileSystem, name: string, locations: seq<string>)
    requires locations != [] && forall d :: d in locations ==> HasFile(fs, d, name)
    ensures FileVerdict(fs, name, locations).Some? ==>
      FileVerdict(fs, name, locations).value.top == FileAt(locations[0], name)
  {
  }

  lemma CountVerdict(fs: FileSystem, dirs: seq<string>, name: string, verdict: seq<Delta>, p: Place)
    requires var locations := Locations(fs, dirs, name);
      verdict == (if locations == [] then []
                  else match FileVerdict(fs, name, locations) case None => [] case Some(d) => [d])
    ensures CountTop(verdict, p) == if p.FileAt? && p.name == name && EntryFor(fs, dirs, p).Some? then 1 else 0
  {
    hide Locations, FileVerdict, HasFile;
    var locations := Locations(fs, dirs, name);
    if locations != [] {
      VerdictTop(fs, name, locations);
    }
  }

  /** The entries of a name that has files. */
  method ScanName(fs: FileSystem, dirs: seq<string>, name: string, locations: seq<string>) returns (block: seq<Delta>)
    requires Proper(fs) && DistinctDirs(dirs)
    requires locations == Locations(fs, dirs, name) && locations != []
    ensures CoversName(fs, dirs, block, name) && InOrder(fs, dirs, block) && NamesIn(block, {name})
  {
    hide Locations, HasFile, CoversName, IsFound, Proper, Find, EndsWith, InOrder, NamesIn, ByDirectory;
    var top, bottom := locations[0], locations[|locations| - 1];
    var topItem, bottomItem := FileItem(fs, top, name), FileItem(fs, bottom, name);
    block := [];
    if |locations| < 2 {
      if IsMasked(topItem) {
        block := block + [Delta(Masked, FileAt(top, name), None)];
      } else if IsRedirected(topItem) {
        block := block + [Delta(Redirected, FileAt(top, name), Some(Target(topItem.link.value)))];
      }
    } else {
      if IsMasked(topItem) {
        block := block + [Delta(Masked, FileAt(top, name), Some(FileAt(bottom, name)))];
      } else if IsRedirected(topItem) {
        block := block + [Delta(Redirected, FileAt(top, name), Some(Target(topItem.link.value)))];
      } else if FilesEqual(topItem, bottomItem) {
        block := block + [Delta(Equivalent, FileAt(top, name), Some(FileAt(bottom, name)))];
      } else {
        block := block + [Delta(Overridden, FileAt(top, name), Some(FileAt(bottom, name)))];
      }
    }
    var dropins := FindDropIns(fs, name, dirs);
    BlockCovers(fs, dirs, name, block, dropins, Some(FileAt(top, name)));
    BlockInOrder(fs, dirs, name, block, dropins, Some(FileAt(top, name)));
    block := block + Extend(dropins, Some(FileAt(top, name)));
  }

  /** The entries of a unit without files. */
  method ScanOrphan(fs: FileSystem, dirs: seq<string>, name: string) returns (block: seq<Delta>)
    requires Proper(fs) && DistinctDirs(dirs)
    requires Locations(fs, dirs, name) == []
    ensures CoversName(fs, dirs, block, name) && InOrder(fs, dirs, block) && NamesIn(block, {name})
  {
    hide Locations, HasFile, CoversName, IsFound, Proper, InOrder, NamesIn, ByDirectory;
    var dropins := FindDropIns(fs, name, dirs);
    BlockCovers(fs, dirs, name, [], dropins, None);
    BlockInOrder(fs, dirs, name, [], dropins, None);
    assert [] + Extend(dropins, None) == Extend(dropins, None);
    block := Extend(dropins, None);
  }

  /** The unit a drop-in directory is named after. */
  predicate IsDropInDirectory(item: Item) { EndsWith(item.name, ".d") && item.listing.Some? }

  function BaseName(name: string): string
    requires EndsWith(name, ".d")
  {
    name[..|name| - 2]
  }

  /** The units of all drop-in directories among the items have been seen. */
  ghost predicate BasesSeen(items: seq<Item>, seen: set<string>)
  {
    forall k :: 0 <= k < |items| ==> IsDropInDirectory(items[k]) ==> BaseName(items[k].name) in seen
  }

  ghost predicate AllFilesSeen(fs: FileSystem, dirs: seq<string>, seen: set<string>)
  {
    forall n :: Locations(fs, dirs, n) != [] ==> n in seen
  }

  method ScanOrphansIn(fs: FileSystem, dirs: seq<string>, items: seq<Item>, before: seq<Delta>, seen0: set<string>)
    returns (entries: seq<Delta>, seen: set<string>)
    requires Proper(fs) && DistinctDirs(dirs)
    requires Covers(fs, dirs, before, seen0) && AllFilesSeen(fs, dirs, seen0)
    ensures Covers(fs, dirs, entries, seen) && seen0 <= seen && BasesSeen(items, seen)
  {
    hide Locations, Covers, CoversName, Proper, EndsWith, InOrder, NamesIn;
    entries, seen := before, seen0;
    for k := 0 to |items|
      invariant Covers(fs, dirs, entries, seen) && seen0 <= seen && BasesSeen(items[..k], seen)
    {
      assert items[..k + 1] == items[..k] + [items[k]];
      if IsDropInDirectory(items[k]) {
        var base := BaseName(items[k].name);
        if base !in seen {
          var block := ScanOrphan(fs, dirs, base);
          CoversMore(fs, dirs, entries, seen, block, base);
          entries, seen := entries + block, seen + {base};
        }
      }
    }
    assert items[..|items|] == items;
  }

  method ScanOrphans(fs: FileSystem, dirs: seq<string>, before: seq<Delta>, seen0: set<string>)
    returns (entries: seq<Delta>, seen: set<string>)
    requires Proper(fs) && DistinctDirs(dirs)
    requires Covers(fs, dirs, before, seen0) && AllFilesSeen(fs, dirs, seen0)
    ensures Covers(fs, dirs, entries, seen) && seen0 <= seen
    ensures forall i :: 0 <= i < |dirs| && dirs[i] in fs ==> BasesSeen(fs[dirs[i]], seen)
  {
    hide Locations, Covers, Proper, EndsWith;
    entries, seen := before, seen0;
    for i := 0 to |dirs|
      invariant Covers(fs, dirs, entries, seen) && seen0 <= seen
      invariant forall m :: 0 <= m < i && dirs[m] in fs ==> BasesSeen(fs[dirs[m]], seen)
    {
      if dirs[i] in fs {
        entries, seen := ScanOrphansIn(fs, dirs, fs[dirs[i]], entries, seen);
      }
    }
  }

  lemma NothingToScan(fs: FileSystem, p: Place)
    ensures EntryFor(fs, [], p) == None && CountTop([], p) == 0
  {
  }

  lemma NothingCovered(fs: FileSystem, dirs: seq<string>)
    ensures Covers(fs, dirs, [], {})
  {
    hide EntryFor;
  }

  /** Every place that calls for an entry belongs to a name that has been seen. */
  lemma PlaceIsSeen(fs: FileSystem, dirs: seq<string>, seen: set<string>, p: Place)
    requires AllFilesSeen(fs, dirs, seen)
    requires forall i :: 0 <= i < |dirs| && dirs[i] in fs ==> BasesSeen(fs[dirs[i]], seen)
    requires EntryFor(fs, dirs, p).Some?
    ensures !p.Target? && p.name in seen
  {
    hide Locations, FileVerdict, HasFile;
    if p.DropIn? {
      var item := ItemAt(fs, p.dir, p.name + ".d").value;
      var i :| 0 <= i < |dirs| && dirs[i] == p.dir;
      var k :| 0 <= k < |fs[p.dir]| && fs[p.dir][k] == item;
      assert BasesSeen(fs[dirs[i]], seen);
      assert item.name[|item.name| - 2..] == ".d" && item.name[..|item.name| - 2] == p.name;
    }
  }

  /** The directories the scan looks at: those that start with one of the prefixes, if any are given. */
  function EffectiveDirs(dirs: seq<string>, prefixes: seq<string>): (r: seq<string>)
    ensures forall d :: d in r <==> d in dirs && (prefixes == [] || exists p :: p in prefixes && p <= d)
  {
    if dirs == [] then []
    else
      var rest := EffectiveDirs(dirs[1..], prefixes);
      if prefixes == [] || exists p :: p in prefixes && p <= dirs[0] then [dirs[0]] + rest else rest
  }

  lemma {:induction false} EffectiveDistinct(dirs: seq<string>, prefixes: seq<string>)
    requires DistinctDirs(dirs)
    ensures DistinctDirs(EffectiveDirs(dirs, prefixes))
  {
    if dirs != [] {
      EffectiveDistinct(dirs[1..], prefixes);
      assert dirs[0] !in dirs[1..];
      assert dirs[0] !in EffectiveDirs(dirs[1..], prefixes);
    }
  }

  /**
   The scan.  Every entry is the one its top place calls for, and every place that calls for an entry
   has exactly one.
   */
  method ScanDirs(fs: FileSystem, dirs: seq<string>, prefixes: seq<string>) returns (entries: seq<Delta>)
    requires Proper(fs) && DistinctDirs(dirs)
    ensures IsReport(fs, EffectiveDirs(dirs, prefixes), entries)
  {
    hide EntryFor, CountTop, Proper, EffectiveDirs, DistinctDirs;
    EffectiveDistinct(dirs, prefixes);
    var effective := EffectiveDirs(dirs, prefixes);
    entries := [];
    if effective == [] {
      forall p: Place
        ensures EntryFor(fs, effective, p) == None && CountTop(entries, p) == 0
      {
        NothingToScan(fs, p);
      }
      return;
    }
    entries := ScanEffective(fs, effective);
  }

  method ScanEffective(fs: FileSystem, dirs: seq<string>) returns (entries: seq<Delta>)
    requires Proper(fs) && DistinctDirs(dirs)
    ensures IsReport(fs, dirs, entries)
  {
    hide EntryFor, CountTop, Locations, Proper, BasesSeen;
    entries := [];
    NothingCovered(fs, dirs);
    var fileMap := CollectFiles(fs, dirs);
    var names := fileMap.Keys;
    var seen: set<string> := {};
    while names != {}
      invariant names <= fileMap.Keys && seen == fileMap.Keys - names
      invariant Covers(fs, dirs, entries, seen)
      invariant forall n, m :: n in seen && m in names ==> NameBelow(n, m)
      decreases names
    {
      hide Covers, NameBelow, InOrder, NamesIn;
      LeastName(names);
      var name :| name in names && IsLeast(names, name);
      forall n | n in seen
        ensures NameBefore(fs, dirs, n, name)
      {
        assert Gather(fileMap, n) == fileMap[n];
      }
      assert Gather(fileMap, name) == fileMap[name];
      var block := ScanName(fs, dirs, name, fileMap[name]);
      CoversMore(fs, dirs, entries, seen, block, name);
      entries, seen, names := entries + block, seen + {name}, names - {name};
    }
    assert AllFilesSeen(fs, dirs, seen) by {
      forall n | Locations(fs, dirs, n) != []
        ensures n in seen
      {
        assert Gather(fileMap, n) != [];
      }
    }
    entries, seen := ScanOrphans(fs, dirs, entries, seen);
    forall p: Place
      ensures CountTop(entries, p) == if EntryFor(fs, dirs, p).Some? then 1 else 0
    {
      if EntryFor(fs, dirs, p).Some? {
        PlaceIsSeen(fs, dirs, seen, p);
      }
    }
  }

  // ---------- what a report promises ----------

  /** What the scan ensures of its entries. */
  ghost predicate IsReport(fs: FileSystem, dirs: seq<string>, entries: seq<Delta>)
  {
    && (forall k :: 0 <= k < |entries| ==> EntryFor(fs, dirs, entries[k].top) == Some(entries[k]))
    && (forall p: Place :: CountTop(entries, p) == if EntryFor(fs, dirs, p).Some? then 1 else 0)
    && InOrder(fs, dirs, entries)
  }

  lemma {:induction false} CountPositive(entries: seq<Delta>, top: Place)
    ensures CountTop(entries, top) > 0 <==> exists k :: 0 <= k < |entries| && entries[k].top == top
  {
    if entries != [] {
      CountPositive(entries[1..], top);
      if exists k :: 0 <= k < |entries| && entries[k].top == top {
        var k :| 0 <= k < |entries| && entries[k].top == top;
        if k > 0 {
          assert entries[1..][k - 1].top == top;
        }
      }
      if exists k :: 0 <= k < |entries[1..]| && entries[1..][k].top == top {
        var k :| 0 <= k < |entries[1..]| && entries[1..][k].top == top;
        assert entries[k + 1].top == top;
      }
    }
  }

  lemma {:induction false} LocationsHold(fs: FileSystem, dirs: seq<string>, name: string, dir: string)
    ensures dir in Locations(fs, dirs, name) <==> dir in dirs && HasFile(fs, dir, name)
  {
    hide HasFile;
    if dirs != [] {
      LocationsHold(fs, dirs[..|dirs| - 1], name, dir);
      assert dirs == dirs[..|dirs| - 1] + [dirs[|dirs| - 1]];
    }
  }

  /**
   A name that two or more directories hold has exactly one entry among the four file kinds, with
   the copy of the highest priority on top.
   */
  lemma SeveralCopies(fs: FileSystem, dirs: seq<string>, entries: seq<Delta>, name: string)
    requires IsReport(fs, dirs, entries) && |Locations(fs, dirs, name)| >= 2
    ensures exists k :: 0 <= k < |entries| && entries[k].top == FileAt(Locations(fs, dirs, name)[0], name)
                        && entries[k].kind in {Masked, Redirected, Equivalent, Overridden}
    ensures CountTop(entries, FileAt(Locations(fs, dirs, name)[0], name)) == 1
    ensures forall d :: d != Locations(fs, dirs, name)[0] ==> CountTop(entries, FileAt(d, name)) == 0
  {
    hide Locations, CountTop, HasFile, EntryFor;
    SeveralVerdict(fs, dirs, name);
    var top := FileAt(Locations(fs, dirs, name)[0], name);
    CountPositive(entries, top);
    var k :| 0 <= k < |entries| && entries[k].top == top;
    assert EntryFor(fs, dirs, top) == Some(entries[k]);
  }

  lemma SeveralVerdict(fs: FileSystem, dirs: seq<string>, name: string)
    requires |Locations(fs, dirs, name)| >= 2
    ensures var d := EntryFor(fs, dirs, FileAt(Locations(fs, dirs, name)[0], name));
      d.Some? && d.value.kind in {Masked, Redirected, Equivalent, Overridden}
    ensures forall d :: d != Locations(fs, dirs, name)[0] ==> EntryFor(fs, dirs, FileAt(d, name)) == None
  {
    hide Locations, HasFile;
  }

  /** Every conf file of a drop-in directory has exactly one entry, an extension, whether its unit exists or not. */
  lemma EveryDropInOnce(fs: FileSystem, dirs: seq<string>, entries: seq<Delta>, dir: string, name: string, conf: string)
    requires IsReport(fs, dirs, entries) && dir in dirs && IsDropIn(fs, dir, name, conf)
    ensures CountTop(entries, DropIn(dir, name, conf)) == 1
    ensures exists k :: 0 <= k < |entries| && entries[k].top == DropIn(dir, name, conf) && entries[k].kind == Extended
                        && (entries[k].bottom == None <==> Locations(fs, dirs, name) == [])
  {
    hide Locations, CountTop, IsDropIn;
    var top := DropIn(dir, name, conf);
    CountPositive(entries, top);
    var k :| 0 <= k < |entries| && entries[k].top == top;
    assert EntryFor(fs, dirs, top) == Some(entries[k]);
  }

  // ---------- in terms of the directories ----------

  /** A directory holds a file of the name: a file or a link that is not a drop-in directory. */
  lemma HasFileMeans(fs: FileSystem, dir: string, item: Item)
    requires Proper(fs) && dir in fs && item in fs[dir]
    ensures HasFile(fs, dir, item.name)
       <==> && (item.isFile || item.link.Some?)
            && !(|item.name| >= 2 && item.name[|item.name| - 2..] == ".d" && item.listing.Some?)
    ensures HasFile(fs, dir, item.name) ==> FileItem(fs, dir, item.name) == item
  {
    var k :| 0 <= k < |fs[dir]| && fs[dir][k] == item;
    FindUnique(fs[dir], k);
  }

  /** The first of the locations is the first directory that has the file, and the last the last. */
  lemma {:induction false} LocationsByPriority(fs: FileSystem, dirs: seq<string>, name: string, i: nat)
    requires i < |dirs| && HasFile(fs, dirs[i], name)
    ensures var ls := Locations(fs, dirs, name);
      && ls != []
      && ((forall m :: 0 <= m < i ==> !HasFile(fs, dirs[m], name)) ==> ls[0] == dirs[i])
      && ((forall m :: i < m < |dirs| ==> !HasFile(fs, dirs[m], name)) ==> ls[|ls| - 1] == dirs[i])
  {
    hide HasFile;
    var n := |dirs| - 1;
    if i < n {
      LocationsByPriority(fs, dirs[..n], name, i);
    } else if forall m :: 0 <= m < i ==> !HasFile(fs, dirs[m], name) {
      NoLocations(fs, dirs[..n], name);
    }
  }

  lemma {:induction false} NoLocations(fs: FileSystem, dirs: seq<string>, name: string)
    requires forall m :: 0 <= m < |dirs| ==> !HasFile(fs, dirs[m], name)
    ensures Locations(fs, dirs, name) == []
  {
    hide HasFile;
    if dirs != [] {
      NoLocations(fs, dirs[..|dirs| - 1], name);
    }
  }

  /** What the entry of a name in several directories says of its first copy `a` and its last `b`. */
  lemma SeveralCopiesKinds(fs: FileSystem, dirs: seq<string>, entries: seq<Delta>, name: string, k: nat)
    requires IsReport(fs, dirs, entries) && |Locations(fs, dirs, name)| >= 2 && k < |entries|
    requires entries[k].top == FileAt(Locations(fs, dirs, name)[0], name)
    ensures var ls, e := Locations(fs, dirs, name), entries[k];
      var a, b := FileItem(fs, ls[0], name), FileItem(fs, ls[|ls| - 1], name);
      var masked := a.link == Some("/dev/null");
      var redirected := !masked && a.link.Some? && a.targetExists;
      var same := a.content.Some? && a.content == b.content;
      && (e.kind == Masked <==> masked)
      && (e.kind == Redirected <==> redirected)
      && (e.kind == Equivalent <==> !masked && !redirected && same)
      && (e.kind == Overridden <==> !masked && !redirected && !same)
      && e.bottom == if redirected then Some(Target(a.link.value)) else Some(FileAt(ls[|ls| - 1], name))
  {
    hide Locations, CountTop, HasFile;
    assert EntryFor(fs, dirs, entries[k].top) == Some(entries[k]);
  }

  /** A name in one directory has an entry exactly when its copy is masked or redirected. */
  lemma SingleCopyKinds(fs: FileSystem, dirs: seq<string>, entries: seq<Delta>, name: string, dir: string)
    requires IsReport(fs, dirs, entries) && Locations(fs, dirs, name) == [dir]
    ensures var a := FileItem(fs, dir, name);
      var masked := a.link == Some("/dev/null");
      var redirected := !masked && a.link.Some? && a.targetExists;
      && CountTop(entries, FileAt(dir, name)) == (if masked || redirected then 1 else 0)
      && forall k :: 0 <= k < |entries| && entries[k].top == FileAt(dir, name) ==>
           entries[k].kind == (if masked then Masked else Redirected)
           && entries[k].bottom == (if masked then None else Some(Target(a.link.value)))
  {
    hide Locations, CountTop, HasFile;
    forall k | 0 <= k < |entries| && entries[k].top == FileAt(dir, name)
      ensures EntryFor(fs, dirs, entries[k].top) == Some(entries[k])
    {
    }
  }

  /** A drop-in is a file of a `.d` directory with the extension `conf`. */
  lemma DropInMeans(fs: FileSystem, dir: string, item: Item, name: string, stem: string)
    requires Proper(fs) && dir in fs && item in fs[dir] && item.name == name + ".d"
    ensures IsDropIn(fs, dir, name, stem + ".conf")
       <==> item.listing.Some? && stem != "" && Child(stem + ".conf", true) in item.listing.value
  {
    var k :| 0 <= k < |fs[dir]| && fs[dir][k] == item;
    FindUnique(fs[dir], k);
    assert (stem + ".conf")[|stem|..] == ".conf";
  }

  /** Every entry of kind Extended is of a drop-in, and names the file of highest priority, if there is one. */
  lemma ExtensionsMean(fs: FileSystem, dirs: seq<string>, entries: seq<Delta>, k: nat)
    requires IsReport(fs, dirs, entries) && k < |entries| && entries[k].kind == Extended
    ensures var e := entries[k];
      && e.top.DropIn? && e.top.dir in dirs && e.top.dir in fs
      && (exists item, stem :: item in fs[e.top.dir] && item.name == e.top.name + ".d" && item.listing.Some?
            && e.top.conf == stem + ".conf" && Child(stem + ".conf", true) in item.listing.value)
      && var ls := Locations(fs, dirs, e.top.name); e.bottom == if ls == [] then None else Some(FileAt(ls[0], e.top.name))
  {
    hide Locations, CountTop, HasFile;
    var e := entries[k];
    assert EntryFor(fs, dirs, e.top) == Some(e);
    var item := ItemAt(fs, e.top.dir, e.top.name + ".d").value;
    var conf := e.top.conf;
    assert conf == conf[..|conf| - 5] + ".conf";
    assert item in fs[e.top.dir] && Child(conf[..|conf| - 5] + ".conf", true) in item.listing.value;
  }
}
