/** find: a depth-first search of the directory tree. */
module Search {
  import opened Bytes
  import opened CString
  import opened OnDisk
  import opened Operations
  import opened Ownership
  import opened Safety
  import opened Runs
  import opened Refinement
  import opened Answers
  import opened Persistence
  import opened CleanClusters
  import opened DirectoryTree
  import opened Tokenizer
  import opened StringLibrary
  import opened Sessions
  import FatDriver

  /** What is searched for: a name, as a C string, and an extension. */
  datatype Query = Query(name: seq<byte>, ext: Ext)

  /** A directory is found by any name that it is a prefix of. */
  predicate DirectoryHit(name: Name, q: Query) {
    Str(name) <= q.name
  }

  /** A file is found by any beginning of its name, with its extension. */
  predicate FileHit(e: Entry, q: Query) {
    e.name[0] != 0 && !e.IsDir() && q.name <= Str(e.name) && e.ext == q.ext
  }

  ghost predicate Hit(disk: Disk, d: Index, q: Query) {
    || DirectoryHit(TableOf(disk[d])[0].name, q)
    || exists i: Position :: i >= 2 && FileHit(TableOf(disk[d])[i], q)
  }

  /** d is reached from a by going down entries with a name. */
  ghost predicate Below(disk: Disk, l: Layout, a: Index, d: Index)
    requires d in l.depth
    decreases l.depth[d]
  {
    || d == a
    || (&& d in l.home && l.home[d].dir in l.depth && l.depth[l.home[d].dir] < l.depth[d]
        && NameIn(disk, l.home, d)[0] != 0 && Below(disk, l, a, l.home[d].dir))
  }

  ghost predicate Found(disk: Disk, l: Layout, a: Index, q: Query) {
    exists d :: d in l.depth && Below(disk, l, a, d) && Hit(disk, d, q)
  }

  /** What looking at slot i of a directory can find. */
  ghost predicate FoundAt(disk: Disk, l: Layout, a: Index, i: Position, q: Query) {
    var e := TableOf(disk[a])[i];
    i >= 2 && e.name[0] != 0 &&
    if e.IsDir() then e.Cluster() in l.depth && Found(disk, l, e.Cluster(), q) else FileHit(e, q)
  }

  ghost predicate FoundBefore(disk: Disk, l: Layout, a: Index, n: nat, q: Query) {
    exists i: Position :: i < n && FoundAt(disk, l, a, i, q)
  }

  lemma {:induction false} BelowThrough(sys: System, l: Layout, a: Index, c: Index, d: Index)
    requires Good(sys, l) && c in l.depth && d in l.depth
    requires Below(sys.disk, l, a, c) && Below(sys.disk, l, c, d)
    ensures Below(sys.disk, l, a, d)
    decreases l.depth[d]
  {
    hide TableOf, Wf, NameIn;
    if d != c {
      BelowThrough(sys, l, a, c, l.home[d].dir);
    }
  }

  /** Whatever is below a directory, other than itself, is below one of its entries. */
  lemma {:induction false} BelowEntry(sys: System, l: Layout, a: Index, d: Index) returns (c: Index)
    requires Good(sys, l) && d in l.depth && Below(sys.disk, l, a, d) && d != a
    ensures c in l.depth && c in l.home && l.home[c].dir == a
    ensures NameIn(sys.disk, l.home, c)[0] != 0 && Below(sys.disk, l, c, d)
    decreases l.depth[d]
  {
    hide TableOf, Wf, NameIn;
    if l.home[d].dir == a {
      c := d;
    } else {
      c := BelowEntry(sys, l, a, l.home[d].dir);
    }
  }

  /** The search of a directory, slot by slot. */
  lemma FoundBySlots(sys: System, l: Layout, a: Index, q: Query)
    requires Good(sys, l) && Tree(sys.disk, l) && a in l.depth
    ensures Found(sys.disk, l, a, q)
            <==> DirectoryHit(TableOf(sys.disk[a])[0].name, q) || FoundBefore(sys.disk, l, a, SLOT_COUNT, q)
  {
    hide TableOf, Wf, Tree, DirectoryHit, FileHit, NameIn, FoundAt;
    var disk := sys.disk;
    if Found(disk, l, a, q) {
      var d :| d in l.depth && Below(disk, l, a, d) && Hit(disk, d, q);
      if d == a {
        if i: Position :| i >= 2 && FileHit(TableOf(disk[a])[i], q) {
          FileAt(disk, l, a, i, q);
        }
      } else {
        var c := BelowEntry(sys, l, a, d);
        EntryAt(sys, l, a, c, d, q);
      }
    }
    if DirectoryHit(TableOf(disk[a])[0].name, q) {
      assert Below(disk, l, a, a) && Hit(disk, a, q);
    }
    if i: Position :| i < SLOT_COUNT && FoundAt(disk, l, a, i, q) {
      FoundUnder(sys, l, a, i, q);
    }
  }

  lemma FileAt(disk: Disk, l: Layout, a: Index, i: Position, q: Query)
    requires i >= 2 && FileHit(TableOf(disk[a])[i], q)
    ensures FoundAt(disk, l, a, i, q)
  {
    hide TableOf;
  }

  lemma EntryAt(sys: System, l: Layout, a: Index, c: Index, d: Index, q: Query)
    requires Good(sys, l) && c in l.depth && c in l.home && l.home[c].dir == a && NameIn(sys.disk, l.home, c)[0] != 0
    requires d in l.depth && Below(sys.disk, l, c, d) && Hit(sys.disk, d, q)
    ensures FoundAt(sys.disk, l, a, l.home[c].pos, q)
  {
    hide TableOf, Wf, Hit, Below;
    HomeCluster(sys.fat, sys.disk, l, c);
  }

  lemma FoundUnder(sys: System, l: Layout, a: Index, i: Position, q: Query)
    requires Good(sys, l) && Tree(sys.disk, l) && a in l.depth && FoundAt(sys.disk, l, a, i, q)
    ensures Found(sys.disk, l, a, q)
  {
    hide TableOf, Wf, Tree, DirectoryHit, FileHit;
    var disk, e := sys.disk, TableOf(sys.disk[a])[i];
    if e.IsDir() {
      var c := e.Cluster();
      DirSlot(sys.fat, disk, l, a, i);
      DepthOf(sys.fat, disk, l, c);
      assert Below(disk, l, a, a);
      var d :| d in l.depth && Below(disk, l, c, d) && Hit(disk, d, q);
      BelowThrough(sys, l, a, c, d);
    } else {
      assert Below(disk, l, a, a) && Hit(disk, a, q);
    }
  }

  // ---------- find in terms of the map of files ----------

  /** A key of the map that the query finds: a file by any beginning of its name, with its extension; a directory by any
      name that its own is a prefix of. */
  ghost predicate KeyHit(m: Files, k: Key, q: Query)
    requires k in m
  {
    match m[k]
    case File(_) => q.name <= Str(k.name) && k.ext == q.ext
    case Directory(_) => Str(k.name) <= q.name
  }

  /** The entry that a key of the map stands for. */
  lemma SlotOfKey(sys: System, l: Layout, k: Key) returns (s: Slot)
    requires Good(sys, l) && k in View(sys.disk, l)
    ensures s.dir == k.dir && k.dir in l.depth && s.pos >= 2
    ensures var e, node := TableOf(sys.disk[s.dir])[s.pos], View(sys.disk, l)[k];
            && e.name == k.name && e.ext == k.ext && (e.IsDir() <==> node.Directory?)
            && (e.IsDir() ==> node.cluster == e.Cluster() && node.cluster in l.home && l.home[node.cluster] == s)
  {
    hide TableOf, Inv, FilesOf, TablesOf, At, Coherent, IsFormatted, NodeAt;
    var ts := TablesOf(sys.disk, l.depth.Keys);
    KeysAreDistinct(sys, l);
    ViewBinds(sys.disk, ts, l.chains);
    s :| s in l.chains && KeyAt(ts, s) == k;
    SlotKnown(sys.fat, ts, l, s);
    BoundKeysDirectory(sys, l);
    AtIs(sys.disk, l.depth.Keys, s);
    EntryKnown(sys.fat, ts, l, s);
    if At(ts, s).IsDir() {
      HomeOf(sys.fat, ts, l, s);
      NodeOfDir(sys.disk, ts, l.chains, s);
    } else {
      NodeIsFile(sys.disk, ts, l.chains, s);
    }
  }

  lemma KeysAreDistinct(sys: System, l: Layout)
    requires Good(sys, l)
    ensures DistinctKeys(TablesOf(sys.disk, l.depth.Keys), l.chains)
  {
    hide TableOf, DistinctKeys, Entered, Chained, Sized, Owned, Accounted, Headed, Homed, Ranked;
  }

  /** The key of an entry with a name. */
  lemma KeyOfSlot(sys: System, l: Layout, d: Index, i: Position) returns (k: Key)
    requires Good(sys, l) && d in l.depth && i >= 2 && TableOf(sys.disk[d])[i].name[0] != 0
    ensures var e := TableOf(sys.disk[d])[i];
            && k == Key(d, e.name, e.ext) && k in View(sys.disk, l)
            && (e.IsDir() <==> View(sys.disk, l)[k].Directory?)
  {
    hide TableOf, Inv, FilesOf, TablesOf, At, Coherent, IsFormatted, NodeAt;
    var ts, s := TablesOf(sys.disk, l.depth.Keys), Slot(d, i);
    AtIs(sys.disk, l.depth.Keys, s);
    k := KeyAt(ts, s);
    if s !in l.chains {
      BlankUnlessEntered(sys.fat, ts, l, s);
      InTables(sys.disk, l.depth.Keys);
      assert false;
    }
    KeysAreDistinct(sys, l);
    ViewBinds(sys.disk, ts, l.chains);
    EntryKnown(sys.fat, ts, l, s);
    if At(ts, s).IsDir() {
      NodeOfDir(sys.disk, ts, l.chains, s);
    } else {
      NodeIsFile(sys.disk, ts, l.chains, s);
    }
  }

  /** The query finds this key of the map, and its directory is reached from the root through directories with names. */
  ghost predicate KeyFound(sys: System, l: Layout, k: Key, q: Query) {
    && k in View(sys.disk, l) && k.name[0] != 0 && KeyHit(View(sys.disk, l), k, q)
    && k.dir in l.depth && Below(sys.disk, l, ROOT_CLUSTER, k.dir)
  }

  lemma FileInMap(sys: System, l: Layout, d: Index, i: Position, q: Query)
    requires Good(sys, l) && d in l.depth && Below(sys.disk, l, ROOT_CLUSTER, d)
    requires i >= 2 && FileHit(TableOf(sys.disk[d])[i], q)
    ensures exists k :: KeyFound(sys, l, k, q)
  {
    hide TableOf, Wf, View, KeyHit, Below;
    var k := KeyOfSlot(sys, l, d, i);
    FileKeyHit(View(sys.disk, l), k, q);
    assert KeyFound(sys, l, k, q);
  }

  lemma DirectoryInMap(sys: System, l: Layout, d: Index, q: Query)
    requires Good(sys, l) && Tree(sys.disk, l) && d in l.depth && d != ROOT_CLUSTER
    requires Below(sys.disk, l, ROOT_CLUSTER, d) && DirectoryHit(TableOf(sys.disk[d])[0].name, q)
    ensures exists k :: KeyFound(sys, l, k, q)
  {
    hide TableOf, Wf, Tree, View, KeyHit;
    LabelOf(sys.disk, l, d);
    HomeCluster(sys.fat, sys.disk, l, d);
    var k := KeyOfSlot(sys, l, l.home[d].dir, l.home[d].pos);
    DirectoryKeyHit(View(sys.disk, l), k, q);
    assert KeyFound(sys, l, k, q);
  }

  lemma KeyFoundIsFound(sys: System, l: Layout, k: Key, q: Query)
    requires Good(sys, l) && Tree(sys.disk, l) && KeyFound(sys, l, k, q)
    ensures Found(sys.disk, l, ROOT_CLUSTER, q)
  {
    hide TableOf, Wf, Tree, View, KeyHit;
    var m := View(sys.disk, l);
    var s := SlotOfKey(sys, l, k);
    if m[k].File? {
      FileKeyHit(m, k, q);
      assert Hit(sys.disk, k.dir, q);
    } else {
      var d := m[k].cluster;
      DirectoryKeyHit(m, k, q);
      HomesInDepth(sys.fat, sys.disk, l);
      DepthOf(sys.fat, sys.disk, l, d);
      LabelOf(sys.disk, l, d);
      assert Below(sys.disk, l, ROOT_CLUSTER, d) && Hit(sys.disk, d, q);
    }
  }

  /** find from the root finds something if and only if the query begins with "root", or it finds a key of the map. */
  lemma FoundInMap(sys: System, l: Layout, q: Query)
    requires Good(sys, l) && Tree(sys.disk, l)
    ensures Found(sys.disk, l, ROOT_CLUSTER, q)
        <==> [0x72, 0x6F, 0x6F, 0x74] <= q.name || exists k :: KeyFound(sys, l, k, q)
  {
    hide TableOf, Good, Tree, KeyFound, FileHit;
    RootInDepth(sys, l);
    RootIs();
    if Found(sys.disk, l, ROOT_CLUSTER, q) {
      var d :| d in l.depth && Below(sys.disk, l, ROOT_CLUSTER, d) && Hit(sys.disk, d, q);
      if i: Position :| i >= 2 && FileHit(TableOf(sys.disk[d])[i], q) {
        FileInMap(sys, l, d, i, q);
      } else if d != ROOT_CLUSTER {
        DirectoryInMap(sys, l, d, q);
      }
    }
    if [0x72, 0x6F, 0x6F, 0x74] <= q.name {
      assert Below(sys.disk, l, ROOT_CLUSTER, ROOT_CLUSTER) && Hit(sys.disk, ROOT_CLUSTER, q);
    }
    if k :| KeyFound(sys, l, k, q) {
      KeyFoundIsFound(sys, l, k, q);
    }
  }

  lemma RootIs()
    ensures Str(ROOT_NAME) == [0x72, 0x6F, 0x6F, 0x74]
  {
    LengthUnique(ROOT_NAME, 4);
  }

  lemma FileKeyHit(m: Files, k: Key, q: Query)
    requires k in m && m[k].File?
    ensures KeyHit(m, k, q) <==> q.name <= Str(k.name) && k.ext == q.ext
  {
  }

  lemma DirectoryKeyHit(m: Files, k: Key, q: Query)
    requires k in m && m[k].Directory?
    ensures KeyHit(m, k, q) <==> Str(k.name) <= q.name
  {
  }

  /** The directories deeper than this one: what is left for the search to descend into. */
  ghost function Deeper(l: Layout, d: Index): set<Index> {
    if d in l.depth then set x | x in l.depth && l.depth[x] > l.depth[d] else {}
  }

  lemma DeeperShrinks(sys: System, l: Layout, a: Index, i: Position)
    requires Good(sys, l) && Tree(sys.disk, l) && a in l.depth && i >= 2 && TableOf(sys.disk[a])[i].IsDir()
    ensures var c := TableOf(sys.disk[a])[i].Cluster();
            && c in l.depth && Deeper(l, c) < Deeper(l, a)
            && TableOf(sys.disk[c])[0].name == TableOf(sys.disk[a])[i].name
  {
    hide TableOf, Wf, Tree;
    var c := TableOf(sys.disk[a])[i].Cluster();
    DirSlot(sys.fat, sys.disk, l, a, i);
    HomesInDepth(sys.fat, sys.disk, l);
    DepthOf(sys.fat, sys.disk, l, c);
    LabelOf(sys.disk, l, c);
    assert c in Deeper(l, a) && c !in Deeper(l, c);
  }

  /** The query that a command line asks for, if its parts are not too long. */
  ghost function QueryOf(line: seq<byte>): Option<Query> {
    var name, ext := RowBytes(line, [DOT], 0), RowBytes(line, [DOT], 1);
    if Length(name) > 8 || (|TokensOf(line, [DOT])| > 1 && Length(ext) > 3) then None
    else Some(Query(Str(name), if |TokensOf(line, [DOT])| > 1 then ext[..3] else NO_EXT))
  }

  lemma QueryMeans(line: seq<byte>)
    requires Parsable(line)
    ensures var parts := TokensOf(line, [0x2E]);
            var name, ext := if |parts| > 0 then parts[0] else [], if |parts| > 1 then parts[1] else [];
            && (QueryOf(line) == None <==> |name| > 8 || |ext| > 3)
            && (QueryOf(line).Some? ==>
                  var q := QueryOf(line).value;
                  && q.name == name && Str(q.ext) == ext
                  && if |parts| > 1 then FilledFrom(q.ext, line, Spans(line, [0x2E], 0)[1]) else q.ext == [0, 0, 0])
  {
    hide TokensOf, RowBytes, Reads, Length, Spans;
    RowStr(line, 0);
    RowStr(line, 1);
    var ext := RowBytes(line, [DOT], 1);
    if Length(ext) <= 3 {
      PrefixStr(ext, 3);
    }
    if |TokensOf(line, [DOT])| > 1 {
      FieldIs(line, 1, 3);
    }
    EmptyExt();
  }

  ghost predicate HoldsFile(disk: Disk, d: nat, q: Query) {
    d < CLUSTER_MAP_SIZE && exists i: Position :: i >= 2 && FileHit(TableOf(disk[d])[i], q)
  }

  /** In or below a directory whose own name is a prefix of the query's. */
  ghost predicate BelowHit(disk: Disk, l: Layout, d: nat, q: Query) {
    d in l.depth && exists a: Index :: DirectoryHit(TableOf(disk[a])[0].name, q) && Below(disk, l, a, d)
  }

  /** Before slot i there is no directory with a name, and no file whose name begins as the query's. */
  ghost predicate PassedOver(t: Table, i: nat, q: Query) {
    forall j: nat | 2 <= j < i && j < SLOT_COUNT && t[j].name[0] != 0 :: !t[j].IsDir() && !(q.name <= Str(t[j].name))
  }

  /** A search that has found something goes on in a subdirectory of this one. */
  ghost predicate GoesOn(t: Table, q: Query) {
    exists i: Position :: i >= 2 && t[i].name[0] != 0 && t[i].IsDir() && PassedOver(t, i, q)
  }

  lemma GoesOnAt(t: Table, i: Position, q: Query)
    requires i >= 2 && t[i].name[0] != 0 && PassedOver(t, i, q) && (t[i].IsDir() || q.name <= Str(t[i].name))
    ensures GoesOn(t, q) <==> t[i].IsDir()
  {
    hide Str;
  }

  lemma PassedOne(t: Table, i: Position, q: Query)
    requires i >= 2 && PassedOver(t, i, q)
    requires t[i].name[0] != 0 ==> !t[i].IsDir() && !(q.name <= Str(t[i].name))
    ensures PassedOver(t, i + 1, q)
  {
    hide Str;
  }

  lemma NonePassed(t: Table, q: Query)
    ensures PassedOver(t, 2, q)
  {
  }

  lemma AllPassed(t: Table, q: Query)
    requires PassedOver(t, SLOT_COUNT, q)
    ensures !GoesOn(t, q)
  {
    hide Str;
  }

  lemma HitHere(disk: Disk, l: Layout, a: Index, q: Query)
    requires a in l.depth && DirectoryHit(TableOf(disk[a])[0].name, q)
    ensures BelowHit(disk, l, a, q)
  {
    hide TableOf, DirectoryHit;
    assert Below(disk, l, a, a);
  }

  lemma HitBelow(sys: System, l: Layout, a: Index, i: Position, q: Query)
    requires Good(sys, l) && Tree(sys.disk, l) && a in l.depth && BelowHit(sys.disk, l, a, q)
    requires i >= 2 && TableOf(sys.disk[a])[i].IsDir() && TableOf(sys.disk[a])[i].name[0] != 0
    ensures BelowHit(sys.disk, l, TableOf(sys.disk[a])[i].Cluster(), q)
  {
    hide TableOf, Wf, Tree, DirectoryHit;
    var c := TableOf(sys.disk[a])[i].Cluster();
    DirSlot(sys.fat, sys.disk, l, a, i);
    HomesInDepth(sys.fat, sys.disk, l);
    DepthOf(sys.fat, sys.disk, l, c);
    var b: Index :| DirectoryHit(TableOf(sys.disk[b])[0].name, q) && Below(sys.disk, l, b, a);
    assert Below(sys.disk, l, b, c);
  }

  class Finder {
    const driver: FatDriver.Driver
    const library: Library
    var check: bool
    var location: u32
    var current: Name
    var code: int
    var kind: int

    ghost function Sys(): System
      requires driver.Valid()
      reads driver.clusterMap, driver.device.image
    {
      System(driver.FatView(), driver.DiskView())
    }

    /** The location is a directory of the tree and the name is its name. */
    ghost predicate Located(l: Layout)
      requires driver.Valid()
      reads this, driver.clusterMap, driver.device.image
    {
      && Good(Sys(), l) && Tree(driver.DiskView(), l)
      && location in l.depth && current == TableOf(driver.DiskView()[location])[0].name
    }

    /** Where the search says that it has found something: for a file, in the directory that holds it; for a directory,
        in that directory or one below it, as the search goes on where a directory's name has matched. */
    ghost predicate Reported(l: Layout, q: Query)
      requires driver.Valid()
      reads this, driver.clusterMap, driver.device.image
    {
      && (check <==> kind == 0 || kind == 1)
      && (kind == 0 ==> HoldsFile(driver.DiskView(), location, q))
      && (kind == 1 ==> BelowHit(driver.DiskView(), l, location, q))
    }

    constructor (driver: FatDriver.Driver)
      requires driver.Valid()
      ensures this.driver == driver && fresh(library) && library.Valid() && library.text == null
    {
      this.driver := driver;
      library := new Library();
      check, location, current, code, kind := false, ROOT_CLUSTER, ROOT_NAME, 0, -1;
    }

    method StartsWithString(s: seq<byte>, prefix: seq<byte>) returns (starts: bool)
      requires Length(prefix) <= 8 <= |s|
      ensures starts <==> Str(prefix) <= Str(s)
    {
      PrefixByLength(s, prefix);
      var n := Strlen(prefix);
      var differs := Memcmp(s, prefix, n);
      starts := differs == 0;
    }

    /** The recursive search. It reports a hit exactly when there is one below, never an error, and it leaves the
        location at a live directory together with its name. Where the directory's own name matches, that directory is
        the location in the end if and only if the search does not go on below it. */
    method Dfs(name: seq<byte>, ext: seq<byte>, ghost l: Layout)
      requires |name| >= 8 && Length(name) <= 8 && |ext| >= 3
      requires driver.Valid() && Located(l) && code == 0
      requires Reported(l, Query(Str(name), ext[..3])) && kind != 0
      modifies this, driver.dirTable
      ensures Sys() == old(Sys()) && Located(l) && code == 0 && Reported(l, Query(Str(name), ext[..3]))
      ensures check <==> old(check) || Found(old(driver.DiskView()), l, old(location), Query(Str(name), ext[..3]))
      ensures var q := Query(Str(name), ext[..3]);
              old(check) || DirectoryHit(old(current), q) ==>
                && (location == old(location) <==> !GoesOn(TableOf(old(driver.DiskView()[location])), q))
                && Deeper(l, location) <= Deeper(l, old(location))
      decreases Deeper(l, location), 1
    {
      hide TableOf, FatOf, Tree, Good, Found, FoundAt, FoundBefore, DirectoryHit, FileHit, Length, Deeper, HoldsFile,
           BelowHit, GoesOn, PassedOver, Str;
      ghost var q, a, sys := Query(Str(name), ext[..3]), location, Sys();
      var matches := MatchesCurrent(name, q);
      if matches {
        check, kind := true, 1;
        HitHere(sys.disk, l, a, q);
      }
      ghost var was := check;
      var table := LoadHere(l);
      NoneBefore(sys.disk, l, a, q);
      NonePassed(TableOf(sys.disk[a]), q);
      var i := 2;
      while i < SLOT_COUNT
        invariant 2 <= i <= SLOT_COUNT && Sys() == sys && Located(l) && code == 0
        invariant table[..] == TableOf(sys.disk[a])
        invariant Reported(l, q) && kind != 0 && (check ==> location == a)
        invariant check <==> was || FoundBefore(sys.disk, l, a, i, q)
        invariant was ==> PassedOver(TableOf(sys.disk[a]), i, q)
      {
        OneMore(sys.disk, l, a, i, q);
        if table[i].name[0] != 0 {
          var stop := Visit(table, i, name, ext, l, a, q);
          if stop {
            if was {
              GoesOnAt(TableOf(sys.disk[a]), i, q);
            }
            break;
          }
        }
        if was {
          PassedOne(TableOf(sys.disk[a]), i, q);
        }
        i := i + 1;
      }
      if was && i == SLOT_COUNT {
        AllPassed(TableOf(sys.disk[a]), q);
      }
      FoundBySlots(sys, l, a, q);
      EarlierIsFound(sys.disk, l, a, q);
    }

    /** One named slot: a directory is searched in turn; a file's name is compared over the length of the query. */
    method Visit(table: array<Entry>, i: Position, name: seq<byte>, ext: seq<byte>,
                 ghost l: Layout, ghost a: Index, ghost q: Query) returns (stop: bool)
      requires |name| >= 8 && Length(name) <= 8 && |ext| >= 3 && q == Query(Str(name), ext[..3])
      requires driver.Valid() && Located(l) && code == 0 && a in l.depth && i >= 2
      requires table.Length == SLOT_COUNT && table != driver.dirTable && table[..] == TableOf(driver.DiskView()[a])
      requires table[i].name[0] != 0 && Reported(l, q) && kind != 0 && (check ==> location == a)
      modifies this, driver.dirTable
      ensures Sys() == old(Sys()) && Located(l) && code == 0 && Reported(l, q)
      ensures !stop ==> kind != 0 && (check ==> location == a)
      ensures check <==> old(check) || FoundAt(old(driver.DiskView()), l, a, i, q)
      ensures stop ==> check
      ensures old(check) ==>
                && (stop <==> table[i].IsDir() || q.name <= Str(table[i].name))
                && if table[i].IsDir() then Deeper(l, location) < Deeper(l, a) else location == a
      decreases Deeper(l, a), 0
    {
      hide TableOf, FatOf, Tree, Good, Found, FoundAt, DirectoryHit, FileHit, Length, Deeper, BelowHit, GoesOn, Str;
      ghost var sys := Sys();
      OneMore(sys.disk, l, a, i, q);
      if table[i].attribute == ATTR_SUBDIRECTORY {
        DeeperShrinks(sys, l, a, i);
        if check {
          HitBelow(sys, l, a, i, q);
        }
        current := table[i].name;
        location := table[i].clusterHigh as int * 0x1_0000 + table[i].clusterLow as int;
        Dfs(name, ext, l);
        return check || code == 1;
      }
      stop := VisitFile(table, i, name, ext, l, a, q);
    }

    /** A file: a hit is reported in the directory that holds it. */
    method VisitFile(table: array<Entry>, i: Position, name: seq<byte>, ext: seq<byte>,
                     ghost l: Layout, ghost a: Index, ghost q: Query) returns (stop: bool)
      requires |name| >= 8 && Length(name) <= 8 && |ext| >= 3 && q == Query(Str(name), ext[..3])
      requires driver.Valid() && Located(l) && code == 0 && a in l.depth && i >= 2
      requires table.Length == SLOT_COUNT && table[..] == TableOf(driver.DiskView()[a])
      requires table[i].name[0] != 0 && !table[i].IsDir() && Reported(l, q) && kind != 0 && (check ==> location == a)
      modifies this
      ensures Sys() == old(Sys()) && Located(l) && code == 0 && Reported(l, q)
      ensures !stop ==> kind != 0 && (check ==> location == a)
      ensures check <==> old(check) || FileHit(table[i], q)
      ensures stop ==> check
      ensures old(check) ==> location == a && (stop <==> q.name <= Str(table[i].name))
    {
      hide TableOf, FatOf, Tree, Good, FileHit, Length, BelowHit;
      ghost var sys := Sys();
      FileHitParts(table[i], q);
      var starts := StartsWithString(table[i].name, name);
      if !starts {
        return false;
      }
      var differs := Memcmp(table[i].ext, ext, 3);
      assert table[i].ext[..3] == table[i].ext;
      if differs == 0 {
        check, kind := true, 0;
        location := table[0].clusterHigh as int * 0x1_0000 + table[0].clusterLow as int;
        current := table[0].name;
        Here(sys, l, a);
      }
      stop := check || code == 1;
    }

    method MatchesCurrent(name: seq<byte>, ghost q: Query) returns (matches: bool)
      requires |name| >= 8 && q.name == Str(name)
      ensures matches <==> DirectoryHit(current, q)
    {
      matches := StartsWithString(name, current);
    }

    /** Reads the current directory by its own name; a failure would be reported in `code`. */
    method LoadHere(ghost l: Layout) returns (table: array<Entry>)
      requires driver.Valid() && Located(l)
      modifies this`code, driver.dirTable
      ensures code == old(code)
      ensures fresh(table) && table.Length == SLOT_COUNT && table[..] == TableOf(driver.DiskView()[location])
      ensures Sys() == old(Sys()) && Located(l)
    {
      hide TableOf, FatOf, Tree, Good, ReadDirectorySafe, ReadDirectory;
      table := new Entry[SLOT_COUNT](_ => ZERO_ENTRY);
      LabelOf(driver.DiskView(), l, location);
      ReadsOwnTable(driver.DiskView(), location);
      var retcode := driver.ReadDirectory(OwnRequest(location, current), table);
      code := if retcode != 0 then 1 else code;
    }

    /** Parses the line into a name and an extension, unless they are too long. */
    method ParseQuery(line: array<byte>) returns (refused: bool, name: seq<byte>, ext: seq<byte>)
      requires driver.Valid() && library.Valid() && Parsable(line[..])
      requires line != driver.device.image && line as object != driver.clusterMap as object
      modifies library, line
      ensures Sys() == old(Sys())
      ensures refused <==> QueryOf(old(line[..])) == None
      ensures !refused ==>
                && |name| >= 8 && Length(name) <= 8 && |ext| >= 3
                && QueryOf(old(line[..])).value == Query(Str(name), ext[..3])
    {
      hide TableOf, FatOf, RowBytes, TokensOf, Length, Reads, Calls, Row, Cut;
      ghost var sys := Sys();
      var command := new byte[COMMAND_ROWS, ROW_SIZE];
      var many := library.Strparse(line, command, [DOT]);
      assert Sys() == sys;
      name := ReadRow(command, 0);
      ext := ReadRow(command, 1);
      var length := Strlen(name);
      var extLength := Strlen(ext);
      refused := length > 8 || (many > 1 && extLength > 3);
      if many <= 1 {
        ext := Repeat(ROW_SIZE, 0);
        assert ext[..3] == NO_EXT;
      }
    }

    /** The command: parses the line, refuses what is too long, and searches from the root. */
    method Find(line: array<byte>, ghost l: Layout) returns (refused: bool)
      requires driver.Valid() && library.Valid()
      requires line != driver.device.image && line as object != driver.clusterMap as object
      requires Parsable(line[..]) && Good(Sys(), l) && Tree(driver.DiskView(), l)
      modifies this, library, line, driver.dirTable
      ensures Sys() == old(Sys())
      ensures refused <==> QueryOf(old(line[..])) == None
      ensures !refused ==>
                && code == 0 && (check <==> Found(driver.DiskView(), l, ROOT_CLUSTER, QueryOf(old(line[..])).value))
                && Located(l) && Reported(l, QueryOf(old(line[..])).value)
    {
      hide TableOf, FatOf, Tree, Good, Found, Length, Deeper, QueryOf, HoldsFile, BelowHit;
      ghost var sys := Sys();
      var name, ext;
      refused, name, ext := ParseQuery(line);
      if !refused {
        RootInDepth(sys, l);
        check, location, current, code, kind := false, ROOT_CLUSTER, ROOT_NAME, 0, -1;
        Dfs(name, ext, l);
      }
    }
  }

  lemma RootInDepth(sys: System, l: Layout)
    requires Good(sys, l) && Tree(sys.disk, l)
    ensures ROOT_CLUSTER in l.depth && TableOf(sys.disk[ROOT_CLUSTER])[0].name == ROOT_NAME
  {
    hide TableOf, Wf, Tree;
    HomesInDepth(sys.fat, sys.disk, l);
    LabelOf(sys.disk, l, ROOT_CLUSTER);
  }

  lemma Here(sys: System, l: Layout, a: Index)
    requires Tree(sys.disk, l) && a in l.depth
    ensures TableOf(sys.disk[a])[0].Cluster() == a
  {
    hide TableOf, Tree;
    LabelOf(sys.disk, l, a);
  }

  lemma FileHitParts(e: Entry, q: Query)
    requires e.name[0] != 0 && !e.IsDir()
    ensures FileHit(e, q) <==> q.name <= Str(e.name) && e.ext == q.ext
  {
  }

  lemma NoneBefore(disk: Disk, l: Layout, a: Index, q: Query)
    ensures !FoundBefore(disk, l, a, 2, q)
  {
    hide TableOf, Found;
  }

  lemma OneMore(disk: Disk, l: Layout, a: Index, i: Position, q: Query)
    requires i >= 2
    ensures FoundBefore(disk, l, a, i + 1, q) <==> FoundBefore(disk, l, a, i, q) || FoundAt(disk, l, a, i, q)
    ensures var e := TableOf(disk[a])[i];
            FoundAt(disk, l, a, i, q)
            <==> e.name[0] != 0 && if e.IsDir() then e.Cluster() in l.depth && Found(disk, l, e.Cluster(), q)
                                   else FileHit(e, q)
  {
    hide TableOf, Found, FileHit;
  }

  lemma EarlierIsFound(disk: Disk, l: Layout, a: Index, q: Query)
    ensures forall n: nat | n <= SLOT_COUNT && FoundBefore(disk, l, a, n, q) :: FoundBefore(disk, l, a, SLOT_COUNT, q)
  {
    hide TableOf, FoundAt;
  }
}
