/** The directory tree that the shell walks: every directory names itself in slot 0 and its parent in slot 1. */
module DirectoryTree {
  import opened Bytes
  import opened OnDisk
  import opened Chains
  import opened BlockDevice
  import opened Operations
  import opened Ownership
  import opened Safety
  import opened Runs
  import opened Refinement
  import opened Persistence
  import opened CleanClusters

  /** The name under which a directory is entered in its parent. */
  ghost function NameIn(disk: Disk, home: Homes, d: Index): Name {
    if d in home then TableOf(disk[home[d].dir])[home[d].pos].name else ROOT_NAME
  }

  ghost predicate Labelled(t: Table, d: Index, parent: Index, name: Name, parentName: Name) {
    Initialised(t, d, parent) && t[0].name == name && t[1].name == parentName
  }

  /** Slot 0 of every directory gives its cluster and name, slot 1 those of its parent. */
  ghost predicate Tree(disk: Disk, l: Layout) {
    forall d {:trigger Parent(l.home, d)} | d in l.depth ::
      Labelled(TableOf(disk[d]), d, Parent(l.home, d), NameIn(disk, l.home, d), NameIn(disk, l.home, Parent(l.home, d)))
  }

  // ---------- every call keeps the tree ----------

  ghost predicate HomesSame(disk: Disk, d: Disk, home: Homes) {
    forall a | a in home :: TableOf(d[home[a].dir])[home[a].pos].name == TableOf(disk[home[a].dir])[home[a].pos].name
  }

  /** Directories that were there before, entered where they were before. */
  ghost predicate Subtree(l: Layout, l': Layout) {
    forall a | a in l'.depth ::
      && a in l.depth && (a in l'.home <==> a in l.home) && (a in l.home ==> l'.home[a] == l.home[a])
      && Parent(l.home, a) in l'.depth
  }

  lemma TreeFrame(disk: Disk, l: Layout, d: Disk, l': Layout)
    requires Tree(disk, l) && Subtree(l, l') && HeadsSame(disk, d, l'.depth.Keys) && HomesSame(disk, d, l'.home)
    requires forall a | a in l'.home :: a in l'.depth
    ensures Tree(d, l')
  {
    hide TableOf, Labelled, NameIn, HeadsSame;
    forall a | a in l'.depth
      ensures Labelled(TableOf(d[a]), a, Parent(l'.home, a), NameIn(d, l'.home, a),
                       NameIn(d, l'.home, Parent(l'.home, a)))
    {
      NameKept(disk, l, d, l', a);
      NameKept(disk, l, d, l', Parent(l.home, a));
      FewerHeads(disk, d, l'.depth.Keys, {a});
      HeadIs(disk, d, a);
      LabelledByHead(TableOf(disk[a]), TableOf(d[a]), a, Parent(l.home, a), NameIn(disk, l.home, a),
                     NameIn(disk, l.home, Parent(l.home, a)));
    }
  }

  lemma NameKept(disk: Disk, l: Layout, d: Disk, l': Layout, a: Index)
    requires Subtree(l, l') && HomesSame(disk, d, l'.home) && a in l'.depth
    ensures NameIn(d, l'.home, a) == NameIn(disk, l.home, a)
    ensures Parent(l'.home, a) == Parent(l.home, a)
  {
    hide TableOf;
  }

  lemma LabelledByHead(t: Table, t': Table, d: Index, parent: Index, name: Name, parentName: Name)
    requires Labelled(t, d, parent, name, parentName) && t'[0] == t[0] && t'[1] == t[1]
    ensures Labelled(t', d, parent, name, parentName)
  {
  }

  lemma HomesInDepth(fat: Fat, disk: Disk, l: Layout)
    requires Wf(fat, disk, l)
    ensures forall a | a in l.home :: a in l.depth && l.home[a] in l.chains && l.home[a].dir in l.depth
    ensures forall a | a in l.depth :: a == ROOT_CLUSTER || a in l.home
    ensures forall a | a in l.depth :: Parent(l.home, a) in l.depth
    ensures ROOT_CLUSTER in l.depth && ROOT_CLUSTER !in l.home
    ensures forall a | a in l.home :: TableOf(disk[l.home[a].dir])[l.home[a].pos].IsDir()
  {
    hide TableOf, Inv, TablesOf, At;
    DirectoriesKnown(fat, TablesOf(disk, l.depth.Keys), l);
    RootIsHomeless(fat, TablesOf(disk, l.depth.Keys), l);
    forall a | a in l.home
      ensures l.home[a] in l.chains && l.home[a].dir in l.depth
      ensures TableOf(disk[l.home[a].dir])[l.home[a].pos].IsDir()
    {
      HomeKnown(fat, TablesOf(disk, l.depth.Keys), l, a);
      AtIs(disk, l.depth.Keys, l.home[a]);
    }
  }

  lemma RootIsHomeless(fat: Fat, ts: Tables, l: Layout)
    requires Inv(fat, ts, l)
    ensures ROOT_CLUSTER !in l.home
  {
    hide Entered, Chained, DistinctKeys, Headed, Sized, Owned, Accounted, At, Ranked;
  }

  lemma FileKeepsTree(sys: System, l: Layout, req: Request, data: seq<byte>)
    requires Creates(sys.fat, sys.disk, l, req, data) && req.bufferSize > 0 && Tree(sys.disk, l)
    ensures FreeSlot(TableOf(sys.disk[req.parent]), 0) < SLOT_COUNT
    ensures WritesFit(sys.disk, Write(sys.fat, sys.disk, req, data).writes)
    ensures Tree(Apply(sys.disk, Write(sys.fat, sys.disk, req, data).writes), FileLayout(sys.fat, sys.disk, l, req))
  {
    hide TableOf, FatOf, Inv, Write, FileChain, Tree, FreeSlot, Apply, AfterWrites, TablesOf, SetSlot, NewFileEntry,
         DataWrites, FileHeader, HeadsSame;
    FileDone(sys.fat, sys.disk, l, req, data);
    var writes := Write(sys.fat, sys.disk, req, data).writes;
    FileHeads(sys.fat, sys.disk, l, req, data, |writes|);
    EveryWrite(sys.disk, writes);
    HomesInDepth(sys.fat, sys.disk, l);
    FileHomes(sys.fat, sys.disk, l, req, data);
    TreeFrame(sys.disk, l, Apply(sys.disk, writes), FileLayout(sys.fat, sys.disk, l, req));
  }

  lemma FileHomes(fat: Fat, disk: Disk, l: Layout, req: Request, data: seq<byte>)
    requires Creates(fat, disk, l, req, data) && req.bufferSize > 0
    requires WritesFit(disk, Write(fat, disk, req, data).writes)
    ensures HomesSame(disk, Apply(disk, Write(fat, disk, req, data).writes), l.home)
  {
    hide TableOf, FatOf, Inv, Write, FileChain, FreeSlot, Apply, TablesOf, SetSlot, NewFileEntry, DataWrites,
         FileHeader;
    FileWritesElsewhere(fat, disk, l, req, data, |FileChain(fat, req)|);
    FileHeaderIs(fat, disk, l, req, data);
    FreshEntry(fat, disk, l, req, data);
    HomesInDepth(fat, disk, l);
    var rest := DataWrites(FileChain(fat, req), data);
    assert rest[..|rest|] == rest;
    var d, ts, s := Apply(disk, Write(fat, disk, req, data).writes), TablesOf(disk, l.depth.Keys), NewSlot(disk, req);
    InTables(disk, l.depth.Keys);
    AtSetSlot(ts, s, NewFileEntry(fat, disk, req));
    forall a | a in l.home
      ensures TableOf(d[l.home[a].dir])[l.home[a].pos] == TableOf(disk[l.home[a].dir])[l.home[a].pos]
    {
      AtIs(disk, l.depth.Keys, l.home[a]);
      AtIs(d, l.depth.Keys, l.home[a]);
    }
  }

  lemma MkdirKeepsTree(sys: System, l: Layout, req: Request, data: seq<byte>)
    requires Creates(sys.fat, sys.disk, l, req, data) && req.bufferSize == 0 && Tree(sys.disk, l)
    requires req.parentName == TableOf(sys.disk[req.parent])[0].name
    ensures FreeSlot(TableOf(sys.disk[req.parent]), 0) < SLOT_COUNT && FreeClusters(sys.fat) != []
    ensures WritesFit(sys.disk, Write(sys.fat, sys.disk, req, data).writes)
    ensures Tree(Apply(sys.disk, Write(sys.fat, sys.disk, req, data).writes), NewDirLayout(sys.fat, sys.disk, l, req))
  {
    hide TableOf, FatOf, Inv, Write, FreeClusters, FreeSlot, Apply, TablesOf, SetSlot, NewDirEntry, NoEntries,
         Initialised, ChildTable;
    OldTablesAfterMkdir(sys.fat, sys.disk, l, req, data);
    HomesInDepth(sys.fat, sys.disk, l);
    var disk, c, s := sys.disk, FreeClusters(sys.fat)[0], NewSlot(sys.disk, req);
    var d, l' := Apply(disk, Write(sys.fat, disk, req, data).writes), NewDirLayout(sys.fat, disk, l, req);
    NewDirNames(sys.fat, disk, req, TableOf(disk[c]));
    ChildInitialised(TableOf(disk[c]), req, c);
    NewDirDepth(sys.fat, disk, l, req);
    hide NewDirLayout, Labelled, Tree, NameIn;
    forall a | a in l'.depth
      ensures Labelled(TableOf(d[a]), a, Parent(l'.home, a), NameIn(d, l'.home, a),
                       NameIn(d, l'.home, Parent(l'.home, a)))
    {
      if a == c {
        NameBesideNew(disk, l, d, l', c, s, s.dir);
        NameOfNew(disk, l, d, l', c, s, req);
      } else {
        OldLabel(disk, l, d, l', c, s, a);
      }
    }
  }

  lemma OldLabel(disk: Disk, l: Layout, d: Disk, l': Layout, c: Index, s: Slot, a: Index)
    requires Tree(disk, l) && l'.home == l.home[c := s] && s !in l.chains && s.pos >= 2
    requires a in l.depth && a != c && Parent(l.home, a) in l.depth && Parent(l.home, a) != c
    requires forall b | b in l.home :: l.home[b] in l.chains && l.home[b].dir in l.depth
    requires forall r: Slot | r.dir in l.depth && r != s :: TableOf(d[r.dir])[r.pos] == TableOf(disk[r.dir])[r.pos]
    ensures Labelled(TableOf(d[a]), a, Parent(l'.home, a), NameIn(d, l'.home, a),
                     NameIn(d, l'.home, Parent(l'.home, a)))
  {
    hide TableOf, Labelled, NameIn;
    NameBesideNew(disk, l, d, l', c, s, a);
    NameBesideNew(disk, l, d, l', c, s, Parent(l.home, a));
    assert TableOf(d[a])[Slot(a, 0).pos] == TableOf(disk[a])[0];
    assert TableOf(d[a])[Slot(a, 1).pos] == TableOf(disk[a])[1];
    LabelledByHead(TableOf(disk[a]), TableOf(d[a]), a, Parent(l.home, a), NameIn(disk, l.home, a),
                   NameIn(disk, l.home, Parent(l.home, a)));
  }

  lemma NewDirDepth(fat: Fat, disk: Disk, l: Layout, req: Request)
    requires req.parent < CLUSTER_MAP_SIZE && FreeSlot(TableOf(disk[req.parent]), 0) < SLOT_COUNT
    requires FreeClusters(fat) != [] && req.parent in l.depth
    ensures var l', c := NewDirLayout(fat, disk, l, req), FreeClusters(fat)[0];
            l'.home == l.home[c := NewSlot(disk, req)] && l'.depth.Keys == l.depth.Keys + {c}
  {
    hide TableOf, FreeSlot, FreeClusters;
  }

  /** A name that a mkdir leaves alone. */
  lemma NameBesideNew(disk: Disk, l: Layout, d: Disk, l': Layout, c: Index, s: Slot, a: Index)
    requires l'.home == l.home[c := s] && a != c && s !in l.chains
    requires a in l.home ==> l.home[a] in l.chains && l.home[a].dir in l.depth
    requires forall r: Slot | r.dir in l.depth && r != s :: TableOf(d[r.dir])[r.pos] == TableOf(disk[r.dir])[r.pos]
    ensures NameIn(d, l'.home, a) == NameIn(disk, l.home, a) && Parent(l'.home, a) == Parent(l.home, a)
  {
    hide TableOf;
  }

  lemma NameOfNew(disk: Disk, l: Layout, d: Disk, l': Layout, c: Index, s: Slot, req: Request)
    requires Tree(disk, l) && s.dir in l.depth && l'.home == l.home[c := s] && req.parent == s.dir
    requires TableOf(d[s.dir])[s.pos].name == req.name && req.parentName == TableOf(disk[s.dir])[0].name
    requires Initialised(TableOf(d[c]), c, s.dir)
    requires TableOf(d[c])[0].name == req.name && TableOf(d[c])[1].name == req.parentName
    requires NameIn(d, l'.home, s.dir) == NameIn(disk, l.home, s.dir)
    ensures Labelled(TableOf(d[c]), c, Parent(l'.home, c), NameIn(d, l'.home, c),
                     NameIn(d, l'.home, Parent(l'.home, c)))
  {
    hide TableOf;
    assert Labelled(TableOf(disk[s.dir]), s.dir, Parent(l.home, s.dir), NameIn(disk, l.home, s.dir),
                    NameIn(disk, l.home, Parent(l.home, s.dir)));
  }

  lemma NewDirNames(fat: Fat, disk: Disk, req: Request, t: Table)
    requires req.parent < CLUSTER_MAP_SIZE && FreeSlot(TableOf(disk[req.parent]), 0) < SLOT_COUNT
    requires FreeClusters(fat) != []
    ensures NewDirEntry(fat, disk, req).name == req.name
    ensures ChildTable(t, req, FreeClusters(fat)[0])[0].name == req.name
    ensures ChildTable(t, req, FreeClusters(fat)[0])[1].name == req.parentName
  {
    hide TableOf, FreeSlot, FreeClusters;
  }

  lemma DeleteKeepsTree(sys: System, l: Layout, req: Request)
    requires Deletes(sys.fat, sys.disk, l, req) && Good(sys, l) && Tree(sys.disk, l)
    ensures Allowed(sys, l, Deleting(req))
    ensures WritesFit(sys.disk, Delete(sys.fat, sys.disk, req).writes)
    ensures Tree(Apply(sys.disk, Delete(sys.fat, sys.disk, req).writes), NextLayout(sys, l, Deleting(req)))
  {
    hide TableOf, FatOf, Inv, Delete, MatchSlot, Tree, Apply, AfterWrites, TablesOf, HeadsSame, Detached, At, Coherent,
         IsFormatted;
    var writes := Delete(sys.fat, sys.disk, req).writes;
    CallKeepsInvariant(sys, l, Deleting(req));
    DeleteHeads(sys.fat, sys.disk, l, req, |writes|);
    EveryWrite(sys.disk, writes);
    HomesInDepth(sys.fat, sys.disk, l);
    DeletePath(sys.fat, sys.disk, l, req);
    DeleteHomes(sys.fat, sys.disk, l, req);
    var s, l', d := Victim(sys.disk, req), NextLayout(sys, l, Deleting(req)), Apply(sys.disk, writes);
    HomesInDepth(Delete(sys.fat, sys.disk, req).fat, d, l');
    DetachedKeepsTree(l, s);
    if At(TablesOf(sys.disk, l.depth.Keys), s).IsDir() {
      DeletedSubtree(sys.fat, sys.disk, l, s);
    }
    TreeFrame(sys.disk, l, d, l');
  }

  lemma DetachedKeepsTree(l: Layout, s: Slot)
    requires s in l.chains
    ensures Detached(l, s).home == l.home && Detached(l, s).depth == l.depth
  {
  }

  /** No directory is entered in the one that is deleted. */
  lemma DeletedSubtree(fat: Fat, disk: Disk, l: Layout, s: Slot)
    requires Wf(fat, disk, l) && s in l.chains && At(TablesOf(disk, l.depth.Keys), s).IsDir()
    ensures |l.chains[s]| == 1 && l.chains[s][0] in l.depth
    ensures NoLiveChild(TableOf(disk[l.chains[s][0]])) ==>
              && Subtree(l, DirDeleted(l, s))
              && forall a | a in DirDeleted(l, s).home :: l.home[a] != s && l.home[a].dir != l.chains[s][0]
  {
    hide TableOf, At, Inv, TablesOf, NoLiveChild, Subtree;
    var ts := TablesOf(disk, l.depth.Keys);
    RmdirSites(fat, disk, l, s);
    HomesInDepth(fat, disk, l);
    HomeOf(fat, ts, l, s);
    InTables(disk, l.depth.Keys);
    DetachedKeepsTree(l, s);
    if NoLiveChild(TableOf(disk[l.chains[s][0]])) {
      NothingEnteredBelow(fat, ts, l, l.chains[s][0]);
      hide Detached;
      WithoutOne(l, DirDeleted(l, s), s, l.chains[s][0]);
    }
  }

  lemma WithoutOne(l: Layout, l': Layout, s: Slot, c: Index)
    requires l'.home == l.home - {c} && l'.depth == l.depth - {c} && c != ROOT_CLUSTER
    requires forall a | a in l.home :: a in l.depth && l.home[a].dir in l.depth && l.home[a].dir != c
    requires forall a | a in l.home && l.home[a] == s :: a == c
    requires ROOT_CLUSTER in l.depth
    ensures Subtree(l, l') && forall a | a in l'.home :: l.home[a] != s && l.home[a].dir != c
  {
  }

  lemma NothingEnteredBelow(fat: Fat, ts: Tables, l: Layout, c: Index)
    requires Inv(fat, ts, l) && c in ts && NoLiveChild(ts[c])
    ensures forall r | r in l.chains :: r.dir != c
  {
    hide Chained, DistinctKeys, Headed, Sized, Owned, Accounted, At, Homed, Ranked, NoLiveChild, Entered;
    NoEntriesBelow(ts, l.chains, c);
  }

  lemma DeleteHomes(fat: Fat, disk: Disk, l: Layout, req: Request)
    requires Deletes(fat, disk, l, req) && WritesFit(disk, Delete(fat, disk, req).writes)
    requires Good(System(fat, disk), l)
    ensures Allowed(System(fat, disk), l, Deleting(req))
    ensures HomesSame(disk, Apply(disk, Delete(fat, disk, req).writes),
                      NextLayout(System(fat, disk), l, Deleting(req)).home)
  {
    hide TableOf, FatOf, Wf, Delete, MatchSlot, Apply, AfterWrites, TablesOf, Detached, At, SetSlot, Blanked, Coherent,
         HomesSame, IsFormatted;
    var writes := Delete(fat, disk, req).writes;
    CallIsSafe(System(fat, disk), l, Deleting(req));
    DeletePath(fat, disk, l, req);
    EveryWrite(disk, writes);
    TablesAfterDelete(fat, disk, l, req, |writes|);
    var s, ts := Victim(disk, req), TablesOf(disk, l.depth.Keys);
    var d := Apply(disk, writes);
    if At(ts, s).IsDir() {
      RmdirHomes(fat, disk, l, s, d);
    } else {
      RmHomes(fat, disk, l, s, d);
    }
  }

  lemma RmHomes(fat: Fat, disk: Disk, l: Layout, s: Slot, d: Disk)
    requires Wf(fat, disk, l) && s in l.chains && s.dir in TablesOf(disk, l.depth.Keys)
    requires var ts := TablesOf(disk, l.depth.Keys);
             !At(ts, s).IsDir() && TablesOf(d, l.depth.Keys) == SetSlot(ts, s, Blanked(At(ts, s)))
    ensures HomesSame(disk, d, FileDeleted(l, s).home)
  {
    hide TableOf, Wf, TablesOf, At, SetSlot, Blanked, HomesSame;
    HomesInDepth(fat, disk, l);
    InTables(disk, l.depth.Keys);
    InTables(d, l.depth.Keys);
    AtIs(disk, l.depth.Keys, s);
    DetachedKeepsTree(l, s);
    EntriesBeside(disk, d, l.depth.Keys, l.depth.Keys, s, Blanked(At(TablesOf(disk, l.depth.Keys), s)), l.home, l.home);
  }

  lemma RmdirHomes(fat: Fat, disk: Disk, l: Layout, s: Slot, d: Disk)
    requires Wf(fat, disk, l) && s in l.chains && s.dir in TablesOf(disk, l.depth.Keys)
    requires |l.chains[s]| == 1 && NoLiveChild(TableOf(disk[l.chains[s][0]]))
    requires var ts, c := TablesOf(disk, l.depth.Keys), l.chains[s][0];
             At(ts, s).IsDir() && TablesOf(d, l.depth.Keys - {c}) == SetSlot(ts, s, Blanked(At(ts, s))) - {c}
    ensures HomesSame(disk, d, DirDeleted(l, s).home)
  {
    hide TableOf, Wf, TablesOf, At, SetSlot, Blanked, HomesSame, NoLiveChild, Detached;
    var c := l.chains[s][0];
    HomesInDepth(fat, disk, l);
    InTables(disk, l.depth.Keys);
    InTables(d, l.depth.Keys - {c});
    DetachedKeepsTree(l, s);
    DeletedSubtree(fat, disk, l, s);
    EntriesBeside(disk, d, l.depth.Keys, l.depth.Keys - {c}, s, Blanked(At(TablesOf(disk, l.depth.Keys), s)), l.home,
                  DirDeleted(l, s).home);
  }

  /** Entries other than the changed one. */
  lemma EntriesBeside(disk: Disk, d: Disk, before: set<Index>, dirs: set<Index>, s: Slot, e: Entry,
                      home: Homes, home': Homes)
    requires s.dir in before && dirs <= before
    requires forall a | a in dirs :: TablesOf(d, dirs)[a] == SetSlot(TablesOf(disk, before), s, e)[a]
    requires forall a | a in home' :: a in home && home'[a] == home[a] != s && home[a].dir in dirs
    ensures HomesSame(disk, d, home')
  {
    hide TableOf;
    forall a | a in home'
      ensures TableOf(d[home[a].dir])[home[a].pos] == TableOf(disk[home[a].dir])[home[a].pos]
    {
      assert TablesOf(d, dirs)[home[a].dir] == TableOf(d[home[a].dir]);
    }
  }
}
