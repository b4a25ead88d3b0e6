/** Every call keeps the ownership invariant, at its end and after every prefix of its cluster writes. */
module Safety {
  import opened Bytes
  import opened CString
  import opened OnDisk
  import opened Chains
  import opened BlockDevice
  import opened Operations
  import opened Ownership

  /** The table a driver would load from this disk. */
  ghost function FatOn(disk: Disk): Fat {
    FatOf(disk[FAT_CLUSTER])
  }

  ghost predicate Coherent(fat: Fat, disk: Disk) {
    fat == FatOn(disk)
  }

  /** The disk after the first k writes. */
  ghost function AfterWrites(disk: Disk, writes: seq<DiskWrite>, k: nat): Disk
    requires WritesFit(disk, writes) && k <= |writes|
  {
    assert forall w | w in writes[..k] :: w in writes;
    Apply(disk, writes[..k])
  }

  lemma EveryWrite(disk: Disk, writes: seq<DiskWrite>)
    requires WritesFit(disk, writes)
    ensures AfterWrites(disk, writes, |writes|) == Apply(disk, writes)
  {
    assert writes[..|writes|] == writes;
  }

  lemma ElsewhereAfter(disk: Disk, writes: seq<DiskWrite>, k: nat, c: nat)
    requires WritesFit(disk, writes) && k <= |writes| && c < |disk| && forall w | w in writes :: w.cluster != c
    ensures AfterWrites(disk, writes, k)[c] == disk[c]
  {
    hide Apply;
    assert forall w | w in writes[..k] :: w in writes;
    ApplyElsewhere(disk, writes[..k], c);
  }

  ghost predicate AvoidsDirectories(writes: seq<DiskWrite>, l: Layout) {
    forall w | w in writes :: w.cluster != FAT_CLUSTER && w.cluster !in l.depth
  }

  /** Writing to clusters that are neither the table's nor a directory's changes nothing the invariant speaks of. */
  lemma {:induction false} WritesElsewhere(disk: Disk, writes: seq<DiskWrite>, l: Layout)
    requires WritesFit(disk, writes) && AvoidsDirectories(writes, l)
    ensures TablesOf(Apply(disk, writes), l.depth.Keys) == TablesOf(disk, l.depth.Keys)
    ensures FatOn(Apply(disk, writes)) == FatOn(disk)
    decreases |writes|
  {
    hide TableOf, FatOf;
    if writes != [] {
      var n := |writes| - 1;
      assert writes[n] in writes && forall w | w in writes[..n] :: w in writes;
      WritesElsewhere(disk, writes[..n], l);
    }
  }

  lemma FatWrite(disk: Disk, fat: Fat, dirs: set<Index>)
    requires FAT_CLUSTER !in dirs
    ensures FatOn(disk[FAT_CLUSTER := FatBytes(fat)]) == fat
    ensures TablesOf(disk[FAT_CLUSTER := FatBytes(fat)], dirs) == TablesOf(disk, dirs)
  {
    hide TableOf, FatOf;
  }

  /** Writing a changed slot back to a directory's cluster. */
  lemma SlotWrite(disk: Disk, dirs: set<Index>, s: Slot, e: Entry)
    requires s.dir in dirs && s.dir != FAT_CLUSTER
    ensures var disk' := disk[s.dir := TableBytes(TableOf(disk[s.dir])[s.pos := e])];
            && TablesOf(disk', dirs) == SetSlot(TablesOf(disk, dirs), s, e)
            && FatOn(disk') == FatOn(disk)
  {
    hide TableOf, FatOf;
  }

  /** Writing a whole table to a directory's cluster. */
  lemma TableWrite(disk: Disk, dirs: set<Index>, d: Index, t: Table)
    requires d in dirs && d != FAT_CLUSTER
    ensures TablesOf(disk[d := TableBytes(t)], dirs) == TablesOf(disk, dirs)[d := t]
    ensures FatOn(disk[d := TableBytes(t)]) == FatOn(disk)
  {
    hide TableOf, FatOf;
  }

  lemma InTables(disk: Disk, dirs: set<Index>)
    ensures forall d :: d in dirs <==> d in TablesOf(disk, dirs)
    ensures forall d | d in dirs :: TablesOf(disk, dirs)[d] == TableOf(disk[d])
  {
  }

  lemma SetSlotElsewhere(ts: Tables, c: Index, t: Table, t': Table, s: Slot, e: Entry)
    requires s.dir in ts && s.dir != c
    ensures SetSlot(ts[c := t], s, e)[c := t'] == SetSlot(ts[c := t'], s, e)
  {
  }

  lemma MoreTables(disk: Disk, dirs: set<Index>, c: Index)
    ensures TablesOf(disk, dirs + {c}) == TablesOf(disk, dirs)[c := TableOf(disk[c])]
  {
  }

  lemma ReservedAreNoDirectories(fat: Fat, ts: Tables, l: Layout)
    requires Inv(fat, ts, l)
    ensures FAT_CLUSTER !in l.depth && BOOT_CLUSTER !in l.depth && ROOT_CLUSTER in l.depth
    ensures forall d | d in l.depth && d != ROOT_CLUSTER :: d in l.owner && fat[d] != EMPTY_ENTRY
    ensures fat[ROOT_CLUSTER] != EMPTY_ENTRY
    ensures forall c | c in l.leaked :: c !in l.depth && c != FAT_CLUSTER
  {
    hide Entered, Chained, DistinctKeys, Headed, Owned, Sized, Homed, Ranked;
    DirectoriesKnown(fat, ts, l);
  }

  /** In an initialised directory the free slot is a fresh one, and a key that is not taken is new. */
  lemma FreshSlot(fat: Fat, ts: Tables, l: Layout, p: Index, name: Name, ext: Ext, e: Entry)
    requires Inv(fat, ts, l) && p in ts && ts[p][0].IsDir()
    requires FreeSlot(ts[p], 0) < SLOT_COUNT && ExactSlot(ts[p], name, ext, 1) == SLOT_COUNT
    requires e.Live() && e.name == name && e.ext == ext
    ensures FreeSlot(ts[p], 0) >= 2 && IsBlank(ts[p][FreeSlot(ts[p], 0)])
    ensures Attachable(ts, l.chains, Slot(p, FreeSlot(ts[p], 0)), e)
  {
    hide Chained, DistinctKeys, Owned, Accounted, Sized, Homed, Ranked;
    var slot := FreeSlot(ts[p], 0);
    assert Initialised(ts[p], p, Parent(l.home, p));
    assert !ts[p][slot].Live();
    hide FreeSlot, ExactSlot, Initialised;
    assert slot >= 2;
    assert At(ts, Slot(p, slot)) == ts[p][slot];
    assert Slot(p, slot) !in l.chains;
    forall r | r in l.chains && r.dir == p
      ensures !At(ts, r).HasKey(name, ext)
    {
      assert At(ts, r) == ts[p][r.pos];
    }
  }

  // ---------- writing a file ----------

  /** A call that creates something in the directory of this cluster. */
  ghost predicate Creates(fat: Fat, disk: Disk, l: Layout, req: Request, data: seq<byte>) {
    && Wf(fat, disk, l) && req.parent in l.depth
    && Buffered(fat, data, req.bufferSize)
    && Write(fat, disk, req, data).code == 0
  }

  ghost function FileChain(fat: Fat, req: Request): seq<Index>
    requires req.bufferSize > 0
  {
    Allocation(fat, ClustersNeeded(req.bufferSize))
  }

  ghost function NewSlot(disk: Disk, req: Request): Slot
    requires req.parent < CLUSTER_MAP_SIZE && FreeSlot(TableOf(disk[req.parent]), 0) < SLOT_COUNT
  {
    Slot(req.parent, FreeSlot(TableOf(disk[req.parent]), 0))
  }

  ghost function NewFileEntry(fat: Fat, disk: Disk, req: Request): Entry
    requires req.parent < CLUSTER_MAP_SIZE && FreeSlot(TableOf(disk[req.parent]), 0) < SLOT_COUNT
    requires req.bufferSize > 0 && FileChain(fat, req) != []
  {
    var s := NewSlot(disk, req);
    FileEntry(TableOf(disk[s.dir])[s.pos], req.name, req.ext, FileChain(fat, req)[0], req.bufferSize)
  }

  /** What a successful file write has passed on its way. */
  lemma FilePath(fat: Fat, disk: Disk, l: Layout, req: Request, data: seq<byte>)
    requires Creates(fat, disk, l, req, data) && req.bufferSize > 0
    ensures var t := TableOf(disk[req.parent]);
            && t[0].IsDir() && FreeSlot(t, 0) < SLOT_COUNT && ExactSlot(t, req.name, req.ext, 1) == SLOT_COUNT
            && FileChain(fat, req) != []
            && |data| >= CLUSTER_SIZE * |FileChain(fat, req)|
            && Write(fat, disk, req, data).fat == Link(fat, FileChain(fat, req))
            && Write(fat, disk, req, data).writes
               == [DiskWrite(FAT_CLUSTER, FatBytes(Link(fat, FileChain(fat, req)))),
                   DiskWrite(req.parent, TableBytes(t[FreeSlot(t, 0) := NewFileEntry(fat, disk, req)]))]
                  + DataWrites(FileChain(fat, req), data)
  {
    hide TableOf, TableBytes, FatBytes, FreeSlot, ExactSlot, Link, Allocation, Wf;
  }

  ghost function FileLayout(fat: Fat, disk: Disk, l: Layout, req: Request): Layout
    requires req.parent < CLUSTER_MAP_SIZE && FreeSlot(TableOf(disk[req.parent]), 0) < SLOT_COUNT
    requires req.bufferSize > 0
  {
    Attached(Reserved(l, FileChain(fat, req)), NewSlot(disk, req), FileChain(fat, req))
  }

  /** The invariant between the steps of a file write. */
  lemma FileSteps(fat: Fat, disk: Disk, l: Layout, req: Request, data: seq<byte>)
    requires Creates(fat, disk, l, req, data) && req.bufferSize > 0
    ensures FreeSlot(TableOf(disk[req.parent]), 0) < SLOT_COUNT && FileChain(fat, req) != []
    ensures var chain, s := FileChain(fat, req), NewSlot(disk, req);
            var ts := TablesOf(disk, l.depth.Keys);
            && s.dir in ts && Ascending(chain)
            && (forall c | c in chain :: c !in l.depth && c > ROOT_CLUSTER && c !in l.leaked && c !in l.owner)
            && Inv(Link(fat, chain), ts, Reserved(l, chain))
            && Inv(Link(fat, chain), SetSlot(ts, s, NewFileEntry(fat, disk, req)), FileLayout(fat, disk, l, req))
  {
    hide TableOf, TableBytes, FatBytes, FreeSlot, ExactSlot, Link, Allocation, Inv, Attachable, FileChain, IsChain;
    FilePath(fat, disk, l, req, data);
    var chain, s, ts := FileChain(fat, req), NewSlot(disk, req), TablesOf(disk, l.depth.Keys);
    var e := NewFileEntry(fat, disk, req);
    FileChainFacts(fat, req);
    Reserve(fat, ts, l, chain);
    ReservedAreNoDirectories(Link(fat, chain), ts, Reserved(l, chain));
    assert s.dir in ts && ts[s.dir] == TableOf(disk[req.parent]);
    FreshSlot(fat, ts, l, req.parent, req.name, req.ext, e);
    AttachFile(Link(fat, chain), ts, Reserved(l, chain), s, e, chain);
  }

  lemma FileChainFacts(fat: Fat, req: Request)
    requires req.bufferSize > 0 && FileChain(fat, req) != []
    ensures var chain := FileChain(fat, req);
            && Ascending(chain) && Distinct(chain)
            && (forall c | c in chain :: fat[c] == EMPTY_ENTRY)
            && IsChain(Link(fat, chain), chain)
            && req.bufferSize <= CLUSTER_SIZE * |chain|
  {
    hide Link, IsChain, FreeClusters;
    AllocationLinks(fat, ClustersNeeded(req.bufferSize));
  }

  lemma {:induction false} DataWritesTargets(chain: seq<Index>, data: seq<byte>)
    requires |data| >= CLUSTER_SIZE * |chain|
    ensures |DataWrites(chain, data)| == |chain|
    ensures forall w | w in DataWrites(chain, data) :: w.cluster in chain
    decreases |chain|
  {
    if chain != [] {
      var n := |chain| - 1;
      DataWritesTargets(chain[..n], data);
      assert forall c | c in chain[..n] :: c in chain;
    }
  }

  ghost function FileHeader(fat: Fat, disk: Disk, req: Request): seq<DiskWrite>
    requires req.parent < CLUSTER_MAP_SIZE && FreeSlot(TableOf(disk[req.parent]), 0) < SLOT_COUNT
    requires req.bufferSize > 0 && FileChain(fat, req) != []
  {
    var s := NewSlot(disk, req);
    [DiskWrite(FAT_CLUSTER, FatBytes(Link(fat, FileChain(fat, req)))),
     DiskWrite(s.dir, TableBytes(TableOf(disk[s.dir])[s.pos := NewFileEntry(fat, disk, req)]))]
  }

  lemma FileWriteTargets(fat: Fat, disk: Disk, l: Layout, req: Request, data: seq<byte>)
    requires Creates(fat, disk, l, req, data) && req.bufferSize > 0
    ensures forall w | w in Write(fat, disk, req, data).writes ::
              w.cluster == FAT_CLUSTER || w.cluster == req.parent || w.cluster in FileChain(fat, req)
  {
    hide TableOf, TableBytes, FatBytes, Wf, Write, FileChain, FreeSlot, DataWrites, NewFileEntry, Link;
    FilePath(fat, disk, l, req, data);
    DataWritesTargets(FileChain(fat, req), data);
  }

  /** The disk once the table and the parent directory have been written, and before that. */
  lemma FileHeaderApplied(fat: Fat, disk: Disk, l: Layout, req: Request, data: seq<byte>)
    requires Creates(fat, disk, l, req, data) && req.bufferSize > 0
    ensures FreeSlot(TableOf(disk[req.parent]), 0) < SLOT_COUNT && FileChain(fat, req) != []
    ensures var header, chain := FileHeader(fat, disk, req), FileChain(fat, req);
            && WritesFit(disk, header) && WritesFit(disk, header[..1])
            && FatOn(Apply(disk, header[..1])) == FatOn(Apply(disk, header)) == Link(fat, chain)
            && TablesOf(Apply(disk, header[..1]), l.depth.Keys) == TablesOf(disk, l.depth.Keys)
            && NewSlot(disk, req).dir in l.depth
            && TablesOf(Apply(disk, header), l.depth.Keys)
               == SetSlot(TablesOf(disk, l.depth.Keys), NewSlot(disk, req), NewFileEntry(fat, disk, req))
  {
    hide TableOf, FatOf, FreeSlot, Link, FileChain, Inv;
    FilePath(fat, disk, l, req, data);
    var header, s := FileHeader(fat, disk, req), NewSlot(disk, req);
    ReservedAreNoDirectories(fat, TablesOf(disk, l.depth.Keys), l);
    assert header[..1] == [] + [header[0]];
    ApplyOne(disk, [], header[0]);
    ApplyTwo(disk, header[0], header[1]);
    FatWrite(disk, Link(fat, FileChain(fat, req)), l.depth.Keys);
    SlotWrite(Apply(disk, header[..1]), l.depth.Keys, s, NewFileEntry(fat, disk, req));
  }

  /** Crash safety of a file write: after any prefix of its disk writes the disk is well formed, and no cluster but the
      new chain's can have leaked. */
  lemma FileCrash(fat: Fat, disk: Disk, l: Layout, req: Request, data: seq<byte>, k: nat)
    requires Creates(fat, disk, l, req, data) && req.bufferSize > 0 && Coherent(fat, disk)
    requires k <= |Write(fat, disk, req, data).writes|
    ensures WritesFit(disk, Write(fat, disk, req, data).writes)
    ensures FreeSlot(TableOf(disk[req.parent]), 0) < SLOT_COUNT
    ensures var d := AfterWrites(disk, Write(fat, disk, req, data).writes, k);
            Wf(FatOn(d), d, if k == 0 then l
                            else if k == 1 then Reserved(l, FileChain(fat, req))
                            else FileLayout(fat, disk, l, req))
  {
    hide TableOf, FatOf, FatBytes, TableBytes, FreeSlot, Link, FileChain, Inv, DataWrites, SetSlot, TablesOf,
         NewFileEntry;
    FilePath(fat, disk, l, req, data);
    FileSteps(fat, disk, l, req, data);
    FileHeaderApplied(fat, disk, l, req, data);
    var chain, header, writes := FileChain(fat, req), FileHeader(fat, disk, req), Write(fat, disk, req, data).writes;
    var rest := DataWrites(chain, data);
    assert writes == header + rest;
    DataWritesTargets(chain, data);
    ApplyConcat(disk, header, rest);
    if k == 0 {
      assert writes[..0] == [];
    } else if k == 1 {
      assert writes[..1] == header[..1];
    } else {
      var some := rest[..k - 2];
      assert writes[..k] == header + some;
      assert forall w | w in some :: w in rest;
      ApplyConcat(disk, header, some);
      WritesElsewhere(Apply(disk, header), some, l);
    }
  }

  /** A successful file write keeps the invariant, leaks nothing and leaves the cached table equal to the disk's. */
  lemma FileDone(fat: Fat, disk: Disk, l: Layout, req: Request, data: seq<byte>)
    requires Creates(fat, disk, l, req, data) && req.bufferSize > 0
    ensures FreeSlot(TableOf(disk[req.parent]), 0) < SLOT_COUNT
    ensures var o := Write(fat, disk, req, data);
            && WritesFit(disk, o.writes)
            && Wf(o.fat, Apply(disk, o.writes), FileLayout(fat, disk, l, req))
            && Coherent(o.fat, Apply(disk, o.writes))
            && FileLayout(fat, disk, l, req).leaked == l.leaked
  {
    hide TableOf, FatOf, FatBytes, TableBytes, FreeSlot, Link, FileChain, Inv, DataWrites;
    FilePath(fat, disk, l, req, data);
    FileSteps(fat, disk, l, req, data);
    FileHeaderApplied(fat, disk, l, req, data);
    var chain, header, rest := FileChain(fat, req), FileHeader(fat, disk, req), DataWrites(FileChain(fat, req), data);
    DataWritesTargets(chain, data);
    ApplyConcat(disk, header, rest);
    assert Write(fat, disk, req, data).writes == header + rest;
    WritesElsewhere(Apply(disk, header), rest, l);
  }

  // ---------- making a directory ----------

  ghost function NewDirEntry(fat: Fat, disk: Disk, req: Request): Entry
    requires req.parent < CLUSTER_MAP_SIZE && FreeSlot(TableOf(disk[req.parent]), 0) < SLOT_COUNT
    requires FreeClusters(fat) != []
  {
    var s := NewSlot(disk, req);
    DirEntry(TableOf(disk[s.dir])[s.pos], req.name, req.ext, FreeClusters(fat)[0])
  }

  ghost function DirHeader(fat: Fat, disk: Disk, req: Request): seq<DiskWrite>
    requires req.parent < CLUSTER_MAP_SIZE && FreeSlot(TableOf(disk[req.parent]), 0) < SLOT_COUNT
    requires FreeClusters(fat) != []
  {
    var s := NewSlot(disk, req);
    [DiskWrite(FAT_CLUSTER, FatBytes(fat[FreeClusters(fat)[0] := END_OF_FILE])),
     DiskWrite(s.dir, TableBytes(TableOf(disk[s.dir])[s.pos := NewDirEntry(fat, disk, req)]))]
  }

  ghost function NewDirLayout(fat: Fat, disk: Disk, l: Layout, req: Request): Layout
    requires req.parent < CLUSTER_MAP_SIZE && FreeSlot(TableOf(disk[req.parent]), 0) < SLOT_COUNT
    requires FreeClusters(fat) != [] && req.parent in l.depth
  {
    DirAttached(Reserved(l, [FreeClusters(fat)[0]]), NewSlot(disk, req), FreeClusters(fat)[0])
  }

  lemma DirTargets(fat: Fat, disk: Disk, req: Request)
    requires req.parent < CLUSTER_MAP_SIZE && FreeSlot(TableOf(disk[req.parent]), 0) < SLOT_COUNT
    requires FreeClusters(fat) != []
    ensures forall w | w in DirHeader(fat, disk, req) :: w.cluster == FAT_CLUSTER || w.cluster == req.parent
  {
    hide TableOf, TableBytes, FatBytes, FreeSlot, FreeClusters, NewDirEntry;
  }

  /** What a successful mkdir has passed on its way, and its writes. */
  lemma DirPath(fat: Fat, disk: Disk, l: Layout, req: Request, data: seq<byte>)
    requires Creates(fat, disk, l, req, data) && req.bufferSize == 0
    ensures var t := TableOf(disk[req.parent]);
            && t[0].IsDir() && FreeSlot(t, 0) < SLOT_COUNT && ExactSlot(t, req.name, req.ext, 1) == SLOT_COUNT
            && FreeClusters(fat) != []
    ensures var c := FreeClusters(fat)[0];
            && (forall d | d in l.depth :: d != c) && c > ROOT_CLUSTER && fat[c] == EMPTY_ENTRY
            && Write(fat, disk, req, data).fat == fat[c := END_OF_FILE] == Link(fat, [c])
            && Write(fat, disk, req, data).writes
               == DirHeader(fat, disk, req) + [DiskWrite(c, TableBytes(ChildTable(TableOf(disk[c]), req, c)))]
  {
    hide TableOf, FatOf, FreeSlot, ExactSlot, FreeClusters;
    var c := FreeClusters(fat)[0];
    FirstIsFree(fat);
    ReservedAreNoDirectories(fat, TablesOf(disk, l.depth.Keys), l);
    hide Inv;
    var t := TableOf(disk[req.parent]);
    assert Write(fat, disk, req, data) == MakeDirectory(fat, disk, t, FreeSlot(t, 0), req);
  }

  lemma FirstIsFree(fat: Fat)
    requires FreeClusters(fat) != []
    ensures fat[FreeClusters(fat)[0]] == EMPTY_ENTRY
    ensures forall c: Index | fat[c] == EMPTY_ENTRY :: FreeClusters(fat)[0] <= c
  {
    FreeBelowLists(fat, |fat|);
    var free := FreeClusters(fat);
    assert free[0] in free;
    forall c: Index | fat[c] == EMPTY_ENTRY
      ensures free[0] <= c
    {
      assert c in free;
      var i :| 0 <= i < |free| && free[i] == c;
    }
  }

  lemma DirSteps(fat: Fat, disk: Disk, l: Layout, req: Request, data: seq<byte>, t: Table)
    requires Creates(fat, disk, l, req, data) && req.bufferSize == 0
    requires FreeClusters(fat) != []
    requires NoEntries(t) && (!t[0].IsDir() || Initialised(t, FreeClusters(fat)[0], req.parent))
    ensures FreeSlot(TableOf(disk[req.parent]), 0) < SLOT_COUNT
    ensures var c, s := FreeClusters(fat)[0], NewSlot(disk, req);
            var ts := TablesOf(disk, l.depth.Keys);
            && s.dir in ts && c !in ts
            && Inv(fat[c := END_OF_FILE], ts, Reserved(l, [c]))
            && Inv(fat[c := END_OF_FILE], SetSlot(ts[c := t], s, NewDirEntry(fat, disk, req)),
                   NewDirLayout(fat, disk, l, req))
            && NewDirLayout(fat, disk, l, req).depth.Keys == l.depth.Keys + {c}
            && NewDirLayout(fat, disk, l, req).leaked == l.leaked
  {
    hide TableOf, FreeSlot, ExactSlot, FreeClusters, Attachable, NoEntries, Initialised, Write, TablesOf, SetSlot, Link,
         Inv, IsChain;
    DirPath(fat, disk, l, req, data);
    InTables(disk, l.depth.Keys);
    var c, s, ts := FreeClusters(fat)[0], NewSlot(disk, req), TablesOf(disk, l.depth.Keys);
    var e, l1 := NewDirEntry(fat, disk, req), Reserved(l, [FreeClusters(fat)[0]]);
    LinkMakesChain(fat, [c]);
    Reserve(fat, ts, l, [c]);
    FreshSlot(fat, ts, l, req.parent, req.name, req.ext, e);
    AttachDir(Link(fat, [c]), ts, l1, s, e, c, t);
    assert l1.leaked - (set d | d in [c]) == l.leaked;
  }

  lemma DirHeaderApplied(fat: Fat, disk: Disk, l: Layout, req: Request, data: seq<byte>)
    requires Creates(fat, disk, l, req, data) && req.bufferSize == 0
    ensures FreeSlot(TableOf(disk[req.parent]), 0) < SLOT_COUNT && FreeClusters(fat) != []
    ensures var header, c, s := DirHeader(fat, disk, req), FreeClusters(fat)[0], NewSlot(disk, req);
            var ts := TablesOf(disk, l.depth.Keys);
            && WritesFit(disk, header) && WritesFit(disk, header[..1])
            && FatOn(Apply(disk, header[..1])) == FatOn(Apply(disk, header)) == fat[c := END_OF_FILE]
            && TablesOf(Apply(disk, header[..1]), l.depth.Keys) == ts
            && s.dir in ts
            && TablesOf(Apply(disk, header), l.depth.Keys + {c})
               == SetSlot(ts[c := TableOf(disk[c])], s, NewDirEntry(fat, disk, req))
  {
    hide TableOf, FatOf, FreeSlot, FreeClusters, NewDirEntry, Write, SetSlot, TablesOf;
    DirPath(fat, disk, l, req, data);
    var header, c, s := DirHeader(fat, disk, req), FreeClusters(fat)[0], NewSlot(disk, req);
    ReservedAreNoDirectories(fat, TablesOf(disk, l.depth.Keys), l);
    hide Inv;
    assert header[..1] == [] + [header[0]];
    ApplyOne(disk, [], header[0]);
    ApplyTwo(disk, header[0], header[1]);
    FatWrite(disk, fat[c := END_OF_FILE], l.depth.Keys);
    var d1 := Apply(disk, header[..1]);
    assert d1 == disk[FAT_CLUSTER := FatBytes(fat[c := END_OF_FILE])];
    SlotWrite(d1, l.depth.Keys + {c}, s, NewDirEntry(fat, disk, req));
    MoreTables(d1, l.depth.Keys, c);
    InTables(disk, l.depth.Keys);
  }

  lemma ChildInitialised(t: Table, req: Request, c: Index)
    requires req.parent < CLUSTER_MAP_SIZE
    ensures Initialised(ChildTable(t, req, c), c, req.parent)
    ensures NoEntries(t) ==> NoEntries(ChildTable(t, req, c))
  {
  }

  /** A successful mkdir keeps the invariant if the reused cluster shows no entries of its own. */
  lemma DirDone(fat: Fat, disk: Disk, l: Layout, req: Request, data: seq<byte>)
    requires Creates(fat, disk, l, req, data) && req.bufferSize == 0
    requires FreeClusters(fat) != [] && NoEntries(TableOf(disk[FreeClusters(fat)[0]]))
    ensures FreeSlot(TableOf(disk[req.parent]), 0) < SLOT_COUNT
    ensures var o := Write(fat, disk, req, data);
            && WritesFit(disk, o.writes)
            && Wf(o.fat, Apply(disk, o.writes), NewDirLayout(fat, disk, l, req))
            && Coherent(o.fat, Apply(disk, o.writes))
            && NewDirLayout(fat, disk, l, req).leaked == l.leaked
  {
    hide TableOf, FatOf, FreeSlot, FreeClusters, NoEntries, Initialised, ChildTable, Write, NewDirEntry, SetSlot,
         TablesOf, Inv, NewDirLayout, DirHeader;
    var c := FreeClusters(fat)[0];
    var child := ChildTable(TableOf(disk[c]), req, c);
    ChildInitialised(TableOf(disk[c]), req, c);
    DirPath(fat, disk, l, req, data);
    DirSteps(fat, disk, l, req, data, child);
    DirHeaderApplied(fat, disk, l, req, data);
    var header, s, d2 := DirHeader(fat, disk, req), NewSlot(disk, req), Apply(disk, DirHeader(fat, disk, req));
    ApplyOne(disk, header, DiskWrite(c, TableBytes(child)));
    TableWrite(d2, l.depth.Keys + {c}, c, child);
    SetSlotElsewhere(TablesOf(disk, l.depth.Keys), c, TableOf(disk[c]), child, s, NewDirEntry(fat, disk, req));
  }

  /** The writes of anything that is created lie on the disk. */
  lemma CreationFits(fat: Fat, disk: Disk, l: Layout, req: Request, data: seq<byte>)
    requires Creates(fat, disk, l, req, data)
    ensures WritesFit(disk, Write(fat, disk, req, data).writes)
  {
    hide TableOf, FatOf, FreeSlot, FreeClusters, ChildTable, Write, NewDirEntry, SetSlot, TablesOf, Inv, FileLayout,
         DirHeader, TableBytes, FatBytes;
    if req.bufferSize == 0 {
      DirPath(fat, disk, l, req, data);
      DirHeaderApplied(fat, disk, l, req, data);
    } else {
      FileDone(fat, disk, l, req, data);
    }
  }

  lemma FreeIsUnaccounted(fat: Fat, ts: Tables, l: Layout, c: Index)
    requires Inv(fat, ts, l) && fat[c] == EMPTY_ENTRY
    ensures c > ROOT_CLUSTER && c !in l.owner && c !in l.leaked
  {
  }

  /** What the reused cluster's old table must be like once k writes of a mkdir have reached the disk. From the second
      write on it is the new directory's table and must show no entries; between the last two it has no head of its own
      yet, and must not read as a directory unless it reads as this very one. */
  ghost predicate Reusable(t: Table, c: Index, parent: nat, k: nat) {
    && (k >= 2 ==> NoEntries(t))
    && (k == 2 ==> !t[0].IsDir() || (parent < CLUSTER_MAP_SIZE && Initialised(t, c, parent)))
  }

  /** Crash safety of mkdir: after any prefix of its disk writes the disk is well formed, and no cluster but the new
      directory's can have leaked. */
  lemma DirCrash(fat: Fat, disk: Disk, l: Layout, req: Request, data: seq<byte>, k: nat)
    requires Creates(fat, disk, l, req, data) && req.bufferSize == 0 && Coherent(fat, disk)
    requires k <= |Write(fat, disk, req, data).writes|
    requires FreeClusters(fat) != []
    requires Reusable(TableOf(disk[FreeClusters(fat)[0]]), FreeClusters(fat)[0], req.parent, k)
    ensures WritesFit(disk, Write(fat, disk, req, data).writes)
    ensures FreeSlot(TableOf(disk[req.parent]), 0) < SLOT_COUNT
    ensures var d := AfterWrites(disk, Write(fat, disk, req, data).writes, k);
            Wf(FatOn(d), d, if k == 0 then l
                            else if k == 1 then Reserved(l, [FreeClusters(fat)[0]])
                            else NewDirLayout(fat, disk, l, req))
  {
    hide TableOf, FatOf, FreeSlot, FreeClusters, NoEntries, Initialised, ChildTable, Write, NewDirEntry, SetSlot,
         TablesOf, Inv, NewDirLayout, NewSlot, TableBytes, FatBytes;
    var c := FreeClusters(fat)[0];
    DirPath(fat, disk, l, req, data);
    BlankTable();
    DirSteps(fat, disk, l, req, data, if k == 2 then TableOf(disk[c]) else ZERO_TABLE);
    DirHeaderApplied(fat, disk, l, req, data);
    CreationFits(fat, disk, l, req, data);
    if k > 2 {
      DirDone(fat, disk, l, req, data);
    }
    hide Inv;
    var header, writes := DirHeader(fat, disk, req), Write(fat, disk, req, data).writes;
    if k == 0 {
      assert writes[..0] == [];
    } else if k == 1 {
      assert writes[..1] == header[..1];
    } else if k == 2 {
      assert writes[..2] == header;
    } else {
      assert writes[..3] == writes;
    }
  }

  lemma BlankTable()
    ensures NoEntries(ZERO_TABLE) && !ZERO_TABLE[0].IsDir()
  {
  }

  // ---------- deleting ----------

  ghost predicate Named(req: Request) {
    req.name[0] != 0
  }

  ghost function Victim(disk: Disk, req: Request): Slot
    requires req.parent < CLUSTER_MAP_SIZE && MatchSlot(TableOf(disk[req.parent]), req.name, req.ext, 2) < SLOT_COUNT
  {
    Slot(req.parent, MatchSlot(TableOf(disk[req.parent]), req.name, req.ext, 2))
  }

  lemma NamedMatchIsNotBlank(e: Entry, name: Name, ext: Ext)
    requires name[0] != 0 && Matches(e, name, ext)
    ensures !IsBlank(e)
  {
    assert Length(name) > 0;
    assert e.name[..Length(name)][0] == name[..Length(name)][0];
  }

  /** The entry that a deletion takes, if it takes one, is in use. */
  ghost predicate HitsLive(disk: Disk, req: Request)
    requires req.parent < |disk|
  {
    var t := TableOf(disk[req.parent]);
    var slot := MatchSlot(t, req.name, req.ext, 2);
    t[0].IsDir() && slot < SLOT_COUNT ==> t[slot].Live()
  }

  /** So it is whenever the request has a name. */
  lemma NamedHitsLive(fat: Fat, disk: Disk, l: Layout, req: Request)
    requires Wf(fat, disk, l) && req.parent in l.depth && Named(req)
    ensures HitsLive(disk, req)
  {
    hide TableOf, MatchSlot, Matches, Chained, Homed, DistinctKeys, Headed, Sized, Owned, Accounted, Ranked;
    var t, ts := TableOf(disk[req.parent]), TablesOf(disk, l.depth.Keys);
    var slot := MatchSlot(t, req.name, req.ext, 2);
    if slot < SLOT_COUNT {
      NamedMatchIsNotBlank(t[slot], req.name, req.ext);
      assert At(ts, Victim(disk, req)) == t[slot];
    }
  }

  /** Such a deletion meets a live entry, so the chain it is about to free is a well-formed one. */
  lemma DeleteIsSafe(fat: Fat, disk: Disk, l: Layout, req: Request)
    requires Wf(fat, disk, l) && req.parent in l.depth && HitsLive(disk, req)
    ensures DeleteSafe(fat, disk, req)
    ensures var t := TableOf(disk[req.parent]);
            var slot := MatchSlot(t, req.name, req.ext, 2);
            t[0].IsDir() && slot < SLOT_COUNT ==>
              var s := Victim(disk, req);
              && s in l.chains && At(TablesOf(disk, l.depth.Keys), s) == t[slot]
              && t[slot].Cluster() == l.chains[s][0] < CLUSTER_MAP_SIZE
              && (!t[slot].IsDir() ==> ChainFrom(fat, t[slot].Cluster()) == l.chains[s])
              && (t[slot].IsDir() ==> l.chains[s] == [t[slot].Cluster()] && t[slot].Cluster() in l.home)
  {
    hide TableOf, MatchSlot, Matches, DistinctKeys, Headed, Sized, Owned, Accounted, Ranked;
    var t, ts := TableOf(disk[req.parent]), TablesOf(disk, l.depth.Keys);
    var slot := MatchSlot(t, req.name, req.ext, 2);
    if t[0].IsDir() && slot < SLOT_COUNT {
      var s := Victim(disk, req);
      assert At(ts, s) == t[slot];
      assert s in l.chains;
      assert IsChain(fat, l.chains[s]) && l.chains[s][0] == t[slot].Cluster();
      assert HeadsChain(fat, t[slot].Cluster());
      if !t[slot].IsDir() {
        ChainUnique(fat, ChainFrom(fat, t[slot].Cluster()), l.chains[s]);
      }
    }
  }

  ghost predicate Deletes(fat: Fat, disk: Disk, l: Layout, req: Request) {
    && Wf(fat, disk, l) && req.parent in l.depth && HitsLive(disk, req)
    && DeleteSafe(fat, disk, req) && Delete(fat, disk, req).code == 0
  }

  /** What a successful delete has passed on its way. */
  lemma DeletePath(fat: Fat, disk: Disk, l: Layout, req: Request)
    requires Deletes(fat, disk, l, req)
    ensures MatchSlot(TableOf(disk[req.parent]), req.name, req.ext, 2) < SLOT_COUNT
    ensures var t, s, o := TableOf(disk[req.parent]), Victim(disk, req), Delete(fat, disk, req);
            && t[0].IsDir() && s in l.chains && s.dir in l.depth && s.dir != FAT_CLUSTER
            && At(TablesOf(disk, l.depth.Keys), s) == t[s.pos]
            && o.fat == Release(fat, l.chains[s])
            && (!t[s.pos].IsDir() ==>
                  o.writes == [DiskWrite(s.dir, TableBytes(t[s.pos := Blanked(t[s.pos])])),
                               DiskWrite(FAT_CLUSTER, FatBytes(o.fat))])
            && (t[s.pos].IsDir() ==>
                  && |l.chains[s]| == 1 && l.chains[s] == [l.chains[s][0]] && l.chains[s][0] in l.home
                  && NoLiveChild(TableOf(disk[l.chains[s][0]]))
                  && o.writes == [DiskWrite(s.dir, TableBytes(t[s.pos := Blanked(t[s.pos])])),
                                  DiskWrite(l.chains[s][0], TableBytes(EmptiedTable(TableOf(disk[l.chains[s][0]])))),
                                  DiskWrite(FAT_CLUSTER, FatBytes(o.fat))])
  {
    hide TableOf, FatOf, TableBytes, FatBytes, MatchSlot, Inv, EmptiedTable, Blanked, NoLiveChild;
    DeleteIsSafe(fat, disk, l, req);
    ReservedAreNoDirectories(fat, TablesOf(disk, l.depth.Keys), l);
    var t, s := TableOf(disk[req.parent]), Victim(disk, req);
    if t[s.pos].IsDir() {
      assert fat[l.chains[s][0] := EMPTY_ENTRY] == Release(fat, [l.chains[s][0]]);
    }
  }

  ghost function FileDeleted(l: Layout, s: Slot): Layout
    requires s in l.chains
  {
    Detached(l, s).(leaked := l.leaked)
  }

  ghost function DirDeleted(l: Layout, s: Slot): Layout
    requires s in l.chains && |l.chains[s]| == 1
  {
    DirDetached(l, s, l.chains[s][0]).(leaked := l.leaked)
  }

  lemma UnleakDetached(l: Layout, s: Slot, fat: Fat, ts: Tables)
    requires Inv(fat, ts, l) && s in l.chains
    ensures Detached(l, s).leaked - (set c | c in l.chains[s]) == l.leaked
    ensures forall c | c in l.chains[s] :: c in Detached(l, s).leaked
  {
    hide Entered, Chained, DistinctKeys, Headed, Sized, Homed, Ranked;
  }

  /** Deleting a file, step by step: blanking its entry leaks the chain, emptying the table entries frees it. */
  lemma FileDeleteSteps(fat: Fat, disk: Disk, l: Layout, req: Request)
    requires Deletes(fat, disk, l, req)
    requires MatchSlot(TableOf(disk[req.parent]), req.name, req.ext, 2) < SLOT_COUNT
    requires !At(TablesOf(disk, l.depth.Keys), Victim(disk, req)).IsDir()
    ensures var o, s := Delete(fat, disk, req), Victim(disk, req);
            && s in l.chains
            && |o.writes| == 2 && WritesFit(disk, o.writes) && WritesFit(disk, o.writes[..1])
            && Wf(fat, Apply(disk, o.writes[..1]), Detached(l, s))
            && FatOn(Apply(disk, o.writes[..1])) == FatOn(disk)
            && Wf(o.fat, Apply(disk, o.writes), FileDeleted(l, s))
            && Coherent(o.fat, Apply(disk, o.writes))
  {
    hide TableOf, FatOf, MatchSlot, Inv, TablesOf, SetSlot, Delete, Blanked, Release;
    DeletePath(fat, disk, l, req);
    var o, s, ts := Delete(fat, disk, req), Victim(disk, req), TablesOf(disk, l.depth.Keys);
    DetachFile(fat, ts, l, s);
    UnleakDetached(l, s, fat, ts);
    SlotWrite(disk, l.depth.Keys, s, Blanked(At(ts, s)));
    Unleak(fat, SetSlot(ts, s, Blanked(At(ts, s))), Detached(l, s), l.chains[s]);
    ReservedAreNoDirectories(fat, ts, l);
    assert o.writes[..1] == [] + [o.writes[0]];
    ApplyOne(disk, [], o.writes[0]);
    ApplyTwo(disk, o.writes[0], o.writes[1]);
    FatWrite(Apply(disk, o.writes[..1]), o.fat, l.depth.Keys);
  }

  /** Deleting an empty directory, step by step. */
  lemma DirDeleteSteps(fat: Fat, disk: Disk, l: Layout, req: Request)
    requires Deletes(fat, disk, l, req)
    requires MatchSlot(TableOf(disk[req.parent]), req.name, req.ext, 2) < SLOT_COUNT
    requires At(TablesOf(disk, l.depth.Keys), Victim(disk, req)).IsDir()
    ensures var o, s := Delete(fat, disk, req), Victim(disk, req);
            && s in l.chains && |l.chains[s]| == 1
            && |o.writes| == 3 && WritesFit(disk, o.writes)
            && WritesFit(disk, o.writes[..1]) && WritesFit(disk, o.writes[..2])
            && Wf(fat, Apply(disk, o.writes[..1]), DirDetached(l, s, l.chains[s][0]))
            && Wf(fat, Apply(disk, o.writes[..2]), DirDetached(l, s, l.chains[s][0]))
            && FatOn(Apply(disk, o.writes[..1])) == FatOn(Apply(disk, o.writes[..2])) == FatOn(disk)
            && Wf(o.fat, Apply(disk, o.writes), DirDeleted(l, s))
            && Coherent(o.fat, Apply(disk, o.writes))
  {
    hide TableOf, FatOf, MatchSlot, Inv, TablesOf, SetSlot, Delete, Blanked, Release, EmptiedTable, NoLiveChild;
    DeletePath(fat, disk, l, req);
    var o, s, ts := Delete(fat, disk, req), Victim(disk, req), TablesOf(disk, l.depth.Keys);
    var c, l1 := l.chains[s][0], DirDetached(l, s, l.chains[s][0]);
    DirectoriesKnown(fat, ts, l);
    InTables(disk, l.depth.Keys);
    DetachDir(fat, ts, l, s, c);
    UnleakDetached(l, s, fat, ts);
    ReservedAreNoDirectories(fat, ts, l);
    SlotWrite(disk, l.depth.Keys, s, Blanked(At(ts, s)));
    var d1 := disk[s.dir := TableBytes(TableOf(disk[s.dir])[s.pos := Blanked(TableOf(disk[s.dir])[s.pos])])];
    var d2 := d1[c := TableBytes(EmptiedTable(TableOf(disk[c])))];
    FewerTables(d1, l.depth.Keys, c);
    OtherTables(d1, l.depth.Keys - {c}, c, TableBytes(EmptiedTable(TableOf(disk[c]))));
    Unleak(fat, TablesOf(d2, l1.depth.Keys), l1, [c]);
    FatWrite(d2, o.fat, l1.depth.Keys);
    assert o.writes[..1] == [] + [o.writes[0]];
    assert o.writes[..2] == [o.writes[0], o.writes[1]];
    ApplyOne(disk, [], o.writes[0]);
    ApplyTwo(disk, o.writes[0], o.writes[1]);
    ApplyThree(disk, o.writes[0], o.writes[1], o.writes[2]);
  }

  lemma FewerTables(disk: Disk, dirs: set<Index>, c: Index)
    ensures TablesOf(disk, dirs - {c}) == TablesOf(disk, dirs) - {c}
  {
  }

  lemma OtherTables(disk: Disk, dirs: set<Index>, c: Index, data: Cluster)
    requires c !in dirs && c != FAT_CLUSTER
    ensures TablesOf(disk[c := data], dirs) == TablesOf(disk, dirs)
    ensures FatOn(disk[c := data]) == FatOn(disk)
  {
  }

  // ---------- the boot sector ----------

  /** A disk that still has its boot cluster is still formatted. */
  lemma StillFormatted(disk: Disk, writes: seq<DiskWrite>, k: nat)
    requires WritesFit(disk, writes) && k <= |writes| && forall w | w in writes :: w.cluster != BOOT_CLUSTER
    ensures IsFormatted(AfterWrites(disk, writes, k)) <==> IsFormatted(disk)
    ensures IsFormatted(Apply(disk, writes)) <==> IsFormatted(disk)
  {
    hide SIGNATURE, Apply;
    EveryWrite(disk, writes);
    ElsewhereAfter(disk, writes, k, BOOT_CLUSTER);
    ElsewhereAfter(disk, writes, |writes|, BOOT_CLUSTER);
  }

  lemma CreationSparesBoot(fat: Fat, disk: Disk, l: Layout, req: Request, data: seq<byte>)
    requires Creates(fat, disk, l, req, data)
    ensures forall w | w in Write(fat, disk, req, data).writes :: w.cluster != BOOT_CLUSTER
  {
    hide TableOf, TableBytes, FatBytes, FatOf, Inv, Write, FileChain, FreeSlot, FreeClusters, DirHeader, ChildTable;
    ReservedAreNoDirectories(fat, TablesOf(disk, l.depth.Keys), l);
    if req.bufferSize == 0 {
      DirPath(fat, disk, l, req, data);
      DirTargets(fat, disk, req);
    } else {
      FileSteps(fat, disk, l, req, data);
      FileWriteTargets(fat, disk, l, req, data);
    }
  }

  lemma DeletionSparesBoot(fat: Fat, disk: Disk, l: Layout, req: Request)
    requires Deletes(fat, disk, l, req)
    ensures forall w | w in Delete(fat, disk, req).writes :: w.cluster != BOOT_CLUSTER
  {
    hide TableOf, FatOf, MatchSlot, Delete, Release, TableBytes, FatBytes, TablesOf, At, EmptiedTable, NoLiveChild,
         Blanked, Inv, DeleteSafe;
    DeletePath(fat, disk, l, req);
    ReservedAreNoDirectories(fat, TablesOf(disk, l.depth.Keys), l);
    DirectoriesKnown(fat, TablesOf(disk, l.depth.Keys), l);
    hide Deletes;
    var s, writes := Victim(disk, req), Delete(fat, disk, req).writes;
    if At(TablesOf(disk, l.depth.Keys), s).IsDir() {
      assert |writes| == 3 && writes[1].cluster == l.chains[s][0];
    } else {
      assert |writes| == 2;
    }
  }
}
