/** A freshly formatted disk: which first call makes it the start of a good run, and what goes wrong when the allocation
    table is reloaded before it has been written again. */
module Formatting {
  import opened Bytes
  import opened OnDisk
  import opened Chains
  import opened BlockDevice
  import opened Operations
  import opened Ownership
  import opened Safety
  import opened Runs
  import opened Refinement
  import opened Answers
  import opened Persistence
  import opened CleanClusters
  import opened DirectoryTree
  import opened Sessions

  /** The driver right after it has formatted a disk. */
  ghost function Fresh(disk: Disk): System {
    System(FormattedFat(ZERO_FAT), FormattedDisk(ZERO_FAT, disk))
  }

  /** Nothing but the root directory. */
  ghost function EmptyLayout(): Layout {
    Layout(map[], map[ROOT_CLUSTER := 0], map[], map[], {})
  }

  lemma ZeroFatIsEmpty()
    ensures forall c: Index :: ZERO_FAT[c] == EMPTY_ENTRY
  {
  }

  lemma FreshFat()
    ensures forall c: Index :: FormattedFat(ZERO_FAT)[c] == EMPTY_ENTRY <==> c > ROOT_CLUSTER
    ensures FormattedFat(ZERO_FAT)[0] == CLUSTER_0_VALUE
  {
    ZeroFatIsEmpty();
    hide ZERO_FAT;
  }

  lemma RootTableIs()
    ensures RootTable()[0] == RootTable()[1] == ROOT_ENTRY
    ensures forall i | 2 <= i < SLOT_COUNT :: RootTable()[i] == ZERO_ENTRY
    ensures Initialised(RootTable(), ROOT_CLUSTER, ROOT_CLUSTER) && NoEntries(RootTable())
  {
  }

  lemma FreshDisk(disk: Disk)
    ensures IsFormatted(Fresh(disk).disk) && TableOf(Fresh(disk).disk[ROOT_CLUSTER]) == RootTable()
    ensures FatOn(Fresh(disk).disk) == ZERO_FAT
    ensures forall c: Index | c > ROOT_CLUSTER :: Fresh(disk).disk[c] == disk[c]
  {
    hide TableOf, FatOf, RootTable, SIGNATURE;
    assert Fresh(disk).disk[BOOT_CLUSTER] == SIGNATURE + disk[BOOT_CLUSTER][BLOCK_SIZE..];
    assert |SIGNATURE| == BLOCK_SIZE by {
      SignatureLength();
    }
  }

  lemma SignatureLength()
    ensures |SIGNATURE| == BLOCK_SIZE
  {
  }

  /** Formatting sets up the invariant between the cached table and the disk's directories. */
  lemma FormattedIsWellFormed(disk: Disk)
    ensures Wf(Fresh(disk).fat, Fresh(disk).disk, EmptyLayout())
  {
    FreshFat();
    FreshDisk(disk);
    RootTableIs();
    hide Initialised, TableOf, RootTable, FormattedFat, FormattedDisk, IsFormatted;
    var ts := TablesOf(Fresh(disk).disk, EmptyLayout().depth.Keys);
    assert ts == map[ROOT_CLUSTER := RootTable()];
    assert Entered(ts, map[]) by {
      forall s: Slot | s.dir in ts && s.pos >= 2
        ensures IsBlank(At(ts, s))
      {
      }
    }
  }

  /** But the table on the disk is the one from before its first three entries were filled in. */
  lemma FormattedIsIncoherent(disk: Disk)
    ensures FatOn(Fresh(disk).disk) == ZERO_FAT
    ensures !Coherent(Fresh(disk).fat, Fresh(disk).disk)
  {
    ZeroFatIsEmpty();
    FreshFat();
    FreshDisk(disk);
    hide FatOf, TableOf, FormattedFat, FormattedDisk;
  }

  /** So cached and stored table agree after power-on if and only if the disk had been formatted before. */
  lemma RestartCoherentIffFormatted(disk: Disk)
    ensures var sys := Restarted(disk); Coherent(sys.fat, sys.disk) <==> IsFormatted(disk)
  {
    hide FatOf, IsFormatted;
    FormattedIsIncoherent(disk);
  }

  // ---------- the first call after formatting ----------

  /** A call within the driver's own preconditions. */
  ghost predicate Safe(sys: System, call: Call) {
    && call.req.parent < |sys.disk|
    && (call.Writing? ==> Buffered(sys.fat, call.data, call.req.bufferSize))
    && (call.Deleting? ==> DeleteSafe(sys.fat, sys.disk, call.req))
    && (call.Reading? ==> ReadSafe(sys.disk, call.req))
  }

  ghost function Result(sys: System, call: Call): Outcome
    requires Safe(sys, call)
  {
    match call
    case Writing(req, data) => Write(sys.fat, sys.disk, req, data)
    case Deleting(req) => Delete(sys.fat, sys.disk, req)
    case Reading(req) => var r := Read(sys.fat, sys.disk, req); Outcome(r.code, r.fat, [])
  }

  ghost predicate GoodAfter(disk: Disk, o: Outcome) {
    WritesFit(disk, o.writes) && exists l :: Good(System(o.fat, Apply(disk, o.writes)), l)
  }

  ghost function AfterCreation(fat: Fat, disk: Disk, l: Layout, req: Request, data: seq<byte>): (r: (System, Layout))
    requires Creates(fat, disk, l, req, data)
  {
    var o := Write(fat, disk, req, data);
    if req.bufferSize == 0 then
      DirPath(fat, disk, l, req, data);
      OldTablesAfterMkdir(fat, disk, l, req, data);
      (System(o.fat, Apply(disk, o.writes)), NewDirLayout(fat, disk, l, req))
    else
      FileDone(fat, disk, l, req, data);
      (System(o.fat, Apply(disk, o.writes)), FileLayout(fat, disk, l, req))
  }

  /** The cluster that mkdir will reuse shows no entries of its own. */
  ghost predicate BlankNext(sys: System) {
    FreeClusters(sys.fat) != [] ==> NoEntries(TableOf(sys.disk[FreeClusters(sys.fat)[0]]))
  }

  /** Creating something makes cached and stored table agree, whether they did before or not. */
  lemma CreationIsCoherent(fat: Fat, disk: Disk, l: Layout, req: Request, data: seq<byte>)
    requires Creates(fat, disk, l, req, data) && IsFormatted(disk)
    requires req.bufferSize == 0 ==> BlankNext(System(fat, disk))
    ensures var (sys, l') := AfterCreation(fat, disk, l, req, data); Good(sys, l') && l'.leaked == l.leaked
  {
    hide Wf, TableOf, FatOf, Coherent, Write, FreeClusters, NoEntries, FreeSlot, IsFormatted;
    CreationSparesBoot(fat, disk, l, req, data);
    if req.bufferSize == 0 {
      DirPath(fat, disk, l, req, data);
      DirDone(fat, disk, l, req, data);
    } else {
      FileDone(fat, disk, l, req, data);
    }
    StillFormatted(disk, Write(fat, disk, req, data).writes, 0);
  }

  /** The clusters that a fresh disk has to give away, and the first of them. */
  const FRESH_CLUSTERS := 509
  const FIRST_CLUSTER := 3

  lemma {:induction false} FreeBelowFresh(fat: Fat, n: nat)
    requires n <= |fat| && forall c: Index :: fat[c] == EMPTY_ENTRY <==> c > ROOT_CLUSTER
    ensures |FreeBelow(fat, n)| == if n < FIRST_CLUSTER then 0 else n - FIRST_CLUSTER
    ensures n > FIRST_CLUSTER ==> FreeBelow(fat, n)[0] == FIRST_CLUSTER
    decreases n
  {
    if n > 0 {
      FreeBelowFresh(fat, n - 1);
    }
  }

  lemma FreshFree(disk: Disk)
    ensures var free := FreeClusters(Fresh(disk).fat); |free| == FRESH_CLUSTERS && free[0] == FIRST_CLUSTER
  {
    hide FormattedFat;
    FreshFat();
    FreeBelowFresh(Fresh(disk).fat, |Fresh(disk).fat|);
  }

  /** A key that the first write on a fresh disk does not find: neither the blank key nor the root's own. */
  predicate FreshKey(req: Request) {
    Nonblank(req) && !(req.name == ROOT_NAME && req.ext == NO_EXT)
  }

  /** When the first write on a fresh disk succeeds. */
  lemma FirstWriteSucceeds(disk: Disk, req: Request, data: seq<byte>)
    requires req.parent == ROOT_CLUSTER && Buffered(Fresh(disk).fat, data, req.bufferSize)
    ensures Write(Fresh(disk).fat, Fresh(disk).disk, req, data).code == 0
            <==> FreshKey(req) && ClustersNeeded(req.bufferSize) <= FRESH_CLUSTERS
  {
    hide TableOf, FatOf, Wf, RootTable, FormattedFat, FormattedDisk, Write, FreeClusters, IsFormatted, Initialised,
         NoEntries;
    FormattedIsWellFormed(disk);
    FreshDisk(disk);
    RootTableIs();
    FreshFree(disk);
    WriteCode(Fresh(disk).fat, Fresh(disk).disk, EmptyLayout(), req, data);
    NothingInView(Fresh(disk).disk);
  }

  lemma NothingInView(disk: Disk)
    ensures View(disk, EmptyLayout()) == map[]
  {
    hide TableOf, NodeAt;
  }

  /** The first call on a fresh disk, exactly: it leaves a good system if and only if it is a write of a new key of no
      more than the free clusters, and, for a directory, the first of these shows no entries. */
  lemma FirstCallExact(disk: Disk, call: Call)
    requires call.req.parent == ROOT_CLUSTER && Safe(Fresh(disk), call)
    ensures GoodAfter(Fresh(disk).disk, Result(Fresh(disk), call)) <==>
            && call.Writing? && FreshKey(call.req) && ClustersNeeded(call.req.bufferSize) <= FRESH_CLUSTERS
            && (call.req.bufferSize == 0 ==> NoEntries(TableOf(disk[FIRST_CLUSTER])))
  {
    hide TableOf, FatOf, Wf, Coherent, Write, Delete, Read, DeleteSafe, ReadSafe, IsFormatted, NoEntries, Fresh,
         AfterCreation, FreeClusters, ClustersNeeded;
    var sys, o := Fresh(disk), Result(Fresh(disk), call);
    FormattedIsWellFormed(disk);
    FormattedIsIncoherent(disk);
    FreshDisk(disk);
    FreshFree(disk);
    match call {
      case Writing(req, data) =>
        FirstWriteSucceeds(disk, req, data);
        if o.code != 0 {
          FailedWrite(sys, req, data);
        } else if req.bufferSize == 0 && !BlankNext(sys) {
          FirstMkdirSpoiled(disk, req, data);
        } else {
          CreationIsCoherent(sys.fat, sys.disk, EmptyLayout(), req, data);
          AfterCreationIs(sys.fat, sys.disk, EmptyLayout(), req, data);
        }
      case Deleting(req) => FirstDeleteFails(disk, req);
      case Reading(req) =>
        FirstReadForgets(disk, req);
        RootNotReserved(o.fat, Apply(sys.disk, o.writes));
    }
  }

  lemma AfterCreationIs(fat: Fat, disk: Disk, l: Layout, req: Request, data: seq<byte>)
    requires Creates(fat, disk, l, req, data)
    ensures var o := Write(fat, disk, req, data);
            && WritesFit(disk, o.writes)
            && AfterCreation(fat, disk, l, req, data).0 == System(o.fat, Apply(disk, o.writes))
  {
    hide TableOf, FatOf, Write, Wf;
    if req.bufferSize == 0 {
      OldTablesAfterMkdir(fat, disk, l, req, data);
    } else {
      FileDone(fat, disk, l, req, data);
    }
  }

  lemma FailedWrite(sys: System, req: Request, data: seq<byte>)
    requires req.parent < |sys.disk| && Buffered(sys.fat, data, req.bufferSize)
    requires Write(sys.fat, sys.disk, req, data).code != 0
    ensures var o := Write(sys.fat, sys.disk, req, data);
            WritesFit(sys.disk, o.writes) && o.fat == sys.fat && Apply(sys.disk, o.writes) == sys.disk
  {
    hide TableOf, FatOf;
  }

  /** There is nothing to delete yet: the only entries that could match are unused ones with a cluster number that heads
      no chain. */
  lemma FirstDeleteFails(disk: Disk, req: Request)
    requires req.parent == ROOT_CLUSTER && DeleteSafe(Fresh(disk).fat, Fresh(disk).disk, req)
    ensures var o := Delete(Fresh(disk).fat, Fresh(disk).disk, req);
            o.code == 1 && o.fat == Fresh(disk).fat && o.writes == [] && Apply(Fresh(disk).disk, []) == Fresh(disk).disk
  {
    FreshFat();
    FreshDisk(disk);
    RootTableIs();
    var slot := MatchSlot(RootTable(), req.name, req.ext, 2);
    ApplyNothing(Fresh(disk).disk);
    hide TableOf, FatOf, RootTable, FormattedFat, FormattedDisk, Release, RemoveDirectory, MatchSlot;
    NoChainFromZero(Fresh(disk).fat);
  }

  lemma NoChainFromZero(fat: Fat)
    requires fat[0] == CLUSTER_0_VALUE
    ensures !HeadsChain(fat, 0)
  {
  }

  /** A read reloads the empty table. */
  lemma FirstReadForgets(disk: Disk, req: Request)
    requires req.parent == ROOT_CLUSTER && ReadSafe(Fresh(disk).disk, req)
    ensures Read(Fresh(disk).fat, Fresh(disk).disk, req).fat == ZERO_FAT
    ensures ZERO_FAT[ROOT_CLUSTER] == EMPTY_ENTRY
  {
    ZeroFatIsEmpty();
    FreshDisk(disk);
    RootTableIs();
    hide TableOf, FatOf, RootTable, FormattedFat, FormattedDisk, ExactSlot, Contents;
  }

  lemma FirstMkdirSpoiled(disk: Disk, req: Request, data: seq<byte>)
    requires req.parent == ROOT_CLUSTER && req.bufferSize == 0 && !BlankNext(Fresh(disk))
    requires Write(Fresh(disk).fat, Fresh(disk).disk, req, data).code == 0
    ensures !GoodAfter(Fresh(disk).disk, Write(Fresh(disk).fat, Fresh(disk).disk, req, data))
  {
    hide TableOf, FatOf, Inv, Coherent, Write, IsFormatted, Fresh, FreeClusters, Apply, NoEntries;
    FormattedIsWellFormed(disk);
    MkdirExact(Fresh(disk).fat, Fresh(disk).disk, EmptyLayout(), req, data);
  }

  lemma FreshTree(disk: Disk)
    ensures Tree(Fresh(disk).disk, EmptyLayout())
    ensures TableOf(Fresh(disk).disk[ROOT_CLUSTER])[0].name == ROOT_NAME
  {
    FreshDisk(disk);
    RootTableIs();
    hide TableOf, FatOf, RootTable, FormattedFat, FormattedDisk, Initialised;
  }

  /** Where runs and sessions start: on a zeroed disk that has been formatted, the first file or directory that is
      created in the root leaves a good system, a tree, only clean free clusters, and the shell at the root. */
  lemma FirstCreation(disk: Disk, req: Request, data: seq<byte>)
    requires forall c: Index | c > ROOT_CLUSTER :: disk[c] == ZERO_CLUSTER
    requires req.parent == ROOT_CLUSTER && Buffered(Fresh(disk).fat, data, req.bufferSize)
    requires Write(Fresh(disk).fat, Fresh(disk).disk, req, data).code == 0
    requires req.bufferSize == 0 ==> req.parentName == ROOT_NAME
    ensures Creates(Fresh(disk).fat, Fresh(disk).disk, EmptyLayout(), req, data)
    ensures var (sys, l) := AfterCreation(Fresh(disk).fat, Fresh(disk).disk, EmptyLayout(), req, data);
            FreeClean(sys) && Ready(Session(sys, ROOT_CLUSTER, ROOT_NAME), l)
  {
    hide TableOf, FatOf, Wf, Coherent, Write, IsFormatted, Fresh, NoEntries, Tree, FreeClean, AfterCreation,
         FreeClusters;
    FormattedIsWellFormed(disk);
    FreshDisk(disk);
    FreshTree(disk);
    FreshIsClean(disk);
    var sys, l := Fresh(disk), EmptyLayout();
    NextIsClean(sys);
    CreationIsCoherent(sys.fat, sys.disk, l, req, data);
    CleanAfterCreation(sys, l, req, data);
    AfterCreationIs(sys.fat, sys.disk, l, req, data);
    CreatedTree(sys, l, req, data);
  }

  lemma FreshIsClean(disk: Disk)
    requires forall c: Index | c > ROOT_CLUSTER :: disk[c] == ZERO_CLUSTER
    ensures FreeClean(Fresh(disk))
  {
    hide TableOf, FatOf, FormattedFat, FormattedDisk, FreeClean;
    FreshFat();
    FreshDisk(disk);
    ZeroedIsClean(Fresh(disk));
  }

  /** Creating something keeps a tree a tree, and the parent's name. */
  lemma CreatedTree(sys: System, l: Layout, req: Request, data: seq<byte>)
    requires Creates(sys.fat, sys.disk, l, req, data) && Tree(sys.disk, l)
    requires req.bufferSize == 0 ==> req.parentName == TableOf(sys.disk[req.parent])[0].name
    ensures var (sys', l') := AfterCreation(sys.fat, sys.disk, l, req, data);
            && Tree(sys'.disk, l') && req.parent in l'.depth
            && TableOf(sys'.disk[req.parent])[0].name == TableOf(sys.disk[req.parent])[0].name
  {
    hide TableOf, FatOf, Inv, Write, Tree, Apply, FreeSlot, FreeClusters, NewDirEntry, FileChain, NewFileEntry, SetSlot,
         TablesOf;
    CreatesIsWf(sys.fat, sys.disk, l, req, data);
    if req.bufferSize == 0 {
      MkdirKeepsTree(sys, l, req, data);
      OldTablesAfterMkdir(sys.fat, sys.disk, l, req, data);
      NewDirDepth(sys.fat, sys.disk, l, req);
      var d := Apply(sys.disk, Write(sys.fat, sys.disk, req, data).writes);
      assert TableOf(d[Slot(req.parent, 0).dir])[0] == TableOf(sys.disk[req.parent])[0];
    } else {
      FileKeepsTree(sys, l, req, data);
      FileParentHead(sys, l, req, data);
    }
  }

  lemma FileParentHead(sys: System, l: Layout, req: Request, data: seq<byte>)
    requires Creates(sys.fat, sys.disk, l, req, data) && req.bufferSize > 0
    ensures WritesFit(sys.disk, Write(sys.fat, sys.disk, req, data).writes)
    ensures TableOf(Apply(sys.disk, Write(sys.fat, sys.disk, req, data).writes)[req.parent])[0]
            == TableOf(sys.disk[req.parent])[0]
  {
    hide TableOf, FatOf, Inv, Write, Apply, FreeSlot, FileChain, NewFileEntry, SetSlot, TablesOf, HeadsSame,
         AfterWrites;
    CreatesIsWf(sys.fat, sys.disk, l, req, data);
    FileDone(sys.fat, sys.disk, l, req, data);
    var writes := Write(sys.fat, sys.disk, req, data).writes;
    FileHeads(sys.fat, sys.disk, l, req, data, |writes|);
    EveryWrite(sys.disk, writes);
    FewerHeads(sys.disk, Apply(sys.disk, writes), l.depth.Keys, {req.parent});
    HeadIs(sys.disk, Apply(sys.disk, writes), req.parent);
  }

  // ---------- the boot sequence on a fresh disk ----------

  /** The boot sequence reads a file first, whatever its name, which empties the cached table. */
  lemma FirstReadForgetsTheTable(disk: Disk, req: Request)
    requires req.parent == ROOT_CLUSTER && Nonblank(req)
    ensures ReadSafe(Fresh(disk).disk, req) && Read(Fresh(disk).fat, Fresh(disk).disk, req).fat == ZERO_FAT
  {
    FreshDisk(disk);
    RootTableIs();
    RootKeys(req);
    hide TableOf, FatOf, RootTable, ExactSlot, FormattedFat, FormattedDisk;
    FirstReadForgets(disk, req);
  }

  lemma RootKeys(req: Request)
    requires Nonblank(req)
    ensures ExactSlot(RootTable(), req.name, req.ext, 0) < SLOT_COUNT ==>
              RootTable()[ExactSlot(RootTable(), req.name, req.ext, 0)].IsDir()
  {
    RootTableIs();
    assert !ZERO_ENTRY.HasKey(req.name, req.ext);
    hide RootTable;
  }

  /** A file of one cluster is then given clusters 0 and 1, so the write copies two clusters, although the boot sequence
      brings a buffer of one. */
  lemma BootFileTakesTwo(req: Request, data: seq<byte>)
    requires 0 < req.bufferSize <= CLUSTER_SIZE
    ensures Buffered(ZERO_FAT, data, req.bufferSize) <==> |data| >= 2 * CLUSTER_SIZE
  {
    ZeroFatAllocation(req.bufferSize);
    hide Allocation;
  }

  /** And it is laid over the boot sector and the allocation table itself: the disk no longer carries the format's
      signature unless the file does, and no layout makes it well formed. `data` is the memory from the buffer on. */
  lemma NextWriteOverwritesTheDisk(disk: Disk, req: Request, data: seq<byte>)
    requires req.parent == ROOT_CLUSTER && Nonblank(req) && !RootTable()[0].HasKey(req.name, req.ext)
    requires 0 < req.bufferSize <= CLUSTER_SIZE && Buffered(ZERO_FAT, data, req.bufferSize)
    ensures var d := Fresh(disk).disk;
            var o := Write(ZERO_FAT, d, req, data);
            && o.code == 0 && WritesFit(d, o.writes) && |data| >= 2 * CLUSTER_SIZE
            && Apply(d, o.writes)[BOOT_CLUSTER] == data[..CLUSTER_SIZE]
            && Apply(d, o.writes)[FAT_CLUSTER] == data[CLUSTER_SIZE..2 * CLUSTER_SIZE]
            && (IsFormatted(Apply(d, o.writes)) <==> data[..BLOCK_SIZE] == SIGNATURE)
            && forall l :: !Wf(o.fat, Apply(d, o.writes), l)
  {
    hide TableOf, FatOf, RootTable, FreeSlot, Write, MakeFile, FormattedDisk, Link, Wf, Allocation;
    var d := Fresh(disk).disk;
    var o := Write(ZERO_FAT, d, req, data);
    FirstFileOnZeroFat(disk, req, data);
    ZeroFatAllocation(req.bufferSize);
    OverwrittenClusters(d, ZERO_FAT, RootTable(), 2, req, data);
    LinkedZeroFat();
    assert data[..CLUSTER_SIZE][..BLOCK_SIZE] == data[..BLOCK_SIZE];
    RootNotReserved(o.fat, Apply(d, o.writes));
  }

  lemma FirstFileOnZeroFat(disk: Disk, req: Request, data: seq<byte>)
    requires req.parent == ROOT_CLUSTER && Nonblank(req) && !RootTable()[0].HasKey(req.name, req.ext)
    requires 0 < req.bufferSize <= CLUSTER_SIZE && Buffered(ZERO_FAT, data, req.bufferSize)
    ensures var o := Write(ZERO_FAT, Fresh(disk).disk, req, data);
            o == MakeFile(ZERO_FAT, RootTable(), 2, req, data) && o.code == 0 && o.fat == Link(ZERO_FAT, [0, 1])
  {
    RootSlots(req);
    ZeroFatAllocation(req.bufferSize);
    FreshDisk(disk);
    hide TableOf, FatOf, RootTable, ExactSlot, FreeSlot, Allocation, Link, FormattedDisk, FormattedFat;
  }

  lemma RootSlots(req: Request)
    requires Nonblank(req) && !RootTable()[0].HasKey(req.name, req.ext)
    ensures FreeSlot(RootTable(), 0) == 2
    ensures ExactSlot(RootTable(), req.name, req.ext, 1) == SLOT_COUNT
    ensures RootTable()[0].IsDir() && RootTable()[0].Live()
  {
    RootTableIs();
    var t := RootTable();
    assert !ZERO_ENTRY.HasKey(req.name, req.ext);
    hide RootTable;
    assert FreeSlot(t, 2) == 2;
  }

  lemma ZeroFatAllocation(size: nat)
    requires 0 < size <= CLUSTER_SIZE
    ensures ClustersNeeded(size) == 1
    ensures Allocation(ZERO_FAT, 1) == [0, 1]
  {
    ZeroFatIsEmpty();
    hide ZERO_FAT;
    AllocationCharacterized(ZERO_FAT, size);
    FreeBelowLists(ZERO_FAT, |ZERO_FAT|);
    var free := FreeClusters(ZERO_FAT);
    assert 0 in free;
    assert Allocation(ZERO_FAT, 1)[0] in Allocation(ZERO_FAT, 1);
  }

  lemma RootNotReserved(fat: Fat, disk: Disk)
    requires fat[ROOT_CLUSTER] == EMPTY_ENTRY
    ensures forall l :: !Wf(fat, disk, l)
  {
    hide Entered, Chained, DistinctKeys, Headed, Owned, Sized, Homed, Ranked, TablesOf;
  }

  lemma LinkedZeroFat()
    ensures Link(ZERO_FAT, [0, 1])[ROOT_CLUSTER] == EMPTY_ENTRY
  {
    ZeroFatIsEmpty();
    LinkMakesChain(ZERO_FAT, [0, 1]);
  }

  lemma OverwrittenClusters(disk: Disk, fat: Fat, t: Table, slot: nat, req: Request, data: seq<byte>)
    requires slot < SLOT_COUNT && req.bufferSize > 0 && Buffered(fat, data, req.bufferSize) && req.parent < |disk|
    requires Allocation(fat, ClustersNeeded(req.bufferSize)) == [0, 1]
    ensures var writes := MakeFile(fat, t, slot, req, data).writes;
            && WritesFit(disk, writes) && |data| >= 2 * CLUSTER_SIZE
            && Apply(disk, writes)[BOOT_CLUSTER] == data[..CLUSTER_SIZE]
            && Apply(disk, writes)[FAT_CLUSTER] == data[CLUSTER_SIZE..2 * CLUSTER_SIZE]
  {
    hide TableBytes, FatBytes, Link, Allocation, DataWrites, Apply, Contents;
    var chain: seq<Index> := [0, 1];
    var writes := MakeFile(fat, t, slot, req, data).writes;
    var header := writes[..2];
    assert writes == header + DataWrites(chain, data);
    ApplyTwo(disk, header[0], header[1]);
    assert header == [header[0], header[1]];
    var d := Apply(disk, header);
    ContentsOfDataWrites(d, chain, data);
    ApplyConcat(disk, header, DataWrites(chain, data));
    var d' := Apply(d, DataWrites(chain, data));
    LastCluster(d', [0, 1]);
    LastCluster(d', [0]);
    NoData(d', data);
    assert chain[..1] == [0] && [0][..0] == [];
    var boot: seq<byte>, table: seq<byte> := d'[0], d'[1];
    assert Contents(d', chain) == boot + table;
    assert data[..2 * CLUSTER_SIZE][..CLUSTER_SIZE] == data[..CLUSTER_SIZE];
    assert data[..2 * CLUSTER_SIZE][CLUSTER_SIZE..] == data[CLUSTER_SIZE..2 * CLUSTER_SIZE];
    assert (boot + table)[..CLUSTER_SIZE] == boot && (boot + table)[CLUSTER_SIZE..] == table;
  }
}
