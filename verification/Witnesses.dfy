/** Calls on a freshly formatted disk for which the promises fail that the code does not keep: the other sides of the
    exact conditions. */
module Witnesses {
  import opened Bytes
  import opened CString
  import opened OnDisk
  import opened Chains
  import opened Operations
  import opened Ownership
  import opened Safety
  import opened Runs
  import opened Refinement
  import opened Answers
  import opened Persistence
  import opened CleanClusters
  import opened Reclamation
  import opened DirectoryTree
  import opened Sessions
  import opened Formatting

  const A: Name := [0x61, 0, 0, 0, 0, 0, 0, 0]
  const AB: Name := [0x61, 0x62, 0, 0, 0, 0, 0, 0]
  const TXT: Ext := [0x74, 0x78, 0x74]

  /** One byte, in the root. */
  function FileRequest(name: Name, ext: Ext): Request {
    Request(name, ROOT_NAME, ext, ROOT_CLUSTER, 1)
  }

  function DirRequest(name: Name): Request {
    Request(name, ROOT_NAME, NO_EXT, ROOT_CLUSTER, 0)
  }

  // ---------- the first file on a fresh disk ----------

  /** What makes a creation of at most one cluster succeed. */
  lemma CreatesWhen(fat: Fat, disk: Disk, l: Layout, req: Request, data: seq<byte>)
    requires Wf(fat, disk, l) && req.parent in l.depth && FreeClusters(fat) != []
    requires var t := TableOf(disk[req.parent]);
             && t[0].IsDir() && FreeSlot(t, 0) < SLOT_COUNT
             && forall i | 1 <= i < SLOT_COUNT :: !t[i].HasKey(req.name, req.ext)
    requires req.bufferSize <= CLUSTER_SIZE && (req.bufferSize > 0 ==> |data| >= 2 * CLUSTER_SIZE)
    ensures Creates(fat, disk, l, req, data)
  {
    hide TableOf, Wf, FreeSlot, Link, FreeClusters, Allocation, DataWrites, TableBytes, FatBytes;
    if req.bufferSize > 0 {
      FoundWhenEnough(fat, 1);
      AllocationCharacterized(fat, req.bufferSize);
    }
  }

  lemma FreshAllocation()
    ensures Allocation(FormattedFat(ZERO_FAT), 1) == [3, 4]
  {
    hide FormattedFat;
    FreshFat();
    var fat := FormattedFat(ZERO_FAT);
    AllocationCharacterized(fat, 1);
    FreeBelowLists(fat, |fat|);
    assert 3 in FreeClusters(fat);
    var chain := Allocation(fat, 1);
    assert chain[0] in chain && chain[1] in chain;
  }

  /** The system after the first file. */
  ghost function First(disk: Disk, req: Request, data: seq<byte>): (System, Layout)
    requires Creates(Fresh(disk).fat, Fresh(disk).disk, EmptyLayout(), req, data)
  {
    AfterCreation(Fresh(disk).fat, Fresh(disk).disk, EmptyLayout(), req, data)
  }

  /** A name that neither the root's own nor an unused entry has. */
  predicate Usual(name: Name) {
    name[0] != 0 && name[0] != ROOT_NAME[0]
  }

  lemma FirstFileCreates(disk: Disk, name: Name, ext: Ext, data: seq<byte>)
    requires Usual(name) && |data| >= 2 * CLUSTER_SIZE
    ensures var req := FileRequest(name, ext);
            && Creates(Fresh(disk).fat, Fresh(disk).disk, EmptyLayout(), req, data)
            && FreeSlot(TableOf(Fresh(disk).disk[ROOT_CLUSTER]), 0) == 2
  {
    hide TableOf, FatOf, Wf, RootTable, FormattedFat, FormattedDisk, FreeSlot, IsFormatted, FreeClusters, ExactSlot,
         Allocation, Initialised, NoEntries, Link, Write;
    FormattedIsWellFormed(disk);
    FreshDisk(disk);
    RootTableIs();
    FreshAllocation();
    RootSlots(FileRequest(name, ext));
    FoundWhenEnough(Fresh(disk).fat, 1);
    CreatesWhen(Fresh(disk).fat, Fresh(disk).disk, EmptyLayout(), FileRequest(name, ext), data);
  }

  /** It takes slot 2 of the root, and there is room for more. */
  lemma FirstFile(disk: Disk, name: Name, ext: Ext, data: seq<byte>)
    requires Usual(name) && |data| >= 2 * CLUSTER_SIZE
    ensures Creates(Fresh(disk).fat, Fresh(disk).disk, EmptyLayout(), FileRequest(name, ext), data)
    ensures var (sys, l) := First(disk, FileRequest(name, ext), data);
            && Good(sys, l) && Tree(sys.disk, l) && ROOT_CLUSTER in l.depth
            && FreeClusters(sys.fat) != []
            && (var t := TableOf(sys.disk[ROOT_CLUSTER]);
                && t[0] == t[1] == ROOT_ENTRY && t[2].HasKey(name, ext) && t[2].Live() && !t[2].IsDir()
                && FreeSlot(t, 0) == 3 && t[2].Cluster() == 3 && FreeClusters(sys.fat)[0] == 5
                && forall i | 3 <= i < SLOT_COUNT :: t[i] == ZERO_ENTRY)
  {
    hide TableOf, FatOf, Inv, RootTable, FormattedFat, FormattedDisk, FreeSlot, IsFormatted, Write, Tree, NewFileEntry,
         FreeClusters, FileChain, FileLayout;
    FirstFileCreates(disk, name, ext, data);
    FreshDisk(disk);
    FreshTree(disk);
    RootTableIs();
    var fat, d, l, req := Fresh(disk).fat, Fresh(disk).disk, EmptyLayout(), FileRequest(name, ext);
    CreationIsCoherent(fat, d, l, req, data);
    CreatedTree(Fresh(disk), l, req, data);
    WrittenSlot(fat, d, l, req, data);
    FreshEntry(fat, d, l, req, data);
    NewEntryLive(fat, d, req);
    MoreFree(disk, req);
    assert !TableOf(First(disk, req, data).0.disk[ROOT_CLUSTER])[3].Live();
  }

  lemma NewEntryLive(fat: Fat, disk: Disk, req: Request)
    requires req.parent < CLUSTER_MAP_SIZE && FreeSlot(TableOf(disk[req.parent]), 0) < SLOT_COUNT
    requires req.bufferSize > 0 && FileChain(fat, req) != []
    ensures NewFileEntry(fat, disk, req).Live() && NewFileEntry(fat, disk, req).Cluster() == FileChain(fat, req)[0]
  {
    hide TableOf, FreeSlot, FileChain;
  }

  lemma MoreFree(disk: Disk, req: Request)
    requires req.bufferSize == 1
    ensures FileChain(Fresh(disk).fat, req) == [3, 4]
    ensures var free := FreeClusters(Link(Fresh(disk).fat, [3, 4])); free != [] && free[0] == 5
  {
    hide FormattedFat, Allocation;
    FreshFat();
    FreshAllocation();
    LinkMakesChain(Fresh(disk).fat, [3, 4]);
    var fat := Link(Fresh(disk).fat, [3, 4]);
    FreeBelowLists(fat, |fat|);
    assert 5 in FreeClusters(fat);
    FirstIsFree(fat);
  }

  // ---------- a deleted file's bytes become a directory's entries ----------

  /** A file that looks like a directory table with an entry in slot 2. */
  function Spoiling(): (data: seq<byte>)
    ensures |data| == 2 * CLUSTER_SIZE
  {
    TableBytes(ZERO_TABLE[2 := ROOT_ENTRY]) + ZERO_CLUSTER
  }

  /** Writing it, deleting it and making a directory leaves a disk that is not well formed. */
  lemma DeletedFileSpoilsMkdir(disk: Disk)
    ensures Revertible(Fresh(disk).fat, Fresh(disk).disk, EmptyLayout(), FileRequest(A, TXT), Spoiling())
    ensures var fat := Fresh(disk).fat;
            var (d, l) := Reverted(fat, Fresh(disk).disk, EmptyLayout(), FileRequest(A, TXT), Spoiling());
            && Good(System(fat, d), l) && Creates(fat, d, l, DirRequest(AB), [])
            && !WellFormedAfter(Write(fat, d, DirRequest(AB), []), d)
  {
    hide TableOf, FatOf, Inv, FormattedFat, FormattedDisk, FreeSlot, IsFormatted, Write, NewFileEntry, FreeClusters,
         FileChain, FileLayout, Reverted, WellFormedAfter, TableBytes, ZERO_TABLE, Coherent, View;
    var fat, disk0, l0, req := Fresh(disk).fat, Fresh(disk).disk, EmptyLayout(), FileRequest(A, TXT);
    FirstFileCreates(disk, A, TXT, Spoiling());
    FreshDisk(disk);
    assert Revertible(fat, disk0, l0, req, Spoiling());
    WriteThenDeleteView(fat, disk0, l0, req, Spoiling());
    var (d, l) := Reverted(fat, disk0, l0, req, Spoiling());
    RootAfterRevert(disk);
    hide Revertible, Fresh;
    CreatesWhen(fat, d, l, DirRequest(AB), []);
    var head := TableBytes(ZERO_TABLE[2 := ROOT_ENTRY]);
    MkdirAfterDelete(fat, disk0, l0, req, Spoiling(), d, l, DirRequest(AB), head);
    assert TableOf(head)[2] == ROOT_ENTRY;
  }

  lemma RootAfterRevert(disk: Disk)
    requires Revertible(Fresh(disk).fat, Fresh(disk).disk, EmptyLayout(), FileRequest(A, TXT), Spoiling())
    ensures FreeClusters(Fresh(disk).fat) != []
    ensures var (d, l) := Reverted(Fresh(disk).fat, Fresh(disk).disk, EmptyLayout(), FileRequest(A, TXT), Spoiling());
            && ROOT_CLUSTER in l.depth && l.leaked == {}
            && (var t := TableOf(d[ROOT_CLUSTER]);
                && t[0].IsDir() && FreeSlot(t, 0) < SLOT_COUNT
                && forall i | 1 <= i < SLOT_COUNT :: !t[i].HasKey(AB, NO_EXT))
  {
    hide TableOf, FatOf, Inv, FormattedFat, FormattedDisk, FreeSlot, IsFormatted, Write, NewFileEntry, FreeClusters,
         FileChain, FileLayout, Reverted, Spoiling, RootTable, Revertible;
    var fat, disk0, l0, req := Fresh(disk).fat, Fresh(disk).disk, EmptyLayout(), FileRequest(A, TXT);
    FirstFileCreates(disk, A, TXT, Spoiling());
    FreshDisk(disk);
    RootTableIs();
    RevertedTable(fat, disk0, l0, req, Spoiling());
    BytesRemain(fat, disk0, l0, req, Spoiling());
    var (d, l) := Reverted(fat, disk0, l0, req, Spoiling());
    assert !TableOf(d[ROOT_CLUSTER])[2].Live();
  }

  // ---------- a deletion takes another file ----------

  lemma NamesDiffer()
    ensures AB != A
  {
    assert AB[1] != A[1];
  }

  lemma MatchesByPrefix(e: Entry)
    requires e.HasKey(AB, TXT)
    ensures Matches(e, A, TXT)
  {
    LengthUnique(A, 1);
    assert AB[..1] == A[..1];
  }

  /** A second file in the root, of a different name. */
  lemma SecondFileCreates(disk: Disk, data: seq<byte>)
    requires |data| >= 2 * CLUSTER_SIZE
    ensures Creates(Fresh(disk).fat, Fresh(disk).disk, EmptyLayout(), FileRequest(AB, TXT), data)
    ensures var (sys, l) := First(disk, FileRequest(AB, TXT), data);
            && Good(sys, l) && Creates(sys.fat, sys.disk, l, FileRequest(A, TXT), data)
            && FreeSlot(TableOf(sys.disk[ROOT_CLUSTER]), 0) == 3
            && TableOf(sys.disk[ROOT_CLUSTER])[2].HasKey(AB, TXT)
  {
    hide TableOf, FatOf, Inv, FreeSlot, IsFormatted, First, Fresh, Coherent, Tree, FreeClusters, Creates;
    FirstFile(disk, AB, TXT, data);
    var (sys, l) := First(disk, FileRequest(AB, TXT), data);
    NamesDiffer();
    CreatesWhen(sys.fat, sys.disk, l, FileRequest(A, TXT), data);
  }

  /** Where ab.txt was created before a.txt, deleting a.txt takes ab.txt. */
  lemma DeletionTakesAnother(disk: Disk, data: seq<byte>)
    requires |data| >= 2 * CLUSTER_SIZE
    ensures Creates(Fresh(disk).fat, Fresh(disk).disk, EmptyLayout(), FileRequest(AB, TXT), data)
    ensures var ((sys, l), req) := (First(disk, FileRequest(AB, TXT), data), FileRequest(A, TXT));
            && Good(sys, l) && Creates(sys.fat, sys.disk, l, req, data)
            && (var after := Written(sys.fat, sys.disk, l, req, data);
                && DeleteSafe(after.fat, after.disk, req)
                && Delete(after.fat, after.disk, req).fat != sys.fat
                && MatchSlot(TableOf(after.disk[ROOT_CLUSTER]), A, TXT, 2) < SLOT_COUNT
                && FirstMatch(TableOf(after.disk[ROOT_CLUSTER]), req) == Key(ROOT_CLUSTER, AB, TXT) != KeyOf(req))
  {
    hide TableOf, FatOf, Inv, FreeSlot, IsFormatted, First, Fresh, Coherent, Write, Delete, Written, MatchSlot,
         NewFileEntry, FileChain, FileLayout, Matches, Creates;
    SecondFileCreates(disk, data);
    var ((sys, l), req) := (First(disk, FileRequest(AB, TXT), data), FileRequest(A, TXT));
    NamesDiffer();
    MatchesByPrefix(TableOf(sys.disk[ROOT_CLUSTER])[2]);
    WriteThenDelete(sys.fat, sys.disk, l, req, data);
    WrittenSlot(sys.fat, sys.disk, l, req, data);
    var t := TableOf(Written(sys.fat, sys.disk, l, req, data).disk[ROOT_CLUSTER]);
    assert t[2] == TableOf(sys.disk[ROOT_CLUSTER])[2];
    assert MatchSlot(t, A, TXT, 2) == 2;
  }

  // ---------- a crash tears a file ----------

  /** The buffer with a first byte that the file's first cluster does not hold. */
  ghost function Differing(sys: System, req: Request, data: seq<byte>): (r: seq<byte>)
    requires req.bufferSize > 0 && FileChain(sys.fat, req) != [] && data != []
    ensures |r| == |data|
  {
    data[0 := (sys.disk[FileChain(sys.fat, req)[0]][0] as int + 1) % 0x100]
  }

  /** A power failure between a new file's entry and its data: neither the map before the call nor the one after it. */
  lemma CrashTearsFile(sys: System, l: Layout, req: Request, data: seq<byte>)
    requires Good(sys, l) && Creates(sys.fat, sys.disk, l, req, data) && req.bufferSize > 0
    ensures FileChain(sys.fat, req) != [] && data != []
    ensures var call := Writing(req, Differing(sys, req, data));
            && Possible(sys, l, Crashed(call, 2))
            && (var (sys', l') := Step(sys, l, Crashed(call, 2));
                View(sys'.disk, l') != View(sys.disk, l) && View(sys'.disk, l') != MapAfter(sys, l, call))
  {
    hide TableOf, FatOf, Wf, Coherent, IsFormatted, View, MapAfter, Contents, FileChain, FreeSlot, DataWrites, Link,
         AfterWrites, TableBytes, FatBytes;
    FilePath(sys.fat, sys.disk, l, req, data);
    var chain, data' := FileChain(sys.fat, req), Differing(sys, req, data);
    var e := Crashed(Writing(req, data'), 2);
    SameCode(sys.fat, sys.disk, req, data, data');
    FilePath(sys.fat, sys.disk, l, req, data');
    hide Write;
    RestartIs(sys, l, e);
    var (sys', l') := Step(sys, l, e);
    CrashIsAtomicIff(sys, l, e.call, 2, l');
    HeldOtherwise(sys.disk, chain, data', req.bufferSize);
  }

  lemma HeldOtherwise(disk: Disk, chain: seq<Index>, data: seq<byte>, size: nat)
    requires chain != [] && 0 < size <= CLUSTER_SIZE * |chain| && size <= |data| && data[0] != disk[chain[0]][0]
    ensures Contents(disk, chain[0..])[..size] != data[0..size]
  {
    hide Contents;
    ContentsHead(disk, chain);
    assert chain[0..] == chain;
    assert Contents(disk, chain)[..CLUSTER_SIZE][0] == disk[chain[0]][0];
    assert Contents(disk, chain)[..size][0] != data[0..size][0];
  }

  /** The buffer's contents do not decide whether a write succeeds. */
  lemma SameCode(fat: Fat, disk: Disk, req: Request, data: seq<byte>, data': seq<byte>)
    requires req.parent < |disk| && Buffered(fat, data, req.bufferSize) && |data'| == |data|
    ensures Write(fat, disk, req, data').code == Write(fat, disk, req, data).code
  {
    hide TableOf, FatOf, DataWrites, TableBytes, FatBytes, Link, Allocation, FreeSlot, ExactSlot;
  }

  // ---------- a file hides a directory ----------

  /** After the file a.txt, a directory a in the same place: cd with no name enters it, and the path that cwd prints for
      it does not lead back. */
  lemma FileHidesDirectory(disk: Disk, data: seq<byte>)
    requires |data| >= 2 * CLUSTER_SIZE && forall c: Index | c > ROOT_CLUSTER :: disk[c] == ZERO_CLUSTER
    ensures Creates(Fresh(disk).fat, Fresh(disk).disk, EmptyLayout(), FileRequest(A, TXT), data)
    ensures var (sys1, l1) := First(disk, FileRequest(A, TXT), data);
            && Creates(sys1.fat, sys1.disk, l1, DirRequest(A), []) && FreeClusters(sys1.fat) != []
            && (var (sys, l) := AfterCreation(sys1.fat, sys1.disk, l1, DirRequest(A), []);
                var c := FreeClusters(sys1.fat)[0];
                && Good(sys, l) && Tree(sys.disk, l) && ROOT_CLUSTER in l.depth
                && c in l.home && c in l.depth && l.home[c].dir == ROOT_CLUSTER
                && (forall arg: Name :: CdFrom(sys, l, ROOT_CLUSTER, arg) != c)
                && CdAll(sys, l, PathOf(sys.disk, l, c)) != c)
  {
    hide TableOf, FatOf, Inv, FreeSlot, IsFormatted, First, Fresh, Coherent, Write, FreeClusters, Tree, AfterCreation,
         CdFrom, CdAll, PathOf, NewDirLayout, FreeClean;
    SecondIsDirectory(disk, data);
    var (sys1, l1) := First(disk, FileRequest(A, TXT), data);
    HiddenDirectory(sys1, l1);
    var ((sys, l), c) := (AfterCreation(sys1.fat, sys1.disk, l1, DirRequest(A), []), FreeClusters(sys1.fat)[0]);
    forall arg: Name
      ensures CdFrom(sys, l, ROOT_CLUSTER, arg) != c
    {
      CdEntersChild(sys, l, c, arg);
    }
    DepthOf(sys.fat, sys.disk, l, c);
    PathReturns(sys, l, c);
  }

  lemma SecondIsDirectory(disk: Disk, data: seq<byte>)
    requires |data| >= 2 * CLUSTER_SIZE && forall c: Index | c > ROOT_CLUSTER :: disk[c] == ZERO_CLUSTER
    ensures Creates(Fresh(disk).fat, Fresh(disk).disk, EmptyLayout(), FileRequest(A, TXT), data)
    ensures var (sys, l) := First(disk, FileRequest(A, TXT), data);
            && Good(sys, l) && Tree(sys.disk, l) && FreeClean(sys)
            && Creates(sys.fat, sys.disk, l, DirRequest(A), [])
            && FreeSlot(TableOf(sys.disk[ROOT_CLUSTER]), 0) == 3
            && TableOf(sys.disk[ROOT_CLUSTER])[0].name == ROOT_NAME && TableOf(sys.disk[ROOT_CLUSTER])[2].name == A
  {
    hide TableOf, FatOf, Inv, FreeSlot, IsFormatted, Fresh, Coherent, Tree, FreeClusters, AfterCreation, FreeClean,
         Write;
    FirstFile(disk, A, TXT, data);
    FirstCreation(disk, FileRequest(A, TXT), data);
    var (sys, l) := First(disk, FileRequest(A, TXT), data);
    CreatesWhen(sys.fat, sys.disk, l, DirRequest(A), []);
  }

  lemma HiddenDirectory(sys1: System, l1: Layout)
    requires Good(sys1, l1) && Tree(sys1.disk, l1) && FreeClean(sys1)
    requires Creates(sys1.fat, sys1.disk, l1, DirRequest(A), [])
    requires var t := TableOf(sys1.disk[ROOT_CLUSTER]);
             FreeSlot(t, 0) == 3 && t[0].name == ROOT_NAME && t[2].name == A
    ensures FreeClusters(sys1.fat) != []
    ensures var (sys, l) := AfterCreation(sys1.fat, sys1.disk, l1, DirRequest(A), []);
            var c := FreeClusters(sys1.fat)[0];
            && Good(sys, l) && Tree(sys.disk, l) && ROOT_CLUSTER in l.depth
            && c in l.home && c in l.depth && l.home[c].dir == ROOT_CLUSTER
            && (forall arg: Name :: !Finds(sys.disk, l.home, c, arg)) && !PathFinds(sys.disk, l, c)
  {
    hide TableOf, FatOf, Inv, FreeSlot, IsFormatted, Coherent, Write, FreeClusters, Tree, NewDirLayout, FreeClean,
         NewDirEntry, NoEntries;
    var fat, disk, req := sys1.fat, sys1.disk, DirRequest(A);
    NextIsClean(sys1);
    CreationIsCoherent(fat, disk, l1, req, []);
    CreatedTree(sys1, l1, req, []);
    OldTablesAfterMkdir(fat, disk, l1, req, []);
    NewDirDepth(fat, disk, l1, req);
    NewDirNames(fat, disk, req, ZERO_TABLE);
    var ((sys, l), c) := (AfterCreation(fat, disk, l1, req, []), FreeClusters(fat)[0]);
    assert TableOf(sys.disk[Slot(ROOT_CLUSTER, 2).dir])[2].name == A;
    assert TableOf(sys.disk[Slot(ROOT_CLUSTER, 3).dir])[3].name == A;
    DepthOf(sys.fat, sys.disk, l, c);
  }

  // ---------- rm without a name ----------

  /** On a fresh disk the empty name matches an unused entry whose cluster number heads no chain: the deletion follows
      that number out of the table. */
  lemma EmptyNameIsUnsafe(disk: Disk)
    ensures !DeleteSafe(Fresh(disk).fat, Fresh(disk).disk, DirRequest(NO_NAME))
    ensures !HitsLive(Fresh(disk).disk, DirRequest(NO_NAME))
  {
    hide TableOf, FatOf, RootTable, FormattedFat, FormattedDisk, Matches;
    FreshFat();
    FreshDisk(disk);
    RootTableIs();
    ZeroEntryMatches();
    assert Matches(RootTable()[2], NO_NAME, NO_EXT);
    NoChainFromZero(Fresh(disk).fat);
  }

  lemma ZeroEntryMatches()
    ensures Matches(ZERO_ENTRY, NO_NAME, NO_EXT)
  {
    LengthUnique(NO_NAME, 0);
  }

  /** Slot 2 of the root has been blanked, no other directory has changed, and cluster 3 is the first free one. */
  ghost predicate SlotTwoGone(sys: System, l: Layout, sys': System, l': Layout) {
    var t := TableOf(sys.disk[ROOT_CLUSTER]);
    && l'.depth == l.depth
    && TableOf(sys'.disk[ROOT_CLUSTER]) == t[2 := Blanked(t[2])]
    && (forall d | d in l.depth && d != ROOT_CLUSTER :: TableOf(sys'.disk[d]) == TableOf(sys.disk[d]))
    && FreeClusters(sys'.fat) != [] && FreeClusters(sys'.fat)[0] == 3
  }

  /** A file is deleted from slot 2 of the root: its entry keeps the cluster number. */
  lemma DeletedFromRoot(sys: System, l: Layout)
    requires Good(sys, l)
    requires var t := TableOf(sys.disk[ROOT_CLUSTER]);
             t[0].IsDir() && t[2].HasKey(A, TXT) && t[2].Live() && !t[2].IsDir() && t[2].Cluster() == 3
    ensures var e := Returned(Deleting(FileRequest(A, TXT)));
            && Possible(sys, l, e)
            && (var (sys', l') := Step(sys, l, e); SlotTwoGone(sys, l, sys', l'))
  {
    hide TableOf, FatOf, Inv, IsFormatted, Coherent, MatchSlot, Matches, FreeClusters, Delete, HitsLive, At, TablesOf,
         SetSlot, Blanked;
    var req, call := FileRequest(A, TXT), Deleting(FileRequest(A, TXT));
    ReservedAreNoDirectories(sys.fat, TablesOf(sys.disk, l.depth.Keys), l);
    NamedHitsLive(sys.fat, sys.disk, l, req);
    SlotTwoMatches(TableOf(sys.disk[ROOT_CLUSTER]));
    DeleteIsSafe(sys.fat, sys.disk, l, req);
    DeleteOutcome(sys.fat, sys.disk, l, req);
    DeletePath(sys.fat, sys.disk, l, req);
    var s, writes := Victim(sys.disk, req), Delete(sys.fat, sys.disk, req).writes;
    CallKeepsInvariant(sys, l, call);
    var (sys', l') := Step(sys, l, Returned(call));
    TablesAfterDelete(sys.fat, sys.disk, l, req, |writes|);
    EveryWrite(sys.disk, writes);
    InTables(sys.disk, l.depth.Keys);
    InTables(sys'.disk, l.depth.Keys);
    TableAfterSetSlot(TablesOf(sys.disk, l.depth.Keys), s, Blanked(At(TablesOf(sys.disk, l.depth.Keys), s)));
    FirstReleased(sys', l');
  }

  lemma SlotTwoMatches(t: Table)
    requires t[2].HasKey(A, TXT)
    ensures MatchSlot(t, A, TXT, 2) == 2
  {
    hide StartsWith;
    StartsWithItself(A);
  }

  lemma SomeFree(fat: Fat, c: Index)
    requires fat[c] == EMPTY_ENTRY
    ensures FreeClusters(fat) != [] && FreeClusters(fat)[0] <= c
  {
    FreeBelowLists(fat, |fat|);
    assert c in FreeClusters(fat);
    FirstIsFree(fat);
  }

  /** Cluster 3 is the first that can be free. */
  lemma FirstReleased(sys: System, l: Layout)
    requires Good(sys, l) && sys.fat[3] == EMPTY_ENTRY
    ensures FreeClusters(sys.fat) != [] && FreeClusters(sys.fat)[0] == 3
  {
    hide TableOf, FatOf, Inv, IsFormatted, Coherent, FreeClusters;
    SomeFree(sys.fat, 3);
    FirstIsFree(sys.fat);
    ChainsOwnTheirClusters(sys.fat, TablesOf(sys.disk, l.depth.Keys), l);
  }

  /** A file is written in another directory, and is given cluster 3. */
  lemma WrittenElsewhere(sys: System, l: Layout, c: Index, data: seq<byte>)
    requires Good(sys, l) && c in l.depth && c != ROOT_CLUSTER && |data| >= 2 * CLUSTER_SIZE
    requires FreeClusters(sys.fat) != [] && FreeClusters(sys.fat)[0] == 3
    requires var t := TableOf(sys.disk[c]);
             t[0].IsDir() && t[0].Live() && t[1].Live() && t[1].name == ROOT_NAME && NoEntries(t)
    ensures var e := Returned(Writing(FileRequest(AB, TXT).(parent := c), data));
            && Possible(sys, l, e)
            && (var (sys', l') := Step(sys, l, e);
                && l'.depth == l.depth && ROOT_CLUSTER in l.depth
                && TableOf(sys'.disk[ROOT_CLUSTER]) == TableOf(sys.disk[ROOT_CLUSTER])
                && Slot(c, 2) in l'.chains && l'.chains[Slot(c, 2)][0] == 3
                && IsChain(sys'.fat, l'.chains[Slot(c, 2)])
                && TableOf(sys'.disk[c])[2].HasKey(AB, TXT))
  {
    hide TableOf, FatOf, Inv, IsFormatted, Coherent, FreeClusters, Write, FreeSlot, FileChain, NewFileEntry, FileLayout,
         SetSlot, TablesOf, IsChain, Link, NoEntries;
    var req := FileRequest(AB, TXT).(parent := c);
    ReservedAreNoDirectories(sys.fat, TablesOf(sys.disk, l.depth.Keys), l);
    EmptyTableHasRoom(TableOf(sys.disk[c]));
    CreatesWhen(sys.fat, sys.disk, l, req, data);
    CallKeepsInvariant(sys, l, Writing(req, data));
    FilePath(sys.fat, sys.disk, l, req, data);
    FirstOfChain(sys.fat, req);
    FileChainFacts(sys.fat, req);
    WrittenSlot(sys.fat, sys.disk, l, req, data);
    NewEntryHasKey(sys.fat, sys.disk, req);
    OtherTableKept(sys, l, req, data, ROOT_CLUSTER);
  }

  lemma EmptyTableHasRoom(t: Table)
    requires t[0].Live() && t[1].Live() && t[1].name == ROOT_NAME && NoEntries(t)
    ensures FreeSlot(t, 0) == 2 && forall i | 1 <= i < SLOT_COUNT :: !t[i].HasKey(AB, TXT)
  {
    hide FreeSlot;
    assert IsBlank(t[2]) && AB[0] != ROOT_NAME[0];
  }

  lemma OtherTableKept(sys: System, l: Layout, req: Request, data: seq<byte>, d: Index)
    requires Creates(sys.fat, sys.disk, l, req, data) && req.bufferSize > 0 && d in l.depth && d != req.parent
    ensures TableOf(Written(sys.fat, sys.disk, l, req, data).disk[d]) == TableOf(sys.disk[d])
  {
    hide TableOf, FatOf, Inv, FreeSlot, FileChain, NewFileEntry, SetSlot, Write, DataWrites, FileHeader, TablesOf;
    FileWritesElsewhere(sys.fat, sys.disk, l, req, data, |FileChain(sys.fat, req)|);
    FileHeaderIs(sys.fat, sys.disk, l, req, data);
    var rest := DataWrites(FileChain(sys.fat, req), data);
    assert rest[..|rest|] == rest;
    InTables(sys.disk, l.depth.Keys);
    InTables(Written(sys.fat, sys.disk, l, req, data).disk, l.depth.Keys);
    TableAfterSetSlot(TablesOf(sys.disk, l.depth.Keys), NewSlot(sys.disk, req), NewFileEntry(sys.fat, sys.disk, req));
  }

  lemma CreationStep(sys: System, l: Layout, req: Request, data: seq<byte>)
    requires Good(sys, l) && Creates(sys.fat, sys.disk, l, req, data)
    requires Harmless(sys, Writing(req, data), MKDIR_WRITES)
    ensures var e := Returned(Writing(req, data));
            Possible(sys, l, e) && Step(sys, l, e) == AfterCreation(sys.fat, sys.disk, l, req, data)
  {
    hide TableOf, FatOf, Inv, IsFormatted, Coherent, Write, FreeClusters, NoEntries, NewDirLayout, FileLayout, FreeSlot;
    if req.bufferSize == 0 {
      MkdirCompletes(sys, l, Writing(req, data));
    }
    CallKeepsInvariant(sys, l, Writing(req, data));
  }

  /** The directory beside the file: the file's entry stays, and the new table shows no entries. */
  lemma DirectoryBeside(sys: System, l: Layout)
    requires Good(sys, l) && FreeClean(sys) && Creates(sys.fat, sys.disk, l, DirRequest(A), [])
    requires FreeSlot(TableOf(sys.disk[ROOT_CLUSTER]), 0) == 3
    ensures FreeClusters(sys.fat) != []
    ensures var e := Returned(Writing(DirRequest(A), []));
            && Possible(sys, l, e)
            && (var ((sys', l'), c) := (Step(sys, l, e), FreeClusters(sys.fat)[0]);
                && c in l'.depth && c != ROOT_CLUSTER
                && (var t, t' := TableOf(sys.disk[ROOT_CLUSTER]), TableOf(sys'.disk[ROOT_CLUSTER]);
                    t'[0] == t[0] && t'[2] == t[2])
                && (var t := TableOf(sys'.disk[c]);
                    t[0].IsDir() && t[0].Live() && t[1].Live() && t[1].name == ROOT_NAME && NoEntries(t)))
  {
    hide TableOf, FatOf, Inv, FreeSlot, IsFormatted, Coherent, Write, FreeClusters, NewDirLayout, FreeClean,
         NewDirEntry, NoEntries, ChildTable, Initialised;
    var req := DirRequest(A);
    CleanIsHarmless(sys, Writing(req, []));
    CreationStep(sys, l, req, []);
    OldTablesAfterMkdir(sys.fat, sys.disk, l, req, []);
    DirPath(sys.fat, sys.disk, l, req, []);
    NewDirDepth(sys.fat, sys.disk, l, req);
    var c := FreeClusters(sys.fat)[0];
    ChildInitialised(TableOf(sys.disk[c]), req, c);
    NewDirNames(sys.fat, sys.disk, req, TableOf(sys.disk[c]));
    InitialisedHeads(ChildTable(TableOf(sys.disk[c]), req, c), c, ROOT_CLUSTER);
    var (sys', l') := Step(sys, l, Returned(Writing(req, [])));
    assert TableOf(sys'.disk[Slot(ROOT_CLUSTER, 0).dir])[0] == TableOf(sys.disk[ROOT_CLUSTER])[0];
    assert TableOf(sys'.disk[Slot(ROOT_CLUSTER, 2).dir])[2] == TableOf(sys.disk[ROOT_CLUSTER])[2];
  }

  lemma InitialisedHeads(t: Table, d: Index, parent: Index)
    requires Initialised(t, d, parent)
    ensures t[0].IsDir() && t[0].Live() && t[1].Live()
  {
  }

  /** The run: a directory a beside the file a.txt, a.txt deleted, and ab.txt written in the directory. */
  function StaleRun(data: seq<byte>): seq<Event> {
    [Returned(Writing(DirRequest(A), [])), Returned(Deleting(FileRequest(A, TXT))),
     Returned(Writing(FileRequest(AB, TXT).(parent := 5), data))]
  }

  lemma RunOfOneMore(sys: System, l: Layout, e: Event, rest: seq<Event>)
    requires Good(sys, l) && Possible(sys, l, e)
    requires var (sys', l') := Step(sys, l, e); PossibleRun(sys', l', rest)
    ensures var (sys', l') := Step(sys, l, e);
            PossibleRun(sys, l, [e] + rest) && Run(sys, l, [e] + rest) == Run(sys', l', rest)
  {
    hide Good, Possible, Step;
    assert ([e] + rest)[1..] == rest;
  }

  lemma RunOfThree(sys: System, l: Layout, a: Event, b: Event, c: Event)
    requires Good(sys, l) && Possible(sys, l, a)
    requires var (sys1, l1) := Step(sys, l, a);
             && Possible(sys1, l1, b)
             && (var (sys2, l2) := Step(sys1, l1, b); Possible(sys2, l2, c))
    ensures var (sys1, l1) := Step(sys, l, a);
            var (sys2, l2) := Step(sys1, l1, b);
            PossibleRun(sys, l, [a, b, c]) && Run(sys, l, [a, b, c]) == Step(sys2, l2, c)
  {
    hide Good, Possible, Step;
    var (sys1, l1) := Step(sys, l, a);
    var (sys2, l2) := Step(sys1, l1, b);
    RunOfOneMore(sys2, l2, c, []);
    RunOfOneMore(sys1, l1, b, [c]);
    RunOfOneMore(sys, l, a, [b, c]);
    assert [c] + [] == [c] && [b] + [c] == [b, c] && [a] + [b, c] == [a, b, c];
  }

  /** After this run the empty name matches the entry that a.txt left behind, whose cluster number heads the chain of
      ab.txt by now: the deletion releases that file's chain and leaves no well-formed disk. */
  lemma EmptyNameFreesAnotherFile(disk: Disk, data: seq<byte>)
    requires |data| >= 2 * CLUSTER_SIZE && forall c: Index | c > ROOT_CLUSTER :: disk[c] == ZERO_CLUSTER
    ensures Creates(Fresh(disk).fat, Fresh(disk).disk, EmptyLayout(), FileRequest(A, TXT), data)
    ensures var ((sys1, l1), req) := (First(disk, FileRequest(A, TXT), data), DirRequest(NO_NAME));
            && Good(sys1, l1) && PossibleRun(sys1, l1, StaleRun(data))
            && (var (sys, l) := Run(sys1, l1, StaleRun(data));
                && DeleteSafe(sys.fat, sys.disk, req)
                && 5 in l.depth && Slot(5, 2) in l.chains && TableOf(sys.disk[5])[2].HasKey(AB, TXT)
                && Delete(sys.fat, sys.disk, req).fat == Release(sys.fat, l.chains[Slot(5, 2)])
                && !WellFormedAfter(Delete(sys.fat, sys.disk, req), sys.disk))
  {
    hide TableOf, FatOf, Wf, FreeSlot, IsFormatted, First, Fresh, Coherent, Write, FreeClusters, Tree, FreeClean,
         NoEntries, Step, Possible, IsChain, Delete, WellFormedAfter, MatchSlot, Release;
    SecondIsDirectory(disk, data);
    FirstFile(disk, A, TXT, data);
    var (sys1, l1) := First(disk, FileRequest(A, TXT), data);
    DirectoryBeside(sys1, l1);
    var (sys2, l2) := Step(sys1, l1, StaleRun(data)[0]);
    DeletedFromRoot(sys2, l2);
    var (sys3, l3) := Step(sys2, l2, StaleRun(data)[1]);
    WrittenElsewhere(sys3, l3, 5, data);
    var (sys, l) := Step(sys3, l3, StaleRun(data)[2]);
    RunOfThree(sys1, l1, StaleRun(data)[0], StaleRun(data)[1], StaleRun(data)[2]);
    StaleMatch(TableOf(sys.disk[ROOT_CLUSTER]), TableOf(sys2.disk[ROOT_CLUSTER])[2]);
    StaleDeletion(sys, l, l.chains[Slot(5, 2)]);
    OwnedHasNotLeaked(sys, l, Slot(5, 2));
    DeleteExact(sys.fat, sys.disk, l, DirRequest(NO_NAME));
  }

  /** What a deletion by the empty name does where slot 2 of the root is unused and heads a chain. */
  lemma StaleDeletion(sys: System, l: Layout, chain: seq<Index>)
    requires Good(sys, l) && ROOT_CLUSTER in l.depth && IsChain(sys.fat, chain)
    requires var t := TableOf(sys.disk[ROOT_CLUSTER]);
             && MatchSlot(t, NO_NAME, NO_EXT, 2) == 2 && t[0].IsDir() && !t[2].Live() && !t[2].IsDir()
             && t[2].Cluster() == chain[0]
    ensures var req := DirRequest(NO_NAME);
            && DeleteSafe(sys.fat, sys.disk, req) && !HitsLive(sys.disk, req)
            && Delete(sys.fat, sys.disk, req).fat == Release(sys.fat, chain)
            && (Reclaims(sys.fat, sys.disk, l, req) <==> forall c | c in chain :: c in l.leaked)
  {
    hide TableOf, FatOf, Inv, IsFormatted, Coherent, MatchSlot, Release;
    assert HeadsChain(sys.fat, chain[0]);
    ChainUnique(sys.fat, ChainFrom(sys.fat, chain[0]), chain);
  }

  lemma OwnedHasNotLeaked(sys: System, l: Layout, s: Slot)
    requires Good(sys, l) && s in l.chains
    ensures l.chains[s] != [] && l.chains[s][0] !in l.leaked
  {
    hide TableOf, Inv, IsFormatted, Coherent, TablesOf;
    var ts := TablesOf(sys.disk, l.depth.Keys);
    HeadOfChain(sys.fat, ts, l, s);
    ChainsOwnTheirClusters(sys.fat, ts, l);
    LeakedNotOwned(sys.fat, ts, l);
  }

  /** After a crash behind the first disk write of deleting a.txt, on the other hand, it gives back exactly the clusters
      that the crash has leaked. */
  lemma EmptyNameReclaims(disk: Disk, data: seq<byte>)
    requires |data| >= 2 * CLUSTER_SIZE
    ensures Creates(Fresh(disk).fat, Fresh(disk).disk, EmptyLayout(), FileRequest(A, TXT), data)
    ensures var ((sys1, l1), req) := (First(disk, FileRequest(A, TXT), data), DirRequest(NO_NAME));
            var e := Crashed(Deleting(FileRequest(A, TXT)), 1);
            && Good(sys1, l1) && Possible(sys1, l1, e)
            && (var (sys, l) := Step(sys1, l1, e);
                && l.leaked != {} && DeleteSafe(sys.fat, sys.disk, req) && !HitsLive(sys.disk, req)
                && WellFormedAfter(Delete(sys.fat, sys.disk, req), sys.disk))
  {
    hide TableOf, FatOf, Wf, FreeSlot, IsFormatted, First, Fresh, Coherent, FreeClusters, Tree, Step, Possible, IsChain,
         Delete, WellFormedAfter, MatchSlot, Release;
    FirstFile(disk, A, TXT, data);
    var (sys1, l1) := First(disk, FileRequest(A, TXT), data);
    var e := Crashed(Deleting(FileRequest(A, TXT)), 1);
    HalfDeleted(sys1, l1);
    var (sys, l) := Step(sys1, l1, e);
    StaleMatch(TableOf(sys.disk[ROOT_CLUSTER]), TableOf(sys1.disk[ROOT_CLUSTER])[2]);
    var chain := l1.chains[Slot(ROOT_CLUSTER, 2)];
    assert chain[0] in chain by {
      OwnedHasNotLeaked(sys1, l1, Slot(ROOT_CLUSTER, 2));
    }
    StaleDeletion(sys, l, chain);
    DeleteExact(sys.fat, sys.disk, l, DirRequest(NO_NAME));
  }

  lemma HalfDeleted(sys: System, l: Layout)
    requires Good(sys, l)
    requires var t := TableOf(sys.disk[ROOT_CLUSTER]);
             t[0].IsDir() && t[2].HasKey(A, TXT) && t[2].Live() && !t[2].IsDir()
    ensures Slot(ROOT_CLUSTER, 2) in l.chains
    ensures var e, s := Crashed(Deleting(FileRequest(A, TXT)), 1), Slot(ROOT_CLUSTER, 2);
            && Possible(sys, l, e)
            && (var (sys', l') := Step(sys, l, e);
                && ROOT_CLUSTER in l'.depth
                && TableOf(sys'.disk[ROOT_CLUSTER]) == TableOf(sys.disk[ROOT_CLUSTER])
                                                         [2 := Blanked(TableOf(sys.disk[ROOT_CLUSTER])[2])]
                && IsChain(sys'.fat, l.chains[s]) && l.chains[s][0] == TableOf(sys.disk[ROOT_CLUSTER])[2].Cluster()
                && forall c | c in l.chains[s] :: c in l'.leaked)
  {
    hide TableOf, FatOf, Inv, IsFormatted, Coherent, MatchSlot, Matches, FreeClusters, Delete, HitsLive, At, TablesOf,
         SetSlot, Blanked, IsChain, Detached;
    var req, s, ts := FileRequest(A, TXT), Slot(ROOT_CLUSTER, 2), TablesOf(sys.disk, l.depth.Keys);
    var e := Crashed(Deleting(req), 1);
    ReservedAreNoDirectories(sys.fat, ts, l);
    NamedHitsLive(sys.fat, sys.disk, l, req);
    SlotTwoMatches(TableOf(sys.disk[ROOT_CLUSTER]));
    DeleteIsSafe(sys.fat, sys.disk, l, req);
    DeleteOutcome(sys.fat, sys.disk, l, req);
    DeletePath(sys.fat, sys.disk, l, req);
    FileDeleteSteps(sys.fat, sys.disk, l, req);
    CallSparesBoot(sys, l, e.call);
    RestartIs(sys, l, e);
    var (sys', l') := Step(sys, l, e);
    CoherentMeans(sys, l);
    LayoutUnique(sys'.fat, sys'.disk, l', Detached(l, s));
    UnleakDetached(l, s, sys.fat, ts);
    DetachedKeepsTree(l, s);
    TablesAfterDelete(sys.fat, sys.disk, l, req, 1);
    InTables(sys.disk, l.depth.Keys);
    InTables(sys'.disk, l.depth.Keys);
    TableAfterSetSlot(ts, s, Blanked(At(ts, s)));
    EntryKnown(sys.fat, ts, l, s);
  }

  lemma StaleMatch(t: Table, e: Entry)
    requires t[2] == Blanked(e)
    ensures MatchSlot(t, NO_NAME, NO_EXT, 2) == 2 && !t[2].Live() && !t[2].IsDir() && t[2].Cluster() == e.Cluster()
  {
    LengthUnique(NO_NAME, 0);
    assert Matches(t[2], NO_NAME, NO_EXT);
  }
}
