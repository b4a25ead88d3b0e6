/** A new directory's table is read back from its cluster, not cleared: exactly when that is harmless, and the runs in
    which it always is. */
module CleanClusters {
  import opened Bytes
  import opened OnDisk
  import opened Chains
  import opened BlockDevice
  import opened Operations
  import opened Ownership
  import opened Safety
  import opened Runs
  import opened Refinement
  import opened Persistence

  // ---------- when mkdir keeps the invariant ----------

  /** The chains of the old entries are chains after the mkdir too. */
  lemma OldChainAfterMkdir(fat: Fat, disk: Disk, l: Layout, c: Index, s: Slot)
    requires Wf(fat, disk, l) && s in l.chains && fat[c] == EMPTY_ENTRY
    ensures IsChain(fat[c := END_OF_FILE], l.chains[s])
    ensures c !in l.chains[s]
  {
    hide Entered, DistinctKeys, Headed, Sized, Homed, Ranked, IsChain, TablesOf;
    ChainsOwnTheirClusters(fat, TablesOf(disk, l.depth.Keys), l);
    ChainFrame(fat, fat[c := END_OF_FILE], l.chains[s]);
  }

  /** A disk on which the new directory has been entered, and its cluster still shows its old slots from 2 on. */
  ghost predicate DirEntered(fat: Fat, disk: Disk, l: Layout, req: Request, d: Disk)
    requires req.parent < CLUSTER_MAP_SIZE && FreeSlot(TableOf(disk[req.parent]), 0) < SLOT_COUNT
    requires FreeClusters(fat) != []
  {
    var c, s := FreeClusters(fat)[0], NewSlot(disk, req);
    && s.dir in l.depth && c !in l.depth && s.pos >= 2 && s !in l.chains
    && (forall r: Slot | r.dir in l.depth ::
          TableOf(d[r.dir])[r.pos] == if r == s then NewDirEntry(fat, disk, req) else TableOf(disk[r.dir])[r.pos])
    && (forall i: Position | i >= 2 :: TableOf(d[c])[i] == TableOf(disk[c])[i])
  }

  lemma EnteredByHeader(fat: Fat, disk: Disk, l: Layout, req: Request, data: seq<byte>)
    requires Creates(fat, disk, l, req, data) && req.bufferSize == 0
    ensures FreeSlot(TableOf(disk[req.parent]), 0) < SLOT_COUNT && FreeClusters(fat) != []
    ensures WritesFit(disk, DirHeader(fat, disk, req))
    ensures var d, c := Apply(disk, DirHeader(fat, disk, req)), FreeClusters(fat)[0];
            DirEntered(fat, disk, l, req, d) && TableOf(d[c]) == TableOf(disk[c])
  {
    hide TableOf, FatOf, FreeSlot, FreeClusters, NewDirEntry, Write, Inv, SetSlot, TablesOf, DirHeader;
    DirPath(fat, disk, l, req, data);
    DirHeaderApplied(fat, disk, l, req, data);
    FreshDirEntry(fat, disk, l, req, data);
    SlotFromTwo(fat, disk, l, req, data);
    var c, s, e := FreeClusters(fat)[0], NewSlot(disk, req), NewDirEntry(fat, disk, req);
    var ts, d := TablesOf(disk, l.depth.Keys)[c := TableOf(disk[c])], Apply(disk, DirHeader(fat, disk, req));
    InTables(disk, l.depth.Keys);
    InTables(d, l.depth.Keys + {c});
    AtSetSlot(ts, s, e);
    SetSlotKeys(ts, s, e);
    forall r: Slot | r.dir in l.depth.Keys + {c}
      ensures TableOf(d[r.dir])[r.pos] == if r == s then e else TableOf(disk[r.dir])[r.pos]
    {
      assert At(SetSlot(ts, s, e), r) == TableOf(d[r.dir])[r.pos];
      assert At(ts, r) == TableOf(disk[r.dir])[r.pos];
    }
    forall i: Position
      ensures TableOf(d[c])[i] == TableOf(disk[c])[i]
    {
      assert TableOf(d[Slot(c, i).dir])[i] == TableOf(disk[c])[i];
    }
  }

  /** The table of an old directory after a mkdir: the same, but for the parent's new slot. */
  lemma OldTablesAfterMkdir(fat: Fat, disk: Disk, l: Layout, req: Request, data: seq<byte>)
    requires Creates(fat, disk, l, req, data) && req.bufferSize == 0
    ensures FreeSlot(TableOf(disk[req.parent]), 0) < SLOT_COUNT && FreeClusters(fat) != []
    ensures WritesFit(disk, Write(fat, disk, req, data).writes)
    ensures var d, c, s := Apply(disk, Write(fat, disk, req, data).writes), FreeClusters(fat)[0], NewSlot(disk, req);
            && s.dir in l.depth && c !in l.depth && s.pos >= 2 && s !in l.chains
            && TableOf(d[c]) == ChildTable(TableOf(disk[c]), req, c)
            && (forall r: Slot | r.dir in l.depth ::
                  TableOf(d[r.dir])[r.pos]
                  == if r == s then NewDirEntry(fat, disk, req) else TableOf(disk[r.dir])[r.pos])
  {
    hide TableOf, FatOf, FreeSlot, FreeClusters, NewDirEntry, Write, Inv, ChildTable, DirHeader;
    DirPath(fat, disk, l, req, data);
    EnteredByHeader(fat, disk, l, req, data);
    var c := FreeClusters(fat)[0];
    ApplyOne(disk, DirHeader(fat, disk, req), DiskWrite(c, TableBytes(ChildTable(TableOf(disk[c]), req, c))));
  }

  /** So it is from the second disk write of a mkdir on. */
  lemma EnteredFromTwo(fat: Fat, disk: Disk, l: Layout, req: Request, data: seq<byte>, k: nat)
    requires Creates(fat, disk, l, req, data) && req.bufferSize == 0
    requires 2 <= k <= |Write(fat, disk, req, data).writes|
    ensures FreeSlot(TableOf(disk[req.parent]), 0) < SLOT_COUNT && FreeClusters(fat) != []
    ensures WritesFit(disk, Write(fat, disk, req, data).writes)
    ensures var d, c := AfterWrites(disk, Write(fat, disk, req, data).writes, k), FreeClusters(fat)[0];
            && DirEntered(fat, disk, l, req, d) && FatOn(d) == fat[c := END_OF_FILE]
            && (k == 2 ==> TableOf(d[c]) == TableOf(disk[c]))
  {
    hide TableOf, FatOf, FreeSlot, FreeClusters, NewDirEntry, Write, Inv, ChildTable, SetSlot, TablesOf, DirHeader;
    OldTablesAfterMkdir(fat, disk, l, req, data);
    DirPath(fat, disk, l, req, data);
    DirHeaderApplied(fat, disk, l, req, data);
    ReservedAreNoDirectories(fat, TablesOf(disk, l.depth.Keys), l);
    var writes, c := Write(fat, disk, req, data).writes, FreeClusters(fat)[0];
    var header, d := DirHeader(fat, disk, req), AfterWrites(disk, writes, k);
    DirHeaderLength(fat, disk, req);
    ApplyOne(disk, header, writes[2]);
    if k == 2 {
      assert writes[..2] == header;
      EnteredByHeader(fat, disk, l, req, data);
    } else {
      EveryWrite(disk, writes);
      ChildKeepsEntries(TableOf(disk[c]), req, c);
    }
  }

  /** What a layout that fits such a disk has to do with the one before the mkdir. */
  ghost predicate Follows(fat: Fat, disk: Disk, l: Layout, req: Request, data: seq<byte>, d: Disk, l': Layout) {
    && Creates(fat, disk, l, req, data) && req.bufferSize == 0
    && FreeSlot(TableOf(disk[req.parent]), 0) < SLOT_COUNT && FreeClusters(fat) != []
    && DirEntered(fat, disk, l, req, d) && Wf(fat[FreeClusters(fat)[0] := END_OF_FILE], d, l')
  }

  /** It has the old directories and entries. */
  lemma OldEntriesKept(fat: Fat, disk: Disk, l: Layout, req: Request, data: seq<byte>, d: Disk, l': Layout)
    requires Follows(fat, disk, l, req, data, d, l')
    ensures forall a | a in l.depth :: a in l'.depth
    ensures forall s | s in l.chains :: s in l'.chains && l'.chains[s] == l.chains[s]
  {
    hide TableOf, FatOf, TablesOf, Write, Inv, At, FreeClusters, FreeSlot, NewDirEntry, IsChain;
    DirPath(fat, disk, l, req, data);
    InDepth(fat, disk, l);
    var fat' := fat[FreeClusters(fat)[0] := END_OF_FILE];
    assert EntriesStay(disk, l, d);
    hide DirEntered, EntriesStay;
    forall a | a in l.depth
      ensures a in l'.depth
    {
      DirectoryStays(fat, disk, l, fat', d, l', a);
    }
    forall s | s in l.chains
      ensures s in l'.chains && l'.chains[s] == l.chains[s]
    {
      OldChainAfterMkdir(fat, disk, l, FreeClusters(fat)[0], s);
      EntryStays(fat, disk, l, fat', d, l', s);
      ChainUnique(fat', l'.chains[s], l.chains[s]);
    }
  }

  /** It has the new one. */
  lemma NewEntryKept(fat: Fat, disk: Disk, l: Layout, req: Request, data: seq<byte>, d: Disk, l': Layout)
    requires Follows(fat, disk, l, req, data, d, l')
    ensures var c, s := FreeClusters(fat)[0], NewSlot(disk, req);
            && s in l'.chains && c in l'.chains[s] && c in l'.depth && Parent(l'.home, c) == req.parent
            && c in l'.owner
  {
    hide TableOf, FatOf, TablesOf, Write, Inv, At, FreeClusters, FreeSlot, NewDirEntry, Creates, IsChain;
    OldEntriesKept(fat, disk, l, req, data, d, l');
    NewDirEntryIs(fat, disk, req);
    var c, s := FreeClusters(fat)[0], NewSlot(disk, req);
    var fat', ts' := fat[c := END_OF_FILE], TablesOf(d, l'.depth.Keys);
    AtIs(d, l'.depth.Keys, s);
    EntryKnown(fat', ts', l', s);
    HomeOf(fat', ts', l', s);
    DirectoriesKnown(fat', ts', l');
  }

  /** And it owns at least what the old one owned, so nothing has leaked that had not; and if it owns no more but the
      new cluster, there was nothing that the new directory could have inherited. */
  lemma LeaksAfterMkdir(fat: Fat, disk: Disk, l: Layout, req: Request, data: seq<byte>, d: Disk, l': Layout)
    requires Follows(fat, disk, l, req, data, d, l')
    ensures l'.leaked <= l.leaked
    ensures l'.leaked == l.leaked ==> NoEntries(TableOf(disk[FreeClusters(fat)[0]]))
  {
    hide TableOf, FatOf, TablesOf, Write, Inv, At, FreeClusters, FreeSlot, NewDirEntry, IsBlank;
    OldEntriesKept(fat, disk, l, req, data, d, l');
    NewEntryKept(fat, disk, l, req, data, d, l');
    var c := FreeClusters(fat)[0];
    var fat', ts, ts' := fat[c := END_OF_FILE], TablesOf(disk, l.depth.Keys), TablesOf(d, l'.depth.Keys);
    InDepth(fat, disk, l);
    ChainsOwnTheirClusters(fat, ts, l);
    ChainsOwnTheirClusters(fat', ts', l');
    LeakedNotOwned(fat', ts', l');
    if l'.leaked == l.leaked {
      InTables(d, l'.depth.Keys);
      forall i: Position | i >= 2
        ensures IsBlank(TableOf(disk[c])[i])
      {
        if Slot(c, i) in l'.chains {
          HeadOfChain(fat', ts', l', Slot(c, i));
          assert false;
        }
        BlankUnlessEntered(fat', ts', l', Slot(c, i));
      }
    }
  }

  lemma LeakedNotOwned(fat: Fat, ts: Tables, l: Layout)
    requires Inv(fat, ts, l)
    ensures forall c | c in l.leaked :: c !in l.owner && c > ROOT_CLUSTER
  {
    hide Entered, Chained, DistinctKeys, Headed, Sized, Homed, Ranked;
  }

  lemma HeadOfChain(fat: Fat, ts: Tables, l: Layout, s: Slot)
    requires Inv(fat, ts, l) && s in l.chains
    ensures |l.chains[s]| > 0 && l.chains[s][0] in l.chains[s]
  {
    hide Entered, Owned, Accounted, DistinctKeys, Headed, Sized, Homed, Ranked;
  }

  lemma NewDirEntryIs(fat: Fat, disk: Disk, req: Request)
    requires req.parent < CLUSTER_MAP_SIZE && FreeSlot(TableOf(disk[req.parent]), 0) < SLOT_COUNT
    requires FreeClusters(fat) != []
    ensures var e := NewDirEntry(fat, disk, req); e.Live() && e.IsDir() && e.Cluster() == FreeClusters(fat)[0]
  {
    hide TableOf, FreeSlot, FreeClusters;
  }

  /** The disk that a call leaves fits the table it leaves. */
  ghost predicate WellFormedAfter(o: Outcome, disk: Disk) {
    WritesFit(disk, o.writes) && exists l' :: Wf(o.fat, Apply(disk, o.writes), l')
  }

  /** mkdir, exactly. On a disk without leaks it leaves a well-formed disk if and only if the reused cluster showed no
      entry from slot 2 on. On any disk it does so if there was none; otherwise, if at all, only because the new
      directory has taken over leaked clusters. */
  lemma MkdirExact(fat: Fat, disk: Disk, l: Layout, req: Request, data: seq<byte>)
    requires Creates(fat, disk, l, req, data) && req.bufferSize == 0
    ensures FreeClusters(fat) != [] && WritesFit(disk, Write(fat, disk, req, data).writes)
    ensures var o, blank := Write(fat, disk, req, data), NoEntries(TableOf(disk[FreeClusters(fat)[0]]));
            && (blank ==> WellFormedAfter(o, disk))
            && (l.leaked == {} ==> (WellFormedAfter(o, disk) <==> blank))
            && (forall l' | Wf(o.fat, Apply(disk, o.writes), l') ::
                  l'.leaked <= l.leaked && (l'.leaked == l.leaked <==> blank))
  {
    hide TableOf, FatOf, Write, Wf, Apply, FreeClusters, FreeSlot, NewDirEntry, Creates, NoEntries, DirEntered;
    DirPath(fat, disk, l, req, data);
    CreationFits(fat, disk, l, req, data);
    var o, c := Write(fat, disk, req, data), FreeClusters(fat)[0];
    DirHeaderLength(fat, disk, req);
    CreatesIsWf(fat, disk, l, req, data);
    EnteredFromTwo(fat, disk, l, req, data, |o.writes|);
    EveryWrite(disk, o.writes);
    var d := Apply(disk, o.writes);
    if NoEntries(TableOf(disk[c])) {
      DirDone(fat, disk, l, req, data);
      hide NewDirLayout;
      assert Wf(o.fat, d, NewDirLayout(fat, disk, l, req));
    }
    forall l' | Wf(o.fat, d, l')
      ensures l'.leaked <= l.leaked && (l'.leaked == l.leaked <==> NoEntries(TableOf(disk[c])))
    {
      LeaksAfterMkdir(fat, disk, l, req, data, d, l');
      if NoEntries(TableOf(disk[c])) {
        LayoutUnique(o.fat, d, l', NewDirLayout(fat, disk, l, req));
      }
    }
  }

  /** A disk that the driver can be started from. */
  ghost predicate Bootable(d: Disk) {
    exists l :: Wf(FatOn(d), d, l)
  }

  /** An interrupted mkdir, exactly: on a disk without leaks the disk is well formed after k disk writes if and only if
      the reused cluster's old table is what it must be after so many. */
  lemma MkdirCrashExact(fat: Fat, disk: Disk, l: Layout, req: Request, data: seq<byte>, k: nat)
    requires Creates(fat, disk, l, req, data) && req.bufferSize == 0 && Coherent(fat, disk)
    requires k <= |Write(fat, disk, req, data).writes|
    ensures FreeClusters(fat) != [] && WritesFit(disk, Write(fat, disk, req, data).writes)
    ensures var d, c := AfterWrites(disk, Write(fat, disk, req, data).writes, k), FreeClusters(fat)[0];
            var fine := Reusable(TableOf(disk[c]), c, req.parent, k);
            && (fine ==> Bootable(d))
            && (l.leaked == {} ==> (Bootable(d) <==> fine))
            && (forall l' | Wf(FatOn(d), d, l') && (k >= 2 ==> l'.leaked == l.leaked) :: fine)
  {
    hide TableOf, FatOf, Write, Wf, FreeClusters, FreeSlot, NewDirEntry, Creates, NoEntries, DirEntered, AfterWrites,
         Reusable, Initialised;
    DirPath(fat, disk, l, req, data);
    CreationFits(fat, disk, l, req, data);
    var d, c := AfterWrites(disk, Write(fat, disk, req, data).writes, k), FreeClusters(fat)[0];
    if Reusable(TableOf(disk[c]), c, req.parent, k) {
      DirCrash(fat, disk, l, req, data, k);
    }
    forall l' | Wf(FatOn(d), d, l')
      ensures k >= 2 ==> l'.leaked <= l.leaked
      ensures (k >= 2 ==> l'.leaked == l.leaked) ==> Reusable(TableOf(disk[c]), c, req.parent, k)
    {
      CrashedOnReusable(fat, disk, l, req, data, k, l');
    }
  }

  lemma CrashedOnReusable(fat: Fat, disk: Disk, l: Layout, req: Request, data: seq<byte>, k: nat, l': Layout)
    requires Creates(fat, disk, l, req, data) && req.bufferSize == 0 && Coherent(fat, disk)
    requires k <= |Write(fat, disk, req, data).writes| && WritesFit(disk, Write(fat, disk, req, data).writes)
    requires var d := AfterWrites(disk, Write(fat, disk, req, data).writes, k); Wf(FatOn(d), d, l')
    ensures FreeClusters(fat) != []
    ensures k >= 2 ==> l'.leaked <= l.leaked
    ensures (k >= 2 ==> l'.leaked == l.leaked) ==>
              Reusable(TableOf(disk[FreeClusters(fat)[0]]), FreeClusters(fat)[0], req.parent, k)
  {
    hide TableOf, FatOf, Write, Wf, FreeClusters, FreeSlot, NewDirEntry, NoEntries, DirEntered, AfterWrites,
         Initialised;
    DirPath(fat, disk, l, req, data);
    if k >= 2 {
      EnteredFromTwo(fat, disk, l, req, data, k);
      var d, c := AfterWrites(disk, Write(fat, disk, req, data).writes, k), FreeClusters(fat)[0];
      LeaksAfterMkdir(fat, disk, l, req, data, d, l');
      NewEntryKept(fat, disk, l, req, data, d, l');
      HeadKnown(fat[c := END_OF_FILE], d, l', c);
    }
  }

  lemma HeadKnown(fat: Fat, disk: Disk, l: Layout, a: Index)
    requires Wf(fat, disk, l) && a in l.depth
    ensures Initialised(TableOf(disk[a]), a, Parent(l.home, a)) || !TableOf(disk[a])[0].IsDir()
  {
    hide TableOf, Entered, Chained, DistinctKeys, Sized, Owned, Accounted, Ranked, Initialised;
    InTables(disk, l.depth.Keys);
    DirectoriesKnown(fat, TablesOf(disk, l.depth.Keys), l);
    assert Parent(l.home, a) == Parent(l.home, a);
  }

  lemma BlankUnlessEntered(fat: Fat, ts: Tables, l: Layout, s: Slot)
    requires Inv(fat, ts, l) && s.dir in ts && s.pos >= 2 && s !in l.chains
    ensures IsBlank(ts[s.dir][s.pos])
  {
    hide Chained, DistinctKeys, Headed, Sized, Owned, Accounted, Homed, Ranked;
    assert At(ts, s) == ts[s.dir][s.pos];
  }

  lemma ChildKeepsEntries(t: Table, req: Request, c: Index)
    ensures forall i: Position | i >= 2 :: ChildTable(t, req, c)[i] == t[i]
  {
  }

  // ---------- runs in which it always is harmless ----------

  /** No free cluster shows entries, whichever of them mkdir will be given. */
  ghost predicate FreeClean(sys: System) {
    forall c: Index | sys.fat[c] == EMPTY_ENTRY :: Clean(TableOf(sys.disk[c]))
  }

  ghost function Used(l: Layout): set<Index> {
    l.owner.Keys + l.leaked
  }

  lemma DeletesWhenDone(sys: System, l: Layout, call: Call)
    requires Good(sys, l) && Allowed(sys, l, call) && call.Deleting? && Effect(sys, l, call).code == 0
    ensures Deletes(sys.fat, sys.disk, l, call.req)
  {
    hide Wf, TableOf, FatOf, Delete;
    CallIsSafe(sys, l, call);
  }

  /** An event that gives clusters with file contents back: a file deletion whose last write has reached the disk. */
  ghost predicate FreesFile(sys: System, l: Layout, call: Call, k: nat)
    requires Good(sys, l) && Allowed(sys, l, call)
  {
    && call.Deleting? && Effect(sys, l, call).code == 0 && k == |Effect(sys, l, call).writes|
    && (DeletesWhenDone(sys, l, call);
        DeletePath(sys.fat, sys.disk, l, call.req);
        !At(TablesOf(sys.disk, l.depth.Keys), Victim(sys.disk, call.req)).IsDir())
  }

  /** When the used clusters only grow and only used ones are written, the free ones stay clean. */
  lemma StillClean(sys: System, l: Layout, writes: seq<DiskWrite>, k: nat, fat': Fat, l': Layout)
    requires Wf(sys.fat, sys.disk, l) && FreeClean(sys)
    requires WritesFit(sys.disk, writes) && k <= |writes| && Wf(fat', AfterWrites(sys.disk, writes, k), l')
    requires Used(l) <= Used(l')
    requires forall w | w in writes :: w.cluster <= ROOT_CLUSTER || w.cluster in Used(l')
    ensures FreeClean(System(fat', AfterWrites(sys.disk, writes, k)))
  {
    hide TableOf, AfterWrites, Clean, Entered, Chained, DistinctKeys, Headed, Sized, Owned, Homed, Ranked;
    var d := AfterWrites(sys.disk, writes, k);
    forall c: Index | fat'[c] == EMPTY_ENTRY
      ensures sys.fat[c] == EMPTY_ENTRY && d[c] == sys.disk[c]
    {
      assert c > ROOT_CLUSTER && c !in Used(l');
      ElsewhereAfter(sys.disk, writes, k, c);
    }
  }

  lemma DirectoryUsed(fat: Fat, disk: Disk, l: Layout, d: Index)
    requires Wf(fat, disk, l) && d in l.depth
    ensures d <= ROOT_CLUSTER || d in Used(l)
  {
    hide Inv;
    ReservedAreNoDirectories(fat, TablesOf(disk, l.depth.Keys), l);
  }

  lemma FileUses(fat: Fat, disk: Disk, l: Layout, req: Request)
    requires req.parent < CLUSTER_MAP_SIZE && FreeSlot(TableOf(disk[req.parent]), 0) < SLOT_COUNT
    requires req.bufferSize > 0
    ensures var chain := FileChain(fat, req);
            && Used(l) + (set c | c in chain) == Used(Reserved(l, chain)) == Used(FileLayout(fat, disk, l, req))
  {
    hide TableOf, FreeSlot, FileChain;
    var chain, s := FileChain(fat, req), NewSlot(disk, req);
    assert AttachOwner(l.owner, s, chain).Keys == l.owner.Keys + set c | c in chain;
  }

  lemma CleanAfterFile(sys: System, l: Layout, req: Request, data: seq<byte>, k: nat)
    requires Creates(sys.fat, sys.disk, l, req, data) && req.bufferSize > 0 && Coherent(sys.fat, sys.disk)
    requires FreeClean(sys) && k <= |Write(sys.fat, sys.disk, req, data).writes|
    ensures WritesFit(sys.disk, Write(sys.fat, sys.disk, req, data).writes)
    ensures var d := AfterWrites(sys.disk, Write(sys.fat, sys.disk, req, data).writes, k);
            FreeClean(System(FatOn(d), d))
  {
    hide TableOf, FatOf, Inv, Write, FileChain, FileLayout, AfterWrites, FreeSlot, Used, FreeClean, DataWrites;
    var writes, chain := Write(sys.fat, sys.disk, req, data).writes, FileChain(sys.fat, req);
    FileCrash(sys.fat, sys.disk, l, req, data, k);
    FileUses(sys.fat, sys.disk, l, req);
    if k == 0 {
      NothingApplied(sys.disk, writes);
    } else {
      FileWriteTargets(sys.fat, sys.disk, l, req, data);
      DirectoryUsed(sys.fat, sys.disk, l, req.parent);
      var d := AfterWrites(sys.disk, writes, k);
      StillClean(sys, l, writes, k, FatOn(d),
                 if k == 1 then Reserved(l, chain) else FileLayout(sys.fat, sys.disk, l, req));
    }
  }

  lemma DirUses(fat: Fat, disk: Disk, l: Layout, req: Request)
    requires req.parent < CLUSTER_MAP_SIZE && FreeSlot(TableOf(disk[req.parent]), 0) < SLOT_COUNT
    requires FreeClusters(fat) != [] && req.parent in l.depth
    ensures var c := FreeClusters(fat)[0];
            Used(l) + {c} == Used(Reserved(l, [c])) == Used(NewDirLayout(fat, disk, l, req))
  {
    hide TableOf, FreeSlot, FreeClusters;
    var c, s := FreeClusters(fat)[0], NewSlot(disk, req);
    assert AttachOwner(l.owner, s, [c]).Keys == l.owner.Keys + {c};
  }

  lemma CleanAfterMkdir(sys: System, l: Layout, req: Request, data: seq<byte>, k: nat)
    requires Creates(sys.fat, sys.disk, l, req, data) && req.bufferSize == 0 && Coherent(sys.fat, sys.disk)
    requires FreeClean(sys) && k <= |Write(sys.fat, sys.disk, req, data).writes|
    ensures WritesFit(sys.disk, Write(sys.fat, sys.disk, req, data).writes)
    ensures var d := AfterWrites(sys.disk, Write(sys.fat, sys.disk, req, data).writes, k);
            FreeClean(System(FatOn(d), d))
  {
    hide TableOf, FatOf, Inv, Write, NewDirLayout, AfterWrites, FreeSlot, Used, FreeClean, FreeClusters, NoEntries,
         DirHeader;
    DirPath(sys.fat, sys.disk, l, req, data);
    NextIsClean(sys);
    var writes, c := Write(sys.fat, sys.disk, req, data).writes, FreeClusters(sys.fat)[0];
    DirCrash(sys.fat, sys.disk, l, req, data, k);
    DirUses(sys.fat, sys.disk, l, req);
    if k == 0 {
      NothingApplied(sys.disk, writes);
    } else {
      DirTargets(sys.fat, sys.disk, req);
      DirectoryUsed(sys.fat, sys.disk, l, req.parent);
      var d := AfterWrites(sys.disk, writes, k);
      StillClean(sys, l, writes, k, FatOn(d),
                 if k == 1 then Reserved(l, [c]) else NewDirLayout(sys.fat, sys.disk, l, req));
    }
  }

  /** What mkdir will be given, where all free clusters are clean. */
  lemma NextIsClean(sys: System)
    requires FreeClean(sys)
    ensures CleanNext(sys)
  {
    hide TableOf, FreeClusters, NoEntries;
    if FreeClusters(sys.fat) != [] {
      FirstIsFree(sys.fat);
    }
  }

  /** Creating something keeps the free clusters clean also where cached and stored table did not agree before. */
  lemma CleanAfterCreation(sys: System, l: Layout, req: Request, data: seq<byte>)
    requires Creates(sys.fat, sys.disk, l, req, data) && FreeClean(sys)
    ensures WritesFit(sys.disk, Write(sys.fat, sys.disk, req, data).writes)
    ensures FreeClean(System(Write(sys.fat, sys.disk, req, data).fat,
                             Apply(sys.disk, Write(sys.fat, sys.disk, req, data).writes)))
  {
    hide TableOf, FatOf, Inv, Write, NewDirLayout, FileLayout, FreeSlot, Used, FreeClean, FreeClusters, NoEntries,
         DirHeader, FileChain, DataWrites;
    var fat, disk, o := sys.fat, sys.disk, Write(sys.fat, sys.disk, req, data);
    DirectoryUsed(fat, disk, l, req.parent);
    if req.bufferSize == 0 {
      DirPath(fat, disk, l, req, data);
      NextIsClean(sys);
      DirDone(fat, disk, l, req, data);
      DirUses(fat, disk, l, req);
      DirTargets(fat, disk, req);
      EveryWrite(disk, o.writes);
      StillClean(sys, l, o.writes, |o.writes|, o.fat, NewDirLayout(fat, disk, l, req));
    } else {
      FileDone(fat, disk, l, req, data);
      FileUses(fat, disk, l, req);
      FileWriteTargets(fat, disk, l, req, data);
      EveryWrite(disk, o.writes);
      StillClean(sys, l, o.writes, |o.writes|, o.fat, FileLayout(fat, disk, l, req));
    }
  }

  lemma DetachedUses(fat: Fat, disk: Disk, l: Layout, s: Slot)
    requires Wf(fat, disk, l) && s in l.chains
    ensures Used(Detached(l, s)) == Used(l)
    ensures forall c | c in l.chains[s] :: c in Used(l)
  {
    hide Inv;
    ChainsOwnTheirClusters(fat, TablesOf(disk, l.depth.Keys), l);
  }

  lemma CleanAfterDelete(sys: System, l: Layout, req: Request, k: nat)
    requires Deletes(sys.fat, sys.disk, l, req) && Coherent(sys.fat, sys.disk) && FreeClean(sys)
    requires k <= |Delete(sys.fat, sys.disk, req).writes|
    requires MatchSlot(TableOf(sys.disk[req.parent]), req.name, req.ext, 2) < SLOT_COUNT
    requires || At(TablesOf(sys.disk, l.depth.Keys), Victim(sys.disk, req)).IsDir()
             || k < |Delete(sys.fat, sys.disk, req).writes|
    ensures WritesFit(sys.disk, Delete(sys.fat, sys.disk, req).writes)
    ensures var d := AfterWrites(sys.disk, Delete(sys.fat, sys.disk, req).writes, k);
            FreeClean(System(FatOn(d), d))
  {
    hide TableOf, FatOf, Inv, Delete, MatchSlot, Used, FreeClean, At, TablesOf, Detached, EmptiedTable, NoLiveChild;
    DeletePath(sys.fat, sys.disk, l, req);
    var fat, disk, o, s := sys.fat, sys.disk, Delete(sys.fat, sys.disk, req), Victim(sys.disk, req);
    DetachedUses(fat, disk, l, s);
    DirectoryUsed(fat, disk, l, s.dir);
    var dir := At(TablesOf(disk, l.depth.Keys), s).IsDir();
    if dir {
      DirDeleteSteps(fat, disk, l, req);
      DirDetachedUses(l, s);
    } else {
      FileDeleteSteps(fat, disk, l, req);
    }
    if k == 0 {
      NothingApplied(disk, o.writes);
    } else if k < |o.writes| {
      StillClean(sys, l, o.writes, k, fat, if dir then DirDetached(l, s, l.chains[s][0]) else Detached(l, s));
    } else {
      assert o.writes[..k] == o.writes;
      CleanAfterRmdir(sys, l, req);
    }
  }

  lemma DirDetachedUses(l: Layout, s: Slot)
    requires s in l.chains && |l.chains[s]| > 0
    ensures Used(DirDetached(l, s, l.chains[s][0])) == Used(Detached(l, s))
  {
  }

  /** rmdir leaves a table behind that mkdir can reuse. */
  lemma CleanAfterRmdir(sys: System, l: Layout, req: Request)
    requires Deletes(sys.fat, sys.disk, l, req) && Coherent(sys.fat, sys.disk) && FreeClean(sys)
    requires MatchSlot(TableOf(sys.disk[req.parent]), req.name, req.ext, 2) < SLOT_COUNT
    requires At(TablesOf(sys.disk, l.depth.Keys), Victim(sys.disk, req)).IsDir()
    ensures WritesFit(sys.disk, Delete(sys.fat, sys.disk, req).writes)
    ensures var o := Delete(sys.fat, sys.disk, req); FreeClean(System(o.fat, Apply(sys.disk, o.writes)))
  {
    hide TableOf, FatOf, Wf, Delete, MatchSlot, At, TablesOf, EmptiedTable, NoLiveChild, Clean, Release, DirDetached,
         TableBytes, FatBytes, Blanked, FreeClean, Coherent;
    DeletePath(sys.fat, sys.disk, l, req);
    DirDeleteSteps(sys.fat, sys.disk, l, req);
    var fat, disk, o, s := sys.fat, sys.disk, Delete(sys.fat, sys.disk, req), Victim(sys.disk, req);
    var c := l.chains[s][0];
    RmdirSites(fat, disk, l, s);
    ApplyThree(disk, o.writes[0], o.writes[1], o.writes[2]);
    EmptiedIsClean(fat, disk, l, c);
    SingleRelease(fat, l.chains[s]);
    CleanAfterReplacing(sys, s.dir, o.writes[0].data, c, EmptiedTable(TableOf(disk[c])), o.writes[2].data);
  }

  lemma RmdirSites(fat: Fat, disk: Disk, l: Layout, s: Slot)
    requires Wf(fat, disk, l) && s in l.chains && At(TablesOf(disk, l.depth.Keys), s).IsDir()
    ensures |l.chains[s]| == 1
    ensures var c := l.chains[s][0];
            && c in l.depth && s.dir in l.depth && c != s.dir && c != FAT_CLUSTER && s.dir != FAT_CLUSTER
            && fat[s.dir] != EMPTY_ENTRY && fat[FAT_CLUSTER] != EMPTY_ENTRY
  {
    hide TableOf, Entered, Chained, DistinctKeys, Headed, Sized, Owned, Accounted, At;
    var ts := TablesOf(disk, l.depth.Keys);
    HomeKnown(fat, ts, l, l.chains[s][0]);
    ReservedAreNoDirectories(fat, ts, l);
    ChainsOwnTheirClusters(fat, ts, l);
  }

  lemma SingleRelease(fat: Fat, chain: seq<Index>)
    requires |chain| == 1
    ensures Release(fat, chain) == fat[chain[0] := EMPTY_ENTRY]
  {
  }

  lemma CleanAfterReplacing(sys: System, p: Index, parent: Cluster, c: Index, child: Table, table: Cluster)
    requires FreeClean(sys) && Clean(child) && sys.fat[p] != EMPTY_ENTRY && sys.fat[FAT_CLUSTER] != EMPTY_ENTRY
    requires p != c && c != FAT_CLUSTER && p != FAT_CLUSTER
    ensures FreeClean(System(sys.fat[c := EMPTY_ENTRY],
                             sys.disk[p := parent][c := TableBytes(child)][FAT_CLUSTER := table]))
  {
    hide TableOf, Clean;
  }

  lemma EmptiedIsClean(fat: Fat, disk: Disk, l: Layout, c: Index)
    requires Wf(fat, disk, l) && c in l.depth && NoLiveChild(TableOf(disk[c]))
    ensures Clean(EmptiedTable(TableOf(disk[c])))
  {
    hide TableOf, Chained, DistinctKeys, Headed, Sized, Owned, Accounted, Homed, Ranked, IsBlank;
    var t, ts := TableOf(disk[c]), TablesOf(disk, l.depth.Keys);
    forall i: Position | i >= 2
      ensures IsBlank(EmptiedTable(t)[i])
    {
      DirectoriesKnown(fat, ts, l);
      assert At(ts, Slot(c, i)) == t[i] && !t[i].Live();
    }
  }

  /** Every event but a file deletion keeps the free clusters clean. */
  lemma EventKeepsClean(sys: System, l: Layout, call: Call, k: nat)
    requires Good(sys, l) && Allowed(sys, l, call) && FreeClean(sys)
    requires k <= |Effect(sys, l, call).writes| && !FreesFile(sys, l, call, k)
    ensures WritesFit(sys.disk, Effect(sys, l, call).writes)
    ensures var d := AfterWrites(sys.disk, Effect(sys, l, call).writes, k); FreeClean(System(FatOn(d), d))
  {
    hide TableOf, FatOf, Wf, Write, Delete, Read, FreeClean, AfterWrites, FreeClusters, MatchSlot, HitsLive, ReadSafe,
         IsFormatted;
    CallIsSafe(sys, l, call);
    if Effect(sys, l, call).code != 0 {
      FailedChangesNothing(sys, l, call);
      NoWritesNoCrash(sys.disk);
    } else if call.Writing? {
      if call.req.bufferSize == 0 {
        CleanAfterMkdir(sys, l, call.req, call.data, k);
      } else {
        CleanAfterFile(sys, l, call.req, call.data, k);
      }
    } else if call.Deleting? {
      DeletePath(sys.fat, sys.disk, l, call.req);
      CleanAfterDelete(sys, l, call.req, k);
    } else {
      NoWritesNoCrash(sys.disk);
    }
  }

  /** Then no mkdir does any harm. */
  lemma CleanIsHarmless(sys: System, call: Call)
    requires FreeClean(sys)
    ensures forall k :: Harmless(sys, call, k)
  {
    hide TableOf, FreeClusters, NoEntries;
    if FreeClusters(sys.fat) != [] {
      FirstIsFree(sys.fat);
    }
  }

  ghost predicate Quiet(sys: System, l: Layout, e: Event)
    requires Good(sys, l) && FreeClean(sys)
  {
    && Allowed(sys, l, e.call) && Reached(sys, l, e) <= |Effect(sys, l, e.call).writes|
    && !FreesFile(sys, l, e.call, Reached(sys, l, e))
  }

  lemma QuietStep(sys: System, l: Layout, e: Event)
    requires Good(sys, l) && FreeClean(sys) && Quiet(sys, l, e)
    ensures Possible(sys, l, e) && FreeClean(Step(sys, l, e).0)
  {
    hide TableOf, FatOf, Wf, FreeClean, FreesFile, Effect, NextLayout, Allowed, Harmless, AfterWrites, Coherent,
         IsFormatted;
    CleanIsHarmless(sys, e.call);
    var o := Effect(sys, l, e.call);
    EventKeepsClean(sys, l, e.call, Reached(sys, l, e));
    if e.Returned? {
      CallKeepsInvariant(sys, l, e.call);
      EveryWrite(sys.disk, o.writes);
      var sys' := Step(sys, l, e).0;
      CoherentMeans(sys', NextLayout(sys, l, e.call));
    } else {
      RestartIs(sys, l, e);
    }
  }

  /** Runs of calls and crashes that delete no file. */
  ghost predicate QuietRun(sys: System, l: Layout, events: seq<Event>)
    requires Good(sys, l) && FreeClean(sys)
    decreases |events|
  {
    events != [] ==>
      && Quiet(sys, l, events[0])
      && (QuietStep(sys, l, events[0]);
          var (sys', l') := Step(sys, l, events[0]);
          QuietRun(sys', l', events[1..]))
  }

  /** In such a run mkdir never meets an unclean cluster: its writes never do harm. */
  lemma {:induction false} QuietRunIsPossible(sys: System, l: Layout, events: seq<Event>)
    requires Good(sys, l) && FreeClean(sys) && QuietRun(sys, l, events)
    ensures PossibleRun(sys, l, events) && FreeClean(Run(sys, l, events).0)
    decreases |events|
  {
    hide Good, Possible, Step, FreeClean, Quiet;
    if events != [] {
      QuietStep(sys, l, events[0]);
      var (sys', l') := Step(sys, l, events[0]);
      QuietRunIsPossible(sys', l', events[1..]);
    }
  }

  lemma ZeroIsClean()
    ensures Clean(TableOf(ZERO_CLUSTER))
  {
    hide EntryOf;
    forall i: Position
      ensures TableOf(ZERO_CLUSTER)[i] == ZERO_ENTRY
    {
      var record := ZERO_CLUSTER[ENTRY_SIZE * i..ENTRY_SIZE * i + ENTRY_SIZE];
      TableAt(ZERO_CLUSTER, i);
      ZeroEntryBytes(record);
    }
  }

  lemma ZeroEntryBytes(b: seq<byte>)
    requires |b| == ENTRY_SIZE && forall j | 0 <= j < |b| :: b[j] == 0
    ensures EntryOf(b) == ZERO_ENTRY
  {
    assert b[..8] == NO_NAME && b[8..11] == NO_EXT;
    assert b[13..20] == ZERO_ENTRY.created && b[22..26] == ZERO_ENTRY.modified;
    assert FromLe16(b[20..22]) == 0 && FromLe16(b[26..28]) == 0 && FromLe32(b[28..32]) == 0;
  }

  /** Where the free clusters are zeroed, they are clean. */
  lemma ZeroedIsClean(sys: System)
    requires forall c: Index | sys.fat[c] == EMPTY_ENTRY :: sys.disk[c] == ZERO_CLUSTER
    ensures FreeClean(sys)
  {
    hide TableOf, Clean;
    ZeroIsClean();
  }
}
