/** What a file holds lasts: through any later calls on other keys and through crashes. */
module Persistence {
  import opened Bytes
  import opened OnDisk
  import opened Chains
  import opened BlockDevice
  import opened Operations
  import opened Ownership
  import opened Safety
  import opened Runs
  import opened Refinement
  import opened Answers

  // ---------- a disk has only one layout ----------

  lemma EntryKnownToBoth(fat: Fat, disk: Disk, l1: Layout, l2: Layout, s: Slot)
    requires Wf(fat, disk, l1) && Wf(fat, disk, l2) && s in l1.chains && s.dir in l2.depth
    ensures s in l2.chains && l2.chains[s] == l1.chains[s]
    ensures At(TablesOf(disk, l1.depth.Keys), s) == At(TablesOf(disk, l2.depth.Keys), s)
  {
    hide TableOf, DistinctKeys, Headed, Sized, Owned, Accounted, Ranked, Homed;
    var ts1, ts2 := TablesOf(disk, l1.depth.Keys), TablesOf(disk, l2.depth.Keys);
    assert At(ts1, s) == At(ts2, s) == TableOf(disk[s.dir])[s.pos] by {
      InTables(disk, l1.depth.Keys);
      InTables(disk, l2.depth.Keys);
      assert s.dir in ts1;
    }
    hide At, TablesOf;
    LiveIsNotBlank(At(ts1, s));
    assert s in l2.chains;
    ChainUnique(fat, l1.chains[s], l2.chains[s]);
  }

  lemma {:induction false} DirectoryKnownToBoth(fat: Fat, disk: Disk, l1: Layout, l2: Layout, d: Index)
    requires Wf(fat, disk, l1) && Wf(fat, disk, l2) && d in l1.depth
    ensures d in l2.depth
    decreases l1.depth[d]
  {
    hide TableOf, TablesOf, Inv, At;
    var ts1, ts2 := TablesOf(disk, l1.depth.Keys), TablesOf(disk, l2.depth.Keys);
    DirectoriesKnown(fat, ts1, l1);
    DirectoriesKnown(fat, ts2, l2);
    if d != ROOT_CLUSTER {
      var s := l1.home[d];
      HomeKnown(fat, ts1, l1, d);
      DirectoryKnownToBoth(fat, disk, l1, l2, s.dir);
      EntryKnownToBoth(fat, disk, l1, l2, s);
      HomeOf(fat, ts2, l2, s);
    }
  }

  lemma InDepth(fat: Fat, disk: Disk, l: Layout)
    requires Wf(fat, disk, l)
    ensures forall s | s in l.chains :: s.dir in l.depth
  {
    hide Inv, TablesOf;
    DirectoriesKnown(fat, TablesOf(disk, l.depth.Keys), l);
  }

  lemma LayoutIncluded(fat: Fat, disk: Disk, l1: Layout, l2: Layout)
    requires Wf(fat, disk, l1) && Wf(fat, disk, l2)
    ensures l1.depth.Keys <= l2.depth.Keys
    ensures forall s | s in l1.chains :: s in l2.chains && l2.chains[s] == l1.chains[s]
  {
    hide Wf, TablesOf;
    InDepth(fat, disk, l1);
    forall d | d in l1.depth
      ensures d in l2.depth
    {
      DirectoryKnownToBoth(fat, disk, l1, l2, d);
    }
    forall s | s in l1.chains
      ensures s in l2.chains && l2.chains[s] == l1.chains[s]
    {
      DirectoryKnownToBoth(fat, disk, l1, l2, s.dir);
      EntryKnownToBoth(fat, disk, l1, l2, s);
    }
  }

  lemma OwnersEqual(fat: Fat, disk: Disk, l1: Layout, l2: Layout)
    requires Wf(fat, disk, l1) && Wf(fat, disk, l2) && l1.chains == l2.chains
    ensures l1.owner == l2.owner && l1.leaked == l2.leaked
  {
    hide Entered, Chained, DistinctKeys, Headed, Sized, Homed, Ranked, TablesOf;
    ChainsOwnTheirClusters(fat, TablesOf(disk, l1.depth.Keys), l1);
    ChainsOwnTheirClusters(fat, TablesOf(disk, l2.depth.Keys), l2);
    assert l1.owner.Keys == l2.owner.Keys;
    assert forall c | c in l1.owner :: l1.owner[c] == l2.owner[c];
  }

  lemma HomesEqual(fat: Fat, disk: Disk, l1: Layout, l2: Layout)
    requires Wf(fat, disk, l1) && Wf(fat, disk, l2) && l1.chains == l2.chains && l1.depth.Keys == l2.depth.Keys
    ensures l1.home == l2.home
  {
    hide TableOf, TablesOf, Inv, At;
    var ts := TablesOf(disk, l1.depth.Keys);
    assert l1.home.Keys == l2.home.Keys by {
      DirectoriesKnown(fat, ts, l1);
      DirectoriesKnown(fat, ts, l2);
      RootNotHome(fat, ts, l1);
      RootNotHome(fat, ts, l2);
    }
    forall d | d in l1.home
      ensures l1.home[d] == l2.home[d]
    {
      HomeKnown(fat, ts, l1, d);
      HomeKnown(fat, ts, l2, d);
      HomeOf(fat, ts, l2, l1.home[d]);
    }
  }

  lemma RootNotHome(fat: Fat, ts: Tables, l: Layout)
    requires Inv(fat, ts, l)
    ensures ROOT_CLUSTER !in l.home && ROOT_CLUSTER in l.depth && l.depth[ROOT_CLUSTER] == 0
  {
    hide Entered, Chained, DistinctKeys, Headed, Sized, Owned, Accounted, At;
  }

  lemma {:induction false} DepthEqual(fat: Fat, disk: Disk, l1: Layout, l2: Layout, d: Index)
    requires Wf(fat, disk, l1) && Wf(fat, disk, l2) && l1.home == l2.home && d in l1.depth && d in l2.depth
    ensures l1.depth[d] == l2.depth[d]
    decreases l1.depth[d]
  {
    hide TableOf, TablesOf, Inv;
    var ts1, ts2 := TablesOf(disk, l1.depth.Keys), TablesOf(disk, l2.depth.Keys);
    RootNotHome(fat, ts1, l1);
    RootNotHome(fat, ts2, l2);
    DirectoriesKnown(fat, ts1, l1);
    if d != ROOT_CLUSTER {
      HomeKnown(fat, ts1, l1, d);
      HomeKnown(fat, ts2, l2, d);
      DepthEqual(fat, disk, l1, l2, l1.home[d].dir);
    }
  }

  /** The invariant determines the layout, and so the callers' view. */
  lemma LayoutUnique(fat: Fat, disk: Disk, l1: Layout, l2: Layout)
    requires Wf(fat, disk, l1) && Wf(fat, disk, l2)
    ensures l1 == l2
  {
    hide Wf, TablesOf;
    LayoutIncluded(fat, disk, l1, l2);
    LayoutIncluded(fat, disk, l2, l1);
    assert l1.chains.Keys == l2.chains.Keys;
    assert l1.chains == l2.chains;
    OwnersEqual(fat, disk, l1, l2);
    HomesEqual(fat, disk, l1, l2);
    forall d | d in l1.depth
      ensures l1.depth[d] == l2.depth[d]
    {
      DepthEqual(fat, disk, l1, l2, d);
    }
    assert l1.depth == l2.depth;
  }

  // ---------- entries that stay on the disk stay in the layout ----------

  lemma AtIs(disk: Disk, dirs: set<Index>, s: Slot)
    requires s.dir in dirs
    ensures s.dir in TablesOf(disk, dirs) && At(TablesOf(disk, dirs), s) == TableOf(disk[s.dir])[s.pos]
  {
    hide TableOf;
  }

  /** The live entries of one disk are on the other one, too. */
  ghost predicate EntriesStay(disk: Disk, l: Layout, d: Disk) {
    forall s | s in l.chains :: TableOf(d[s.dir])[s.pos] == TableOf(disk[s.dir])[s.pos]
  }

  lemma EntryStays(fat: Fat, disk: Disk, l: Layout, fat': Fat, d: Disk, l': Layout, s: Slot)
    requires Wf(fat, disk, l) && Wf(fat', d, l') && EntriesStay(disk, l, d) && s in l.chains && s.dir in l'.depth
    ensures s in l'.chains && l'.chains[s] != [] && l.chains[s] != [] && l'.chains[s][0] == l.chains[s][0]
    ensures IsChain(fat, l.chains[s]) && IsChain(fat', l'.chains[s])
    ensures At(TablesOf(d, l'.depth.Keys), s) == At(TablesOf(disk, l.depth.Keys), s)
  {
    hide TableOf, TablesOf, Inv, At;
    var ts, ts' := TablesOf(disk, l.depth.Keys), TablesOf(d, l'.depth.Keys);
    InDepth(fat, disk, l);
    SlotKnown(fat, ts, l, s);
    AtIs(disk, l.depth.Keys, s);
    AtIs(d, l'.depth.Keys, s);
    EntryKnown(fat, ts, l, s);
    EntryKnown(fat', ts', l', s);
  }

  lemma {:induction false} DirectoryStays(fat: Fat, disk: Disk, l: Layout, fat': Fat, d: Disk, l': Layout, a: Index)
    requires Wf(fat, disk, l) && Wf(fat', d, l') && EntriesStay(disk, l, d) && a in l.depth
    ensures a in l'.depth
    decreases l.depth[a]
  {
    hide TableOf, TablesOf, Inv, At, EntriesStay;
    var ts, ts' := TablesOf(disk, l.depth.Keys), TablesOf(d, l'.depth.Keys);
    DirectoriesKnown(fat, ts, l);
    DirectoriesKnown(fat', ts', l');
    if a != ROOT_CLUSTER {
      var s := l.home[a];
      HomeKnown(fat, ts, l, a);
      DirectoryStays(fat, disk, l, fat', d, l', s.dir);
      EntryStays(fat, disk, l, fat', d, l', s);
      HomeOf(fat', ts', l', s);
    }
  }

  // ---------- what a crash shows ----------

  /** After a crash inside mkdir the new key is either absent or already bound to the new directory. */
  lemma DirCrashView(fat: Fat, disk: Disk, l: Layout, req: Request, data: seq<byte>, k: nat)
    requires Creates(fat, disk, l, req, data) && req.bufferSize == 0 && Coherent(fat, disk)
    requires FreeClusters(fat) != [] && k <= |Write(fat, disk, req, data).writes|
    requires Reusable(TableOf(disk[FreeClusters(fat)[0]]), FreeClusters(fat)[0], req.parent, k)
    ensures WritesFit(disk, Write(fat, disk, req, data).writes)
    ensures FreeSlot(TableOf(disk[req.parent]), 0) < SLOT_COUNT
    ensures var d := AfterWrites(disk, Write(fat, disk, req, data).writes, k);
            if k == 0 then View(d, l) == View(disk, l)
            else if k == 1 then View(d, Reserved(l, [FreeClusters(fat)[0]])) == View(disk, l)
            else View(d, NewDirLayout(fat, disk, l, req)) == View(disk, l)[KeyOf(req) := Directory(FreeClusters(fat)[0])]
  {
    hide TableOf, FatOf, FreeSlot, FreeClusters, SetSlot, TablesOf, NewDirEntry, TableBytes, FatBytes, NewDirLayout,
         Write, FilesOf, Inv, NoEntries, Initialised, ChildTable;
    DirCrash(fat, disk, l, req, data, k);
    DirPath(fat, disk, l, req, data);
    DirHeaderApplied(fat, disk, l, req, data);
    if k >= 2 {
      MkdirRefines(fat, disk, l, req, data);
    }
    var writes, header, c := Write(fat, disk, req, data).writes, DirHeader(fat, disk, req), FreeClusters(fat)[0];
    var d := AfterWrites(disk, writes, k);
    if k == 0 {
      assert writes[..0] == [];
    } else if k == 1 {
      assert writes[..1] == header[..1] == [header[0]];
      ReservedView(disk, d, fat, l, header[0], [c]);
    } else if k == 2 {
      assert writes[..2] == header;
      DirWritesElsewhere(fat, disk, l, req, data, 2);
      InTables(disk, l.depth.Keys);
      DirView(fat, disk, l, req, data, d, TableOf(disk[c]));
    } else {
      assert writes[..3] == writes;
    }
  }

  /** The map that a call leaves when it returns. */
  ghost function MapAfter(sys: System, l: Layout, call: Call): Files
    requires Good(sys, l) && Allowed(sys, l, call)
  {
    CallSparesBoot(sys, l, call);
    View(Apply(sys.disk, Effect(sys, l, call).writes), NextLayout(sys, l, call))
  }

  ghost predicate CreatesFile(call: Call) {
    call.Writing? && call.req.bufferSize > 0
  }

  /** A file write that has entered its file, and what the file then holds after k disk writes. */
  ghost function TornFile(sys: System, call: Call, k: nat): (bytes: seq<byte>)
    requires CreatesFile(call) && 2 <= k <= |FileChain(sys.fat, call.req)| + 2
    requires CLUSTER_SIZE * |FileChain(sys.fat, call.req)| <= |call.data|
    requires call.req.bufferSize <= CLUSTER_SIZE * |FileChain(sys.fat, call.req)|
  {
    TornBytes(sys.disk, FileChain(sys.fat, call.req), call.data, k - 2, call.req.bufferSize)
  }

  /** The room that a file write with disk writes has found. */
  lemma TornFileFits(sys: System, l: Layout, call: Call)
    requires Good(sys, l) && Allowed(sys, l, call) && CreatesFile(call) && Effect(sys, l, call).writes != []
    ensures var chain := FileChain(sys.fat, call.req);
            && |Effect(sys, l, call).writes| == |chain| + 2
            && CLUSTER_SIZE * |chain| <= |call.data| && call.req.bufferSize <= CLUSTER_SIZE * |chain|
    ensures KeyOf(call.req) !in View(sys.disk, l) && call.req.bufferSize <= |call.data|
    ensures MapAfter(sys, l, call) == View(sys.disk, l)[KeyOf(call.req) := File(call.data[..call.req.bufferSize])]
  {
    hide TableOf, FatOf, Wf, View, Write, FileChain, IsFormatted, FileLayout;
    if Effect(sys, l, call).code != 0 {
      FailedChangesNothing(sys, l, call);
    } else {
      FileCrashView(sys.fat, sys.disk, l, call.req, call.data, 0);
      FileWriteRefines(sys.fat, sys.disk, l, call.req, call.data);
    }
  }

  /** The map that is found after a crash behind the first k disk writes of a call. A deletion is done with its first
      write and a mkdir with its second. A file has its key from the second write on, but its bytes only as far as they
      have been written. */
  ghost predicate CrashOutcome(sys: System, l: Layout, call: Call, k: nat, v': Files)
    requires Good(sys, l) && Allowed(sys, l, call) && k <= |Effect(sys, l, call).writes|
  {
    if k == 0 || (k == 1 && call.Writing?) then v' == View(sys.disk, l)
    else if CreatesFile(call) then
      TornFileFits(sys, l, call);
      v' == View(sys.disk, l)[KeyOf(call.req) := File(TornFile(sys, call, k))]
    else v' == MapAfter(sys, l, call)
  }

  /** What a crash inside a call leaves, exactly. */
  lemma CrashIsExact(sys: System, l: Layout, call: Call, k: nat, l': Layout)
    requires Good(sys, l) && Allowed(sys, l, call)
    requires k <= |Effect(sys, l, call).writes| && Harmless(sys, call, k)
    requires WritesFit(sys.disk, Effect(sys, l, call).writes)
    requires var d := AfterWrites(sys.disk, Effect(sys, l, call).writes, k); Wf(FatOn(d), d, l')
    ensures CrashOutcome(sys, l, call, k, View(AfterWrites(sys.disk, Effect(sys, l, call).writes, k), l'))
  {
    hide TableOf, FatOf, Wf, View, Write, Delete, Read, HitsLive, ReadSafe, FreeClusters, AfterWrites, IsFormatted,
         TornFile, MapAfter, Harmless;
    var d := AfterWrites(sys.disk, Effect(sys, l, call).writes, k);
    CallIsSafe(sys, l, call);
    if k == 0 {
      NothingApplied(sys.disk, Effect(sys, l, call).writes);
      CoherentMeans(sys, l);
      LayoutUnique(FatOn(d), d, l, l');
    } else if call.Writing? {
      WritingCrashExact(sys, l, call, k, l');
    } else {
      DeletingCrashExact(sys, l, call, k, l');
    }
  }

  /** Crash atomicity, exactly: a crash shows the map before the call or the one after it, unless it falls into the
      data of a new file; and then if and only if the bytes that were not yet written were on the disk already. */
  lemma CrashIsAtomicIff(sys: System, l: Layout, call: Call, k: nat, l': Layout)
    requires Good(sys, l) && Allowed(sys, l, call)
    requires k <= |Effect(sys, l, call).writes| && Harmless(sys, call, k)
    requires WritesFit(sys.disk, Effect(sys, l, call).writes)
    requires var d := AfterWrites(sys.disk, Effect(sys, l, call).writes, k); Wf(FatOn(d), d, l')
    ensures CreatesFile(call) && k >= 2 ==>
              |FileChain(sys.fat, call.req)| + 2 == |Effect(sys, l, call).writes|
              && CLUSTER_SIZE * |FileChain(sys.fat, call.req)| <= |call.data|
              && call.req.bufferSize <= CLUSTER_SIZE * |FileChain(sys.fat, call.req)|
    ensures var v' := View(AfterWrites(sys.disk, Effect(sys, l, call).writes, k), l');
            v' == View(sys.disk, l) || v' == MapAfter(sys, l, call) <==>
            || !CreatesFile(call) || k < 2
            || (var size, done, chain := call.req.bufferSize, CLUSTER_SIZE * (k - 2), FileChain(sys.fat, call.req);
                size <= done || Contents(sys.disk, chain[k - 2..])[..size - done] == call.data[done..size])
  {
    hide TableOf, FatOf, Wf, View, Effect, Allowed, Good, MapAfter, Contents, FileChain, TornBytes, AfterWrites;
    CrashIsExact(sys, l, call, k, l');
    if CreatesFile(call) && k >= 2 {
      TornFileFits(sys, l, call);
      var v', key := View(AfterWrites(sys.disk, Effect(sys, l, call).writes, k), l'), KeyOf(call.req);
      TornIsWholeIff(sys.disk, FileChain(sys.fat, call.req), call.data, k - 2, call.req.bufferSize);
      assert v'[key] == File(TornFile(sys, call, k));
      assert MapAfter(sys, l, call)[key] == File(call.data[..call.req.bufferSize]);
    }
  }

  lemma NothingApplied(disk: Disk, writes: seq<DiskWrite>)
    requires WritesFit(disk, writes)
    ensures AfterWrites(disk, writes, 0) == disk
  {
    assert writes[..0] == [];
  }

  lemma CoherentMeans(sys: System, l: Layout)
    requires Good(sys, l)
    ensures FatOn(sys.disk) == sys.fat
  {
    hide Wf, IsFormatted;
  }

  lemma WritingCrashExact(sys: System, l: Layout, call: Call, k: nat, l': Layout)
    requires Good(sys, l) && Allowed(sys, l, call) && call.Writing?
    requires 1 <= k <= |Effect(sys, l, call).writes| && Harmless(sys, call, k)
    requires WritesFit(sys.disk, Effect(sys, l, call).writes)
    requires var d := AfterWrites(sys.disk, Effect(sys, l, call).writes, k); Wf(FatOn(d), d, l')
    ensures CrashOutcome(sys, l, call, k, View(AfterWrites(sys.disk, Effect(sys, l, call).writes, k), l'))
  {
    hide TableOf, FatOf, Wf, View, Write, NoEntries, FreeClusters, AfterWrites, NewDirLayout, FileLayout, FileChain,
         IsFormatted, TornBytes;
    var d := AfterWrites(sys.disk, Effect(sys, l, call).writes, k);
    var fat, disk, req, data := sys.fat, sys.disk, call.req, call.data;
    if Effect(sys, l, call).code != 0 {
      FailedChangesNothing(sys, l, call);
    } else if req.bufferSize == 0 {
      DirPath(fat, disk, l, req, data);
      DirCrash(fat, disk, l, req, data, k);
      DirCrashView(fat, disk, l, req, data, k);
      if k >= 2 {
        MkdirRefines(fat, disk, l, req, data);
      }
      LayoutUnique(FatOn(d), d, l', if k == 1 then Reserved(l, [FreeClusters(fat)[0]])
                                    else NewDirLayout(fat, disk, l, req));
    } else {
      FileCrash(fat, disk, l, req, data, k);
      FileCrashView(fat, disk, l, req, data, k);
      LayoutUnique(FatOn(d), d, l', if k == 1 then Reserved(l, FileChain(fat, req)) else FileLayout(fat, disk, l, req));
    }
  }

  lemma DeletingCrashExact(sys: System, l: Layout, call: Call, k: nat, l': Layout)
    requires Good(sys, l) && Allowed(sys, l, call) && !call.Writing?
    requires 1 <= k <= |Effect(sys, l, call).writes|
    requires WritesFit(sys.disk, Effect(sys, l, call).writes)
    requires var d := AfterWrites(sys.disk, Effect(sys, l, call).writes, k); Wf(FatOn(d), d, l')
    ensures CrashOutcome(sys, l, call, k, View(AfterWrites(sys.disk, Effect(sys, l, call).writes, k), l'))
  {
    hide TableOf, FatOf, View, Delete, MatchSlot, Matches, Detached, DirDetached, At, KeyAt, NodeAt, TablesOf, Inv,
         IsFormatted, HitsLive;
    CallIsSafe(sys, l, call);
    var fat, disk, req, o := sys.fat, sys.disk, call.req, Effect(sys, l, call);
    var d := AfterWrites(disk, o.writes, k);
    if o.code != 0 {
      FailedChangesNothing(sys, l, call);
    } else {
      DeletePath(fat, disk, l, req);
      DeletesNow(fat, disk, l, req);
      var s, ts := Victim(disk, req), TablesOf(disk, l.depth.Keys);
      DeleteViewAt(fat, disk, l, req, k);
      EveryWrite(disk, o.writes);
      if At(ts, s).IsDir() {
        DirDeleteSteps(fat, disk, l, req);
        LayoutUnique(FatOn(d), d, l', if k < 3 then DirDetached(l, s, l.chains[s][0]) else DirDeleted(l, s));
      } else {
        FileDeleteSteps(fat, disk, l, req);
        LayoutUnique(FatOn(d), d, l', if k == 1 then Detached(l, s) else FileDeleted(l, s));
      }
    }
  }

  /** What one event does to the callers' map: a call that returned did its operation on it, with the right answer; an
      interrupted one did it or did not, or left a file torn. */
  ghost predicate Explained(sys: System, l: Layout, e: Event)
    requires Good(sys, l) && Possible(sys, l, e)
  {
    var (sys', l') := Step(sys, l, e);
    if e.Returned? then Answer(sys, View(sys.disk, l), e.call, Reply(sys, l, e.call), View(sys'.disk, l'))
    else CrashOutcome(sys, l, e.call, e.k, View(sys'.disk, l'))
  }

  lemma EventExplained(sys: System, l: Layout, e: Event)
    requires Good(sys, l) && Possible(sys, l, e)
    ensures Explained(sys, l, e)
  {
    hide Wf, TableOf, FatOf, View, Answer, CrashOutcome, Effect, InFlight, NextLayout, AfterWrites, Reply, Allowed,
         IsFormatted, Harmless;
    if e.Returned? {
      CallKeepsInvariant(sys, l, e.call);
      CallSimulates(sys, l, e.call);
    } else {
      RestartIs(sys, l, e);
      CrashIsExact(sys, l, e.call, e.k, CrashLayout(sys, l, e.call, e.k));
    }
  }

  /** The system after a crash: the disk as far as it was written, and its own table. */
  lemma RestartIs(sys: System, l: Layout, e: Event)
    requires Good(sys, l) && Possible(sys, l, e) && e.Crashed?
    ensures WritesFit(sys.disk, Effect(sys, l, e.call).writes)
    ensures var d := AfterWrites(sys.disk, Effect(sys, l, e.call).writes, e.k);
            && Step(sys, l, e) == (System(FatOn(d), d), CrashLayout(sys, l, e.call, e.k))
            && Good(System(FatOn(d), d), CrashLayout(sys, l, e.call, e.k))
  {
    hide Wf, TableOf, FatOf, Effect, InFlight, NextLayout, AfterWrites, Allowed, Restarted, IsFormatted, Harmless;
    var l' := CrashKeepsInvariant(sys, l, e.call, e.k);
  }

  ghost predicate RunExplained(sys: System, l: Layout, events: seq<Event>)
    requires Good(sys, l) && PossibleRun(sys, l, events)
    decreases |events|
  {
    events != [] ==>
      && Explained(sys, l, events[0])
      && var (sys', l') := Step(sys, l, events[0]); RunExplained(sys', l', events[1..])
  }

  /** Refinement over whole runs: every run of calls and crashes is a run of the operations on the callers' map. */
  lemma {:induction false} RunSimulates(sys: System, l: Layout, events: seq<Event>)
    requires Good(sys, l) && PossibleRun(sys, l, events)
    ensures RunExplained(sys, l, events)
    decreases |events|
  {
    hide Good, Possible, Step, Explained;
    if events != [] {
      EventExplained(sys, l, events[0]);
      var (sys', l') := Step(sys, l, events[0]);
      RunSimulates(sys', l', events[1..]);
    }
  }

  // ---------- a directory's first two slots never change ----------

  ghost predicate HeadsSame(disk: Disk, d: Disk, dirs: set<Index>) {
    forall a | a in dirs :: TableOf(d[a])[0] == TableOf(disk[a])[0] && TableOf(d[a])[1] == TableOf(disk[a])[1]
  }

  lemma SameTablesSameHeads(disk: Disk, d: Disk, dirs: set<Index>)
    requires TablesOf(d, dirs) == TablesOf(disk, dirs)
    ensures HeadsSame(disk, d, dirs)
  {
    hide TableOf;
    forall a | a in dirs
      ensures TableOf(d[a]) == TableOf(disk[a])
    {
      assert TablesOf(d, dirs)[a] == TablesOf(disk, dirs)[a];
    }
  }

  /** Changing a slot from 2 on, adding a table or dropping one leaves the other heads alone. */
  lemma SlotKeepsHeads(disk: Disk, d: Disk, dirs: set<Index>, dirs': set<Index>, ts: Tables, s: Slot, e: Entry)
    requires s.dir in ts && s.pos >= 2
    requires forall a | a in dirs && a in dirs' :: a in ts && ts[a] == TableOf(disk[a])
    requires forall a | a in dirs' && a in ts :: TablesOf(d, dirs')[a] == SetSlot(ts, s, e)[a]
    ensures HeadsSame(disk, d, dirs * dirs')
  {
    hide TableOf;
    forall a | a in dirs * dirs'
      ensures TableOf(d[a])[0] == TableOf(disk[a])[0] && TableOf(d[a])[1] == TableOf(disk[a])[1]
    {
      assert TablesOf(d, dirs')[a] == TableOf(d[a]);
    }
  }

  lemma SlotFromTwo(fat: Fat, disk: Disk, l: Layout, req: Request, data: seq<byte>)
    requires Creates(fat, disk, l, req, data)
    ensures FreeSlot(TableOf(disk[req.parent]), 0) < SLOT_COUNT && NewSlot(disk, req).pos >= 2
    ensures NewSlot(disk, req).dir in l.depth
  {
    hide TableOf, FreeSlot, ExactSlot, Inv, MakeFile, MakeDirectory;
    InTables(disk, l.depth.Keys);
    var e := FileEntry(ZERO_ENTRY, req.name, req.ext, 0, 0);
    FreshSlot(fat, TablesOf(disk, l.depth.Keys), l, req.parent, req.name, req.ext, e);
  }

  lemma FileHeads(fat: Fat, disk: Disk, l: Layout, req: Request, data: seq<byte>, k: nat)
    requires Creates(fat, disk, l, req, data) && req.bufferSize > 0
    requires k <= |Write(fat, disk, req, data).writes| && WritesFit(disk, Write(fat, disk, req, data).writes)
    ensures HeadsSame(disk, AfterWrites(disk, Write(fat, disk, req, data).writes, k), l.depth.Keys)
  {
    hide TableOf, FatOf, FreeSlot, FileChain, Link, TablesOf, DataWrites, NewFileEntry, TableBytes, FatBytes, Write, Wf,
         SetSlot, HeadsSame;
    FileHeaderIs(fat, disk, l, req, data);
    FileHeaderApplied(fat, disk, l, req, data);
    SlotFromTwo(fat, disk, l, req, data);
    var writes, header, chain := Write(fat, disk, req, data).writes, FileHeader(fat, disk, req), FileChain(fat, req);
    var d := AfterWrites(disk, writes, k);
    InTables(disk, l.depth.Keys);
    if k == 0 {
      assert writes[..0] == [];
      SameTablesSameHeads(disk, d, l.depth.Keys);
    } else if k == 1 {
      assert writes[..1] == header[..1];
      SameTablesSameHeads(disk, d, l.depth.Keys);
    } else {
      DataWritesTargets(chain, data);
      assert writes[..k] == header + DataWrites(chain, data)[..k - 2];
      FileWritesElsewhere(fat, disk, l, req, data, k - 2);
      SlotKeepsHeads(disk, d, l.depth.Keys, l.depth.Keys, TablesOf(disk, l.depth.Keys), NewSlot(disk, req),
                     NewFileEntry(fat, disk, req));
      assert l.depth.Keys * l.depth.Keys == l.depth.Keys;
    }
  }

  lemma DirHeads(fat: Fat, disk: Disk, l: Layout, req: Request, data: seq<byte>, k: nat)
    requires Creates(fat, disk, l, req, data) && req.bufferSize == 0
    requires k <= |Write(fat, disk, req, data).writes| && WritesFit(disk, Write(fat, disk, req, data).writes)
    ensures HeadsSame(disk, AfterWrites(disk, Write(fat, disk, req, data).writes, k), l.depth.Keys)
  {
    hide TableOf, FatOf, FreeSlot, FreeClusters, SetSlot, TablesOf, NewDirEntry, TableBytes, FatBytes, Write, Wf,
         ChildTable, HeadsSame, DirHeader;
    DirPath(fat, disk, l, req, data);
    DirHeaderApplied(fat, disk, l, req, data);
    SlotFromTwo(fat, disk, l, req, data);
    var writes, header, c := Write(fat, disk, req, data).writes, DirHeader(fat, disk, req), FreeClusters(fat)[0];
    var d, ts, s := AfterWrites(disk, writes, k), TablesOf(disk, l.depth.Keys), NewSlot(disk, req);
    InTables(disk, l.depth.Keys);
    if k == 0 {
      assert writes[..0] == [];
      SameTablesSameHeads(disk, d, l.depth.Keys);
    } else if k == 1 {
      assert |header| == 2 by {
        DirHeaderLength(fat, disk, req);
      }
      assert writes[..1] == header[..1];
      SameTablesSameHeads(disk, d, l.depth.Keys);
    } else {
      DirHeaderLength(fat, disk, req);
      assert writes[..2] == header;
      var t := TableOf(disk[c]);
      var d2 := Apply(disk, header);
      SlotKeepsHeads(disk, d2, l.depth.Keys, l.depth.Keys + {c}, ts[c := t], s, NewDirEntry(fat, disk, req));
      assert l.depth.Keys * (l.depth.Keys + {c}) == l.depth.Keys;
      if k == 2 {
        assert d == d2;
      } else {
        assert writes[..3] == writes == header + [writes[2]];
        ApplyOne(disk, header, writes[2]);
        OneClusterKeepsHeads(disk, d2, l.depth.Keys, c, writes[2].data);
      }
    }
  }

  lemma DirHeaderLength(fat: Fat, disk: Disk, req: Request)
    requires req.parent < CLUSTER_MAP_SIZE && FreeSlot(TableOf(disk[req.parent]), 0) < SLOT_COUNT
    requires FreeClusters(fat) != []
    ensures |DirHeader(fat, disk, req)| == 2
  {
  }

  lemma OneClusterKeepsHeads(disk: Disk, d: Disk, dirs: set<Index>, c: Index, data: Cluster)
    requires HeadsSame(disk, d, dirs) && c !in dirs
    ensures HeadsSame(disk, d[c := data], dirs)
  {
    hide TableOf;
  }

  lemma DeleteHeads(fat: Fat, disk: Disk, l: Layout, req: Request, k: nat)
    requires Deletes(fat, disk, l, req)
    requires k <= |Delete(fat, disk, req).writes| && WritesFit(disk, Delete(fat, disk, req).writes)
    ensures MatchSlot(TableOf(disk[req.parent]), req.name, req.ext, 2) < SLOT_COUNT
    ensures Victim(disk, req) in l.chains
    ensures var s, d := Victim(disk, req), AfterWrites(disk, Delete(fat, disk, req).writes, k);
            HeadsSame(disk, d, if At(TablesOf(disk, l.depth.Keys), s).IsDir() && |l.chains[s]| == 1
                               then l.depth.Keys - {l.chains[s][0]} else l.depth.Keys)
  {
    hide TableOf, FatOf, MatchSlot, TablesOf, Delete, Release, TableBytes, FatBytes, At, SetSlot, AfterWrites, Wf,
         HeadsSame;
    DeletePath(fat, disk, l, req);
    var s, ts, writes := Victim(disk, req), TablesOf(disk, l.depth.Keys), Delete(fat, disk, req).writes;
    var d := AfterWrites(disk, writes, k);
    InTables(disk, l.depth.Keys);
    if k == 0 {
      assert d == disk by {
        assert writes[..0] == [];
        NothingApplied(disk, writes);
      }
      AlwaysSame(disk, if At(ts, s).IsDir() && |l.chains[s]| == 1
                       then l.depth.Keys - {l.chains[s][0]} else l.depth.Keys);
    } else {
      TablesAfterDelete(fat, disk, l, req, k);
      var dirs' := if At(ts, s).IsDir() then l.depth.Keys - {l.chains[s][0]} else l.depth.Keys;
      SetSlotKeys(ts, s, Blanked(At(ts, s)));
      SlotKeepsHeads(disk, d, l.depth.Keys, dirs', ts, s, Blanked(At(ts, s)));
      assert l.depth.Keys * dirs' == dirs';
    }
  }

  lemma AlwaysSame(disk: Disk, dirs: set<Index>)
    ensures HeadsSame(disk, disk, dirs)
  {
  }

  /** No call, finished or interrupted, changes the first two slots of a directory that is there before and after. */
  lemma HeadsAfter(sys: System, l: Layout, call: Call, k: nat, l': Layout)
    requires Good(sys, l) && Allowed(sys, l, call) && k <= |Effect(sys, l, call).writes|
    requires WritesFit(sys.disk, Effect(sys, l, call).writes)
    requires var d := AfterWrites(sys.disk, Effect(sys, l, call).writes, k); Wf(FatOn(d), d, l')
    ensures HeadsSame(sys.disk, AfterWrites(sys.disk, Effect(sys, l, call).writes, k), l.depth.Keys * l'.depth.Keys)
  {
    hide TableOf, FatOf, Wf, Write, Delete, Read, HitsLive, ReadSafe, FreeClusters, AfterWrites, HeadsSame,
         IsFormatted;
    var o, d := Effect(sys, l, call), AfterWrites(sys.disk, Effect(sys, l, call).writes, k);
    CallIsSafe(sys, l, call);
    if o.writes == [] {
      NoWritesNoCrash(sys.disk);
      AlwaysSame(sys.disk, l.depth.Keys * l'.depth.Keys);
    } else if call.Writing? {
      if o.code != 0 {
        FailedChangesNothing(sys, l, call);
      } else if call.req.bufferSize == 0 {
        DirHeads(sys.fat, sys.disk, l, call.req, call.data, k);
      } else {
        FileHeads(sys.fat, sys.disk, l, call.req, call.data, k);
      }
      FewerHeads(sys.disk, d, l.depth.Keys, l.depth.Keys * l'.depth.Keys);
    } else {
      DeletingHeads(sys, l, call, k, l');
    }
  }

  lemma FewerHeads(disk: Disk, d: Disk, dirs: set<Index>, dirs': set<Index>)
    requires HeadsSame(disk, d, dirs) && dirs' <= dirs
    ensures HeadsSame(disk, d, dirs')
  {
  }

  lemma DeletingHeads(sys: System, l: Layout, call: Call, k: nat, l': Layout)
    requires Good(sys, l) && Allowed(sys, l, call) && k <= |Effect(sys, l, call).writes| && call.Deleting?
    requires WritesFit(sys.disk, Effect(sys, l, call).writes) && Effect(sys, l, call).writes != []
    requires var d := AfterWrites(sys.disk, Effect(sys, l, call).writes, k); Wf(FatOn(d), d, l')
    ensures HeadsSame(sys.disk, AfterWrites(sys.disk, Effect(sys, l, call).writes, k), l.depth.Keys * l'.depth.Keys)
  {
    hide TableOf, FatOf, Wf, Delete, HeadsSame, MatchSlot, Detached, At, TablesOf, IsFormatted, HitsLive;
    CallIsSafe(sys, l, call);
    var fat, disk, req, o := sys.fat, sys.disk, call.req, Effect(sys, l, call);
    var d := AfterWrites(disk, o.writes, k);
    if o.code != 0 {
      FailedChangesNothing(sys, l, call);
    } else if k == 0 {
      NothingApplied(disk, o.writes);
      AlwaysSame(disk, l.depth.Keys * l'.depth.Keys);
    } else {
      DeleteHeads(fat, disk, l, req, k);
      var s := Victim(disk, req);
      if At(TablesOf(disk, l.depth.Keys), s).IsDir() {
        DirDeleteSteps(fat, disk, l, req);
        assert o.writes[..|o.writes|] == o.writes;
        LayoutUnique(FatOn(d), d, l', if k < 3 then DirDetached(l, s, l.chains[s][0]) else DirDeleted(l, s));
        FewerHeads(disk, d, l.depth.Keys - {l.chains[s][0]}, l.depth.Keys * l'.depth.Keys);
      } else {
        FewerHeads(disk, d, l.depth.Keys, l.depth.Keys * l'.depth.Keys);
      }
    }
  }

  // ---------- what a key is bound to lasts ----------

  /** The call is a deletion, and the entry that it takes is this key's. */
  ghost predicate Takes(sys: System, call: Call, k: Key) {
    && call.Deleting? && call.req.parent < CLUSTER_MAP_SIZE
    && (var t := TableOf(sys.disk[call.req.parent]);
        && t[0].IsDir() && MatchSlot(t, call.req.name, call.req.ext, 2) < SLOT_COUNT
        && FirstMatch(t, call.req) == k)
  }

  /** It is removed, too, unless it is a directory with entries. */
  ghost predicate Removes(sys: System, m: Files, call: Call, k: Key) {
    Takes(sys, call, k) && k in m && !(m[k].Directory? && KeysIn(m, m[k].cluster) != {})
  }

  /** A call removes a bound key if and only if it is a deletion that takes it; it never binds it to something else. */
  lemma CallRemovesIff(sys: System, l: Layout, call: Call, k: Key)
    requires Good(sys, l) && Allowed(sys, l, call) && Completes(sys, l, call) && k in View(sys.disk, l)
    ensures k !in MapAfter(sys, l, call) <==> Removes(sys, View(sys.disk, l), call, k)
    ensures k in MapAfter(sys, l, call) ==> MapAfter(sys, l, call)[k] == View(sys.disk, l)[k]
  {
    hide TableOf, FatOf, Wf, View, Effect, NextLayout, Coherent, Reply, KeysIn, IsFormatted, Allowed, StartsWith,
         Completes;
    CallKeepsInvariant(sys, l, call);
    CallSimulates(sys, l, call);
    if Takes(sys, call, k) {
      FirstMatchMatches(TableOf(sys.disk[call.req.parent]), call.req);
    }
  }

  ghost predicate Bound(sys: System, l: Layout, k: Key, node: Node) {
    && k.dir in l.depth && TableOf(sys.disk[k.dir])[0].IsDir()
    && k in View(sys.disk, l) && View(sys.disk, l)[k] == node
  }

  lemma BoundKeysDirectory(sys: System, l: Layout)
    requires Good(sys, l)
    ensures forall k | k in View(sys.disk, l) :: k.dir in l.depth
  {
    var ts := TablesOf(sys.disk, l.depth.Keys);
    DirectoriesKnown(sys.fat, ts, l);
    hide TableOf, Entered, Chained, Sized, Owned, Accounted, Headed, Homed, Ranked, FilesOf, NodeAt, At, IsFormatted;
    ViewBinds(sys.disk, ts, l.chains);
  }

  /** The event removes the key: a deletion that takes it, of which at least the first write has reached the disk. */
  ghost predicate EventRemoves(sys: System, l: Layout, e: Event, k: Key) {
    Removes(sys, View(sys.disk, l), e.call, k) && (e.Crashed? ==> e.k > 0)
  }

  /** One event, be it a call or a crash, removes a bound key exactly then, and otherwise leaves it bound to the same
      node. */
  lemma EventSparesIff(sys: System, l: Layout, e: Event, k: Key, node: Node)
    requires Good(sys, l) && Possible(sys, l, e) && Bound(sys, l, k, node)
    ensures var (sys', l') := Step(sys, l, e);
            && (k in View(sys'.disk, l') <==> !EventRemoves(sys, l, e, k))
            && (!EventRemoves(sys, l, e, k) ==>
                  Bound(sys', l', k, node) && HeadsSame(sys.disk, sys'.disk, {k.dir}))
  {
    hide TableOf, FatOf, Wf, View, HeadsSame, Effect, InFlight, NextLayout, Coherent, Reply, IsFormatted, Harmless,
         TornFile, AfterWrites, Allowed, CrashLayout, Restarted, Removes;
    EventView(sys, l, e, k);
    var (sys', l') := Step(sys, l, e);
    if !EventRemoves(sys, l, e, k) {
      EventHeads(sys, l, e);
      BoundKeysDirectory(sys', l');
      FewerHeads(sys.disk, sys'.disk, l.depth.Keys * l'.depth.Keys, {k.dir});
      HeadIs(sys.disk, sys'.disk, k.dir);
    }
  }

  lemma EventView(sys: System, l: Layout, e: Event, k: Key)
    requires Good(sys, l) && Possible(sys, l, e) && k in View(sys.disk, l)
    ensures var (sys', l') := Step(sys, l, e);
            && (k in View(sys'.disk, l') <==> !EventRemoves(sys, l, e, k))
            && (k in View(sys'.disk, l') ==> View(sys'.disk, l')[k] == View(sys.disk, l)[k])
  {
    hide TableOf, FatOf, Wf, View, Effect, InFlight, NextLayout, Coherent, Reply, IsFormatted, Harmless, TornFile,
         AfterWrites, Allowed, CrashLayout, Restarted, Removes;
    var (sys', l') := Step(sys, l, e);
    if e.Returned? {
      CallRemovesIff(sys, l, e.call, k);
    } else {
      RestartIs(sys, l, e);
      CrashIsExact(sys, l, e.call, e.k, l');
      OnlyDeletionsRemove(sys, View(sys.disk, l), e.call, k);
      if CreatesFile(e.call) && e.k >= 2 {
        TornFileFits(sys, l, e.call);
      } else if e.k >= 2 || (e.k == 1 && !e.call.Writing?) {
        FinishedInPart(sys, l, e.call, e.k);
        CallRemovesIff(sys, l, e.call, k);
      }
    }
  }

  lemma OnlyDeletionsRemove(sys: System, m: Files, call: Call, k: Key)
    ensures Removes(sys, m, call, k) ==> call.Deleting?
  {
    hide TableOf, KeysIn, MatchSlot;
  }

  /** Where k disk writes of a call decide what is found, all of them do no harm. */
  lemma FinishedInPart(sys: System, l: Layout, call: Call, k: nat)
    requires Good(sys, l) && Allowed(sys, l, call) && Harmless(sys, call, k)
    requires !call.Writing? || k >= 2 || call.req.bufferSize > 0
    ensures Completes(sys, l, call)
  {
    hide TableOf, FatOf, Wf, NoEntries, Initialised, FreeClusters, IsFormatted, Coherent, Write, Delete, Read;
    if call.Writing? && call.req.bufferSize == 0 {
      if Effect(sys, l, call).code != 0 {
        FailedChangesNothing(sys, l, call);
      } else {
        DirPath(sys.fat, sys.disk, l, call.req, call.data);
      }
    }
  }

  lemma EventHeads(sys: System, l: Layout, e: Event)
    requires Good(sys, l) && Possible(sys, l, e)
    ensures var (sys', l') := Step(sys, l, e); HeadsSame(sys.disk, sys'.disk, l.depth.Keys * l'.depth.Keys)
  {
    hide TableOf, FatOf, Wf, View, HeadsSame, Effect, InFlight, NextLayout, Coherent, IsFormatted, Harmless,
         AfterWrites, Allowed, CrashLayout, Restarted;
    var (sys', l') := Step(sys, l, e);
    var o := Effect(sys, l, e.call);
    if e.Returned? {
      CallKeepsInvariant(sys, l, e.call);
      EveryWrite(sys.disk, o.writes);
      CoherentMeans(sys', l');
      HeadsAfter(sys, l, e.call, |o.writes|, l');
    } else {
      RestartIs(sys, l, e);
      HeadsAfter(sys, l, e.call, e.k, l');
    }
  }

  lemma HeadIs(disk: Disk, d: Disk, a: Index)
    requires HeadsSame(disk, d, {a})
    ensures TableOf(d[a])[0] == TableOf(disk[a])[0] && TableOf(d[a])[1] == TableOf(disk[a])[1]
  {
    hide TableOf;
  }

  /** No event of the run removes the key. */
  ghost predicate NeverRemoved(sys: System, l: Layout, events: seq<Event>, k: Key)
    requires Good(sys, l) && PossibleRun(sys, l, events)
    decreases |events|
  {
    events != [] ==>
      && !EventRemoves(sys, l, events[0], k)
      && var (sys', l') := Step(sys, l, events[0]); NeverRemoved(sys', l', events[1..], k)
  }

  /** The key is bound to this node before, after and between the events of the run. */
  ghost predicate BoundThroughout(sys: System, l: Layout, events: seq<Event>, k: Key, node: Node)
    requires Good(sys, l) && PossibleRun(sys, l, events)
    decreases |events|
  {
    && Bound(sys, l, k, node)
    && (events != [] ==> var (sys', l') := Step(sys, l, events[0]); BoundThroughout(sys', l', events[1..], k, node))
  }

  /** Through a whole run, exactly: a key keeps its node throughout if and only if no event takes its entry. */
  lemma {:induction false} RunSparesIff(sys: System, l: Layout, events: seq<Event>, k: Key, node: Node)
    requires Good(sys, l) && PossibleRun(sys, l, events) && Bound(sys, l, k, node)
    ensures BoundThroughout(sys, l, events, k, node) <==> NeverRemoved(sys, l, events, k)
    ensures NeverRemoved(sys, l, events, k) ==>
              var (sys', l') := Run(sys, l, events);
              Bound(sys', l', k, node) && HeadsSame(sys.disk, sys'.disk, {k.dir})
    decreases |events|
  {
    hide Good, Possible, Step, EventRemoves;
    if events == [] {
      AlwaysSame(sys.disk, {k.dir});
    } else {
      var (sys', l') := Step(sys, l, events[0]);
      EventSparesIff(sys, l, events[0], k, node);
      if !EventRemoves(sys, l, events[0], k) {
        RunSparesIff(sys', l', events[1..], k, node);
        if NeverRemoved(sys', l', events[1..], k) {
          SameTwice(sys.disk, sys'.disk, Run(sys', l', events[1..]).0.disk, k.dir);
        }
      }
    }
  }

  lemma SameTwice(disk: Disk, d: Disk, d': Disk, a: Index)
    requires HeadsSame(disk, d, {a}) && HeadsSame(d, d', {a})
    ensures HeadsSame(disk, d', {a})
  {
    hide TableOf;
    HeadIs(disk, d, a);
    HeadIs(d, d', a);
  }

  /** In particular a key is never removed by deletions that do not match it by prefix. */
  lemma {:induction false} ApartIsKept(sys: System, l: Layout, events: seq<Event>, k: Key)
    requires Good(sys, l) && PossibleRun(sys, l, events)
    requires forall e | e in events && e.call.Deleting? :: !KeyMatches(k, e.call.req)
    ensures NeverRemoved(sys, l, events, k)
    decreases |events|
  {
    hide Good, Possible, Step, EventRemoves, KeyMatches;
    if events != [] {
      var (sys', l') := Step(sys, l, events[0]);
      assert events[0] in events && forall e | e in events[1..] :: e in events;
      if EventRemoves(sys, l, events[0], k) {
        TakenMatches(sys, l, events[0], k);
      }
      ApartIsKept(sys', l', events[1..], k);
    }
  }

  lemma TakenMatches(sys: System, l: Layout, e: Event, k: Key)
    requires EventRemoves(sys, l, e, k)
    ensures e.call.Deleting? && KeyMatches(k, e.call.req)
  {
    hide TableOf, View, KeysIn, KeyMatches, FirstMatch, MatchSlot;
    FirstMatchMatches(TableOf(sys.disk[e.call.req.parent]), e.call.req);
  }

  /** Round trip: what a successful file write was given is what a later read of the same key delivers, whatever calls
      and whatever crashes come in between, as long as none of them takes the file's entry, and unless the key is the
      directory's own. */
  lemma RoundTrip(sys: System, l: Layout, req: Request, data: seq<byte>, events: seq<Event>, size: u32)
    requires Good(sys, l) && Allowed(sys, l, Writing(req, data)) && req.bufferSize > 0
    requires Reply(sys, l, Writing(req, data)).code == 0
    requires !TableOf(sys.disk[req.parent])[0].HasKey(req.name, req.ext)
    requires var (sys1, l1) := Step(sys, l, Returned(Writing(req, data)));
             PossibleRun(sys1, l1, events) && NeverRemoved(sys1, l1, events, KeyOf(req))
    requires size >= req.bufferSize
    ensures req.bufferSize <= |data|
    ensures var (sys1, l1) := Step(sys, l, Returned(Writing(req, data)));
            var (sys2, l2) := Run(sys1, l1, events);
            var later := Reading(req.(bufferSize := size));
            && Good(sys2, l2) && Allowed(sys2, l2, later)
            && Reply(sys2, l2, later).code == 0
            && data[..req.bufferSize] <= Reply(sys2, l2, later).data
  {
    hide TableOf, FatOf, Wf, View, HeadsSame, Effect, InFlight, NextLayout, Coherent, PossibleRun, Run, IsFormatted,
         HitsLive, ReadSafe, NeverRemoved;
    var call, k := Writing(req, data), KeyOf(req);
    var (sys1, l1) := Step(sys, l, Returned(call));
    CallSimulates(sys, l, call);
    NotBlank(sys, l, req, data);
    var node := File(data[..req.bufferSize]);
    EventHeads(sys, l, Returned(call));
    BoundKeysDirectory(sys1, l1);
    FewerHeads(sys.disk, sys1.disk, l.depth.Keys * l1.depth.Keys, {k.dir});
    HeadIs(sys.disk, sys1.disk, k.dir);
    assert Bound(sys1, l1, k, node);
    RunSparesIff(sys1, l1, events, k, node);
    var (sys2, l2) := Run(sys1, l1, events);
    RunIsSafe(sys1, l1, events);
    HeadIs(sys1.disk, sys2.disk, k.dir);
    var later := Reading(req.(bufferSize := size));
    ReadIsSafe(sys2.fat, sys2.disk, l2, later.req);
    CallSimulates(sys2, l2, later);
  }

  /** Nothing is created under the blank key. */
  lemma NotBlank(sys: System, l: Layout, req: Request, data: seq<byte>)
    requires Good(sys, l) && Allowed(sys, l, Writing(req, data)) && Reply(sys, l, Writing(req, data)).code == 0
    ensures Nonblank(req)
  {
    hide TableOf, FatOf, Wf, View, Coherent, IsFormatted;
    WriteCode(sys.fat, sys.disk, l, req, data);
  }
}
