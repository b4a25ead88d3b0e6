/** Whole runs of driver calls, with and without crashes. */
module Runs {
  import opened Bytes
  import opened OnDisk
  import opened Chains
  import opened BlockDevice
  import opened Operations
  import opened Ownership
  import opened Safety

  /** The cached table and the disk. */
  datatype System = System(fat: Fat, disk: Disk)

  datatype Call =
    | Writing(req: Request, data: seq<byte>)
    | Deleting(req: Request)
    | Reading(req: Request)

  /** An entry slot in use never carries this key. */
  predicate Nonblank(req: Request) {
    req.name != NO_NAME || req.ext != NO_EXT
  }

  /** What the driver asks of a caller: the parent is a directory, the buffer is large enough, a deletion takes an entry
      that is in use, and a read does not follow a cluster number that heads no chain. */
  ghost predicate Allowed(sys: System, l: Layout, call: Call) {
    && call.req.parent in l.depth
    && (call.Writing? ==> Buffered(sys.fat, call.data, call.req.bufferSize))
    && (call.Deleting? ==> HitsLive(sys.disk, call.req))
    && (call.Reading? ==> ReadSafe(sys.disk, call.req))
  }

  /** A cluster whose bytes read as a table without entries, and not as a directory's. */
  ghost predicate Clean(t: Table) {
    NoEntries(t) && !t[0].IsDir()
  }

  ghost predicate CleanNext(sys: System) {
    FreeClusters(sys.fat) != [] ==> Clean(TableOf(sys.disk[FreeClusters(sys.fat)[0]]))
  }

  /** The first k disk writes of the call do no harm: a mkdir can, as it takes over the old table of the cluster that it
      reuses. */
  ghost predicate Harmless(sys: System, call: Call, k: nat) {
    call.Writing? && call.req.bufferSize == 0 && FreeClusters(sys.fat) != [] ==>
      Reusable(TableOf(sys.disk[FreeClusters(sys.fat)[0]]), FreeClusters(sys.fat)[0], call.req.parent, k)
  }

  /** A read of a key that is not blank is always such a read. */
  lemma ReadIsSafe(fat: Fat, disk: Disk, l: Layout, req: Request)
    requires Wf(fat, disk, l) && Coherent(fat, disk) && req.parent in l.depth && Nonblank(req)
    ensures ReadSafe(disk, req)
    ensures var t := TableOf(disk[req.parent]);
            var slot := ExactSlot(t, req.name, req.ext, 0);
            t[0].IsDir() && slot < SLOT_COUNT && !t[slot].IsDir() ==>
              && slot >= 2 && Slot(req.parent, slot) in l.chains
              && HeadsChain(fat, t[slot].Cluster())
              && ChainFrom(fat, t[slot].Cluster()) == l.chains[Slot(req.parent, slot)]
  {
    hide TableOf, FatOf, DistinctKeys, Sized, Owned, Accounted, Ranked;
    var t, ts := TableOf(disk[req.parent]), TablesOf(disk, l.depth.Keys);
    var slot := ExactSlot(t, req.name, req.ext, 0);
    if t[0].IsDir() && slot < SLOT_COUNT && !t[slot].IsDir() {
      assert Initialised(t, req.parent, Parent(l.home, req.parent));
      var s := Slot(req.parent, slot);
      assert At(ts, s) == t[slot] && !IsBlank(t[slot]);
      assert IsChain(fat, l.chains[s]) && l.chains[s][0] == t[slot].Cluster();
      ChainUnique(fat, ChainFrom(fat, t[slot].Cluster()), l.chains[s]);
    }
  }

  /** The calls of a well-formed coherent system are all within the driver's own preconditions. */
  lemma CallIsSafe(sys: System, l: Layout, call: Call)
    requires Wf(sys.fat, sys.disk, l) && Coherent(sys.fat, sys.disk) && Allowed(sys, l, call)
    ensures call.Deleting? ==> DeleteSafe(sys.fat, sys.disk, call.req)
    ensures call.Reading? ==> ReadSafe(sys.disk, call.req)
  {
    hide Wf;
    if call.Deleting? {
      DeleteIsSafe(sys.fat, sys.disk, l, call.req);
    }
  }

  ghost predicate Good(sys: System, l: Layout) {
    Wf(sys.fat, sys.disk, l) && Coherent(sys.fat, sys.disk) && IsFormatted(sys.disk)
  }

  /** The system that initialising the driver makes of a disk. */
  ghost function Restarted(disk: Disk): System {
    var (fat, d) := Boot(ZERO_FAT, disk);
    System(fat, d)
  }

  lemma RestartLoads(disk: Disk)
    requires IsFormatted(disk)
    ensures Restarted(disk) == System(FatOn(disk), disk)
  {
  }

  ghost function Effect(sys: System, l: Layout, call: Call): Outcome
    requires Good(sys, l) && Allowed(sys, l, call)
  {
    CallIsSafe(sys, l, call);
    match call
    case Writing(req, data) => Write(sys.fat, sys.disk, req, data)
    case Deleting(req) => Delete(sys.fat, sys.disk, req)
    case Reading(req) => var r := Read(sys.fat, sys.disk, req); Outcome(r.code, r.fat, [])
  }

  /** The layout after a call that returned, from the layout before it. */
  ghost function NextLayout(sys: System, l: Layout, call: Call): Layout
    requires Good(sys, l) && Allowed(sys, l, call)
  {
    CallIsSafe(sys, l, call);
    if Effect(sys, l, call).code != 0 || call.Reading? then l
    else if call.Writing? then
      if call.req.bufferSize == 0 then
        DirPath(sys.fat, sys.disk, l, call.req, call.data);
        NewDirLayout(sys.fat, sys.disk, l, call.req)
      else
        FilePath(sys.fat, sys.disk, l, call.req, call.data);
        FileLayout(sys.fat, sys.disk, l, call.req)
    else
      DeletePath(sys.fat, sys.disk, l, call.req);
      if At(TablesOf(sys.disk, l.depth.Keys), Victim(sys.disk, call.req)).IsDir()
      then DirDeleted(l, Victim(sys.disk, call.req))
      else FileDeleted(l, Victim(sys.disk, call.req))
  }

  lemma FailedChangesNothing(sys: System, l: Layout, call: Call)
    requires Good(sys, l) && Allowed(sys, l, call) && Effect(sys, l, call).code != 0
    ensures Effect(sys, l, call).writes == [] && Effect(sys, l, call).fat == sys.fat
  {
    hide Wf, TableOf, FatOf, Allowed, IsFormatted;
    CallIsSafe(sys, l, call);
  }

  /** A call that may return: all of its disk writes together do no harm. Only a mkdir that succeeds on a cluster with
      entries is not one. */
  ghost predicate Completes(sys: System, l: Layout, call: Call)
    requires Good(sys, l) && Allowed(sys, l, call)
  {
    Harmless(sys, call, |Effect(sys, l, call).writes|)
  }

  /** Every call that returns, whatever its code, keeps the invariant and cache coherence and leaks nothing. */
  lemma CallKeepsInvariant(sys: System, l: Layout, call: Call)
    requires Good(sys, l) && Allowed(sys, l, call) && Completes(sys, l, call)
    ensures var o, l' := Effect(sys, l, call), NextLayout(sys, l, call);
            && WritesFit(sys.disk, o.writes)
            && Good(System(o.fat, Apply(sys.disk, o.writes)), l')
            && l'.leaked == l.leaked
  {
    hide Wf, TableOf, FatOf, Coherent, NewDirLayout, FileLayout, DirDeleted, FileDeleted, Write, Delete, Read,
         HitsLive, MatchSlot, FreeClusters, IsFormatted, ReadSafe, Completes;
    CallIsSafe(sys, l, call);
    CallSparesBoot(sys, l, call);
    StillFormatted(sys.disk, Effect(sys, l, call).writes, 0);
    if Effect(sys, l, call).code != 0 {
      FailedChangesNothing(sys, l, call);
      ApplyNothing(sys.disk);
    } else if call.Reading? {
      ReadChangesNothing(sys, l, call);
      ApplyNothing(sys.disk);
    } else if call.Writing? {
      WritingDone(sys, l, call);
    } else {
      DeletingDone(sys, l, call);
    }
  }

  /** No call writes to the boot sector's cluster. */
  lemma CallSparesBoot(sys: System, l: Layout, call: Call)
    requires Good(sys, l) && Allowed(sys, l, call)
    ensures WritesFit(sys.disk, Effect(sys, l, call).writes)
    ensures forall w | w in Effect(sys, l, call).writes :: w.cluster != BOOT_CLUSTER
  {
    hide Wf, TableOf, FatOf, Coherent, Write, Delete, Read, HitsLive, IsFormatted, NewDirLayout, FileLayout,
         FreeClusters, FreeSlot, MatchSlot, ReadSafe;
    CallIsSafe(sys, l, call);
    if Effect(sys, l, call).code != 0 {
      FailedChangesNothing(sys, l, call);
    } else if call.Writing? {
      CreationFits(sys.fat, sys.disk, l, call.req, call.data);
      CreationSparesBoot(sys.fat, sys.disk, l, call.req, call.data);
    } else if call.Deleting? {
      DeletingDone(sys, l, call);
      DeletionSparesBoot(sys.fat, sys.disk, l, call.req);
    }
  }

  lemma ApplyNothing(disk: Disk)
    ensures Apply(disk, []) == disk
  {
  }

  lemma ReadChangesNothing(sys: System, l: Layout, call: Call)
    requires Good(sys, l) && Allowed(sys, l, call) && call.Reading?
    ensures Effect(sys, l, call).writes == [] && Effect(sys, l, call).fat == sys.fat
  {
    hide Wf, TableOf, FatOf, Allowed, IsFormatted;
    CallIsSafe(sys, l, call);
  }

  lemma WritingDone(sys: System, l: Layout, call: Call)
    requires Good(sys, l) && Allowed(sys, l, call) && Completes(sys, l, call)
    requires call.Writing? && Effect(sys, l, call).code == 0
    ensures var o, l' := Effect(sys, l, call), NextLayout(sys, l, call);
            && WritesFit(sys.disk, o.writes)
            && Wf(o.fat, Apply(sys.disk, o.writes), l') && Coherent(o.fat, Apply(sys.disk, o.writes))
            && l'.leaked == l.leaked
  {
    hide Wf, TableOf, FatOf, Coherent, IsFormatted, NewDirLayout, FileLayout, Write, FreeClusters, NoEntries;
    if call.req.bufferSize == 0 {
      DirPath(sys.fat, sys.disk, l, call.req, call.data);
      DirDone(sys.fat, sys.disk, l, call.req, call.data);
    } else {
      FileDone(sys.fat, sys.disk, l, call.req, call.data);
    }
  }

  lemma DeletingDone(sys: System, l: Layout, call: Call)
    requires Good(sys, l) && Allowed(sys, l, call) && call.Deleting? && Effect(sys, l, call).code == 0
    ensures var o, l' := Effect(sys, l, call), NextLayout(sys, l, call);
            && WritesFit(sys.disk, o.writes)
            && Wf(o.fat, Apply(sys.disk, o.writes), l') && Coherent(o.fat, Apply(sys.disk, o.writes))
            && l'.leaked == l.leaked
  {
    hide Wf, TableOf, FatOf, Coherent, IsFormatted, Delete, MatchSlot, Detached, DirDetached;
    CallIsSafe(sys, l, call);
    DeletePath(sys.fat, sys.disk, l, call.req);
    if At(TablesOf(sys.disk, l.depth.Keys), Victim(sys.disk, call.req)).IsDir() {
      DirDeleteSteps(sys.fat, sys.disk, l, call.req);
    } else {
      FileDeleteSteps(sys.fat, sys.disk, l, call.req);
    }
  }

  lemma CallInFlight(sys: System, l: Layout, call: Call)
    requires Good(sys, l) && Allowed(sys, l, call) && Effect(sys, l, call).writes != []
    ensures call.Writing? || call.Deleting?
    ensures call.Writing? && call.req.bufferSize == 0 ==> FreeClusters(sys.fat) != []
    ensures call.Deleting? ==>
              && MatchSlot(TableOf(sys.disk[call.req.parent]), call.req.name, call.req.ext, 2) < SLOT_COUNT
              && Victim(sys.disk, call.req) in l.chains
  {
    hide Wf, TableOf, FatOf, Write, Delete, MatchSlot, FreeClusters, HitsLive, Coherent, IsFormatted, ReadSafe;
    CallIsSafe(sys, l, call);
    if Effect(sys, l, call).code != 0 {
      FailedChangesNothing(sys, l, call);
    } else if call.Deleting? {
      DeletePath(sys.fat, sys.disk, l, call.req);
    } else if call.Writing? && call.req.bufferSize == 0 {
      DirPath(sys.fat, sys.disk, l, call.req, call.data);
    }
  }

  /** The clusters of the operation in flight. */
  ghost function InFlight(sys: System, l: Layout, call: Call): set<Index>
    requires Good(sys, l) && Allowed(sys, l, call) && Effect(sys, l, call).writes != []
  {
    CallInFlight(sys, l, call);
    if call.Deleting? then set c | c in l.chains[Victim(sys.disk, call.req)]
    else if call.req.bufferSize == 0 then {FreeClusters(sys.fat)[0]}
    else set c | c in FileChain(sys.fat, call.req)
  }

  /** Crash safety: whichever prefix of a call's disk writes has reached the disk, the driver that boots from it finds
      every live entry heading a well-formed chain of its own, and only clusters of the call in flight have leaked. */
  lemma CrashKeepsInvariant(sys: System, l: Layout, call: Call, k: nat) returns (l': Layout)
    requires Good(sys, l) && Allowed(sys, l, call)
    requires k <= |Effect(sys, l, call).writes| && Harmless(sys, call, k)
    ensures WritesFit(sys.disk, Effect(sys, l, call).writes)
    ensures var d := AfterWrites(sys.disk, Effect(sys, l, call).writes, k);
            && Restarted(d) == System(FatOn(d), d) && Good(Restarted(d), l')
            && l.leaked <= l'.leaked
            && (Effect(sys, l, call).writes == [] ==> l' == l)
            && (Effect(sys, l, call).writes != [] ==> l'.leaked <= l.leaked + InFlight(sys, l, call))
  {
    hide Wf, TableOf, FatOf, NewDirLayout, FileLayout, DirDeleted, FileDeleted, Write, Delete, Read, HitsLive,
         MatchSlot, FreeClusters, InFlight, AfterWrites, NextLayout, IsFormatted, Restarted, Harmless, ReadSafe;
    var o := Effect(sys, l, call);
    CallSparesBoot(sys, l, call);
    StillFormatted(sys.disk, o.writes, k);
    RestartLoads(AfterWrites(sys.disk, o.writes, k));
    if o.writes == [] {
      NoWritesNoCrash(sys.disk);
      l' := l;
    } else if call.Writing? {
      l' := WritingCrash(sys, l, call, k);
    } else {
      l' := DeletingCrash(sys, l, call, k);
    }
  }

  lemma NoWritesNoCrash(disk: Disk)
    ensures AfterWrites(disk, [], 0) == disk
  {
  }

  lemma WritingCrash(sys: System, l: Layout, call: Call, k: nat) returns (l': Layout)
    requires Good(sys, l) && Allowed(sys, l, call) && call.Writing?
    requires Effect(sys, l, call).writes != [] && k <= |Effect(sys, l, call).writes|
    requires WritesFit(sys.disk, Effect(sys, l, call).writes) && Harmless(sys, call, k)
    ensures var d := AfterWrites(sys.disk, Effect(sys, l, call).writes, k);
            && Wf(FatOn(d), d, l') && l.leaked <= l'.leaked <= l.leaked + InFlight(sys, l, call)
  {
    hide Wf, TableOf, FatOf, IsFormatted, Write, FreeClusters, NoEntries, AfterWrites, FileChain;
    if Effect(sys, l, call).code != 0 {
      FailedChangesNothing(sys, l, call);
    } else if call.req.bufferSize == 0 {
      DirPath(sys.fat, sys.disk, l, call.req, call.data);
      DirCrash(sys.fat, sys.disk, l, call.req, call.data, k);
      hide NewDirLayout;
      l' := if k == 0 then l else if k == 1 then Reserved(l, [FreeClusters(sys.fat)[0]])
            else NewDirLayout(sys.fat, sys.disk, l, call.req);
      NewDirLeaks(sys.fat, sys.disk, l, call.req, call.data);
    } else {
      FileDone(sys.fat, sys.disk, l, call.req, call.data);
      FileCrash(sys.fat, sys.disk, l, call.req, call.data, k);
      hide FileLayout;
      l' := if k == 0 then l else if k == 1 then Reserved(l, FileChain(sys.fat, call.req))
            else FileLayout(sys.fat, sys.disk, l, call.req);
    }
  }

  lemma NewDirLeaks(fat: Fat, disk: Disk, l: Layout, req: Request, data: seq<byte>)
    requires Creates(fat, disk, l, req, data) && req.bufferSize == 0
    ensures FreeSlot(TableOf(disk[req.parent]), 0) < SLOT_COUNT && FreeClusters(fat) != []
    ensures NewDirLayout(fat, disk, l, req).leaked == l.leaked
  {
    hide TableOf, FatOf, FreeSlot, FreeClusters, Write, Inv;
    DirPath(fat, disk, l, req, data);
    FreeIsUnaccounted(fat, TablesOf(disk, l.depth.Keys), l, FreeClusters(fat)[0]);
  }

  lemma DeletingCrash(sys: System, l: Layout, call: Call, k: nat) returns (l': Layout)
    requires Good(sys, l) && Allowed(sys, l, call) && call.Deleting?
    requires Effect(sys, l, call).writes != [] && k <= |Effect(sys, l, call).writes|
    requires WritesFit(sys.disk, Effect(sys, l, call).writes)
    ensures var d := AfterWrites(sys.disk, Effect(sys, l, call).writes, k);
            && Wf(FatOn(d), d, l') && l.leaked <= l'.leaked <= l.leaked + InFlight(sys, l, call)
  {
    hide Wf, TableOf, FatOf, IsFormatted, Delete, MatchSlot;
    CallIsSafe(sys, l, call);
    var o := Effect(sys, l, call);
    if o.code != 0 {
      FailedChangesNothing(sys, l, call);
    } else {
      DeletePath(sys.fat, sys.disk, l, call.req);
      var s := Victim(sys.disk, call.req);
      assert o.writes[..|o.writes|] == o.writes && o.writes[..0] == [];
      if At(TablesOf(sys.disk, l.depth.Keys), s).IsDir() {
        DirDeleteSteps(sys.fat, sys.disk, l, call.req);
        l' := if k == 0 then l else if k < 3 then DirDetached(l, s, l.chains[s][0]) else DirDeleted(l, s);
      } else {
        FileDeleteSteps(sys.fat, sys.disk, l, call.req);
        l' := if k == 0 then l else if k == 1 then Detached(l, s) else FileDeleted(l, s);
      }
    }
  }

  // ---------- whole runs ----------

  /** A call that returned, or a power failure after its first k disk writes followed by a restart, in which the driver
      is initialised from the disk. */
  datatype Event = Returned(call: Call) | Crashed(call: Call, k: nat)

  ghost predicate CrashLayoutFits(sys: System, l: Layout, call: Call, k: nat, l': Layout)
    requires Good(sys, l) && Allowed(sys, l, call) && k <= |Effect(sys, l, call).writes|
  {
    && WritesFit(sys.disk, Effect(sys, l, call).writes)
    && Good(Restarted(AfterWrites(sys.disk, Effect(sys, l, call).writes, k)), l')
    && l.leaked <= l'.leaked
    && (Effect(sys, l, call).writes == [] ==> l' == l)
    && (Effect(sys, l, call).writes != [] ==> l'.leaked <= l.leaked + InFlight(sys, l, call))
  }

  ghost function CrashLayout(sys: System, l: Layout, call: Call, k: nat): (l': Layout)
    requires Good(sys, l) && Allowed(sys, l, call)
    requires k <= |Effect(sys, l, call).writes| && Harmless(sys, call, k)
    ensures CrashLayoutFits(sys, l, call, k, l')
  {
    CrashLayoutExists(sys, l, call, k);
    var l' :| CrashLayoutFits(sys, l, call, k, l');
    l'
  }

  lemma CrashLayoutExists(sys: System, l: Layout, call: Call, k: nat)
    requires Good(sys, l) && Allowed(sys, l, call)
    requires k <= |Effect(sys, l, call).writes| && Harmless(sys, call, k)
    ensures exists l' :: CrashLayoutFits(sys, l, call, k, l')
  {
    hide Good, Allowed, Effect, AfterWrites, InFlight, Restarted, Harmless;
    var l' := CrashKeepsInvariant(sys, l, call, k);
    assert CrashLayoutFits(sys, l, call, k, l');
  }

  /** How many of the call's disk writes reach the disk. */
  ghost function Reached(sys: System, l: Layout, e: Event): nat
    requires Good(sys, l) && Allowed(sys, l, e.call)
  {
    if e.Crashed? then e.k else |Effect(sys, l, e.call).writes|
  }

  ghost predicate Possible(sys: System, l: Layout, e: Event)
    requires Good(sys, l)
  {
    && Allowed(sys, l, e.call)
    && Reached(sys, l, e) <= |Effect(sys, l, e.call).writes| && Harmless(sys, e.call, Reached(sys, l, e))
  }

  /** One event: the system after it, with a layout that fits. */
  ghost function Step(sys: System, l: Layout, e: Event): (r: (System, Layout))
    requires Good(sys, l) && Possible(sys, l, e)
    ensures Good(r.0, r.1) && l.leaked <= r.1.leaked <= l.leaked + Lost(sys, l, e)
  {
    CallSparesBoot(sys, l, e.call);
    var o := Effect(sys, l, e.call);
    if e.Returned? then
      CallKeepsInvariant(sys, l, e.call);
      (System(o.fat, Apply(sys.disk, o.writes)), NextLayout(sys, l, e.call))
    else (Restarted(AfterWrites(sys.disk, o.writes, e.k)), CrashLayout(sys, l, e.call, e.k))
  }

  /** What an event may leak: nothing, unless it is a crash. */
  ghost function Lost(sys: System, l: Layout, e: Event): set<Index>
    requires Good(sys, l) && Possible(sys, l, e)
  {
    if e.Crashed? && Effect(sys, l, e.call).writes != [] then InFlight(sys, l, e.call) else {}
  }

  /** Every event of the run is possible when its turn comes. */
  ghost predicate PossibleRun(sys: System, l: Layout, events: seq<Event>)
    requires Good(sys, l)
    decreases |events|
  {
    events != [] ==>
      && Possible(sys, l, events[0])
      && var (sys', l') := Step(sys, l, events[0]); PossibleRun(sys', l', events[1..])
  }

  ghost function Run(sys: System, l: Layout, events: seq<Event>): (System, Layout)
    requires Good(sys, l) && PossibleRun(sys, l, events)
    decreases |events|
  {
    if events == [] then (sys, l)
    else var (sys', l') := Step(sys, l, events[0]); Run(sys', l', events[1..])
  }

  /** Everything the crashes of a run may have leaked. */
  ghost function LostInRun(sys: System, l: Layout, events: seq<Event>): set<Index>
    requires Good(sys, l) && PossibleRun(sys, l, events)
    decreases |events|
  {
    if events == [] then {}
    else var (sys', l') := Step(sys, l, events[0]); Lost(sys, l, events[0]) + LostInRun(sys', l', events[1..])
  }

  /** Safety over whole runs: after any sequence of calls and crashes the system is well formed and coherent, and only
      what was in flight at a crash has leaked. */
  lemma {:induction false} RunIsSafe(sys: System, l: Layout, events: seq<Event>)
    requires Good(sys, l) && PossibleRun(sys, l, events)
    ensures var (sys', l') := Run(sys, l, events);
            Good(sys', l') && l.leaked <= l'.leaked <= l.leaked + LostInRun(sys, l, events)
    decreases |events|
  {
    hide Good, Possible, Step, Lost;
    if events != [] {
      var (sys', l') := Step(sys, l, events[0]);
      RunIsSafe(sys', l', events[1..]);
    }
  }

  lemma {:induction false} NothingLostWithoutCrash(sys: System, l: Layout, events: seq<Event>)
    requires Good(sys, l) && PossibleRun(sys, l, events) && forall e | e in events :: e.Returned?
    ensures LostInRun(sys, l, events) == {}
    decreases |events|
  {
    hide Good, Possible, Step;
    if events != [] {
      var (sys', l') := Step(sys, l, events[0]);
      assert events[0] in events && forall e | e in events[1..] :: e in events;
      NothingLostWithoutCrash(sys', l', events[1..]);
    }
  }

  /** Exact ownership: after any crash-free run from a system without leaks, the used clusters are the three reserved
      ones and the clusters of the live entries' chains; each chain is acyclic and no two of them meet. */
  lemma ExactOwnership(sys: System, l: Layout, events: seq<Event>)
    requires Good(sys, l) && PossibleRun(sys, l, events) && l.leaked == {}
    requires forall e | e in events :: e.Returned?
    ensures var (sys', l') := Run(sys, l, events);
            && (forall c: Index :: sys'.fat[c] != EMPTY_ENTRY <==>
                  c <= ROOT_CLUSTER || exists s :: s in l'.chains && c in l'.chains[s])
            && (forall s | s in l'.chains :: IsChain(sys'.fat, l'.chains[s]) && Distinct(l'.chains[s]))
            && (forall s, r, c: Index | s in l'.chains && r in l'.chains && s != r && c in l'.chains[s] ::
                  c !in l'.chains[r])
            && (forall s, c: Index | s in l'.chains && c in l'.chains[s] :: c > ROOT_CLUSTER)
            && (forall d: Index, i: Position | d in l'.depth && i >= 2 ::
                  Slot(d, i) in l'.chains <==> TableOf(sys'.disk[d])[i].Live())
  {
    hide TableOf, Run, PossibleRun, LostInRun;
    RunIsSafe(sys, l, events);
    NothingLostWithoutCrash(sys, l, events);
    var (sys', l') := Run(sys, l, events);
    OwnershipOfGood(sys', l');
  }

  /** After any run of calls and crashes every directory's entry has 0 as its size, and every file's no more than its
      chain holds. */
  lemma SizesInRuns(sys: System, l: Layout, events: seq<Event>)
    requires Good(sys, l) && PossibleRun(sys, l, events)
    ensures var (sys', l') := Run(sys, l, events);
            forall d: Index, i: Position | d in l'.depth && i >= 2 && TableOf(sys'.disk[d])[i].Live() ::
              var e := TableOf(sys'.disk[d])[i];
              Slot(d, i) in l'.chains
              && if e.IsDir() then e.filesize == 0 else e.filesize <= 2048 * |l'.chains[Slot(d, i)]|
  {
    hide TableOf, Run, PossibleRun, LostInRun;
    RunIsSafe(sys, l, events);
    var (sys', l') := Run(sys, l, events);
    SizesFit(sys'.fat, sys'.disk, l');
  }

  lemma SizesFit(fat: Fat, disk: Disk, l: Layout)
    requires Wf(fat, disk, l)
    ensures forall d: Index, i: Position | d in l.depth && i >= 2 && TableOf(disk[d])[i].Live() ::
              Slot(d, i) in l.chains && SizeFits(TableOf(disk[d])[i], l.chains[Slot(d, i)])
  {
    hide TableOf, Chained, DistinctKeys, Headed, Owned, Accounted, Homed, Ranked;
    var ts := TablesOf(disk, l.depth.Keys);
    forall d: Index, i: Position | d in l.depth && i >= 2 && TableOf(disk[d])[i].Live()
      ensures Slot(d, i) in l.chains && SizeFits(TableOf(disk[d])[i], l.chains[Slot(d, i)])
    {
      assert At(ts, Slot(d, i)) == TableOf(disk[d])[i];
    }
  }

  lemma OwnershipOfGood(sys: System, l: Layout)
    requires Good(sys, l) && l.leaked == {}
    ensures forall c: Index :: sys.fat[c] != EMPTY_ENTRY <==>
              c <= ROOT_CLUSTER || exists s :: s in l.chains && c in l.chains[s]
    ensures forall s | s in l.chains :: IsChain(sys.fat, l.chains[s]) && Distinct(l.chains[s])
    ensures forall s, r, c: Index | s in l.chains && r in l.chains && s != r && c in l.chains[s] :: c !in l.chains[r]
    ensures forall s, c: Index | s in l.chains && c in l.chains[s] :: c > ROOT_CLUSTER
    ensures forall d: Index, i: Position | d in l.depth && i >= 2 ::
              Slot(d, i) in l.chains <==> TableOf(sys.disk[d])[i].Live()
  {
    hide TableOf, Headed, DistinctKeys, Sized, Ranked, IsChain, Coherent;
    forall s | s in l.chains
      ensures Distinct(l.chains[s])
    {
      ChainAcyclic(sys.fat, l.chains[s]);
    }
    hide Distinct;
    var ts := TablesOf(sys.disk, l.depth.Keys);
    ChainsOwnTheirClusters(sys.fat, ts, l);
    DirectoriesKnown(sys.fat, ts, l);
    hide Owned, Accounted;
    forall d: Index, i: Position | d in l.depth && i >= 2
      ensures Slot(d, i) in l.chains <==> TableOf(sys.disk[d])[i].Live()
    {
      assert At(ts, Slot(d, i)) == TableOf(sys.disk[d])[i];
    }
  }
}
