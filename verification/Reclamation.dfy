/** Deleting the file that was just written gives the allocation table back as it was, but not the bytes: what that
    means for the next directory. */
module Reclamation {
  import opened Bytes
  import opened OnDisk
  import opened Chains
  import opened BlockDevice
  import opened Operations
  import opened Ownership
  import opened Safety
  import opened Runs
  import opened Refinement
  import opened Answers
  import opened Persistence
  import opened CleanClusters

  ghost function Written(fat: Fat, disk: Disk, l: Layout, req: Request, data: seq<byte>): (r: System)
    requires Creates(fat, disk, l, req, data) && req.bufferSize > 0
  {
    FileDone(fat, disk, l, req, data);
    System(Write(fat, disk, req, data).fat, Apply(disk, Write(fat, disk, req, data).writes))
  }

  /** An entry that a deletion of this name would come upon before the new one. */
  ghost predicate Shadowed(t: Table, req: Request, slot: nat)
    requires slot <= SLOT_COUNT
  {
    exists i | 2 <= i < slot :: Matches(t[i], req.name, req.ext)
  }

  /** The parent's table after a file write, and the chain of the new entry. */
  lemma WrittenSlot(fat: Fat, disk: Disk, l: Layout, req: Request, data: seq<byte>)
    requires Creates(fat, disk, l, req, data) && req.bufferSize > 0
    ensures FreeSlot(TableOf(disk[req.parent]), 0) < SLOT_COUNT && NewSlot(disk, req).pos >= 2
    ensures FileChain(fat, req) != []
    ensures var sys, s := Written(fat, disk, l, req, data), NewSlot(disk, req);
            && sys.fat == Link(fat, FileChain(fat, req))
            && FileLayout(fat, disk, l, req).chains == l.chains[s := FileChain(fat, req)]
            && FileLayout(fat, disk, l, req).depth == l.depth
            && TableOf(sys.disk[req.parent]) == TableOf(disk[req.parent])[s.pos := NewFileEntry(fat, disk, req)]
  {
    hide TableOf, FatOf, FreeSlot, FileChain, Link, SetSlot, TablesOf, DataWrites, NewFileEntry, Inv, FileHeader, Write;
    FilePath(fat, disk, l, req, data);
    SlotFromTwo(fat, disk, l, req, data);
    FileWritesElsewhere(fat, disk, l, req, data, |FileChain(fat, req)|);
    FileHeaderIs(fat, disk, l, req, data);
    var rest := DataWrites(FileChain(fat, req), data);
    assert rest[..|rest|] == rest;
    var sys, s := Written(fat, disk, l, req, data), NewSlot(disk, req);
    InTables(disk, l.depth.Keys);
    InTables(sys.disk, l.depth.Keys);
    TableAfterSetSlot(TablesOf(disk, l.depth.Keys), s, NewFileEntry(fat, disk, req));
  }

  lemma TableAfterSetSlot(ts: Tables, s: Slot, e: Entry)
    requires s.dir in ts
    ensures SetSlot(ts, s, e)[s.dir] == ts[s.dir][s.pos := e]
    ensures forall d | d in ts && d != s.dir :: SetSlot(ts, s, e)[d] == ts[d]
  {
  }

  lemma NewEntryHasKey(fat: Fat, disk: Disk, req: Request)
    requires req.parent < CLUSTER_MAP_SIZE && FreeSlot(TableOf(disk[req.parent]), 0) < SLOT_COUNT
    requires req.bufferSize > 0 && FileChain(fat, req) != []
    ensures NewFileEntry(fat, disk, req).HasKey(req.name, req.ext)
  {
    hide TableOf, FreeSlot, FileChain;
  }

  /** Which slot a deletion of the new file's name picks. */
  lemma PickedSlot(t: Table, slot: nat, e: Entry, req: Request)
    requires 2 <= slot < SLOT_COUNT && e.HasKey(req.name, req.ext)
    ensures var picked := MatchSlot(t[slot := e], req.name, req.ext, 2);
            && picked <= slot
            && (picked == slot <==> !Shadowed(t, req, slot))
  {
    StartsWithItself(req.name);
    hide StartsWith;
    var t' := t[slot := e];
    assert Matches(t'[slot], req.name, req.ext);
    assert forall i | 2 <= i < slot :: t'[i] == t[i];
  }

  /** Write then delete is the identity on the allocation table, if and only if the deletion does not come upon
      another matching entry first. */
  lemma WriteThenDelete(fat: Fat, disk: Disk, l: Layout, req: Request, data: seq<byte>)
    requires Creates(fat, disk, l, req, data) && req.bufferSize > 0 && Named(req)
    ensures FreeSlot(TableOf(disk[req.parent]), 0) < SLOT_COUNT
    ensures var sys := Written(fat, disk, l, req, data); DeleteSafe(sys.fat, sys.disk, req)
    ensures var sys, slot := Written(fat, disk, l, req, data), NewSlot(disk, req).pos;
            var o := Delete(sys.fat, sys.disk, req);
            && WritesFit(sys.disk, o.writes)
            && (o.fat == fat <==> !Shadowed(TableOf(disk[req.parent]), req, slot))
            && (o.fat == fat ==>
                  && o.code == 0 && FatOn(Apply(sys.disk, o.writes)) == fat
                  && MatchSlot(TableOf(sys.disk[req.parent]), req.name, req.ext, 2) == slot
                  && Deletes(sys.fat, sys.disk, FileLayout(fat, disk, l, req), req))
  {
    hide TableOf, FatOf, FreeSlot, FileChain, Link, DataWrites, NewFileEntry, Inv, Write, Delete, Written, Shadowed,
         MatchSlot, FileLayout, Release, TablesOf;
    WrittenSlot(fat, disk, l, req, data);
    WrittenIsGood(fat, disk, l, req, data);
    NewEntryHasKey(fat, disk, req);
    var sys, s, l' := Written(fat, disk, l, req, data), NewSlot(disk, req), FileLayout(fat, disk, l, req);
    var t, chain := TableOf(disk[req.parent]), FileChain(fat, req);
    PickedSlot(t, s.pos, NewFileEntry(fat, disk, req), req);
    DeleteIsSafe(sys.fat, sys.disk, l', req);
    var o := Delete(sys.fat, sys.disk, req);
    if MatchSlot(TableOf(sys.disk[req.parent]), req.name, req.ext, 2) == s.pos {
      NewVictim(fat, disk, l, req, data);
    } else {
      OtherVictim(fat, disk, l, req, data);
    }
  }

  lemma WrittenIsGood(fat: Fat, disk: Disk, l: Layout, req: Request, data: seq<byte>)
    requires Creates(fat, disk, l, req, data) && req.bufferSize > 0
    ensures FreeSlot(TableOf(disk[req.parent]), 0) < SLOT_COUNT
    ensures var sys, l' := Written(fat, disk, l, req, data), FileLayout(fat, disk, l, req);
            && Wf(sys.fat, sys.disk, l') && Coherent(sys.fat, sys.disk) && (IsFormatted(disk) ==> Good(sys, l'))
            && req.parent in l'.depth && (Named(req) ==> HitsLive(sys.disk, req))
  {
    hide TableOf, FatOf, FreeSlot, FileChain, Inv, Write, IsFormatted, HitsLive;
    FileDone(fat, disk, l, req, data);
    CreationSparesBoot(fat, disk, l, req, data);
    StillFormatted(disk, Write(fat, disk, req, data).writes, 0);
    var sys, l' := Written(fat, disk, l, req, data), FileLayout(fat, disk, l, req);
    if Named(req) {
      NamedHitsLive(sys.fat, sys.disk, l', req);
    }
  }

  /** A deletion with a matching entry in an initialised directory gets a code of 0 or 2. */
  lemma DeleteOutcome(fat: Fat, disk: Disk, l: Layout, req: Request)
    requires Wf(fat, disk, l) && req.parent in l.depth && HitsLive(disk, req) && DeleteSafe(fat, disk, req)
    requires TableOf(disk[req.parent])[0].IsDir()
    requires MatchSlot(TableOf(disk[req.parent]), req.name, req.ext, 2) < SLOT_COUNT
    ensures var o, t := Delete(fat, disk, req), TableOf(disk[req.parent]);
            && (!t[MatchSlot(t, req.name, req.ext, 2)].IsDir() ==> Deletes(fat, disk, l, req))
            && (o.code == 0 ==> Deletes(fat, disk, l, req))
            && (o.code != 0 ==> o.fat == fat && o.writes == [])
  {
    hide TableOf, Wf, MatchSlot, Release, ChainFrom, TableBytes, FatBytes, NoLiveChild, HitsLive;
  }

  lemma NewVictim(fat: Fat, disk: Disk, l: Layout, req: Request, data: seq<byte>)
    requires Creates(fat, disk, l, req, data) && req.bufferSize > 0 && Named(req)
    requires FreeSlot(TableOf(disk[req.parent]), 0) < SLOT_COUNT
    requires MatchSlot(TableOf(Written(fat, disk, l, req, data).disk[req.parent]), req.name, req.ext, 2)
             == NewSlot(disk, req).pos
    ensures var sys := Written(fat, disk, l, req, data);
            && DeleteSafe(sys.fat, sys.disk, req) && WritesFit(sys.disk, Delete(sys.fat, sys.disk, req).writes)
            && Delete(sys.fat, sys.disk, req).fat == fat
            && FatOn(Apply(sys.disk, Delete(sys.fat, sys.disk, req).writes)) == fat
            && Deletes(sys.fat, sys.disk, FileLayout(fat, disk, l, req), req)
  {
    hide TableOf, FatOf, FreeSlot, FileChain, Link, DataWrites, NewFileEntry, Inv, Write, Delete, Written, MatchSlot,
         FileLayout, Release, TablesOf, Creates, FileDeleted;
    WrittenSlot(fat, disk, l, req, data);
    WrittenIsGood(fat, disk, l, req, data);
    FreshEntry(fat, disk, l, req, data);
    FilePath(fat, disk, l, req, data);
    SlotFromTwo(fat, disk, l, req, data);
    var sys, s, l' := Written(fat, disk, l, req, data), NewSlot(disk, req), FileLayout(fat, disk, l, req);
    DeleteIsSafe(sys.fat, sys.disk, l', req);
    assert TableOf(sys.disk[req.parent])[0] == TableOf(disk[req.parent])[0];
    DeleteOutcome(sys.fat, sys.disk, l', req);
    DeletePath(sys.fat, sys.disk, l', req);
    FileDeleteSteps(sys.fat, sys.disk, l', req);
    FileChainFacts(fat, req);
    ReleaseUndoesLink(fat, FileChain(fat, req));
  }

  lemma OtherVictim(fat: Fat, disk: Disk, l: Layout, req: Request, data: seq<byte>)
    requires Creates(fat, disk, l, req, data) && req.bufferSize > 0 && Named(req)
    requires FreeSlot(TableOf(disk[req.parent]), 0) < SLOT_COUNT
    requires MatchSlot(TableOf(Written(fat, disk, l, req, data).disk[req.parent]), req.name, req.ext, 2)
             < NewSlot(disk, req).pos
    ensures var sys := Written(fat, disk, l, req, data);
            && DeleteSafe(sys.fat, sys.disk, req) && WritesFit(sys.disk, Delete(sys.fat, sys.disk, req).writes)
            && Delete(sys.fat, sys.disk, req).fat != fat
  {
    hide TableOf, FatOf, FreeSlot, FileChain, Link, DataWrites, NewFileEntry, Inv, Write, Delete, Written, MatchSlot,
         FileLayout, Release, TablesOf, Creates, At;
    WrittenSlot(fat, disk, l, req, data);
    WrittenIsGood(fat, disk, l, req, data);
    FilePath(fat, disk, l, req, data);
    SlotFromTwo(fat, disk, l, req, data);
    FileChainFacts(fat, req);
    var sys, s, l' := Written(fat, disk, l, req, data), NewSlot(disk, req), FileLayout(fat, disk, l, req);
    var head := FileChain(fat, req)[0];
    DeleteIsSafe(sys.fat, sys.disk, l', req);
    assert TableOf(sys.disk[req.parent])[0] == TableOf(disk[req.parent])[0];
    DeleteOutcome(sys.fat, sys.disk, l', req);
    ChainsOwnTheirClusters(sys.fat, TablesOf(sys.disk, l'.depth.Keys), l');
    assert head in l'.chains[s];
    if Delete(sys.fat, sys.disk, req).code == 0 {
      DeletePath(sys.fat, sys.disk, l', req);
      if At(TablesOf(sys.disk, l'.depth.Keys), Victim(sys.disk, req)).IsDir() {
        DirDeleteSteps(sys.fat, sys.disk, l', req);
      } else {
        FileDeleteSteps(sys.fat, sys.disk, l', req);
      }
      ReleasedElsewhere(sys.fat, l'.chains[Victim(sys.disk, req)], head);
    }
  }

  lemma ReleasedElsewhere(fat: Fat, chain: seq<Index>, c: Index)
    requires c !in chain
    ensures Release(fat, chain)[c] == fat[c]
  {
  }

  /** A file was created, and nothing is in the way of deleting it again. */
  ghost predicate Revertible(fat: Fat, disk: Disk, l: Layout, req: Request, data: seq<byte>) {
    && Creates(fat, disk, l, req, data) && req.bufferSize > 0 && Named(req) && IsFormatted(disk)
    && FreeSlot(TableOf(disk[req.parent]), 0) < SLOT_COUNT
    && !Shadowed(TableOf(disk[req.parent]), req, NewSlot(disk, req).pos)
  }

  /** Writing and deleting again is a run of two good calls. */
  lemma RevertedIsGood(fat: Fat, disk: Disk, l: Layout, req: Request, data: seq<byte>)
    requires Revertible(fat, disk, l, req, data)
    ensures FreeSlot(TableOf(disk[req.parent]), 0) < SLOT_COUNT
    ensures var sys, l' := Written(fat, disk, l, req, data), FileLayout(fat, disk, l, req);
            && DeleteSafe(sys.fat, sys.disk, req) && WritesFit(sys.disk, Delete(sys.fat, sys.disk, req).writes)
            && Good(sys, l') && Allowed(sys, l', Deleting(req)) && Delete(sys.fat, sys.disk, req).fat == fat
            && Good(System(fat, Apply(sys.disk, Delete(sys.fat, sys.disk, req).writes)),
                    NextLayout(sys, l', Deleting(req)))
  {
    hide TableOf, FatOf, FreeSlot, FileChain, Inv, Write, Delete, MatchSlot, FileLayout, Shadowed, TablesOf, NextLayout,
         Coherent, IsFormatted, HitsLive;
    WriteThenDelete(fat, disk, l, req, data);
    WrittenIsGood(fat, disk, l, req, data);
    CallKeepsInvariant(Written(fat, disk, l, req, data), FileLayout(fat, disk, l, req), Deleting(req));
  }

  /** The disk after both, with its layout. */
  ghost function Reverted(fat: Fat, disk: Disk, l: Layout, req: Request, data: seq<byte>): (Disk, Layout)
    requires Revertible(fat, disk, l, req, data)
  {
    RevertedIsGood(fat, disk, l, req, data);
    var sys, l' := Written(fat, disk, l, req, data), FileLayout(fat, disk, l, req);
    (Apply(sys.disk, Delete(sys.fat, sys.disk, req).writes), NextLayout(sys, l', Deleting(req)))
  }

  /** The parent's table afterwards: the new slot is blank again, with the file's cluster number still in it. */
  lemma RevertedTable(fat: Fat, disk: Disk, l: Layout, req: Request, data: seq<byte>)
    requires Revertible(fat, disk, l, req, data)
    ensures req.bufferSize > 0 && FileChain(fat, req) != [] && FreeSlot(TableOf(disk[req.parent]), 0) < SLOT_COUNT
    ensures var (d, l') := Reverted(fat, disk, l, req, data);
            && l'.depth == l.depth && l'.leaked == l.leaked
            && TableOf(d[req.parent])
               == TableOf(disk[req.parent])[NewSlot(disk, req).pos := Blanked(NewFileEntry(fat, disk, req))]
  {
    hide TableOf, FatOf, FreeSlot, FileChain, Inv, Write, Delete, MatchSlot, FileLayout, Shadowed, TablesOf,
         NewFileEntry, Coherent, IsFormatted, HitsLive, SetSlot, Blanked, Apply;
    RevertedIsGood(fat, disk, l, req, data);
    WriteThenDelete(fat, disk, l, req, data);
    WrittenSlot(fat, disk, l, req, data);
    FreshEntry(fat, disk, l, req, data);
    var sys, l1, s := Written(fat, disk, l, req, data), FileLayout(fat, disk, l, req), NewSlot(disk, req);
    FileDone(fat, disk, l, req, data);
    CallKeepsInvariant(sys, l1, Deleting(req));
    var writes := Delete(sys.fat, sys.disk, req).writes;
    DeletePath(sys.fat, sys.disk, l1, req);
    InTables(sys.disk, l1.depth.Keys);
    AtIs(sys.disk, l1.depth.Keys, s);
    TablesAfterDelete(sys.fat, sys.disk, l1, req, |writes|);
    EveryWrite(sys.disk, writes);
    InTables(Apply(sys.disk, writes), l1.depth.Keys);
    TableAfterSetSlot(TablesOf(sys.disk, l1.depth.Keys), s, Blanked(NewFileEntry(fat, disk, req)));
  }

  /** Such a pair of calls leaves the callers' view as it was, too. */
  lemma WriteThenDeleteView(fat: Fat, disk: Disk, l: Layout, req: Request, data: seq<byte>)
    requires Revertible(fat, disk, l, req, data)
    ensures var (d, l') := Reverted(fat, disk, l, req, data); Good(System(fat, d), l') && View(d, l') == View(disk, l)
  {
    hide TableOf, FatOf, FreeSlot, FileChain, Inv, Write, Delete, MatchSlot, FileLayout, View, Shadowed, TablesOf,
         NextLayout, NewFileEntry, Coherent, IsFormatted, HitsLive;
    RevertedIsGood(fat, disk, l, req, data);
    WriteThenDelete(fat, disk, l, req, data);
    WrittenSlot(fat, disk, l, req, data);
    FileWriteRefines(fat, disk, l, req, data);
    NewEntryHasKey(fat, disk, req);
    var sys, l', s := Written(fat, disk, l, req, data), FileLayout(fat, disk, l, req), NewSlot(disk, req);
    DeletesNow(sys.fat, sys.disk, l', req);
    DeletePath(sys.fat, sys.disk, l', req);
    hide At;
    assert KeyAt(TablesOf(sys.disk, l'.depth.Keys), Victim(sys.disk, req)) == KeyOf(req);
    PutThenRemove(View(disk, l), KeyOf(req), File(data[..req.bufferSize]));
  }

  lemma PutThenRemove(m: Files, k: Key, node: Node)
    requires k !in m
    ensures m[k := node] - {k} == m
  {
  }

  lemma {:induction false} ContentsHead(disk: Disk, chain: seq<Index>)
    requires chain != []
    ensures Contents(disk, chain)[..CLUSTER_SIZE] == disk[chain[0]]
    decreases |chain|
  {
    var n := |chain| - 1;
    LastCluster(disk, chain);
    if n > 0 {
      ContentsHead(disk, chain[..n]);
    } else {
      assert Contents(disk, chain[..0]) == [];
    }
  }

  /** The first cluster of the deleted file is the next one to be allocated, and it still holds the file's bytes. */
  lemma BytesRemain(fat: Fat, disk: Disk, l: Layout, req: Request, data: seq<byte>)
    requires Revertible(fat, disk, l, req, data)
    ensures FreeClusters(fat) != [] && |data| >= CLUSTER_SIZE
    ensures Reverted(fat, disk, l, req, data).0[FreeClusters(fat)[0]] == data[..CLUSTER_SIZE]
  {
    hide TableOf, FatOf, FreeSlot, Inv, Write, Delete, MatchSlot, FileLayout, Shadowed, TablesOf, NewFileEntry,
         Contents, DataWrites, Apply, Blanked, TableBytes, FatBytes, Link, FreeClusters, Release;
    RevertedIsGood(fat, disk, l, req, data);
    FilePath(fat, disk, l, req, data);
    hide FileChain;
    var chain, sys, l' := FileChain(fat, req), Written(fat, disk, l, req, data), FileLayout(fat, disk, l, req);
    FirstOfChain(fat, req);
    FileChainFacts(fat, req);
    FileHeaderIs(fat, disk, l, req, data);
    FileHeaderApplied(fat, disk, l, req, data);
    var header, rest := FileHeader(fat, disk, req), DataWrites(chain, data);
    ContentsOfDataWrites(Apply(disk, header), chain, data);
    ApplyConcat(disk, header, rest);
    ContentsHead(sys.disk, chain);
    NewVictimWrites(fat, disk, l, req, data);
    var o := Delete(sys.fat, sys.disk, req);
    ApplyElsewhere(sys.disk, o.writes, chain[0]);
    assert data[..CLUSTER_SIZE * |chain|][..CLUSTER_SIZE] == data[..CLUSTER_SIZE];
  }

  lemma FirstOfChain(fat: Fat, req: Request)
    requires req.bufferSize > 0 && FileChain(fat, req) != []
    ensures FreeClusters(fat) != [] && FileChain(fat, req)[0] == FreeClusters(fat)[0]
  {
    hide FreeClusters;
  }

  lemma NewVictimWrites(fat: Fat, disk: Disk, l: Layout, req: Request, data: seq<byte>)
    requires Creates(fat, disk, l, req, data) && req.bufferSize > 0 && Named(req)
    requires FreeSlot(TableOf(disk[req.parent]), 0) < SLOT_COUNT && FileChain(fat, req) != []
    requires !Shadowed(TableOf(disk[req.parent]), req, NewSlot(disk, req).pos)
    ensures var sys := Written(fat, disk, l, req, data);
            && DeleteSafe(sys.fat, sys.disk, req)
            && forall w | w in Delete(sys.fat, sys.disk, req).writes :: w.cluster != FileChain(fat, req)[0]
  {
    hide TableOf, FatOf, FreeSlot, FileChain, Link, NewFileEntry, Inv, Write, Delete, Written, MatchSlot, FileLayout,
         Release, TablesOf, Shadowed, Blanked, TableBytes, FatBytes;
    WriteThenDelete(fat, disk, l, req, data);
    WrittenSlot(fat, disk, l, req, data);
    FreshEntry(fat, disk, l, req, data);
    FileSteps(fat, disk, l, req, data);
    FileChainFacts(fat, req);
    hide Creates;
    var sys, s, l' := Written(fat, disk, l, req, data), NewSlot(disk, req), FileLayout(fat, disk, l, req);
    DeletePath(sys.fat, sys.disk, l', req);
    assert FileChain(fat, req)[0] in FileChain(fat, req);
  }

  /** A directory made right after a file was written and deleted reads that file's bytes as its own table. On a disk
      without leaks the disk is well formed afterwards if and only if they show no entry from slot 2 on; on any disk it
      is if there is none, and otherwise only by taking over leaked clusters. */
  lemma MkdirAfterDelete(fat: Fat, disk: Disk, l: Layout, req: Request, data: seq<byte>,
                         d: Disk, l': Layout, dir: Request, head: Cluster)
    requires Revertible(fat, disk, l, req, data) && (d, l') == Reverted(fat, disk, l, req, data) && head <= data
    requires Creates(fat, d, l', dir, []) && dir.bufferSize == 0
    ensures var o, blank := Write(fat, d, dir, []), NoEntries(TableOf(head));
            && WritesFit(d, o.writes)
            && (blank ==> WellFormedAfter(o, d))
            && (l'.leaked == {} ==> (WellFormedAfter(o, d) <==> blank))
            && (forall l2 | Wf(o.fat, Apply(d, o.writes), l2) ::
                  l2.leaked <= l'.leaked && (l2.leaked == l'.leaked <==> blank))
  {
    hide TableOf, FatOf, FreeSlot, FileChain, Inv, Write, Delete, Written, MatchSlot, FileLayout, Shadowed, Creates,
         NextLayout, NoEntries, FreeClusters, Apply, Good, Allowed, Revertible, Reverted, WellFormedAfter;
    BytesRemain(fat, disk, l, req, data);
    assert data[..CLUSTER_SIZE] == head;
    MkdirExact(fat, d, l', dir, []);
  }

  // ---------- deleting an entry that is not in use ----------

  /** The clusters that an unused entry still leads to have all leaked. */
  ghost predicate Reclaims(fat: Fat, disk: Disk, l: Layout, req: Request)
    requires req.parent < |disk|
  {
    var t := TableOf(disk[req.parent]);
    var slot := MatchSlot(t, req.name, req.ext, 2);
    slot < SLOT_COUNT && HeadsChain(fat, t[slot].Cluster())
    && forall c | c in ChainFrom(fat, t[slot].Cluster()) :: c in l.leaked
  }

  /** A chain that has been released was owned by no entry that stays, nor reserved: it had leaked. */
  lemma ReleasedHadLeaked(fat: Fat, disk: Disk, l: Layout, chain: seq<Index>, d: Disk, l': Layout)
    requires Wf(fat, disk, l) && IsChain(fat, chain) && EntriesStay(disk, l, d) && Wf(Release(fat, chain), d, l')
    ensures forall c | c in chain :: c in l.leaked
  {
    hide TableOf, TablesOf, Inv, EntriesStay, Release;
    var fat' := Release(fat, chain);
    var ts, ts' := TablesOf(disk, l.depth.Keys), TablesOf(d, l'.depth.Keys);
    ChainsOwnTheirClusters(fat, ts, l);
    ChainsOwnTheirClusters(fat', ts', l');
    ReleasedAt(fat, chain);
    ChainNotEmpty(fat, chain);
    forall c | c in chain
      ensures c in l.leaked
    {
      if c in l.owner {
        OwnedIsNotReleased(fat, disk, l, chain, d, l', c);
      }
    }
  }

  lemma ChainNotEmpty(fat: Fat, chain: seq<Index>)
    requires IsChain(fat, chain) && 0 !in chain
    ensures forall c | c in chain :: fat[c] != EMPTY_ENTRY
  {
    forall c | c in chain
      ensures fat[c] != EMPTY_ENTRY
    {
      var j :| 0 <= j < |chain| && chain[j] == c;
      assert j < |chain| - 1 ==> chain[j + 1] in chain;
    }
  }

  lemma OwnedIsNotReleased(fat: Fat, disk: Disk, l: Layout, chain: seq<Index>, d: Disk, l': Layout, c: Index)
    requires Wf(fat, disk, l) && IsChain(fat, chain) && EntriesStay(disk, l, d) && Wf(Release(fat, chain), d, l')
    requires c in l.owner
    ensures c !in chain
  {
    hide TableOf, TablesOf, Inv, EntriesStay, IsChain, Release;
    var fat' := Release(fat, chain);
    ChainsOwnTheirClusters(fat, TablesOf(disk, l.depth.Keys), l);
    ChainsOwnTheirClusters(fat', TablesOf(d, l'.depth.Keys), l');
    ReleasedAt(fat, chain);
    var s := l.owner[c];
    InDepth(fat, disk, l);
    DirectoryStays(fat, disk, l, fat', d, l', s.dir);
    EntryStays(fat, disk, l, fat', d, l', s);
    ChainFrame(fat', fat, l'.chains[s]);
    ChainUnique(fat, l'.chains[s], l.chains[s]);
  }

  lemma ReleasedAt(fat: Fat, chain: seq<Index>)
    ensures forall c: Index :: Release(fat, chain)[c] == if c in chain then EMPTY_ENTRY else fat[c]
  {
  }

  /** Blanking an entry that is not in use changes nothing the invariant speaks of. */
  lemma BlankedAgain(fat: Fat, ts: Tables, l: Layout, s: Slot)
    requires Inv(fat, ts, l) && s.dir in ts && s.pos >= 2 && s !in l.chains
    ensures Inv(fat, SetSlot(ts, s, Blanked(At(ts, s))), l)
  {
    hide Owned, Accounted, Ranked, SetSlot, At, IsChain, Headed, Homed;
    AtSetSlot(ts, s, Blanked(At(ts, s)));
    SetSlotKeys(ts, s, Blanked(At(ts, s)));
    HeadedFrame(ts, l.home, s, Blanked(At(ts, s)));
    HomedFrame(ts, l.home, l.chains, s, Blanked(At(ts, s)));
  }

  lemma HomedFrame(ts: Tables, home: Homes, chains: ChainMap, s: Slot, e: Entry)
    requires Homed(ts, home, chains) && s.dir in ts && s !in chains
    ensures Homed(SetSlot(ts, s, e), home, chains)
  {
    hide SetSlot, At;
    HomesEntered(ts, home, chains);
    SetSlotKeys(ts, s, e);
    AtSetSlot(ts, s, e);
  }

  /** Deletion, exactly: it leaves the disk well formed if and only if the entry that it takes is in use, or is not but
      leads only to clusters that had leaked; these are then given back. A request without a name matches entries that
      are not in use. */
  lemma DeleteExact(fat: Fat, disk: Disk, l: Layout, req: Request)
    requires Wf(fat, disk, l) && req.parent in l.depth && DeleteSafe(fat, disk, req)
    ensures WritesFit(disk, Delete(fat, disk, req).writes)
    ensures WellFormedAfter(Delete(fat, disk, req), disk) <==> HitsLive(disk, req) || Reclaims(fat, disk, l, req)
    ensures var o := Delete(fat, disk, req);
            forall l' | Wf(o.fat, Apply(disk, o.writes), l') ::
              l'.leaked == if HitsLive(disk, req) then l.leaked else l.leaked - Stale(fat, disk, req)
  {
    hide TableOf, FatOf, Wf, Delete, HitsLive, Reclaims, Apply, Stale, DeleteSafe;
    var o := Delete(fat, disk, req);
    if HitsLive(disk, req) {
      var l' := LiveDeleteFits(fat, disk, l, req);
      forall l2 | Wf(o.fat, Apply(disk, o.writes), l2)
        ensures l2 == l'
      {
        LayoutUnique(o.fat, Apply(disk, o.writes), l2, l');
      }
    } else {
      DeadDelete(fat, disk, l, req);
    }
  }

  /** What the entry that a deletion takes leads to. */
  ghost function Stale(fat: Fat, disk: Disk, req: Request): set<Index>
    requires req.parent < |disk|
  {
    var t := TableOf(disk[req.parent]);
    var slot := MatchSlot(t, req.name, req.ext, 2);
    if slot < SLOT_COUNT && HeadsChain(fat, t[slot].Cluster())
    then set c | c in ChainFrom(fat, t[slot].Cluster()) else {}
  }

  lemma LiveDeleteFits(fat: Fat, disk: Disk, l: Layout, req: Request) returns (l': Layout)
    requires Wf(fat, disk, l) && req.parent in l.depth && DeleteSafe(fat, disk, req) && HitsLive(disk, req)
    ensures var o := Delete(fat, disk, req);
            WritesFit(disk, o.writes) && Wf(o.fat, Apply(disk, o.writes), l') && l'.leaked == l.leaked
  {
    hide TableOf, FatOf, Wf, MatchSlot, Delete, HitsLive, Apply, At, TablesOf, DeleteSafe;
    if Delete(fat, disk, req).code != 0 {
      NothingDone(fat, disk, req);
      l' := l;
    } else {
      DeletePath(fat, disk, l, req);
      var s := Victim(disk, req);
      if At(TablesOf(disk, l.depth.Keys), s).IsDir() {
        DirDeleteSteps(fat, disk, l, req);
        l' := DirDeleted(l, s);
      } else {
        FileDeleteSteps(fat, disk, l, req);
        l' := FileDeleted(l, s);
      }
    }
  }

  lemma NothingDone(fat: Fat, disk: Disk, req: Request)
    requires req.parent < |disk| && DeleteSafe(fat, disk, req) && Delete(fat, disk, req).code != 0
    ensures var o := Delete(fat, disk, req); WritesFit(disk, o.writes) && o.fat == fat && Apply(disk, o.writes) == disk
  {
    hide TableOf, FatOf, MatchSlot, Release, ChainFrom, TableBytes, FatBytes, NoLiveChild;
  }

  /** The writes of a deletion that takes an unused entry. */
  lemma DeadDeletePath(fat: Fat, disk: Disk, l: Layout, req: Request)
    requires Wf(fat, disk, l) && req.parent in l.depth && DeleteSafe(fat, disk, req) && !HitsLive(disk, req)
    ensures MatchSlot(TableOf(disk[req.parent]), req.name, req.ext, 2) < SLOT_COUNT
    ensures var s, t, o := Victim(disk, req), TableOf(disk[req.parent]), Delete(fat, disk, req);
            && s !in l.chains && s.dir in l.depth && s.dir != FAT_CLUSTER
            && IsBlank(t[s.pos]) && HeadsChain(fat, t[s.pos].Cluster())
            && o.fat == Release(fat, ChainFrom(fat, t[s.pos].Cluster()))
            && WritesFit(disk, o.writes)
            && Apply(disk, o.writes)
               == disk[s.dir := TableBytes(t[s.pos := Blanked(t[s.pos])])][FAT_CLUSTER := FatBytes(o.fat)]
  {
    hide TableOf, FatOf, MatchSlot, Release, TableBytes, FatBytes, NoLiveChild, Inv, Apply, TablesOf, Blanked;
    var t, s, ts := TableOf(disk[req.parent]), Victim(disk, req), TablesOf(disk, l.depth.Keys);
    InTables(disk, l.depth.Keys);
    AtIs(disk, l.depth.Keys, s);
    EntryKnown(fat, ts, l, s);
    BlankUnlessEntered(fat, ts, l, s);
    ReservedAreNoDirectories(fat, ts, l);
    var o := Delete(fat, disk, req);
    assert o == RemoveFile(fat, t, s.pos, t[s.pos].Cluster(), req.parent);
    ApplyTwo(disk, o.writes[0], o.writes[1]);
    assert o.writes == [o.writes[0], o.writes[1]];
  }

  lemma DeadDelete(fat: Fat, disk: Disk, l: Layout, req: Request)
    requires Wf(fat, disk, l) && req.parent in l.depth && DeleteSafe(fat, disk, req) && !HitsLive(disk, req)
    ensures WritesFit(disk, Delete(fat, disk, req).writes)
    ensures WellFormedAfter(Delete(fat, disk, req), disk) <==> Reclaims(fat, disk, l, req)
    ensures var o := Delete(fat, disk, req);
            forall l' | Wf(o.fat, Apply(disk, o.writes), l') :: l'.leaked == l.leaked - Stale(fat, disk, req)
  {
    hide TableOf, FatOf, MatchSlot, Release, Delete, HitsLive, DeleteSafe, Inv, TablesOf, TableBytes, FatBytes, Apply,
         ChainFrom, Blanked, IsChain;
    DeadDeletePath(fat, disk, l, req);
    var o := Delete(fat, disk, req);
    var s, d, t := Victim(disk, req), Apply(disk, o.writes), TableOf(disk[req.parent]);
    var chain := ChainFrom(fat, t[s.pos].Cluster());
    DeadEntriesStay(fat, disk, l, req);
    forall l' | Wf(o.fat, d, l')
      ensures forall c | c in chain :: c in l.leaked
    {
      ReleasedHadLeaked(fat, disk, l, chain, d, l');
    }
    if forall c | c in chain :: c in l.leaked {
      Reclaimed(fat, disk, l, req);
      var l2 := l.(leaked := l.leaked - set c | c in chain);
      forall l' | Wf(o.fat, d, l')
        ensures l' == l2
      {
        LayoutUnique(o.fat, d, l', l2);
      }
    }
  }

  lemma DeadEntriesStay(fat: Fat, disk: Disk, l: Layout, req: Request)
    requires Wf(fat, disk, l) && req.parent in l.depth && DeleteSafe(fat, disk, req) && !HitsLive(disk, req)
    ensures WritesFit(disk, Delete(fat, disk, req).writes)
    ensures EntriesStay(disk, l, Apply(disk, Delete(fat, disk, req).writes))
  {
    hide TableOf, FatOf, MatchSlot, Release, Delete, HitsLive, DeleteSafe, Inv, TablesOf, FatBytes, Apply, ChainFrom,
         Blanked, IsChain;
    DeadDeletePath(fat, disk, l, req);
    InDepth(fat, disk, l);
    ReservedAreNoDirectories(fat, TablesOf(disk, l.depth.Keys), l);
  }

  /** The layout after such a deletion of leaked clusters. */
  lemma Reclaimed(fat: Fat, disk: Disk, l: Layout, req: Request)
    requires Wf(fat, disk, l) && req.parent in l.depth && DeleteSafe(fat, disk, req) && !HitsLive(disk, req)
    requires Reclaims(fat, disk, l, req)
    ensures MatchSlot(TableOf(disk[req.parent]), req.name, req.ext, 2) < SLOT_COUNT
    ensures WritesFit(disk, Delete(fat, disk, req).writes)
    ensures var chain := ChainFrom(fat, TableOf(disk[req.parent])[Victim(disk, req).pos].Cluster());
            Wf(Delete(fat, disk, req).fat, Apply(disk, Delete(fat, disk, req).writes),
               l.(leaked := l.leaked - set c | c in chain))
  {
    hide TableOf, FatOf, MatchSlot, Release, Delete, HitsLive, DeleteSafe, Inv, TablesOf, SetSlot, FatBytes, TableBytes,
         Apply, ChainFrom, Blanked, IsChain;
    DeadDeletePath(fat, disk, l, req);
    var o, s, ts := Delete(fat, disk, req), Victim(disk, req), TablesOf(disk, l.depth.Keys);
    var t := TableOf(disk[req.parent]);
    InTables(disk, l.depth.Keys);
    AtIs(disk, l.depth.Keys, s);
    ReservedAreNoDirectories(fat, ts, l);
    BlankedAgain(fat, ts, l, s);
    SlotWrite(disk, l.depth.Keys, s, Blanked(t[s.pos]));
    Unleak(fat, SetSlot(ts, s, Blanked(At(ts, s))), l, ChainFrom(fat, t[s.pos].Cluster()));
    FatWrite(disk[s.dir := TableBytes(t[s.pos := Blanked(t[s.pos])])], o.fat, l.depth.Keys);
  }
}
