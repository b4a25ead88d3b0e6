/** The driver's answers in its callers' terms: what each return code means for the map of files, what a read delivers,
    and that whole runs of calls simulate operations on that map. */
module Answers {
  import opened Bytes
  import opened CString
  import opened OnDisk
  import opened Chains
  import opened BlockDevice
  import opened Operations
  import opened Ownership
  import opened Safety
  import opened Runs
  import opened Refinement

  ghost function KeysIn(m: Files, p: nat): set<Key> {
    set k | k in m && k.dir == p
  }

  // ---------- how many entries a directory has ----------

  ghost function LiveCount(t: Table, n: nat): nat
    requires n <= SLOT_COUNT
    decreases |t|, n
  {
    if n <= 2 then 0 else LiveCount(t, n - 1) + if t[n - 1].Live() then 1 else 0
  }

  lemma {:induction false} LiveCountFull(t: Table, n: nat)
    requires 2 <= n <= SLOT_COUNT
    ensures LiveCount(t, n) <= n - 2
    ensures LiveCount(t, n) == n - 2 <==> forall i | 2 <= i < n :: t[i].Live()
    decreases n
  {
    if n > 2 {
      LiveCountFull(t, n - 1);
    }
  }

  ghost function KeysUpTo(ts: Tables, chains: ChainMap, p: Index, n: nat): set<Key> {
    set s: Slot | s in chains && s.dir == p && s.pos < n :: KeyAt(ts, s)
  }

  lemma OneMoreKey(ts: Tables, chains: ChainMap, p: Index, n: Position)
    requires DistinctKeys(ts, chains)
    ensures var s, below := Slot(p, n), KeysUpTo(ts, chains, p, n);
            if s in chains then KeyAt(ts, s) !in below && KeysUpTo(ts, chains, p, n + 1) == below + {KeyAt(ts, s)}
            else KeysUpTo(ts, chains, p, n + 1) == below
  {
    KeysDiffer(ts, chains);
    hide KeyAt, DistinctKeys;
    var s := Slot(p, n);
    forall r: Slot | r.dir == p && r.pos < n + 1 && r != s
      ensures r.pos < n
    {
    }
  }

  lemma {:induction false} KeysCounted(ts: Tables, chains: ChainMap, p: Index, n: nat)
    requires Entered(ts, chains) && DistinctKeys(ts, chains) && p in ts && 2 <= n <= SLOT_COUNT
    ensures |KeysUpTo(ts, chains, p, n)| == LiveCount(ts[p], n)
    decreases n
  {
    if n == 2 {
      assert KeysUpTo(ts, chains, p, n) == {};
    } else {
      KeysCounted(ts, chains, p, n - 1);
      var s := Slot(p, n - 1);
      hide KeysUpTo;
      assert At(ts, s) == ts[p][n - 1];
      OneMoreKey(ts, chains, p, n - 1);
    }
  }

  lemma KeysInAreCounted(disk: Disk, ts: Tables, chains: ChainMap, p: Index)
    requires DistinctKeys(ts, chains)
    ensures KeysIn(FilesOf(disk, ts, chains), p) == KeysUpTo(ts, chains, p, SLOT_COUNT)
  {
    ViewBinds(disk, ts, chains);
    hide FilesOf, At;
  }

  const ENTRY_LIMIT := 62

  /** A directory is full when all but its first two slots hold entries. */
  lemma FullWhenCounted(fat: Fat, disk: Disk, l: Layout, p: Index)
    requires Wf(fat, disk, l) && p in l.depth && TableOf(disk[p])[0].IsDir()
    ensures FreeSlot(TableOf(disk[p]), 0) == SLOT_COUNT <==> |KeysIn(View(disk, l), p)| == ENTRY_LIMIT
    ensures TableOf(disk[p])[1].IsDir() && TableOf(disk[p])[0].Live() && TableOf(disk[p])[1].Live()
    ensures TableOf(disk[p])[0].Cluster() == p
  {
    hide TableOf, Chained, Owned, Accounted, Sized, Ranked, At, KeyAt, NodeAt, IsBlank, FilesOf;
    var ts, t := TablesOf(disk, l.depth.Keys), TableOf(disk[p]);
    assert Initialised(ts[p], p, Parent(l.home, p));
    KeysInAreCounted(disk, ts, l.chains, p);
    KeysCounted(ts, l.chains, p, SLOT_COUNT);
    LiveCountFull(t, SLOT_COUNT);
    hide DistinctKeys, Entered, Homed, Headed;
    if FreeSlot(t, 0) < SLOT_COUNT {
      assert !t[FreeSlot(t, 0)].Live();
    }
  }

  // ---------- keys and slots ----------

  /** A key that no blank slot has is in the view exactly when some slot from 2 on has it. */
  lemma KeyInView(fat: Fat, disk: Disk, l: Layout, k: Key)
    requires Wf(fat, disk, l) && k.dir in l.depth && (k.name != NO_NAME || k.ext != NO_EXT)
    ensures k in View(disk, l) <==> exists i: Position | i >= 2 :: TableOf(disk[k.dir])[i].HasKey(k.name, k.ext)
    ensures forall i: Position | i >= 2 && TableOf(disk[k.dir])[i].HasKey(k.name, k.ext) ::
              var s := Slot(k.dir, i);
              s in l.chains && View(disk, l)[k] == NodeAt(disk, TablesOf(disk, l.depth.Keys), l.chains, s)
  {
    hide TableOf, Chained, Owned, Accounted, Sized, Ranked, NodeAt, FilesOf, Headed, Homed;
    var ts, t := TablesOf(disk, l.depth.Keys), TableOf(disk[k.dir]);
    ViewBinds(disk, ts, l.chains);
    hide DistinctKeys;
    forall i: Position | i >= 2 && t[i].HasKey(k.name, k.ext)
      ensures Slot(k.dir, i) in l.chains && KeyAt(ts, Slot(k.dir, i)) == k
    {
      assert At(ts, Slot(k.dir, i)) == t[i];
    }
    if k in View(disk, l) {
      var s :| s in l.chains && KeyAt(ts, s) == k;
      assert At(ts, s) == t[s.pos];
    }
  }

  // ---------- the answers ----------

  datatype Response = Response(code: int, data: seq<byte>)

  ghost predicate EnoughFree(fat: Fat, size: nat) {
    if size == 0 then FreeClusters(fat) != [] else |FreeClusters(fat)| >= ClustersNeeded(size)
  }

  /** The answer of a write or mkdir, and the map after it. The key counts as taken also when it is the parent's own,
      which slot 1 holds, or the empty key, which every blank slot holds. */
  ghost predicate WriteAnswer(fat: Fat, t: Table, m: Files, req: Request, data: seq<byte>, code: int, m': Files)
    requires req.parent < CLUSTER_MAP_SIZE
  {
    var k := KeyOf(req);
    && code == (if !t[0].IsDir() then 2
                else if |KeysIn(m, k.dir)| == ENTRY_LIMIT then -1
                else if k in m || t[1].HasKey(k.name, k.ext) || (k.name == NO_NAME && k.ext == NO_EXT) then 1
                else if EnoughFree(fat, req.bufferSize) then 0
                else -1)
    && (if code != 0 then m' == m
        else && k !in m
             && if req.bufferSize == 0 then
                  FreeClusters(fat) != [] && m' == m[k := Directory(FreeClusters(fat)[0])]
                  && Unknown(m, FreeClusters(fat)[0])
                else req.bufferSize <= |data| && m' == m[k := File(data[..req.bufferSize])])
  }

  /** A deletion matches the keys of its directory whose name, as a C string, starts with the requested one. */
  ghost predicate KeyMatches(k: Key, req: Request) {
    k.dir == req.parent && Str(req.name) <= Str(k.name) && k.ext == req.ext
  }

  lemma MatchesMeans(e: Entry, req: Request)
    ensures Matches(e, req.name, req.ext) <==> Str(req.name) <= Str(e.name) && e.ext == req.ext
  {
    hide Str, StartsWith;
    StartsWithMeans(e.name, req.name);
  }

  /** The key of the first entry, from slot 2 on, whose name starts with the requested one. */
  ghost function FirstMatch(t: Table, req: Request): Key
    requires req.parent < CLUSTER_MAP_SIZE && MatchSlot(t, req.name, req.ext, 2) < SLOT_COUNT
  {
    var e := t[MatchSlot(t, req.name, req.ext, 2)];
    Key(req.parent, e.name, e.ext)
  }

  lemma FirstMatchMatches(t: Table, req: Request)
    requires req.parent < CLUSTER_MAP_SIZE && MatchSlot(t, req.name, req.ext, 2) < SLOT_COUNT
    ensures KeyMatches(FirstMatch(t, req), req)
  {
    hide Str, StartsWith;
    MatchesMeans(t[MatchSlot(t, req.name, req.ext, 2)], req);
  }

  /** The answer of a delete: it takes the first match and removes its key, unless that is a directory with entries; it
      finds nothing exactly when no key matches. */
  ghost predicate DeleteAnswer(t: Table, m: Files, req: Request, code: int, m': Files)
    requires req.parent < CLUSTER_MAP_SIZE
  {
    if !t[0].IsDir() then code == -1 && m' == m
    else if forall k | k in m :: !KeyMatches(k, req) then code == 1 && m' == m
    else
      && MatchSlot(t, req.name, req.ext, 2) < SLOT_COUNT
      && (var k := FirstMatch(t, req);
          && k in m && KeyMatches(k, req)
          && if m[k].Directory? && KeysIn(m, m[k].cluster) != {} then code == 2 && m' == m
             else code == 0 && m' == m - {k})
  }

  /** In terms of the map alone: a key that is bound and matched by no other is the one that is taken. */
  lemma SoleMatchIsTaken(t: Table, m: Files, req: Request, code: int, m': Files)
    requires req.parent < CLUSTER_MAP_SIZE && t[0].IsDir() && DeleteAnswer(t, m, req, code, m')
    requires KeyOf(req) in m && forall k | k in m && KeyMatches(k, req) :: k == KeyOf(req)
    ensures var node := m[KeyOf(req)];
            if node.Directory? && KeysIn(m, node.cluster) != {} then code == 2 && m' == m
            else code == 0 && m' == m - {KeyOf(req)}
  {
    assert KeyMatches(KeyOf(req), req);
  }

  /** The answer of a read. The directory's own key and its parent's read as directories. */
  ghost predicate ReadAnswer(t: Table, m: Files, req: Request, r: Response)
    requires req.parent < CLUSTER_MAP_SIZE
  {
    var k := KeyOf(req);
    if !t[0].IsDir() then r.code == -1
    else if t[0].HasKey(k.name, k.ext) || t[1].HasKey(k.name, k.ext) then r.code == 1
    else if k !in m then r.code == 3
    else match m[k]
         case Directory(_) => r.code == 1
         case File(bytes) =>
           if |bytes| > req.bufferSize then r.code == 2
           else r.code == 0 && bytes <= r.data
  }

  lemma WriteAnswers(fat: Fat, disk: Disk, l: Layout, req: Request, data: seq<byte>)
    requires Good(System(fat, disk), l) && Allowed(System(fat, disk), l, Writing(req, data))
    requires Completes(System(fat, disk), l, Writing(req, data))
    ensures var o, l' := Write(fat, disk, req, data), NextLayout(System(fat, disk), l, Writing(req, data));
            && WritesFit(disk, o.writes)
            && WriteAnswer(fat, TableOf(disk[req.parent]), View(disk, l), req, data, o.code,
                           View(Apply(disk, o.writes), l'))
  {
    hide TableOf, FatOf, View, NewDirLayout, FileLayout, Inv, NoEntries, FreeClusters, Coherent, IsFormatted;
    var sys, call := System(fat, disk), Writing(req, data);
    var o, t := Write(fat, disk, req, data), TableOf(disk[req.parent]);
    CallKeepsInvariant(sys, l, call);
    WriteCode(fat, disk, l, req, data);
    if o.code == 0 {
      if req.bufferSize == 0 {
        DirPath(fat, disk, l, req, data);
        MkdirRefines(fat, disk, l, req, data);
      } else {
        FileWriteRefines(fat, disk, l, req, data);
      }
    } else {
      FailedChangesNothing(sys, l, call);
      ApplyNothing(disk);
    }
  }

  lemma WriteCode(fat: Fat, disk: Disk, l: Layout, req: Request, data: seq<byte>)
    requires Wf(fat, disk, l) && req.parent in l.depth && Buffered(fat, data, req.bufferSize)
    ensures var k, t, m := KeyOf(req), TableOf(disk[req.parent]), View(disk, l);
            Write(fat, disk, req, data).code
            == if !t[0].IsDir() then 2
               else if |KeysIn(m, k.dir)| == ENTRY_LIMIT then -1
               else if k in m || t[1].HasKey(k.name, k.ext) || (k.name == NO_NAME && k.ext == NO_EXT) then 1
               else if EnoughFree(fat, req.bufferSize) then 0
               else -1
  {
    hide TableOf, FatOf, View, FreeClusters, Link, IsChain, KeysIn;
    var k, t, m := KeyOf(req), TableOf(disk[req.parent]), View(disk, l);
    if t[0].IsDir() {
      FullWhenCounted(fat, disk, l, req.parent);
      if FreeSlot(t, 0) < SLOT_COUNT {
        TakenKeys(fat, disk, l, req);
      }
      if req.bufferSize > 0 {
        FoundWhenEnough(fat, ClustersNeeded(req.bufferSize));
      }
      hide Wf, Allocation;
    }
  }

  lemma FoundWhenEnough(fat: Fat, need: nat)
    requires need > 0
    ensures Allocation(fat, need) != [] <==> |FreeClusters(fat)| >= need
  {
  }

  lemma TakenKeys(fat: Fat, disk: Disk, l: Layout, req: Request)
    requires Wf(fat, disk, l) && req.parent in l.depth
    requires TableOf(disk[req.parent])[0].IsDir() && FreeSlot(TableOf(disk[req.parent]), 0) < SLOT_COUNT
    ensures var k, t := KeyOf(req), TableOf(disk[req.parent]);
            ExactSlot(t, req.name, req.ext, 1) < SLOT_COUNT <==>
            k in View(disk, l) || t[1].HasKey(k.name, k.ext) || (k.name == NO_NAME && k.ext == NO_EXT)
  {
    hide TableOf, FatOf, View, Chained, Owned, Accounted, Sized, Ranked, DistinctKeys, Homed;
    var k, t := KeyOf(req), TableOf(disk[req.parent]);
    var slot := ExactSlot(t, req.name, req.ext, 1);
    if k.name == NO_NAME && k.ext == NO_EXT {
      FullWhenCounted(fat, disk, l, req.parent);
      var free := FreeSlot(t, 0);
      assert !t[free].Live() && free >= 2;
      assert At(TablesOf(disk, l.depth.Keys), Slot(req.parent, free)) == t[free];
      assert t[free].HasKey(req.name, req.ext);
    } else {
      KeyInView(fat, disk, l, k);
      hide Wf;
      if slot < SLOT_COUNT {
        assert t[slot].HasKey(k.name, k.ext);
      }
    }
  }

  /** The live matching slots from 2 on are the matching keys. */
  lemma MatchesInView(fat: Fat, disk: Disk, l: Layout, req: Request)
    requires Wf(fat, disk, l) && req.parent in l.depth
    ensures var t, ts := TableOf(disk[req.parent]), TablesOf(disk, l.depth.Keys);
            forall i: Position | i >= 2 && Matches(t[i], req.name, req.ext) && t[i].Live() ::
              var s := Slot(req.parent, i);
              && s in l.chains && KeyAt(ts, s) in View(disk, l) && KeyMatches(KeyAt(ts, s), req)
              && View(disk, l)[KeyAt(ts, s)] == NodeAt(disk, ts, l.chains, s)
              && KeyAt(ts, s) == Key(req.parent, t[i].name, t[i].ext)
    ensures forall k | k in View(disk, l) && KeyMatches(k, req) ::
              exists i: Position :: i >= 2 && Matches(TableOf(disk[req.parent])[i], req.name, req.ext)
                && KeyAt(TablesOf(disk, l.depth.Keys), Slot(req.parent, i)) == k
  {
    hide TableOf, Chained, Owned, Accounted, Sized, Ranked, NodeAt, FilesOf, Headed, Homed, Matches, Str;
    var ts, t := TablesOf(disk, l.depth.Keys), TableOf(disk[req.parent]);
    forall e: Entry
      ensures Matches(e, req.name, req.ext) <==> Str(req.name) <= Str(e.name) && e.ext == req.ext
    {
      MatchesMeans(e, req);
    }
    ViewBinds(disk, ts, l.chains);
    hide DistinctKeys;
    forall i: Position | i >= 2 && Matches(t[i], req.name, req.ext) && t[i].Live()
      ensures Slot(req.parent, i) in l.chains
    {
      assert At(ts, Slot(req.parent, i)) == t[i];
    }
    forall k | k in View(disk, l) && KeyMatches(k, req)
      ensures exists i: Position :: i >= 2 && Matches(t[i], req.name, req.ext) && KeyAt(ts, Slot(req.parent, i)) == k
    {
      var s :| s in l.chains && KeyAt(ts, s) == k;
      assert At(ts, s) == t[s.pos];
    }
  }

  /** A directory shows entries in its table exactly when the map has keys under it. */
  lemma EmptyInView(fat: Fat, disk: Disk, l: Layout, c: Index)
    requires Wf(fat, disk, l) && c in l.depth
    ensures NoLiveChild(TableOf(disk[c])) <==> KeysIn(View(disk, l), c) == {}
  {
    hide TableOf, Chained, Owned, Accounted, Sized, Ranked, NodeAt, FilesOf, Headed, Homed, IsBlank;
    var ts := TablesOf(disk, l.depth.Keys);
    ViewBinds(disk, ts, l.chains);
    hide DistinctKeys;
    if NoLiveChild(TableOf(disk[c])) {
      forall k | k in View(disk, l)
        ensures k.dir != c
      {
        var s :| s in l.chains && KeyAt(ts, s) == k;
        assert At(ts, s).Live();
      }
    } else {
      var i :| 2 <= i < SLOT_COUNT && TableOf(disk[c])[i].Live();
      assert At(ts, Slot(c, i)) == TableOf(disk[c])[i];
      LiveIsNotBlank(At(ts, Slot(c, i)));
      assert KeyAt(ts, Slot(c, i)) in KeysIn(View(disk, l), c);
    }
  }

  lemma LiveIsNotBlank(e: Entry)
    requires e.Live()
    ensures !IsBlank(e)
  {
  }

  lemma DeleteAnswers(fat: Fat, disk: Disk, l: Layout, req: Request)
    requires Good(System(fat, disk), l) && Allowed(System(fat, disk), l, Deleting(req))
    ensures DeleteSafe(fat, disk, req)
    ensures var o, l' := Delete(fat, disk, req), NextLayout(System(fat, disk), l, Deleting(req));
            && WritesFit(disk, o.writes)
            && DeleteAnswer(TableOf(disk[req.parent]), View(disk, l), req, o.code, View(Apply(disk, o.writes), l'))
  {
    hide TableOf, FatOf, Inv, Coherent, FilesOf, TablesOf, At, KeyAt, Detached, DirDetached, NoLiveChild, KeyMatches,
         IsFormatted;
    var sys, call := System(fat, disk), Deleting(req);
    CallIsSafe(sys, l, call);
    CallKeepsInvariant(sys, l, call);
    DeleteIsSafe(fat, disk, l, req);
    MatchesInView(fat, disk, l, req);
    var o, t, m := Delete(fat, disk, req), TableOf(disk[req.parent]), View(disk, l);
    var slot := MatchSlot(t, req.name, req.ext, 2);
    if o.code != 0 {
      FailedChangesNothing(sys, l, call);
      ApplyNothing(disk);
    }
    if t[0].IsDir() && slot < SLOT_COUNT {
      hide MatchSlot, Matches;
      var s, ts := Victim(disk, req), TablesOf(disk, l.depth.Keys);
      var k := KeyAt(ts, s);
      assert k in m && KeyMatches(k, req);
      if t[slot].IsDir() {
        DirectoriesKnown(fat, ts, l);
        NodeOfDir(disk, ts, l.chains, s);
        EmptyInView(fat, disk, l, t[slot].Cluster());
      } else {
        NodeIsFile(disk, ts, l.chains, s);
      }
      if o.code == 0 {
        DeletesNow(fat, disk, l, req);
      }
    }
  }

  lemma NodeIsFile(disk: Disk, ts: Tables, chains: ChainMap, s: Slot)
    requires s in chains && !At(ts, s).IsDir()
    ensures NodeAt(disk, ts, chains, s).File?
  {
  }

  lemma DeletesNow(fat: Fat, disk: Disk, l: Layout, req: Request)
    requires Deletes(fat, disk, l, req) && Good(System(fat, disk), l)
    ensures Allowed(System(fat, disk), l, Deleting(req))
    ensures MatchSlot(TableOf(disk[req.parent]), req.name, req.ext, 2) < SLOT_COUNT
    ensures WritesFit(disk, Delete(fat, disk, req).writes)
    ensures View(Apply(disk, Delete(fat, disk, req).writes), NextLayout(System(fat, disk), l, Deleting(req)))
            == View(disk, l) - {KeyAt(TablesOf(disk, l.depth.Keys), Victim(disk, req))}
  {
    hide TableOf, FatOf, Inv, FilesOf, TablesOf, At, KeyAt, Detached, DirDetached, Delete, MatchSlot, View, IsFormatted;
    var writes := Delete(fat, disk, req).writes;
    DeletePath(fat, disk, l, req);
    CallKeepsInvariant(System(fat, disk), l, Deleting(req));
    DeleteViewAt(fat, disk, l, req, |writes|);
    assert writes[..|writes|] == writes;
  }

  /** Deleting a key that exists takes exactly that key if and only if no earlier slot holds an entry with the same
      extension whose name starts with the requested one. */
  lemma DeleteTakesTheNamedKey(fat: Fat, disk: Disk, l: Layout, req: Request, i: Position)
    requires Wf(fat, disk, l) && req.parent in l.depth && Named(req)
    requires i >= 2 && TableOf(disk[req.parent])[i].HasKey(req.name, req.ext)
    ensures MatchSlot(TableOf(disk[req.parent]), req.name, req.ext, 2) < SLOT_COUNT
    ensures KeyAt(TablesOf(disk, l.depth.Keys), Victim(disk, req)) == KeyOf(req) <==>
            forall j | 2 <= j < i :: !Matches(TableOf(disk[req.parent])[j], req.name, req.ext)
  {
    hide TableOf, Chained, Owned, Accounted, Sized, Ranked, Headed, Homed, StartsWith;
    var t, ts := TableOf(disk[req.parent]), TablesOf(disk, l.depth.Keys);
    assert Matches(t[i], req.name, req.ext) by {
      assert StartsWith(req.name, req.name) by {
        StartsWithItself(req.name);
      }
    }
    var slot := MatchSlot(t, req.name, req.ext, 2);
    assert slot <= i;
    NamedMatchIsNotBlank(t[slot], req.name, req.ext);
    NamedMatchIsNotBlank(t[i], req.name, req.ext);
    var s, r := Slot(req.parent, slot), Slot(req.parent, i);
    assert At(ts, s) == t[slot] && At(ts, r) == t[i];
    assert s in l.chains && r in l.chains;
  }

  lemma StartsWithItself(name: Name)
    ensures StartsWith(name, name)
  {
  }

  lemma ReadAnswers(fat: Fat, disk: Disk, l: Layout, req: Request)
    requires Wf(fat, disk, l) && Coherent(fat, disk) && req.parent in l.depth && Nonblank(req)
    ensures ReadSafe(disk, req)
    ensures var o := Read(fat, disk, req);
            o.fat == fat && ReadAnswer(TableOf(disk[req.parent]), View(disk, l), req, Response(o.code, o.data))
  {
    hide TableOf, FatOf, Inv, View, NodeAt, Contents;
    ReadIsSafe(fat, disk, l, req);
    KeyInView(fat, disk, l, KeyOf(req));
    var t, k, ts := TableOf(disk[req.parent]), KeyOf(req), TablesOf(disk, l.depth.Keys);
    if t[0].IsDir() {
      FullWhenCounted(fat, disk, l, req.parent);
      var slot := ExactSlot(t, req.name, req.ext, 0);
      if 2 <= slot < SLOT_COUNT {
        var s := Slot(req.parent, slot);
        assert TableOf(disk[k.dir])[s.pos].HasKey(k.name, k.ext);
        assert View(disk, l)[k] == NodeAt(disk, ts, l.chains, s);
        assert At(ts, s) == t[slot];
        NodeShape(fat, disk, ts, l, s);
      }
    }
  }

  lemma NodeShape(fat: Fat, disk: Disk, ts: Tables, l: Layout, s: Slot)
    requires Inv(fat, ts, l) && s in l.chains
    ensures if At(ts, s).IsDir() then NodeAt(disk, ts, l.chains, s) == Directory(l.chains[s][0])
            else NodeAt(disk, ts, l.chains, s).File?
                 && |NodeAt(disk, ts, l.chains, s).bytes| == At(ts, s).filesize
                 && NodeAt(disk, ts, l.chains, s).bytes <= Contents(disk, l.chains[s])
  {
    hide Entered, DistinctKeys, Headed, Owned, Accounted, Ranked, Homed, At;
  }

  // ---------- runs ----------

  ghost function Reply(sys: System, l: Layout, call: Call): Response
    requires Good(sys, l) && Allowed(sys, l, call)
  {
    CallIsSafe(sys, l, call);
    Response(Effect(sys, l, call).code, if call.Reading? then Read(sys.fat, sys.disk, call.req).data else [])
  }

  /** The answer of any call is right for the map before it and the map after it. */
  ghost predicate Answer(sys: System, m: Files, call: Call, r: Response, m': Files)
    requires call.req.parent < CLUSTER_MAP_SIZE
  {
    var t := TableOf(sys.disk[call.req.parent]);
    match call
    case Writing(req, data) => WriteAnswer(sys.fat, t, m, req, data, r.code, m')
    case Deleting(req) => DeleteAnswer(t, m, req, r.code, m')
    case Reading(req) => m' == m && (Nonblank(req) ==> ReadAnswer(t, m, req, r))
  }

  /** Every call simulates its operation on the map. */
  lemma CallSimulates(sys: System, l: Layout, call: Call)
    requires Good(sys, l) && Allowed(sys, l, call) && Completes(sys, l, call)
    ensures var (sys', l') := Step(sys, l, Returned(call));
            Answer(sys, View(sys.disk, l), call, Reply(sys, l, call), View(sys'.disk, l'))
  {
    hide TableOf, FatOf, Inv, View, WriteAnswer, DeleteAnswer, ReadAnswer, Write, Delete, Read, HitsLive, ReadSafe,
         IsFormatted;
    CallKeepsInvariant(sys, l, call);
    CallIsSafe(sys, l, call);
    match call {
      case Writing(req, data) => WriteAnswers(sys.fat, sys.disk, l, req, data);
      case Deleting(req) => DeleteAnswers(sys.fat, sys.disk, l, req);
      case Reading(req) =>
        if Nonblank(req) {
          ReadAnswers(sys.fat, sys.disk, l, req);
        }
        ReadChangesNothing(sys, l, call);
        ApplyNothing(sys.disk);
    }
  }
}
