/** The file system as its callers see it: a map from keys to files and directories. Every call is one step on it. */
module Refinement {
  import opened Bytes
  import opened OnDisk
  import opened Chains
  import opened BlockDevice
  import opened Operations
  import opened Ownership
  import opened Safety

  datatype Key = Key(dir: Index, name: Name, ext: Ext)

  datatype Node = File(bytes: seq<byte>) | Directory(cluster: Index)

  type Files = map<Key, Node>

  ghost function KeyAt(ts: Tables, s: Slot): Key {
    Key(s.dir, At(ts, s).name, At(ts, s).ext)
  }

  /** What an entry stands for. */
  ghost function NodeAt(disk: Disk, ts: Tables, chains: ChainMap, s: Slot): Node
    requires s in chains
  {
    if At(ts, s).IsDir() && chains[s] != [] then Directory(chains[s][0])
    else if At(ts, s).filesize <= CLUSTER_SIZE * |chains[s]|
      then File(Contents(disk, chains[s])[..At(ts, s).filesize])
      else File([])
  }

  ghost function SlotOf(ts: Tables, chains: ChainMap, k: Key): Slot
    requires exists s :: s in chains && KeyAt(ts, s) == k
  {
    var s :| s in chains && KeyAt(ts, s) == k;
    s
  }

  ghost function FilesOf(disk: Disk, ts: Tables, chains: ChainMap): Files {
    map k | k in (set s | s in chains :: KeyAt(ts, s)) :: NodeAt(disk, ts, chains, SlotOf(ts, chains, k))
  }

  /** The callers' view. */
  ghost function View(disk: Disk, l: Layout): Files {
    FilesOf(disk, TablesOf(disk, l.depth.Keys), l.chains)
  }

  /** The view binds the key of every live entry to what the entry stands for, and nothing else. */
  lemma ViewBinds(disk: Disk, ts: Tables, chains: ChainMap)
    requires DistinctKeys(ts, chains)
    ensures forall s | s in chains ::
              KeyAt(ts, s) in FilesOf(disk, ts, chains)
              && FilesOf(disk, ts, chains)[KeyAt(ts, s)] == NodeAt(disk, ts, chains, s)
    ensures forall k | k in FilesOf(disk, ts, chains) :: exists s :: s in chains && KeyAt(ts, s) == k
  {
    hide NodeAt, At;
    forall s | s in chains
      ensures SlotOf(ts, chains, KeyAt(ts, s)) == s
    {
      var r := SlotOf(ts, chains, KeyAt(ts, s));
      assert r in chains && KeyAt(ts, r) == KeyAt(ts, s);
      assert At(ts, s).HasKey(At(ts, r).name, At(ts, r).ext);
    }
  }

  /** A map with these two properties is the view. */
  lemma ViewUnique(disk: Disk, ts: Tables, chains: ChainMap, m: Files)
    requires DistinctKeys(ts, chains)
    requires forall s | s in chains :: KeyAt(ts, s) in m && m[KeyAt(ts, s)] == NodeAt(disk, ts, chains, s)
    requires forall k | k in m :: exists s :: s in chains && KeyAt(ts, s) == k
    ensures FilesOf(disk, ts, chains) == m
  {
    hide NodeAt, At, KeyAt, DistinctKeys;
    ViewBinds(disk, ts, chains);
    var v := FilesOf(disk, ts, chains);
    hide FilesOf;
    assert v.Keys == m.Keys;
  }

  lemma {:induction false} ContentsFrame(disk: Disk, disk': Disk, chain: seq<Index>)
    requires forall c | c in chain :: disk'[c] == disk[c]
    ensures Contents(disk', chain) == Contents(disk, chain)
    decreases |chain|
  {
    if chain != [] {
      var n := |chain| - 1;
      assert chain[n] in chain;
      ContentsFrame(disk, disk', chain[..n]);
    }
  }

  lemma LastDataWrite(disk: Disk, chain: seq<Index>, data: seq<byte>)
    requires chain != [] && |data| >= CLUSTER_SIZE * |chain|
    requires WritesFit(disk, DataWrites(chain[..|chain| - 1], data))
    ensures WritesFit(disk, DataWrites(chain, data))
    ensures var n := |chain| - 1;
            Apply(disk, DataWrites(chain, data))
            == Apply(disk, DataWrites(chain[..n], data))
                 [chain[n] := data[CLUSTER_SIZE * n..CLUSTER_SIZE * n + CLUSTER_SIZE]]
  {
    hide Apply;
    var n := |chain| - 1;
    ApplyOne(disk, DataWrites(chain[..n], data),
             DiskWrite(chain[n], data[CLUSTER_SIZE * n..CLUSTER_SIZE * n + CLUSTER_SIZE]));
  }

  lemma LastCluster(disk: Disk, chain: seq<Index>)
    requires chain != []
    ensures Contents(disk, chain) == Contents(disk, chain[..|chain| - 1]) + disk[chain[|chain| - 1]]
  {
  }

  lemma NoData(disk: Disk, data: seq<byte>)
    ensures DataWrites([], data) == [] && Apply(disk, []) == disk && Contents(disk, []) == []
  {
  }

  /** Writing a chain cluster by cluster and reading it back in the same order gives the data back; no other cluster
      changes. */
  lemma {:induction false} ContentsOfDataWrites(disk: Disk, chain: seq<Index>, data: seq<byte>)
    requires |data| >= CLUSTER_SIZE * |chain| && Distinct(chain)
    ensures WritesFit(disk, DataWrites(chain, data))
    ensures Contents(Apply(disk, DataWrites(chain, data)), chain) == data[..CLUSTER_SIZE * |chain|]
    ensures forall c: nat | c < |disk| && c !in chain :: Apply(disk, DataWrites(chain, data))[c] == disk[c]
    decreases |chain|
  {
    hide Apply, Contents, DataWrites;
    if chain == [] {
      NoData(disk, data);
    } else {
      var n := |chain| - 1;
      ContentsOfDataWrites(disk, chain[..n], data);
      LastDataWrite(disk, chain, data);
      var before, after := Apply(disk, DataWrites(chain[..n], data)), Apply(disk, DataWrites(chain, data));
      ContentsFrame(before, after, chain[..n]);
      LastCluster(after, chain);
      assert chain == chain[..n] + [chain[n]];
    }
  }

  lemma {:induction false} ContentsJoined(disk: Disk, a: seq<Index>, b: seq<Index>)
    ensures Contents(disk, a + b) == Contents(disk, a) + Contents(disk, b)
    decreases |b|
  {
    hide Contents;
    if b == [] {
      NoData(disk, []);
      assert a + b == a;
    } else {
      var n := |b| - 1;
      ContentsJoined(disk, a, b[..n]);
      LastCluster(disk, b);
      LastCluster(disk, a + b);
      assert (a + b)[..|a + b| - 1] == a + b[..n];
    }
  }

  lemma {:induction false} FirstDataWrites(chain: seq<Index>, data: seq<byte>, n: nat)
    requires n <= |chain| && |data| >= CLUSTER_SIZE * |chain|
    ensures n <= |DataWrites(chain, data)| && DataWrites(chain, data)[..n] == DataWrites(chain[..n], data)
    decreases |chain|
  {
    DataWritesTargets(chain, data);
    if n == |chain| {
      assert chain[..n] == chain;
    } else {
      FirstDataWrites(chain[..|chain| - 1], data, n);
      assert chain[..|chain| - 1][..n] == chain[..n];
    }
  }

  // ---------- how the steps change the view ----------

  lemma NodeFrame(disk: Disk, disk': Disk, ts: Tables, ts': Tables, chains: ChainMap, chains': ChainMap, s: Slot)
    requires s in chains && s in chains' && chains'[s] == chains[s] && At(ts', s) == At(ts, s)
    requires At(ts, s).IsDir() || forall c | c in chains[s] :: disk'[c] == disk[c]
    ensures NodeAt(disk', ts', chains', s) == NodeAt(disk, ts, chains, s)
  {
    hide At, Contents;
    if !At(ts, s).IsDir() {
      ContentsFrame(disk, disk', chains[s]);
    } else if chains[s] == [] {
      ContentsFrame(disk, disk', []);
    }
  }

  /** The old entries keep their keys and nodes. */
  ghost predicate Keeps(disk: Disk, disk': Disk, ts: Tables, ts': Tables, chains: ChainMap, chains': ChainMap) {
    forall s | s in chains && s in chains' ::
      KeyAt(ts', s) == KeyAt(ts, s) && NodeAt(disk', ts', chains', s) == NodeAt(disk, ts, chains, s)
  }

  lemma ViewKept(disk: Disk, disk': Disk, ts: Tables, ts': Tables, chains: ChainMap)
    requires DistinctKeys(ts, chains) && DistinctKeys(ts', chains) && Keeps(disk, disk', ts, ts', chains, chains)
    ensures FilesOf(disk', ts', chains) == FilesOf(disk, ts, chains)
  {
    hide NodeAt, At, KeyAt, DistinctKeys, FilesOf;
    ViewBinds(disk, ts, chains);
    ViewUnique(disk', ts', chains, FilesOf(disk, ts, chains));
  }

  lemma KeyIsNew(disk: Disk, disk': Disk, ts: Tables, ts': Tables, chains: ChainMap, s: Slot, chain: seq<Index>)
    requires DistinctKeys(ts, chains) && DistinctKeys(ts', chains[s := chain]) && s !in chains
    requires Keeps(disk, disk', ts, ts', chains, chains[s := chain])
    ensures KeyAt(ts', s) !in FilesOf(disk, ts, chains)
  {
    KeysDiffer(ts', chains[s := chain]);
    hide NodeAt, At, KeyAt, DistinctKeys, FilesOf;
    ViewBinds(disk, ts, chains);
    forall r | r in chains
      ensures KeyAt(ts, r) != KeyAt(ts', s)
    {
      assert KeyAt(ts', r) == KeyAt(ts, r);
    }
  }

  lemma ViewAttached(disk: Disk, disk': Disk, ts: Tables, ts': Tables, chains: ChainMap, s: Slot, chain: seq<Index>)
    requires DistinctKeys(ts, chains) && DistinctKeys(ts', chains[s := chain]) && s !in chains
    requires Keeps(disk, disk', ts, ts', chains, chains[s := chain])
    ensures KeyAt(ts', s) !in FilesOf(disk, ts, chains)
    ensures FilesOf(disk', ts', chains[s := chain])
            == FilesOf(disk, ts, chains)[KeyAt(ts', s) := NodeAt(disk', ts', chains[s := chain], s)]
  {
    hide NodeAt, At, KeyAt, DistinctKeys, FilesOf;
    KeyIsNew(disk, disk', ts, ts', chains, s, chain);
    ViewBinds(disk, ts, chains);
    var v, k, chains' := FilesOf(disk, ts, chains), KeyAt(ts', s), chains[s := chain];
    var m := v[k := NodeAt(disk', ts', chains', s)];
    forall r | r in chains'
      ensures KeyAt(ts', r) in m && m[KeyAt(ts', r)] == NodeAt(disk', ts', chains', r)
    {
      assert r != s ==> KeyAt(ts', r) == KeyAt(ts, r) && KeyAt(ts, r) in v;
    }
    forall key | key in m
      ensures exists r :: r in chains' && KeyAt(ts', r) == key
    {
      if key != k {
        var r :| r in chains && KeyAt(ts, r) == key;
        assert r in chains' && KeyAt(ts', r) == key;
      } else {
        assert s in chains';
      }
    }
    ViewUnique(disk', ts', chains', m);
  }

  lemma KeysDiffer(ts: Tables, chains: ChainMap)
    requires DistinctKeys(ts, chains)
    ensures forall s, r | s in chains && r in chains && s != r :: KeyAt(ts, s) != KeyAt(ts, r)
  {
    hide At;
    forall s, r | s in chains && r in chains && s != r
      ensures KeyAt(ts, s) != KeyAt(ts, r)
    {
      assert At(ts, s).HasKey(At(ts, r).name, At(ts, r).ext)
             <==> KeyAt(ts, s).name == KeyAt(ts, r).name && KeyAt(ts, s).ext == KeyAt(ts, r).ext;
    }
  }

  lemma ViewDetached(disk: Disk, disk': Disk, ts: Tables, ts': Tables, chains: ChainMap, s: Slot)
    requires DistinctKeys(ts, chains) && DistinctKeys(ts', chains - {s}) && s in chains
    requires Keeps(disk, disk', ts, ts', chains, chains - {s})
    ensures FilesOf(disk', ts', chains - {s}) == FilesOf(disk, ts, chains) - {KeyAt(ts, s)}
  {
    KeysDiffer(ts, chains);
    hide NodeAt, At, KeyAt, DistinctKeys, FilesOf;
    ViewBinds(disk, ts, chains);
    var v, k, chains' := FilesOf(disk, ts, chains), KeyAt(ts, s), chains - {s};
    forall r | r in chains'
      ensures KeyAt(ts', r) in v - {k} && (v - {k})[KeyAt(ts', r)] == NodeAt(disk', ts', chains', r)
    {
      assert r in chains && KeyAt(ts', r) == KeyAt(ts, r);
    }
    forall key | key in v - {k}
      ensures exists r :: r in chains' && KeyAt(ts', r) == key
    {
      var r :| r in chains && KeyAt(ts, r) == key;
      assert r in chains' && KeyAt(ts', r) == key;
    }
    ViewUnique(disk', ts', chains', v - {k});
  }

  /** The clusters of files are nobody's directory. */
  lemma FileChainsAvoidDirectories(fat: Fat, ts: Tables, l: Layout)
    requires Inv(fat, ts, l)
    ensures forall s, c: Index {:trigger c in l.chains[s]} | s in l.chains && c in l.chains[s] && !At(ts, s).IsDir() ::
              c !in l.depth && c > ROOT_CLUSTER
  {
    hide Chained, DistinctKeys, Headed, Sized, Ranked, Entered, At;
    HomesEntered(ts, l.home, l.chains);
    DirectoriesKnown(fat, ts, l);
    ChainsOwnTheirClusters(fat, ts, l);
  }

  /** The disk changed only outside the chains of the entries that both layouts have. */
  lemma KeepsWhatIsElsewhere(disk: Disk, disk': Disk, fat: Fat, ts: Tables, ts': Tables, l: Layout, chains': ChainMap,
                             touched: set<Index>)
    requires Inv(fat, ts, l)
    requires forall s | s in l.chains && s in chains' :: chains'[s] == l.chains[s] && At(ts', s) == At(ts, s)
    requires forall c: Index | c !in touched && c > ROOT_CLUSTER && c !in l.depth :: disk'[c] == disk[c]
    requires forall s, c: Index {:trigger c in l.chains[s]} | s in l.chains && s in chains' && c in l.chains[s] ::
               c !in touched
    ensures Keeps(disk, disk', ts, ts', l.chains, chains')
  {
    FileChainsAvoidDirectories(fat, ts, l);
    hide Inv, NodeAt, At;
    forall s | s in l.chains && s in chains'
      ensures NodeAt(disk', ts', chains', s) == NodeAt(disk, ts, l.chains, s)
    {
      NodeFrame(disk, disk', ts, ts', l.chains, chains', s);
    }
  }

  // ---------- what each call does to the view ----------

  ghost function KeyOf(req: Request): Key
    requires req.parent < CLUSTER_MAP_SIZE
  {
    Key(req.parent, req.name, req.ext)
  }

  /** A disk on which the table and the parent directory have been written, whatever the data clusters hold so far: the
      old entries keep what they stood for. */
  lemma FileKeeps(fat: Fat, disk: Disk, l: Layout, req: Request, data: seq<byte>, d: Disk)
    requires Creates(fat, disk, l, req, data) && req.bufferSize > 0
    requires FreeSlot(TableOf(disk[req.parent]), 0) < SLOT_COUNT && FileChain(fat, req) != []
    requires NewSlot(disk, req).dir in TablesOf(disk, l.depth.Keys)
    requires forall c: Index | c !in FileChain(fat, req) && c > ROOT_CLUSTER && c !in l.depth :: d[c] == disk[c]
    ensures var s, ts, chain := NewSlot(disk, req), TablesOf(disk, l.depth.Keys), FileChain(fat, req);
            s !in l.chains
            && Keeps(disk, d, ts, SetSlot(ts, s, NewFileEntry(fat, disk, req)), l.chains, l.chains[s := chain])
  {
    hide TableOf, FatOf, FreeSlot, FileChain, Link, SetSlot, TablesOf, DataWrites, Write, NewFileEntry, At, Inv, Keeps,
         IsChain, Creates, FileLayout;
    FileSteps(fat, disk, l, req, data);
    FreshEntry(fat, disk, l, req, data);
    CreatesIsWf(fat, disk, l, req, data);
    var chain, s, e := FileChain(fat, req), NewSlot(disk, req), NewFileEntry(fat, disk, req);
    var ts := TablesOf(disk, l.depth.Keys);
    AtSetSlot(ts, s, e);
    ChainsOwnTheirClusters(fat, ts, l);
    KeepsWhatIsElsewhere(disk, d, fat, ts, SetSlot(ts, s, e), l, l.chains[s := chain], set c | c in chain);
  }

  lemma CreatesIsWf(fat: Fat, disk: Disk, l: Layout, req: Request, data: seq<byte>)
    requires Creates(fat, disk, l, req, data)
    ensures Wf(fat, disk, l) && req.parent in l.depth
  {
    hide Wf, Write;
  }

  /** So the view of such a disk has the new key, bound to what the chain holds by now. */
  lemma FileView(fat: Fat, disk: Disk, l: Layout, req: Request, data: seq<byte>, d: Disk)
    requires Creates(fat, disk, l, req, data) && req.bufferSize > 0
    requires FreeSlot(TableOf(disk[req.parent]), 0) < SLOT_COUNT && FileChain(fat, req) != []
    requires NewSlot(disk, req).dir in l.depth
    requires TablesOf(d, l.depth.Keys)
             == SetSlot(TablesOf(disk, l.depth.Keys), NewSlot(disk, req), NewFileEntry(fat, disk, req))
    requires forall c: Index | c !in FileChain(fat, req) && c > ROOT_CLUSTER && c !in l.depth :: d[c] == disk[c]
    ensures KeyOf(req) !in View(disk, l)
    ensures req.bufferSize <= |Contents(d, FileChain(fat, req))|
    ensures View(d, FileLayout(fat, disk, l, req))
            == View(disk, l)[KeyOf(req) := File(Contents(d, FileChain(fat, req))[..req.bufferSize])]
  {
    hide TableOf, FatOf, FreeSlot, FileChain, Link, SetSlot, TablesOf, DataWrites, Write, NewFileEntry, At, FilesOf,
         Contents, NodeAt, Keeps, IsChain, Creates;
    FileSteps(fat, disk, l, req, data);
    FileChainFacts(fat, req);
    FileKeeps(fat, disk, l, req, data, d);
    CreatesIsWf(fat, disk, l, req, data);
    var chain, s, e := FileChain(fat, req), NewSlot(disk, req), NewFileEntry(fat, disk, req);
    var ts := TablesOf(disk, l.depth.Keys);
    var ts' := SetSlot(ts, s, e);
    AtSetSlot(ts, s, e);
    FreshEntry(fat, disk, l, req, data);
    InvKeys(fat, ts, l);
    InvKeys(Link(fat, chain), ts', FileLayout(fat, disk, l, req));
    hide Inv, DistinctKeys;
    ViewAttached(disk, d, ts, ts', l.chains, s, chain);
    NodeOfFile(d, ts', l.chains[s := chain], s);
  }

  lemma FreshEntry(fat: Fat, disk: Disk, l: Layout, req: Request, data: seq<byte>)
    requires Creates(fat, disk, l, req, data) && req.bufferSize > 0
    ensures FreeSlot(TableOf(disk[req.parent]), 0) < SLOT_COUNT && FileChain(fat, req) != []
    ensures var s, e := NewSlot(disk, req), NewFileEntry(fat, disk, req);
            && s !in l.chains && !e.IsDir()
            && e.name == req.name && e.ext == req.ext && e.filesize == req.bufferSize
  {
    hide TableOf, FatOf, FreeSlot, ExactSlot, FileChain, Link, Inv, DataWrites, Write;
    FilePath(fat, disk, l, req, data);
    InTables(disk, l.depth.Keys);
    FreshSlot(fat, TablesOf(disk, l.depth.Keys), l, req.parent, req.name, req.ext, NewFileEntry(fat, disk, req));
  }

  lemma NodeOfFile(disk: Disk, ts: Tables, chains: ChainMap, s: Slot)
    requires s in chains && !At(ts, s).IsDir() && At(ts, s).filesize <= CLUSTER_SIZE * |chains[s]|
    ensures NodeAt(disk, ts, chains, s) == File(Contents(disk, chains[s])[..At(ts, s).filesize])
  {
  }

  /** The disk of a file write from its second write on: only the chain and the directory side of the disk differ. */
  lemma FileWritesElsewhere(fat: Fat, disk: Disk, l: Layout, req: Request, data: seq<byte>, n: nat)
    requires Creates(fat, disk, l, req, data) && req.bufferSize > 0
    ensures FreeSlot(TableOf(disk[req.parent]), 0) < SLOT_COUNT && FileChain(fat, req) != []
    ensures |DataWrites(FileChain(fat, req), data)| == |FileChain(fat, req)|
    ensures n <= |FileChain(fat, req)| ==>
              var writes := FileHeader(fat, disk, req) + DataWrites(FileChain(fat, req), data)[..n];
              && WritesFit(disk, writes)
              && NewSlot(disk, req).dir in l.depth
              && TablesOf(Apply(disk, writes), l.depth.Keys)
                 == SetSlot(TablesOf(disk, l.depth.Keys), NewSlot(disk, req), NewFileEntry(fat, disk, req))
              && forall c: Index | c !in FileChain(fat, req) && c > ROOT_CLUSTER && c !in l.depth ::
                   Apply(disk, writes)[c] == disk[c]
  {
    hide TableOf, FatOf, FreeSlot, FileChain, Link, SetSlot, TablesOf, DataWrites, NewFileEntry, Inv, TableBytes,
         FatBytes;
    FilePath(fat, disk, l, req, data);
    FileSteps(fat, disk, l, req, data);
    FileHeaderApplied(fat, disk, l, req, data);
    hide Write, Creates;
    var chain, header := FileChain(fat, req), FileHeader(fat, disk, req);
    DataWritesTargets(chain, data);
    if n <= |chain| {
      var some := DataWrites(chain, data)[..n];
      var writes := header + some;
      assert forall w | w in some :: w in DataWrites(chain, data);
      ApplyConcat(disk, header, some);
      WritesElsewhere(Apply(disk, header), some, l);
      forall c: Index | c !in chain && c > ROOT_CLUSTER && c !in l.depth
        ensures Apply(disk, writes)[c] == disk[c]
      {
        ApplyElsewhere(disk, writes, c);
      }
    }
  }

  /** A successful file write binds a key that was free to the first `bufferSize` bytes of the buffer, and touches no
      other key. */
  lemma FileWriteRefines(fat: Fat, disk: Disk, l: Layout, req: Request, data: seq<byte>)
    requires Creates(fat, disk, l, req, data) && req.bufferSize > 0
    ensures FreeSlot(TableOf(disk[req.parent]), 0) < SLOT_COUNT && FileChain(fat, req) != []
    ensures WritesFit(disk, Write(fat, disk, req, data).writes) && req.bufferSize <= |data|
    ensures KeyOf(req) !in View(disk, l)
    ensures View(Apply(disk, Write(fat, disk, req, data).writes), FileLayout(fat, disk, l, req))
            == View(disk, l)[KeyOf(req) := File(data[..req.bufferSize])]
  {
    hide TableOf, FatOf, FreeSlot, FileChain, DataWrites, Inv, View, FileLayout, FileHeader, Write, TornBytes, Apply;
    FileHeaderIs(fat, disk, l, req, data);
    FileChainFacts(fat, req);
    FreshEntry(fat, disk, l, req, data);
    var chain := FileChain(fat, req);
    DataWritesTargets(chain, data);
    var rest := DataWrites(chain, data);
    assert rest[..|chain|] == rest;
    TornView(fat, disk, l, req, data, |chain|);
    TornIsWholeIff(disk, chain, data, |chain|, req.bufferSize);
  }

  lemma FileHeaderIs(fat: Fat, disk: Disk, l: Layout, req: Request, data: seq<byte>)
    requires Creates(fat, disk, l, req, data) && req.bufferSize > 0
    ensures FreeSlot(TableOf(disk[req.parent]), 0) < SLOT_COUNT && FileChain(fat, req) != []
    ensures |data| >= CLUSTER_SIZE * |FileChain(fat, req)|
    ensures Write(fat, disk, req, data).writes == FileHeader(fat, disk, req) + DataWrites(FileChain(fat, req), data)
  {
    hide TableOf, FatOf, FreeSlot, FileChain, Link, DataWrites, NewFileEntry, Inv, TableBytes, FatBytes;
    FilePath(fat, disk, l, req, data);
  }

  /** A file of this size on clusters of which the first n have been written: that much of the buffer, and behind it
      whatever the other clusters held before. */
  ghost function TornBytes(disk: Disk, chain: seq<Index>, data: seq<byte>, n: nat, size: nat): (bytes: seq<byte>)
    requires n <= |chain| && CLUSTER_SIZE * n <= |data| && size <= CLUSTER_SIZE * |chain|
    ensures |bytes| == size
  {
    (data[..CLUSTER_SIZE * n] + Contents(disk, chain[n..]))[..size]
  }

  /** The clusters of a new file after the table, the entry and n of its clusters have been written. */
  lemma TornContents(fat: Fat, disk: Disk, l: Layout, req: Request, data: seq<byte>, n: nat)
    requires Creates(fat, disk, l, req, data) && req.bufferSize > 0
    requires FreeSlot(TableOf(disk[req.parent]), 0) < SLOT_COUNT && FileChain(fat, req) != []
    requires n <= |FileChain(fat, req)| && |data| >= CLUSTER_SIZE * |FileChain(fat, req)|
    requires n <= |DataWrites(FileChain(fat, req), data)|
    ensures var chain := FileChain(fat, req);
            var writes := FileHeader(fat, disk, req) + DataWrites(chain, data)[..n];
            && WritesFit(disk, writes)
            && Contents(Apply(disk, writes), chain) == data[..CLUSTER_SIZE * n] + Contents(disk, chain[n..])
  {
    hide TableOf, FatOf, FreeSlot, FileChain, Link, DataWrites, NewFileEntry, Inv, TableBytes, FatBytes, Contents,
         Apply, Write, TablesOf, SetSlot;
    HeaderSparesChain(fat, disk, l, req, data);
    FileChainFacts(fat, req);
    hide Creates;
    var chain, header := FileChain(fat, req), FileHeader(fat, disk, req);
    FirstDataWrites(chain, data, n);
    PartlyWritten(disk, Apply(disk, header), chain, data, n);
    ApplyConcat(disk, header, DataWrites(chain[..n], data));
  }

  lemma HeaderSparesChain(fat: Fat, disk: Disk, l: Layout, req: Request, data: seq<byte>)
    requires Creates(fat, disk, l, req, data) && req.bufferSize > 0
    ensures FreeSlot(TableOf(disk[req.parent]), 0) < SLOT_COUNT && FileChain(fat, req) != []
    ensures WritesFit(disk, FileHeader(fat, disk, req))
    ensures forall c | c in FileChain(fat, req) :: Apply(disk, FileHeader(fat, disk, req))[c] == disk[c]
  {
    hide TableOf, FatOf, FreeSlot, FileChain, Link, NewFileEntry, Inv, TableBytes, FatBytes, Apply, Write, TablesOf,
         SetSlot;
    FileSteps(fat, disk, l, req, data);
    FileHeaderApplied(fat, disk, l, req, data);
    hide Creates;
    forall c | c in FileChain(fat, req)
      ensures Apply(disk, FileHeader(fat, disk, req))[c] == disk[c]
    {
      ApplyElsewhere(disk, FileHeader(fat, disk, req), c);
    }
  }

  /** Writing the first n clusters of a chain. */
  lemma PartlyWritten(disk: Disk, before: Disk, chain: seq<Index>, data: seq<byte>, n: nat)
    requires Distinct(chain) && n <= |chain| && |data| >= CLUSTER_SIZE * |chain|
    requires forall c | c in chain :: before[c] == disk[c]
    ensures WritesFit(before, DataWrites(chain[..n], data))
    ensures Contents(Apply(before, DataWrites(chain[..n], data)), chain)
            == data[..CLUSTER_SIZE * n] + Contents(disk, chain[n..])
  {
    hide Contents, Apply, DataWrites;
    var first, rest := chain[..n], chain[n..];
    ContentsOfDataWrites(before, first, data);
    var d := Apply(before, DataWrites(first, data));
    assert first + rest == chain;
    ContentsJoined(d, first, rest);
    forall c | c in rest
      ensures d[c] == disk[c]
    {
      assert c in chain && c !in first;
    }
    ContentsFrame(disk, d, rest);
  }

  lemma TornView(fat: Fat, disk: Disk, l: Layout, req: Request, data: seq<byte>, n: nat)
    requires Creates(fat, disk, l, req, data) && req.bufferSize > 0
    requires FreeSlot(TableOf(disk[req.parent]), 0) < SLOT_COUNT && FileChain(fat, req) != []
    requires n <= |FileChain(fat, req)| && |data| >= CLUSTER_SIZE * |FileChain(fat, req)|
    requires n <= |DataWrites(FileChain(fat, req), data)| && req.bufferSize <= CLUSTER_SIZE * |FileChain(fat, req)|
    ensures var chain := FileChain(fat, req);
            var writes := FileHeader(fat, disk, req) + DataWrites(chain, data)[..n];
            && WritesFit(disk, writes)
            && KeyOf(req) !in View(disk, l)
            && View(Apply(disk, writes), FileLayout(fat, disk, l, req))
               == View(disk, l)[KeyOf(req) := File(TornBytes(disk, chain, data, n, req.bufferSize))]
  {
    hide TableOf, FatOf, FreeSlot, FileChain, Link, SetSlot, TablesOf, DataWrites, NewFileEntry, FileLayout, Contents,
         Write, View, Inv, FileHeader, Apply;
    FileWritesElsewhere(fat, disk, l, req, data, n);
    TornContents(fat, disk, l, req, data, n);
    FileView(fat, disk, l, req, data,
             Apply(disk, FileHeader(fat, disk, req) + DataWrites(FileChain(fat, req), data)[..n]));
  }

  /** After a crash inside a file write the new key is absent until the entry has been written, and from then on bound
      to the bytes that have been written so far with the clusters' old bytes behind them; every other key is
      untouched. */
  lemma FileCrashView(fat: Fat, disk: Disk, l: Layout, req: Request, data: seq<byte>, k: nat)
    requires Creates(fat, disk, l, req, data) && req.bufferSize > 0 && Coherent(fat, disk)
    requires k <= |Write(fat, disk, req, data).writes|
    ensures WritesFit(disk, Write(fat, disk, req, data).writes)
    ensures FreeSlot(TableOf(disk[req.parent]), 0) < SLOT_COUNT
    ensures var chain := FileChain(fat, req);
            |Write(fat, disk, req, data).writes| == 2 + |chain|
            && CLUSTER_SIZE * |chain| <= |data| && req.bufferSize <= CLUSTER_SIZE * |chain|
    ensures var d := AfterWrites(disk, Write(fat, disk, req, data).writes, k);
            if k == 0 then View(d, l) == View(disk, l)
            else if k == 1 then View(d, Reserved(l, FileChain(fat, req))) == View(disk, l)
            else View(d, FileLayout(fat, disk, l, req))
                 == View(disk, l)[KeyOf(req) := File(TornBytes(disk, FileChain(fat, req), data, k - 2, req.bufferSize))]
  {
    hide TableOf, FatOf, FreeSlot, FileChain, Link, SetSlot, TablesOf, DataWrites, NewFileEntry, TableBytes, FatBytes,
         FileLayout, Contents, Write, DistinctKeys, FilesOf, Inv, TornBytes;
    FileCrash(fat, disk, l, req, data, k);
    FileHeaderIs(fat, disk, l, req, data);
    FileHeaderApplied(fat, disk, l, req, data);
    FileChainFacts(fat, req);
    var writes, header, chain := Write(fat, disk, req, data).writes, FileHeader(fat, disk, req), FileChain(fat, req);
    var d := AfterWrites(disk, writes, k);
    DataWritesTargets(chain, data);
    if k == 0 {
      assert writes[..0] == [];
    } else if k == 1 {
      assert writes[..1] == header[..1];
      ReservedView(disk, d, fat, l, header[0], chain);
    } else {
      assert writes[..k] == header + DataWrites(chain, data)[..k - 2];
      TornView(fat, disk, l, req, data, k - 2);
    }
  }

  /** The file is whole when no byte of it is left to be written, or those that are left were there already. */
  lemma TornIsWholeIff(disk: Disk, chain: seq<Index>, data: seq<byte>, n: nat, size: nat)
    requires n <= |chain| && CLUSTER_SIZE * |chain| <= |data| && size <= CLUSTER_SIZE * |chain|
    ensures TornBytes(disk, chain, data, n, size) == data[..size] <==>
            var done := CLUSTER_SIZE * n;
            size <= done || Contents(disk, chain[n..])[..size - done] == data[done..size]
  {
    hide Contents;
    var done, held := CLUSTER_SIZE * n, Contents(disk, chain[n..]);
    if size <= done {
      assert (data[..done] + held)[..size] == data[..size];
    } else {
      assert (data[..done] + held)[..size] == data[..done] + held[..size - done];
      assert data[..size] == data[..done] + data[done..size];
      assert (data[..done] + held[..size - done])[done..] == held[..size - done];
      assert data[..size][done..] == data[done..size];
    }
  }

  /** Writing the table alone changes no key. */
  lemma ReservedView(disk: Disk, d: Disk, fat: Fat, l: Layout, w: DiskWrite, chain: seq<Index>)
    requires Wf(fat, disk, l) && w.cluster == FAT_CLUSTER && d == Apply(disk, [w])
    requires TablesOf(d, l.depth.Keys) == TablesOf(disk, l.depth.Keys)
    ensures View(d, Reserved(l, chain)) == View(disk, l)
  {
    var ts := TablesOf(disk, l.depth.Keys);
    hide TableOf, TablesOf, NodeAt, KeyAt, At, FilesOf;
    forall c: Index | c > ROOT_CLUSTER
      ensures d[c] == disk[c]
    {
      ApplyElsewhere(disk, [w], c);
    }
    KeepsWhatIsElsewhere(disk, d, fat, ts, ts, l, l.chains, {});
    assert DistinctKeys(ts, l.chains);
    ViewKept(disk, d, ts, ts, l.chains);
  }

  /** The view of a disk on which a new directory has been entered, whatever first two slots its table has so far. */
  lemma DirView(fat: Fat, disk: Disk, l: Layout, req: Request, data: seq<byte>, d: Disk, t: Table)
    requires Creates(fat, disk, l, req, data) && req.bufferSize == 0
    requires FreeSlot(TableOf(disk[req.parent]), 0) < SLOT_COUNT && FreeClusters(fat) != []
    requires NoEntries(t) && (!t[0].IsDir() || Initialised(t, FreeClusters(fat)[0], req.parent))
    requires NewSlot(disk, req).dir in l.depth
    requires var c := FreeClusters(fat)[0];
             && TablesOf(d, l.depth.Keys + {c})
                == SetSlot(TablesOf(disk, l.depth.Keys)[c := t], NewSlot(disk, req), NewDirEntry(fat, disk, req))
             && (forall a: Index | a != c && a > ROOT_CLUSTER && a !in l.depth :: d[a] == disk[a])
    ensures KeyOf(req) !in View(disk, l)
    ensures View(d, NewDirLayout(fat, disk, l, req)) == View(disk, l)[KeyOf(req) := Directory(FreeClusters(fat)[0])]
  {
    hide TableOf, FatOf, FreeSlot, FreeClusters, SetSlot, TablesOf, Write, NewDirEntry, At, FilesOf,
         NodeAt, NoEntries, Initialised, Inv;
    DirSteps(fat, disk, l, req, data, t);
    DirPath(fat, disk, l, req, data);
    var c, s, e := FreeClusters(fat)[0], NewSlot(disk, req), NewDirEntry(fat, disk, req);
    var ts := TablesOf(disk, l.depth.Keys);
    var ts', chains' := SetSlot(ts[c := t], s, e), l.chains[s := [c]];
    AtSetSlot(ts[c := t], s, e);
    DirectoriesKnown(fat, ts, l);
    FreeIsUnaccounted(fat, ts, l, c);
    ChainsOwnTheirClusters(fat, ts, l);
    FreshDirEntry(fat, disk, l, req, data);
    forall r | r in l.chains
      ensures At(ts', r) == At(ts, r)
    {
      AtOther(ts, c, t, r);
    }
    KeepsWhatIsElsewhere(disk, d, fat, ts, ts', l, chains', {c});
    InvKeys(fat, ts, l);
    InvKeys(fat[c := END_OF_FILE], ts', NewDirLayout(fat, disk, l, req));
    ViewAttached(disk, d, ts, ts', l.chains, s, [c]);
    NodeOfDir(d, ts', chains', s);
  }

  lemma InvKeys(fat: Fat, ts: Tables, l: Layout)
    requires Inv(fat, ts, l)
    ensures DistinctKeys(ts, l.chains)
  {
  }

  lemma FreshDirEntry(fat: Fat, disk: Disk, l: Layout, req: Request, data: seq<byte>)
    requires Creates(fat, disk, l, req, data) && req.bufferSize == 0
    ensures FreeSlot(TableOf(disk[req.parent]), 0) < SLOT_COUNT && FreeClusters(fat) != []
    ensures var s, e := NewSlot(disk, req), NewDirEntry(fat, disk, req);
            s !in l.chains && e.IsDir() && e.name == req.name && e.ext == req.ext
  {
    hide TableOf, FatOf, FreeSlot, ExactSlot, FreeClusters, Inv, Write;
    DirPath(fat, disk, l, req, data);
    InTables(disk, l.depth.Keys);
    FreshSlot(fat, TablesOf(disk, l.depth.Keys), l, req.parent, req.name, req.ext, NewDirEntry(fat, disk, req));
  }

  lemma NodeOfDir(disk: Disk, ts: Tables, chains: ChainMap, s: Slot)
    requires s in chains && At(ts, s).IsDir() && chains[s] != []
    ensures NodeAt(disk, ts, chains, s) == Directory(chains[s][0])
  {
  }

  /** The disk around a mkdir: only the new directory's cluster and the directory side of the disk differ. */
  lemma DirWritesElsewhere(fat: Fat, disk: Disk, l: Layout, req: Request, data: seq<byte>, k: nat)
    requires Creates(fat, disk, l, req, data) && req.bufferSize == 0
    requires k <= |Write(fat, disk, req, data).writes| && WritesFit(disk, Write(fat, disk, req, data).writes)
    ensures FreeClusters(fat) != []
    ensures forall a: Index | a != FreeClusters(fat)[0] && a > ROOT_CLUSTER && a !in l.depth ::
              AfterWrites(disk, Write(fat, disk, req, data).writes, k)[a] == disk[a]
  {
    hide TableOf, FatOf, FreeSlot, FreeClusters, Write, NewDirEntry, Inv, ChildTable, TableBytes, FatBytes;
    DirPath(fat, disk, l, req, data);
    var writes := Write(fat, disk, req, data).writes;
    forall a: Index | a != FreeClusters(fat)[0] && a > ROOT_CLUSTER && a !in l.depth
      ensures AfterWrites(disk, writes, k)[a] == disk[a]
    {
      assert forall w | w in writes :: w.cluster != a;
      assert forall w | w in writes[..k] :: w in writes;
      ApplyElsewhere(disk, writes[..k], a);
    }
  }

  /** No key lies in the directory of this cluster or is bound to it. */
  ghost predicate Unknown(m: Files, c: Index) {
    forall k | k in m :: k.dir != c && m[k] != Directory(c)
  }

  lemma FreeIsUnknown(fat: Fat, disk: Disk, l: Layout, c: Index)
    requires Wf(fat, disk, l) && fat[c] == EMPTY_ENTRY
    ensures Unknown(View(disk, l), c)
  {
    hide TableOf, TablesOf, Inv, FilesOf, At, NodeAt;
    var ts := TablesOf(disk, l.depth.Keys);
    InvKeys(fat, ts, l);
    ViewBinds(disk, ts, l.chains);
    ChainsOwnTheirClusters(fat, ts, l);
    DirectoriesKnown(fat, ts, l);
    FreeIsUnaccounted(fat, ts, l, c);
    forall k | k in View(disk, l)
      ensures k.dir != c && View(disk, l)[k] != Directory(c)
    {
      var s :| s in l.chains && KeyAt(ts, s) == k;
      NodeCluster(disk, ts, l.chains, s);
    }
  }

  lemma NodeCluster(disk: Disk, ts: Tables, chains: ChainMap, s: Slot)
    requires s in chains
    ensures NodeAt(disk, ts, chains, s).Directory? ==>
              chains[s] != [] && NodeAt(disk, ts, chains, s) == Directory(chains[s][0]) && chains[s][0] in chains[s]
  {
    hide At, Contents;
  }

  /** A successful mkdir binds a key that was free to a new directory, which is empty and no other key's, and touches no
      other key. */
  lemma MkdirRefines(fat: Fat, disk: Disk, l: Layout, req: Request, data: seq<byte>)
    requires Creates(fat, disk, l, req, data) && req.bufferSize == 0
    requires FreeClusters(fat) != [] && NoEntries(TableOf(disk[FreeClusters(fat)[0]]))
    ensures FreeSlot(TableOf(disk[req.parent]), 0) < SLOT_COUNT
    ensures WritesFit(disk, Write(fat, disk, req, data).writes)
    ensures KeyOf(req) !in View(disk, l)
    ensures View(Apply(disk, Write(fat, disk, req, data).writes), NewDirLayout(fat, disk, l, req))
            == View(disk, l)[KeyOf(req) := Directory(FreeClusters(fat)[0])]
    ensures Unknown(View(disk, l), FreeClusters(fat)[0])
  {
    hide TableOf, FatOf, FreeSlot, FreeClusters, SetSlot, TablesOf, Write, NewDirEntry, NoEntries, Initialised, Inv,
         View, NewDirLayout, ChildTable, DirHeader;
    var c := FreeClusters(fat)[0];
    var child := ChildTable(TableOf(disk[c]), req, c);
    ChildInitialised(TableOf(disk[c]), req, c);
    DirDone(fat, disk, l, req, data);
    DirPath(fat, disk, l, req, data);
    DirHeaderApplied(fat, disk, l, req, data);
    var header, s, writes := DirHeader(fat, disk, req), NewSlot(disk, req), Write(fat, disk, req, data).writes;
    ApplyOne(disk, header, DiskWrite(c, TableBytes(child)));
    TableWrite(Apply(disk, header), l.depth.Keys + {c}, c, child);
    SetSlotElsewhere(TablesOf(disk, l.depth.Keys), c, TableOf(disk[c]), child, s, NewDirEntry(fat, disk, req));
    DirWritesElsewhere(fat, disk, l, req, data, |writes|);
    assert writes[..|writes|] == writes;
    InTables(disk, l.depth.Keys);
    DirView(fat, disk, l, req, data, Apply(disk, writes), child);
    FreeIsUnknown(fat, disk, l, c);
  }

  // ---------- deleting ----------

  /** A disk on which the entry of a file or an empty directory has been blanked. */
  lemma DeletedView(fat: Fat, disk: Disk, l: Layout, s: Slot, d: Disk, ts': Tables)
    requires Wf(fat, disk, l) && s in l.chains
    requires DistinctKeys(ts', l.chains - {s})
    requires forall r | r in l.chains && r != s :: At(ts', r) == At(TablesOf(disk, l.depth.Keys), r)
    requires forall c: Index | c > ROOT_CLUSTER && c !in l.depth :: d[c] == disk[c]
    ensures FilesOf(d, ts', l.chains - {s}) == View(disk, l) - {KeyAt(TablesOf(disk, l.depth.Keys), s)}
  {
    var ts := TablesOf(disk, l.depth.Keys);
    hide TablesOf, At, NodeAt, KeyAt, FilesOf;
    InvKeys(fat, ts, l);
    hide Inv, DistinctKeys;
    KeepsWhatIsElsewhere(disk, d, fat, ts, ts', l, l.chains - {s}, {});
    ViewDetached(disk, d, ts, ts', l.chains, s);
  }

  /** Where a successful delete writes: first the parent directory, then the victim's own table if it is a directory,
      and the allocation table last. */
  lemma DeleteTargets(fat: Fat, disk: Disk, l: Layout, req: Request)
    requires Deletes(fat, disk, l, req)
    ensures MatchSlot(TableOf(disk[req.parent]), req.name, req.ext, 2) < SLOT_COUNT
    ensures var s, ts, writes := Victim(disk, req), TablesOf(disk, l.depth.Keys), Delete(fat, disk, req).writes;
            && s in l.chains && s.dir in l.depth && FAT_CLUSTER !in l.depth
            && |writes| > 0 && writes[0].cluster == s.dir
            && writes[0].data == TableBytes(TableOf(disk[s.dir])[s.pos := Blanked(At(ts, s))])
            && (forall w | w in writes :: w.cluster == FAT_CLUSTER || w.cluster in l.depth)
            && (forall j | 1 <= j < |writes| :: writes[j].cluster == FAT_CLUSTER
                  || (At(ts, s).IsDir() && |l.chains[s]| == 1 && writes[j].cluster == l.chains[s][0]))
            && (At(ts, s).IsDir() ==> |l.chains[s]| == 1 && l.chains[s][0] in l.home)
  {
    hide TableOf, FatOf, MatchSlot, Delete, Release, TableBytes, FatBytes, TablesOf, At, EmptiedTable, NoLiveChild,
         Blanked, Inv, DeleteSafe;
    DeletePath(fat, disk, l, req);
    ReservedAreNoDirectories(fat, TablesOf(disk, l.depth.Keys), l);
    DirectoriesKnown(fat, TablesOf(disk, l.depth.Keys), l);
    hide Deletes;
    var s, writes := Victim(disk, req), Delete(fat, disk, req).writes;
    if At(TablesOf(disk, l.depth.Keys), s).IsDir() {
      assert |writes| == 3 && writes[1].cluster == l.chains[s][0] && writes[2].cluster == FAT_CLUSTER;
    } else {
      assert |writes| == 2 && writes[1].cluster == FAT_CLUSTER;
    }
  }

  /** The tables of the directories that are left, once the parent's table has been written, and after that. */
  lemma TablesAfterDelete(fat: Fat, disk: Disk, l: Layout, req: Request, k: nat)
    requires Deletes(fat, disk, l, req) && 1 <= k <= |Delete(fat, disk, req).writes|
    requires WritesFit(disk, Delete(fat, disk, req).writes)
    ensures MatchSlot(TableOf(disk[req.parent]), req.name, req.ext, 2) < SLOT_COUNT
    ensures var s, ts, d := Victim(disk, req), TablesOf(disk, l.depth.Keys),
                            AfterWrites(disk, Delete(fat, disk, req).writes, k);
            && s in l.chains && s.dir in ts
            && (forall c: Index | c > ROOT_CLUSTER && c !in l.depth :: d[c] == disk[c])
            && (if At(ts, s).IsDir()
                then |l.chains[s]| == 1 && l.chains[s][0] in l.home
                     && TablesOf(d, l.depth.Keys - {l.chains[s][0]})
                        == SetSlot(ts, s, Blanked(At(ts, s))) - {l.chains[s][0]}
                else TablesOf(d, l.depth.Keys) == SetSlot(ts, s, Blanked(At(ts, s))))
  {
    hide TableOf, FatOf, MatchSlot, Delete, TableBytes, FatBytes, TablesOf, SetSlot, At, Blanked, AfterWrites,
         DeleteSafe, Wf;
    DeleteTargets(fat, disk, l, req);
    var s, ts, writes := Victim(disk, req), TablesOf(disk, l.depth.Keys), Delete(fat, disk, req).writes;
    InTables(disk, l.depth.Keys);
    forall c: Index | c > ROOT_CLUSTER && c !in l.depth
      ensures AfterWrites(disk, writes, k)[c] == disk[c]
    {
      ElsewhereAfter(disk, writes, k, c);
    }
    SlotWrite(disk, l.depth.Keys, s, Blanked(At(ts, s)));
    if At(ts, s).IsDir() {
      FewerTables(disk[s.dir := writes[0].data], l.depth.Keys, l.chains[s][0]);
      TablesAfterFirst(disk, writes, k, l.depth.Keys - {l.chains[s][0]});
    } else {
      TablesAfterFirst(disk, writes, k, l.depth.Keys);
    }
  }

  /** When only the first write goes to one of these directories, the later ones do not show in their tables. */
  lemma TablesAfterFirst(disk: Disk, writes: seq<DiskWrite>, k: nat, dirs: set<Index>)
    requires WritesFit(disk, writes) && 1 <= k <= |writes|
    requires forall j | 1 <= j < |writes| :: writes[j].cluster !in dirs
    requires writes[0].cluster < |disk|
    ensures TablesOf(AfterWrites(disk, writes, k), dirs) == TablesOf(disk[writes[0].cluster := writes[0].data], dirs)
  {
    hide Apply, TablesOf;
    assert forall w | w in writes[..k] :: w in writes;
    assert forall w | w in writes[1..k] :: w in writes;
    assert writes[0] in writes;
    assert writes[..k] == [writes[0]] + writes[1..k];
    ApplyConcat(disk, [writes[0]], writes[1..k]);
    assert [] + [writes[0]] == [writes[0]];
    NoData(disk, []);
    ApplyOne(disk, [], writes[0]);
    TablesElsewhere(disk[writes[0].cluster := writes[0].data], writes[1..k], dirs);
  }

  lemma TablesElsewhere(disk: Disk, writes: seq<DiskWrite>, dirs: set<Index>)
    requires WritesFit(disk, writes) && forall w | w in writes :: w.cluster !in dirs
    ensures TablesOf(Apply(disk, writes), dirs) == TablesOf(disk, dirs)
  {
    hide TableOf, Apply;
    forall d | d in dirs
      ensures Apply(disk, writes)[d] == disk[d]
    {
      ApplyElsewhere(disk, writes, d);
    }
  }

  /** From the first disk write of a successful delete on, exactly the key of the entry it matched is gone. */
  lemma DeleteViewAt(fat: Fat, disk: Disk, l: Layout, req: Request, k: nat)
    requires Deletes(fat, disk, l, req) && 1 <= k <= |Delete(fat, disk, req).writes|
    requires WritesFit(disk, Delete(fat, disk, req).writes)
    ensures MatchSlot(TableOf(disk[req.parent]), req.name, req.ext, 2) < SLOT_COUNT
    ensures var s, ts := Victim(disk, req), TablesOf(disk, l.depth.Keys);
            var d := AfterWrites(disk, Delete(fat, disk, req).writes, k);
            && s in l.chains
            && (if At(ts, s).IsDir()
                then |l.chains[s]| == 1
                     && View(d, DirDetached(l, s, l.chains[s][0])) == View(disk, l) - {KeyAt(ts, s)}
                     && View(d, DirDeleted(l, s)) == View(disk, l) - {KeyAt(ts, s)}
                else View(d, Detached(l, s)) == View(disk, l) - {KeyAt(ts, s)}
                     && View(d, FileDeleted(l, s)) == View(disk, l) - {KeyAt(ts, s)})
  {
    hide TableOf, FatOf, MatchSlot, TablesOf, Delete, Release, TableBytes, FatBytes, At, SetSlot, FilesOf, AfterWrites;
    TablesAfterDelete(fat, disk, l, req, k);
    DeletePath(fat, disk, l, req);
    var s, ts := Victim(disk, req), TablesOf(disk, l.depth.Keys);
    var d := AfterWrites(disk, Delete(fat, disk, req).writes, k);
    AtSetSlot(ts, s, Blanked(At(ts, s)));
    if At(ts, s).IsDir() {
      var c := l.chains[s][0];
      InTables(disk, l.depth.Keys);
      DirectoriesKnown(fat, ts, l);
      NoEntriesBelow(ts, l.chains, c);
      DetachDir(fat, ts, l, s, c);
      InvKeys(fat, SetSlot(ts, s, Blanked(At(ts, s))) - {c}, DirDetached(l, s, c));
      hide Inv;
      AtDropped(SetSlot(ts, s, Blanked(At(ts, s))), c);
      DeletedView(fat, disk, l, s, d, SetSlot(ts, s, Blanked(At(ts, s))) - {c});
    } else {
      DetachFile(fat, ts, l, s);
      InvKeys(fat, SetSlot(ts, s, Blanked(At(ts, s))), Detached(l, s));
      hide Inv;
      DeletedView(fat, disk, l, s, d, SetSlot(ts, s, Blanked(At(ts, s))));
    }
  }
}
