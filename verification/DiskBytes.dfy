/** The driver's calls once more, from the bytes of the disk alone: which code each of them returns, and which bytes it
    writes where, at the offsets that the on-disk structures give their fields. */
module DiskBytes {
  import opened Bytes
  import opened CString
  import opened OnDisk
  import opened Chains
  import opened BlockDevice
  import opened Operations

  /** The i-th of the 64 records of a directory's cluster. */
  function Record(c: Cluster, i: nat): (r: seq<byte>)
    requires i < 64
    ensures |r| == 32
  {
    c[32 * i..32 * i + 32]
  }

  /** The k-th of the 512 words of the allocation table's cluster. */
  function Word(c: Cluster, k: nat): int
    requires k < 512
  {
    Number(c[4 * k], c[4 * k + 1], c[4 * k + 2], c[4 * k + 3])
  }

  /** The cluster number in a record. */
  function ClusterIn(r: seq<byte>): int
    requires |r| == 32
  {
    Number(r[26], r[27], r[20], r[21])
  }

  function SizeIn(r: seq<byte>): int
    requires |r| == 32
  {
    Number(r[28], r[29], r[30], r[31])
  }

  /** What a record holds in the fields that the driver uses. */
  ghost predicate Holds(r: seq<byte>, name: seq<byte>, ext: seq<byte>, attribute: int, mark: int, cluster: int,
                        size: int)
    requires |r| == 32
  {
    && r[..8] == name && r[8..11] == ext && r[11] == attribute && r[12] == mark
    && ClusterIn(r) == cluster && SizeIn(r) == size
  }

  /** The fields that the driver never uses are the same. */
  ghost predicate RestSame(r: seq<byte>, r': seq<byte>)
    requires |r| == |r'| == 32
  {
    r'[13..20] == r[13..20] && r'[22..26] == r[22..26]
  }

  /** The cluster with one record replaced by another. */
  ghost predicate OnlyRecord(c: Cluster, c': Cluster, i: nat)
    requires i < 64
  {
    c' == c[..32 * i] + Record(c', i) + c[32 * i + 32..]
  }

  // ---------- between bytes and entries ----------

  lemma RecordIs(c: Cluster, i: nat)
    requires i < 64
    ensures EntryBytes(TableOf(c)[i]) == Record(c, i)
    ensures var e, r := TableOf(c)[i], Record(c, i);
            && Holds(r, e.name, e.ext, e.attribute, e.userAttribute, e.Cluster(), e.filesize)
            && (e.IsDir() <==> r[11] == 0x10) && (e.Live() <==> r[12] == 0xAA)
            && e.created == r[13..20] && e.modified == r[22..26]
  {
    hide TableOf, EntryBytes;
    TableFormat(c, i);
    EntryFormat(TableOf(c)[i]);
  }

  lemma RecordsAre(c: Cluster)
    ensures forall i: nat | i < 64 ::
              var e, r := TableOf(c)[i], Record(c, i);
              e.name == r[..8] && e.ext == r[8..11] && (e.IsDir() <==> r[11] == 0x10) && (e.Live() <==> r[12] == 0xAA)
  {
    hide TableOf, EntryBytes, Record;
    forall i: nat | i < 64
      ensures var e, r := TableOf(c)[i], Record(c, i);
              e.name == r[..8] && e.ext == r[8..11] && (e.IsDir() <==> r[11] == 0x10) && (e.Live() <==> r[12] == 0xAA)
    {
      RecordIs(c, i);
    }
  }

  lemma KeyIs(e: Entry, r: seq<byte>, name: Name, ext: Ext)
    requires |r| == 32 && e.name == r[..8] && e.ext == r[8..11]
    ensures e.HasKey(name, ext) <==> r[..11] == name + ext
  {
    assert r[..11] == r[..8] + r[8..11];
    assert (name + ext)[..8] == name && (name + ext)[8..] == ext;
    assert r[..11][..8] == r[..8] && r[..11][8..] == r[8..11];
  }

  /** One entry replaced: its bytes, and all others. */
  lemma StoredRecord(c: Cluster, i: nat, e: Entry)
    requires i < 64
    ensures var c', r' := TableBytes(TableOf(c)[i := e]), EntryBytes(e);
            && OnlyRecord(c, c', i) && Record(c', i) == r'
            && Holds(r', e.name, e.ext, e.attribute, e.userAttribute, e.Cluster(), e.filesize)
            && e.created == r'[13..20] && e.modified == r'[22..26]
  {
    EntryFormat(e);
    hide EntryBytes;
    var t := TableOf(c);
    assert IsTableOf(t, c);
    var c' := TableBytes(t[i := e]);
    assert IsTableOf(t[i := e], c');
    forall j | 0 <= j < 2048
      ensures c'[j] == if 32 * i <= j < 32 * i + 32 then EntryBytes(e)[j - 32 * i] else c[j]
    {
      assert c[j] == EntryBytes(t[j / ENTRY_SIZE])[j % ENTRY_SIZE];
      assert c'[j] == EntryBytes(t[i := e][j / ENTRY_SIZE])[j % ENTRY_SIZE];
      assert 32 * i <= j < 32 * i + 32 ==> j / ENTRY_SIZE == i && j % ENTRY_SIZE == j - 32 * i;
    }
  }

  lemma StoredFat(fat: Fat)
    ensures forall k: nat | k < 512 :: Word(FatBytes(fat), k) == fat[k]
  {
    hide FatOf, FatBytes, Word;
    forall k: nat | k < 512
      ensures Word(FatBytes(fat), k) == fat[k]
    {
      WordIs(FatBytes(fat), k);
    }
  }

  lemma WordIs(c: Cluster, k: nat)
    requires k < 512
    ensures Word(c, k) == FatOf(c)[k]
  {
    hide FatOf;
    FatFormat(c, k);
  }

  // ---------- writing ----------

  /** The clusters that the table marks as free. */
  ghost function Free(fat: Fat): set<int> {
    FreeUpTo(fat, 512)
  }

  ghost function FreeUpTo(fat: Fat, n: nat): set<int>
    requires n <= 512
  {
    set c | 0 <= c < n && fat[c] == 0
  }

  lemma {:induction false} FreeCounted(fat: Fat, n: nat)
    requires n <= 512
    ensures |FreeBelow(fat, n)| == |FreeUpTo(fat, n)|
    decreases n
  {
    if n == 0 {
      assert FreeUpTo(fat, 0) == {};
    } else {
      FreeCounted(fat, n - 1);
      if fat[n - 1] == 0 {
        assert FreeUpTo(fat, n) == FreeUpTo(fat, n - 1) + {n - 1};
      } else {
        assert FreeUpTo(fat, n) == FreeUpTo(fat, n - 1);
      }
    }
  }

  /** The code of a write: the first of the checks that fails, in the order in which the driver makes them. */
  lemma WriteCodes(fat: Fat, disk: Disk, req: Request, data: seq<byte>)
    requires req.parent < |disk| && Buffered(fat, data, req.bufferSize)
    ensures var o, p := Write(fat, disk, req, data), disk[req.parent];
            && o.code == (if Record(p, 0)[11] != 0x10 then 2
                          else if forall i: nat | i < 64 :: Record(p, i)[12] == 0xAA then -1
                          else if exists i: nat :: 1 <= i < 64 && Record(p, i)[..11] == req.name + req.ext then 1
                          else if if req.bufferSize == 0 then Free(fat) == {} else 2048 * |Free(fat)| < req.bufferSize
                            then -1
                          else 0)
            && (o.code != 0 ==> o.fat == fat && o.writes == [])
  {
    hide TableOf, EntryBytes, Record, TableBytes, FatBytes, Link, DataWrites, ChildTable, FreeBelow;
    var p := disk[req.parent];
    var t := TableOf(p);
    RecordsAre(p);
    FreeCounted(fat, 512);
    var slot, taken := FreeSlot(t, 0), ExactSlot(t, req.name, req.ext, 1);
    assert slot == 64 <==> forall i: nat | i < 64 :: Record(p, i)[12] == 0xAA by {
      assert slot < 64 ==> Record(p, slot)[12] != 0xAA;
    }
    assert taken < 64 <==> exists i: nat :: 1 <= i < 64 && Record(p, i)[..11] == req.name + req.ext by {
      forall i: nat | i < 64
        ensures t[i].HasKey(req.name, req.ext) <==> Record(p, i)[..11] == req.name + req.ext
      {
        KeyIs(t[i], Record(p, i), req.name, req.ext);
      }
    }
    hide FreeSlot, ExactSlot;
    assert Free(fat) == {} <==> |Free(fat)| == 0;
  }

  /** The first slot of a directory that is not marked as used. */
  ghost predicate IsFreeSlot(p: Cluster, i: nat) {
    i < 64 && Record(p, i)[12] != 0xAA && forall j: nat | j < i :: Record(p, j)[12] == 0xAA
  }

  lemma FreeSlotIs(p: Cluster, i: nat)
    requires IsFreeSlot(p, i)
    ensures FreeSlot(TableOf(p), 0) == i
  {
    hide TableOf, Record;
    RecordsAre(p);
    var t := TableOf(p);
    assert !t[i].Live() && forall j: nat | j < i :: t[j].Live();
  }

  /** The first write of any creation: the table, word by word. */
  ghost predicate StoresFat(w: DiskWrite, fat: Fat) {
    w.cluster == 1 && forall k: nat | k < 512 :: Word(w.data, k) == fat[k]
  }

  /** The disk writes of a mkdir that succeeds, byte by byte: the table with the lowest free cluster marked as the end
      of a chain; the parent with the new record in the first free slot; and the new directory's old bytes with its
      first two records filled in. */
  lemma MkdirWrites(fat: Fat, disk: Disk, req: Request, data: seq<byte>, i: nat, c: Index)
    requires req.parent < |disk| && req.bufferSize == 0 && Write(fat, disk, req, data).code == 0
    requires IsFreeSlot(disk[req.parent], i)
    requires fat[c] == 0 && c != 1 && c != req.parent && forall d | 0 <= d < c :: fat[d] != 0
    ensures var o, p, was := Write(fat, disk, req, data), disk[req.parent], disk[c];
            && o.fat == fat[c := 0x0FFF_FFFF] && |o.writes| == 3
            && StoresFat(o.writes[0], o.fat)
            && (var p', child := o.writes[1].data, o.writes[2].data;
                && o.writes[1].cluster == req.parent && OnlyRecord(p, p', i)
                && Holds(Record(p', i), req.name, req.ext, 0x10, 0xAA, c, 0) && RestSame(Record(p, i), Record(p', i))
                && o.writes[2].cluster == c && child[64..] == was[64..]
                && Holds(Record(child, 0), req.name, req.ext, 0x10, 0xAA, c, 0)
                && Holds(Record(child, 1), req.parentName, Record(was, 1)[8..11], 0x10, 0xAA, req.parent,
                         SizeIn(Record(was, 1)))
                && RestSame(Record(was, 0), Record(child, 0)) && RestSame(Record(was, 1), Record(child, 1)))
  {
    hide TableOf, EntryBytes, Record, TableBytes, FatBytes, OnlyRecord, Holds, FreeSlot, ExactSlot, FreeBelow, Word;
    var o, p, was := Write(fat, disk, req, data), disk[req.parent], disk[c];
    var t := TableOf(p);
    FreeSlotIs(p, i);
    LowestFree(fat, c);
    StoredFat(o.fat);
    RecordIs(p, i);
    StoredRecord(p, i, DirEntry(t[i], req.name, req.ext, c));
    ChildBytes(was, req, c);
    assert Record(p, i)[13..20] == t[i].created && Record(p, i)[22..26] == t[i].modified;
  }

  /** The two records that are filled in, after one another. */
  lemma ChildBytes(was: Cluster, req: Request, c: Index)
    ensures var child := TableBytes(ChildTable(TableOf(was), req, c));
            && child[64..] == was[64..]
            && Holds(Record(child, 0), req.name, req.ext, 0x10, 0xAA, c, 0)
            && Holds(Record(child, 1), req.parentName, Record(was, 1)[8..11], 0x10, 0xAA, req.parent,
                     SizeIn(Record(was, 1)))
            && RestSame(Record(was, 0), Record(child, 0)) && RestSame(Record(was, 1), Record(child, 1))
  {
    hide TableOf, EntryBytes, TableBytes, Number;
    var t := TableOf(was);
    var own := DirEntry(t[0], req.name, req.ext, c);
    var half := TableBytes(t[0 := own]);
    StoredRecord(was, 0, own);
    StoredRecord(half, 1, ChildTable(t, req, c)[1]);
    RecordIs(was, 0);
    RecordIs(was, 1);
    var child := TableBytes(ChildTable(t, req, c));
    assert ChildTable(t, req, c) == t[0 := own][1 := ChildTable(t, req, c)[1]];
    assert child[64..] == half[64..] == was[64..];
    assert Record(child, 0) == child[..32] == half[..32] == Record(half, 0);
  }

  /** The data writes, one by one. */
  lemma {:induction false} DataWritesAt(chain: seq<Index>, data: seq<byte>)
    requires |data| >= 2048 * |chain|
    ensures var ws := DataWrites(chain, data);
            |ws| == |chain| && forall n: nat | n < |ws| :: ws[n] == DiskWrite(chain[n], data[2048 * n..2048 * n + 2048])
    decreases |chain|
  {
    if chain != [] {
      DataWritesAt(chain[..|chain| - 1], data);
    }
  }

  /** The chain of a new file: the lowest free clusters in ascending order, as many as hold the bytes, or two where one
      would do and the one after it is free. */
  ghost predicate IsNewChain(fat: Fat, chain: seq<int>, size: nat) {
    && |chain| > 0
    && (forall n: nat | n < |chain| :: chain[n] in Free(fat))
    && (forall n: nat, m: nat | n < m < |chain| :: chain[n] < chain[m])
    && (forall n: nat, c | n < |chain| && c in Free(fat) && c < chain[n] :: c in chain)
    && |chain| == if size > 2048 then (size + 2047) / 2048 else if chain[0] + 1 in Free(fat) then 2 else 1
  }

  /** The table with such a chain linked in it. */
  ghost predicate IsLinked(fat: Fat, fat': Fat, chain: seq<int>) {
    && (forall c: Index | c !in chain :: fat'[c] == fat[c])
    && (forall n: nat | n < |chain| :: 0 <= chain[n] < 512)
    && (forall n: nat {:trigger fat'[chain[n]]} | n < |chain| ::
          fat'[chain[n]] == if n + 1 < |chain| then chain[n + 1] else 0x0FFF_FFFF)
  }

  /** The disk writes of a file write that succeeds: the table, the parent with the new record, and then the buffer,
      2048 bytes to each cluster of the chain in its order. */
  lemma FileWrites(fat: Fat, disk: Disk, req: Request, data: seq<byte>, i: nat) returns (chain: seq<int>)
    requires req.parent < |disk| && req.bufferSize > 0 && Buffered(fat, data, req.bufferSize)
    requires Write(fat, disk, req, data).code == 0 && IsFreeSlot(disk[req.parent], i)
    ensures var o, p := Write(fat, disk, req, data), disk[req.parent];
            && IsNewChain(fat, chain, req.bufferSize) && IsLinked(fat, o.fat, chain)
            && |o.writes| == 2 + |chain| && |data| >= 2048 * |chain|
            && StoresFat(o.writes[0], o.fat)
            && o.writes[1].cluster == req.parent && OnlyRecord(p, o.writes[1].data, i)
            && (var r, r' := Record(p, i), Record(o.writes[1].data, i);
                Holds(r', req.name, req.ext, r[11], 0xAA, chain[0], req.bufferSize) && RestSame(r, r'))
            && forall n: nat | n < |chain| ::
                 o.writes[2 + n].cluster == chain[n] && o.writes[2 + n].data == data[2048 * n..2048 * n + 2048]
  {
    hide TableOf, EntryBytes, Record, TableBytes, FatBytes, OnlyRecord, Holds, FreeSlot, ExactSlot, FreeBelow, Word,
         DataWrites, IsNewChain, IsLinked, Allocation, Link;
    var o, p := Write(fat, disk, req, data), disk[req.parent];
    var t, clusters := TableOf(p), Allocation(fat, ClustersNeeded(req.bufferSize));
    chain := clusters;
    FreeSlotIs(p, i);
    StoredFat(o.fat);
    RecordIs(p, i);
    StoredRecord(p, i, FileEntry(t[i], req.name, req.ext, clusters[0], req.bufferSize));
    DataWritesAt(clusters, data);
    NewChainIs(fat, req.bufferSize);
    assert Record(p, i)[13..20] == t[i].created && Record(p, i)[22..26] == t[i].modified
           && Record(p, i)[11] == t[i].attribute by {
      RecordFields(p, i);
    }
  }

  lemma RecordFields(p: Cluster, i: nat)
    requires i < 64
    ensures var e, r := TableOf(p)[i], Record(p, i);
            r[11] == e.attribute && r[13..20] == e.created && r[22..26] == e.modified
  {
    hide TableOf;
    RecordIs(p, i);
  }

  lemma NewChainIs(fat: Fat, size: nat)
    requires size > 0 && Allocation(fat, ClustersNeeded(size)) != []
    ensures var chain := Allocation(fat, ClustersNeeded(size));
            IsNewChain(fat, chain, size) && IsLinked(fat, Link(fat, chain), chain)
  {
    hide Allocation, FreeBelow, Link;
    AllocationCharacterized(fat, size);
    AllocationLinks(fat, ClustersNeeded(size));
    var chain := Allocation(fat, ClustersNeeded(size));
    forall n: nat | n < |chain|
      ensures chain[n] in Free(fat)
    {
      assert chain[n] in chain;
    }
  }

  // ---------- deleting ----------

  /** A record that a deletion matches: its name starts with the requested one and its extension is the same. */
  ghost predicate IsMatch(r: seq<byte>, req: Request)
    requires |r| == 32
  {
    Str(req.name) <= Str(r[..8]) && r[8..11] == req.ext
  }

  ghost predicate IsFirstMatch(p: Cluster, req: Request, i: nat) {
    2 <= i < 64 && IsMatch(Record(p, i), req) && forall j: nat | 2 <= j < i :: !IsMatch(Record(p, j), req)
  }

  lemma MatchesAre(p: Cluster, req: Request)
    ensures forall i: nat | i < 64 :: Matches(TableOf(p)[i], req.name, req.ext) <==> IsMatch(Record(p, i), req)
  {
    hide TableOf, Record, StartsWith, Str;
    RecordsAre(p);
    forall i: nat | i < 64
      ensures Matches(TableOf(p)[i], req.name, req.ext) <==> IsMatch(Record(p, i), req)
    {
      StartsWithMeans(TableOf(p)[i].name, req.name);
    }
  }

  lemma MatchSlotIs(p: Cluster, req: Request, i: nat)
    requires IsFirstMatch(p, req, i)
    ensures MatchSlot(TableOf(p), req.name, req.ext, 2) == i
  {
    hide TableOf, Record, Matches, IsMatch;
    MatchesAre(p, req);
    var t := TableOf(p);
    assert Matches(t[i], req.name, req.ext) && forall j: nat | 2 <= j < i :: !Matches(t[j], req.name, req.ext);
  }

  /** When a deletion finds nothing to delete. */
  lemma DeleteRefuses(fat: Fat, disk: Disk, req: Request)
    requires req.parent < |disk| && DeleteSafe(fat, disk, req)
    ensures var o, p := Delete(fat, disk, req), disk[req.parent];
            && (o.code == -1 <==> Record(p, 0)[11] != 0x10)
            && (o.code == 1 <==>
                  Record(p, 0)[11] == 0x10 && forall i: nat | 2 <= i < 64 :: !IsMatch(Record(p, i), req))
            && (o.code != 0 ==> o.fat == fat && o.writes == [])
  {
    hide TableOf, Record, Matches, IsMatch, TableBytes, FatBytes, EmptiedTable, Release;
    var p := disk[req.parent];
    var t := TableOf(p);
    MatchesAre(p, req);
    RecordsAre(p);
    var slot := MatchSlot(t, req.name, req.ext, 2);
    assert slot < 64 ==> IsMatch(Record(p, slot), req);
    hide MatchSlot;
  }

  /** A record with its name, extension and marks cleared; its cluster number and size stay. */
  ghost predicate Clears(r: seq<byte>, r': seq<byte>)
    requires |r| == |r'| == 32
  {
    Holds(r', [0, 0, 0, 0, 0, 0, 0, 0], [0, 0, 0], 0, 0, ClusterIn(r), SizeIn(r)) && RestSame(r, r')
  }

  lemma ClearedRecord(c: Cluster, i: nat)
    requires i < 64
    ensures var c' := TableBytes(TableOf(c)[i := Blanked(TableOf(c)[i])]);
            OnlyRecord(c, c', i) && Clears(Record(c, i), Record(c', i))
  {
    hide TableOf, EntryBytes, TableBytes, Number;
    RecordIs(c, i);
    StoredRecord(c, i, Blanked(TableOf(c)[i]));
  }

  /** A directory's cluster with some record from the third on marked as used. */
  ghost predicate ShowsEntry(c: Cluster) {
    exists j: nat :: 2 <= j < 64 && Record(c, j)[12] == 0xAA
  }

  lemma ShowsLiveChild(c: Cluster)
    ensures ShowsEntry(c) <==> !NoLiveChild(TableOf(c))
  {
    hide TableOf, Record;
    RecordsAre(c);
    if ShowsEntry(c) {
      var j: nat :| 2 <= j < 64 && Record(c, j)[12] == 0xAA;
      assert TableOf(c)[j].Live();
    }
  }

  /** What a deletion of a directory does: nothing where the directory shows an entry; otherwise the parent's record is
      cleared, then the directory's own first two, and its one cluster is given back. */
  lemma RmdirWrites(fat: Fat, disk: Disk, req: Request, i: nat, c: Index)
    requires req.parent < |disk| && DeleteSafe(fat, disk, req)
    requires Record(disk[req.parent], 0)[11] == 0x10 && IsFirstMatch(disk[req.parent], req, i)
    requires Record(disk[req.parent], i)[11] == 0x10 && ClusterIn(Record(disk[req.parent], i)) == c
    ensures var o, p := Delete(fat, disk, req), disk[req.parent];
            if ShowsEntry(disk[c]) then o.code == 2
            else
              && o.code == 0 && o.fat == fat[c := 0] && |o.writes| == 3
              && (var p', child := o.writes[0].data, o.writes[1].data;
                  && o.writes[0].cluster == req.parent && OnlyRecord(p, p', i)
                  && Clears(Record(p, i), Record(p', i))
                  && o.writes[1].cluster == c && child[64..] == disk[c][64..]
                  && Clears(Record(disk[c], 0), Record(child, 0)) && Clears(Record(disk[c], 1), Record(child, 1)))
              && StoresFat(o.writes[2], o.fat)
  {
    hide TableOf, EntryBytes, Record, TableBytes, FatBytes, OnlyRecord, Clears, MatchSlot, Word, Matches, EmptiedTable,
         ShowsEntry, NoLiveChild;
    var o, p := Delete(fat, disk, req), disk[req.parent];
    RecordIs(p, 0);
    RecordFields(p, 0);
    RecordIs(p, i);
    MatchSlotIs(p, req, i);
    ShowsLiveChild(disk[c]);
    StoredFat(o.fat);
    ClearedRecord(p, i);
    EmptiedBytes(disk[c]);
  }

  lemma EmptiedBytes(was: Cluster)
    ensures var child := TableBytes(EmptiedTable(TableOf(was)));
            && child[64..] == was[64..]
            && Clears(Record(was, 0), Record(child, 0)) && Clears(Record(was, 1), Record(child, 1))
  {
    hide TableOf, EntryBytes, TableBytes, Clears, Blanked;
    var t := TableOf(was);
    var half := TableBytes(t[0 := Blanked(t[0])]);
    ClearedRecord(was, 0);
    ClearedRecord(half, 1);
    var child := TableBytes(EmptiedTable(t));
    assert Record(half, 1) == half[32..64] == was[32..64] == Record(was, 1);
    assert child[64..] == half[64..] == was[64..];
    assert Record(child, 0) == child[..32] == half[..32] == Record(half, 0);
  }

  lemma LinkedIsChain(fat: Fat, chain: seq<Index>)
    requires |chain| > 0 && IsLinked(fat, fat, chain)
    ensures IsChain(fat, chain)
  {
  }

  /** What a deletion of a file does: its record is cleared, and exactly the clusters of its chain are marked free. */
  lemma RemoveWrites(fat: Fat, disk: Disk, req: Request, i: nat, chain: seq<Index>)
    requires req.parent < |disk| && DeleteSafe(fat, disk, req)
    requires Record(disk[req.parent], 0)[11] == 0x10 && IsFirstMatch(disk[req.parent], req, i)
    requires Record(disk[req.parent], i)[11] != 0x10
    requires |chain| > 0 && chain[0] == ClusterIn(Record(disk[req.parent], i)) && IsLinked(fat, fat, chain)
    ensures var o, p := Delete(fat, disk, req), disk[req.parent];
            && o.code == 0 && |o.writes| == 2
            && o.writes[0].cluster == req.parent && OnlyRecord(p, o.writes[0].data, i)
            && Clears(Record(p, i), Record(o.writes[0].data, i))
            && StoresFat(o.writes[1], o.fat)
            && forall c: Index :: o.fat[c] == if c in chain then 0 else fat[c]
  {
    hide TableOf, EntryBytes, Record, TableBytes, FatBytes, OnlyRecord, Clears, MatchSlot, Word, Matches, EmptiedTable;
    var o, p := Delete(fat, disk, req), disk[req.parent];
    RecordIs(p, 0);
    RecordFields(p, 0);
    RecordIs(p, i);
    MatchSlotIs(p, req, i);
    StoredFat(o.fat);
    ClearedRecord(p, i);
    LinkedIsChain(fat, chain);
    ChainUnique(fat, ChainFrom(fat, chain[0]), chain);
  }

  // ---------- reading ----------

  ghost predicate IsKey(r: seq<byte>, req: Request)
    requires |r| == 32
  {
    r[..8] == req.name && r[8..11] == req.ext
  }

  ghost predicate IsFirstKey(p: Cluster, req: Request, i: nat) {
    i < 64 && IsKey(Record(p, i), req) && forall j: nat | j < i :: !IsKey(Record(p, j), req)
  }

  lemma KeySlotIs(p: Cluster, req: Request)
    ensures var i := ExactSlot(TableOf(p), req.name, req.ext, 0);
            (i == 64 <==> forall j: nat | j < 64 :: !IsKey(Record(p, j), req)) && (i < 64 ==> IsFirstKey(p, req, i))
  {
    hide TableOf, Record;
    RecordsAre(p);
    var t := TableOf(p);
    var i := ExactSlot(t, req.name, req.ext, 0);
    forall j: nat | j < 64
      ensures t[j].HasKey(req.name, req.ext) <==> IsKey(Record(p, j), req)
    {
    }
    assert i < 64 ==> IsKey(Record(p, i), req);
  }

  /** The table on the disk has this chain: its links, word by word, and the end-of-file mark. */
  ghost predicate IsStoredChain(c: Cluster, chain: seq<Index>) {
    && |chain| > 0
    && (forall n: nat {:trigger Word(c, chain[n])} | n < |chain| ::
          Word(c, chain[n]) == if n + 1 < |chain| then chain[n + 1] as int else 0x0FFF_FFFF)
  }

  lemma StoredChainIs(c: Cluster, chain: seq<Index>)
    requires IsStoredChain(c, chain)
    ensures IsChain(FatOf(c), chain)
  {
    hide FatOf, Word;
    forall k: Index
      ensures FatOf(c)[k] == Word(c, k)
    {
      WordIs(c, k);
    }
    LinkedIsChain(FatOf(c), chain);
  }

  lemma {:induction false} ContentsAt(disk: Disk, chain: seq<Index>)
    ensures |Contents(disk, chain)| == 2048 * |chain|
    ensures forall n: nat | n < |chain| :: Contents(disk, chain)[2048 * n..2048 * n + 2048] == disk[chain[n]]
    decreases |chain|
  {
    if chain != [] {
      var last := |chain| - 1;
      ContentsAt(disk, chain[..last]);
      forall n: nat | n < last
        ensures Contents(disk, chain)[2048 * n..2048 * n + 2048] == disk[chain[n]]
      {
        assert Contents(disk, chain)[2048 * n..2048 * n + 2048]
               == Contents(disk, chain[..last])[2048 * n..2048 * n + 2048];
      }
    }
  }

  /** The code of a read, and that it reloads the cached table before it looks for the file. */
  lemma ReadCodes(fat: Fat, disk: Disk, req: Request)
    requires req.parent < |disk| && ReadSafe(disk, req)
    ensures var o, p := Read(fat, disk, req), disk[req.parent];
            if Record(p, 0)[11] != 0x10 || Record(p, 0)[12] != 0xAA then o == ReadOutcome(-1, fat, [])
            else
              && (forall k: nat | k < 512 :: o.fat[k] == Word(disk[1], k))
              && (o.code != 0 ==> o.data == [])
              && if forall i: nat | i < 64 :: !IsKey(Record(p, i), req) then o.code == 3
                 else exists i: nat ::
                        && IsFirstKey(p, req, i)
                        && o.code == if Record(p, i)[11] == 0x10 then 1
                                     else if SizeIn(Record(p, i)) > req.bufferSize then 2
                                     else 0
  {
    hide TableOf, FatOf, Record, Word, Contents, EntryBytes, IsKey, IsFirstKey, SizeIn, ClusterIn;
    var o, p := Read(fat, disk, req), disk[req.parent];
    RecordsAre(p);
    KeySlotIs(p, req);
    var i := ExactSlot(TableOf(p), req.name, req.ext, 0);
    forall k: nat | k < 512
      ensures FatOf(disk[1])[k] == Word(disk[1], k)
    {
      WordIs(disk[1], k);
    }
    if i < 64 {
      RecordIs(p, i);
      assert TableOf(p)[i].filesize == SizeIn(Record(p, i)) by {
        SizeOf(p, i);
      }
    }
    hide ExactSlot;
  }

  lemma SizeOf(p: Cluster, i: nat)
    requires i < 64
    ensures TableOf(p)[i].filesize == SizeIn(Record(p, i)) && TableOf(p)[i].Cluster() == ClusterIn(Record(p, i))
  {
    hide TableOf;
    RecordIs(p, i);
  }

  /** What a read that succeeds delivers: all the clusters of the file's chain, in its order, up to its last byte. */
  lemma ReadDelivers(fat: Fat, disk: Disk, req: Request, i: nat, chain: seq<Index>)
    requires req.parent < |disk| && ReadSafe(disk, req) && Read(fat, disk, req).code == 0
    requires IsFirstKey(disk[req.parent], req, i)
    requires IsStoredChain(disk[1], chain) && chain[0] == ClusterIn(Record(disk[req.parent], i))
    ensures var bytes := Read(fat, disk, req).data;
            && |bytes| == 2048 * |chain|
            && forall n: nat | n < |chain| :: bytes[2048 * n..2048 * n + 2048] == disk[chain[n]]
  {
    hide TableOf, FatOf, Record, Word, Contents, EntryBytes, IsKey, ClusterIn;
    var p := disk[req.parent];
    KeySlotIs(p, req);
    var slot := ExactSlot(TableOf(p), req.name, req.ext, 0);
    assert slot == i by {
      assert !(slot < i) && !(i < slot);
    }
    SizeOf(p, i);
    StoredChainIs(disk[1], chain);
    ChainUnique(FatOf(disk[1]), ChainFrom(FatOf(disk[1]), chain[0]), chain);
    ContentsAt(disk, chain);
  }

  ghost predicate IsNamed(r: seq<byte>, req: Request)
    requires |r| == 32
  {
    Str(req.name) <= Str(r[..8])
  }

  /** Which table read_directory delivers: that of the first record whose name starts with the requested one. */
  lemma ReadDirectoryDelivers(disk: Disk, req: Request)
    requires req.parent < |disk| && ReadDirectorySafe(disk, req)
    ensures var (code, c) := ReadDirectory(disk, req);
            var p := disk[req.parent];
            if Record(p, 0)[11] != 0x10 then code == -1
            else if forall i: nat | i < 64 :: !IsNamed(Record(p, i), req) then code == 2
            else exists i: nat ::
              && i < 64 && IsNamed(Record(p, i), req) && (forall j: nat | j < i :: !IsNamed(Record(p, j), req))
              && if Record(p, i)[11] == 0x10 then code == 0 && c == ClusterIn(Record(p, i)) else code == 1
  {
    hide TableOf, Record, EntryBytes, StartsWith, Str, SizeIn, ClusterIn;
    var p := disk[req.parent];
    var t := TableOf(p);
    RecordsAre(p);
    forall i: nat | i < 64
      ensures StartsWith(t[i].name, req.name) <==> IsNamed(Record(p, i), req)
    {
      StartsWithMeans(t[i].name, req.name);
    }
    var i := NameSlot(t, req.name, 0);
    if i < 64 {
      SizeOf(p, i);
      assert IsNamed(Record(p, i), req);
    }
    hide NameSlot, IsNamed;
  }

  // ---------- initialising ----------

  /** The boot sector of a formatted disk: five lines of 16 characters, zeros, and two characters at its end. */
  lemma SignatureIs()
    ensures |SIGNATURE| == 512
    ensures SIGNATURE[0..16] == [
              0x43, 0x6F, 0x75, 0x72, 0x73, 0x65, 0x20, 0x20,
              0x20, 0x20, 0x20, 0x20, 0x20, 0x20, 0x20, 0x20]
    ensures SIGNATURE[16..32] == [
              0x44, 0x65, 0x73, 0x69, 0x67, 0x6E, 0x65, 0x64,
              0x20, 0x62, 0x79, 0x20, 0x20, 0x20, 0x20, 0x20]
    ensures SIGNATURE[32..48] == [
              0x4C, 0x61, 0x62, 0x20, 0x53, 0x69, 0x73, 0x74,
              0x65, 0x72, 0x20, 0x49, 0x54, 0x42, 0x20, 0x20]
    ensures SIGNATURE[48..64] == [
              0x4D, 0x61, 0x64, 0x65, 0x20, 0x77, 0x69, 0x74,
              0x68, 0x20, 0x3C, 0x33, 0x20, 0x20, 0x20, 0x20]
    ensures SIGNATURE[64..80] == [
              0x2D, 0x2D, 0x2D, 0x2D, 0x2D, 0x2D, 0x2D, 0x2D,
              0x2D, 0x2D, 0x2D, 0x32, 0x30, 0x32, 0x34, 0x0A]
    ensures forall k | 80 <= k < 510 :: SIGNATURE[k] == 0
    ensures SIGNATURE[510..] == [0x4F, 0x6B]
  {
    SignatureLines();
    FirstLine();
    SecondLine();
    ThirdLine();
    FourthLine();
    FifthLine();
    LastTwo();
    hide Ascii, SIGNATURE;
  }

  lemma SignatureLines()
    ensures |SIGNATURE| == 512
    ensures SIGNATURE[0..16] == Ascii("Course          ")
    ensures SIGNATURE[16..32] == Ascii("Designed by     ")
    ensures SIGNATURE[32..48] == Ascii("Lab Sister ITB  ")
    ensures SIGNATURE[48..64] == Ascii("Made with <3    ")
    ensures SIGNATURE[64..80] == Ascii("-----------2024\n")
    ensures (forall k | 80 <= k < 510 :: SIGNATURE[k] == 0) && SIGNATURE[510..] == Ascii("Ok")
  {
    hide Ascii;
  }

  lemma FirstLine()
    ensures Ascii("Course          ") == [
              0x43, 0x6F, 0x75, 0x72, 0x73, 0x65, 0x20, 0x20,
              0x20, 0x20, 0x20, 0x20, 0x20, 0x20, 0x20, 0x20]
  {
  }

  lemma SecondLine()
    ensures Ascii("Designed by     ") == [
              0x44, 0x65, 0x73, 0x69, 0x67, 0x6E, 0x65, 0x64,
              0x20, 0x62, 0x79, 0x20, 0x20, 0x20, 0x20, 0x20]
  {
  }

  lemma ThirdLine()
    ensures Ascii("Lab Sister ITB  ") == [
              0x4C, 0x61, 0x62, 0x20, 0x53, 0x69, 0x73, 0x74,
              0x65, 0x72, 0x20, 0x49, 0x54, 0x42, 0x20, 0x20]
  {
  }

  lemma FourthLine()
    ensures Ascii("Made with <3    ") == [
              0x4D, 0x61, 0x64, 0x65, 0x20, 0x77, 0x69, 0x74,
              0x68, 0x20, 0x3C, 0x33, 0x20, 0x20, 0x20, 0x20]
  {
  }

  lemma FifthLine()
    ensures Ascii("-----------2024\n") == [
              0x2D, 0x2D, 0x2D, 0x2D, 0x2D, 0x2D, 0x2D, 0x2D,
              0x2D, 0x2D, 0x2D, 0x32, 0x30, 0x32, 0x34, 0x0A]
  {
  }

  lemma LastTwo()
    ensures Ascii("Ok") == [0x4F, 0x6B]
  {
  }

  /** What initialising leaves behind. A disk with the signature is left alone and its table loaded; on any other the
      signature, the table as it was and a root directory that is its own parent are written. */
  lemma BootWrites(fat: Fat, disk: Disk)
    ensures var (fat', disk') := Boot(fat, disk);
            if disk[0][..512] == SIGNATURE then disk' == disk && forall k: nat | k < 512 :: fat'[k] == Word(disk[1], k)
            else
              && fat' == fat[0 := 0x0FFF_FFF0][1 := 0x0FFF_FFFF][2 := 0x0FFF_FFFF]
              && disk'[0][..512] == SIGNATURE && disk'[0][512..] == disk[0][512..]
              && (forall k: nat | k < 512 :: Word(disk'[1], k) == fat[k])
              && (forall i: nat | i < 2 ::
                    Holds(Record(disk'[2], i), [0x72, 0x6F, 0x6F, 0x74, 0, 0, 0, 0], [0, 0, 0], 0x10, 0xAA, 2, 0))
              && (forall i: nat | 2 <= i < 64 :: Record(disk'[2], i) == Repeat(32, 0))
              && disk'[3..] == disk[3..]
  {
    hide TableOf, FatOf, TableBytes, FatBytes, Record, EntryBytes, SIGNATURE, Word, SizeIn, ClusterIn;
    var (fat', disk') := Boot(fat, disk);
    SignatureIs();
    StoredFat(fat);
    RootBytes();
    forall k: nat | k < 512
      ensures FatOf(disk[1])[k] == Word(disk[1], k)
    {
      WordIs(disk[1], k);
    }
  }

  lemma RootBytes()
    ensures var c := TableBytes(RootTable());
            && (forall i: nat | i < 2 ::
                  Holds(Record(c, i), [0x72, 0x6F, 0x6F, 0x74, 0, 0, 0, 0], [0, 0, 0], 0x10, 0xAA, 2, 0))
            && (forall i: nat | 2 <= i < 64 :: Record(c, i) == Repeat(32, 0))
  {
    hide TableOf, TableBytes, EntryBytes, Record, SizeIn, ClusterIn;
    var c := TableBytes(RootTable());
    ZeroRecord();
    forall i: nat | i < 64
      ensures if i < 2 then Holds(Record(c, i), [0x72, 0x6F, 0x6F, 0x74, 0, 0, 0, 0], [0, 0, 0], 0x10, 0xAA, 2, 0)
              else Record(c, i) == Repeat(32, 0)
    {
      RecordIs(c, i);
      assert TableOf(c)[i] == if i < 2 then ROOT_ENTRY else ZERO_ENTRY;
    }
  }

  lemma ZeroRecord()
    ensures EntryBytes(ZERO_ENTRY) == Repeat(32, 0)
  {
  }
}
