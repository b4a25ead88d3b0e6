/** The on-disk structures: the allocation table, directory entries and directory tables, and how each of them is
    laid out in the bytes of one cluster. */
module OnDisk {
  import opened Bytes

  const BLOCK_SIZE := 512
  const CLUSTER_BLOCK_COUNT := 4
  const CLUSTER_SIZE := 2048
  const CLUSTER_MAP_SIZE := 512
  const ENTRY_SIZE := 32
  const SLOT_COUNT := 64

  const CLUSTER_0_VALUE: u32 := 0x0FFF_FFF0
  const CLUSTER_1_VALUE: u32 := 0x0FFF_FFFF
  const END_OF_FILE: u32 := 0x0FFF_FFFF
  const EMPTY_ENTRY: u32 := 0

  const BOOT_CLUSTER := 0
  const FAT_CLUSTER := 1
  const ROOT_CLUSTER := 2

  const ATTR_SUBDIRECTORY: byte := 0x10
  const UATTR_NOT_EMPTY: byte := 0xAA

  /** The boot sector that marks a formatted disk. */
  const SIGNATURE: seq<byte> :=
    Ascii("Course          ") + Ascii("Designed by     ") + Ascii("Lab Sister ITB  ") + Ascii("Made with <3    ")
    + Ascii("-----------2024\n") + Repeat(430, 0) + Ascii("Ok")

  function Ascii(s: string): (b: seq<byte>)
    ensures |b| == |s|
  {
    seq(|s|, i requires 0 <= i < |s| => if s[i] < 128 as char then s[i] as int else 0)
  }

  const NO_NAME: Name := [0, 0, 0, 0, 0, 0, 0, 0]
  const NO_EXT: Ext := [0, 0, 0]

  type Name = n: seq<byte> | |n| == 8 witness [0, 0, 0, 0, 0, 0, 0, 0]
  type Ext = e: seq<byte> | |e| == 3 witness [0, 0, 0]
  type Created = e: seq<byte> | |e| == 7 witness [0, 0, 0, 0, 0, 0, 0]
  type Modified = e: seq<byte> | |e| == 4 witness [0, 0, 0, 0]

  /** One directory entry. `created` and `modified` hold the bytes of the fields that the driver never touches. */
  datatype Entry = Entry(
    name: Name, ext: Ext, attribute: byte, userAttribute: byte, created: Created,
    clusterHigh: u16, modified: Modified, clusterLow: u16, filesize: u32)
  {
    predicate Live() {
      userAttribute == UATTR_NOT_EMPTY
    }

    predicate IsDir() {
      attribute == ATTR_SUBDIRECTORY
    }

    function Cluster(): nat {
      clusterHigh * 0x1_0000 + clusterLow
    }

    predicate HasKey(n: Name, e: Ext) {
      name == n && ext == e
    }
  }

  type Cluster = c: seq<byte> | |c| == CLUSTER_SIZE witness Repeat(CLUSTER_SIZE, 0)
  type Table = t: seq<Entry> | |t| == SLOT_COUNT witness Repeat(SLOT_COUNT, ZERO_ENTRY)
  type Fat = f: seq<u32> | |f| == CLUSTER_MAP_SIZE witness Repeat(CLUSTER_MAP_SIZE, 0)
  type Disk = d: seq<Cluster> | |d| >= CLUSTER_MAP_SIZE
    witness Repeat<Cluster>(CLUSTER_MAP_SIZE, ZERO_CLUSTER)

  /** A cluster that the allocation table has an entry for. */
  type Index = c: nat | c < CLUSTER_MAP_SIZE

  const ZERO_ENTRY: Entry := Entry(NO_NAME, NO_EXT, 0, 0, [0, 0, 0, 0, 0, 0, 0], 0, [0, 0, 0, 0], 0, 0)
  const ZERO_CLUSTER: Cluster := Repeat(CLUSTER_SIZE, 0)
  const ZERO_TABLE: Table := Repeat(SLOT_COUNT, ZERO_ENTRY)
  const ZERO_FAT: Fat := Repeat(CLUSTER_MAP_SIZE, 0)

  function EntryBytes(e: Entry): (b: seq<byte>)
    ensures |b| == ENTRY_SIZE && EntryOf(b) == e
  {
    var b := e.name + e.ext + [e.attribute, e.userAttribute] + e.created
             + Le16(e.clusterHigh) + e.modified + Le16(e.clusterLow) + Le32(e.filesize);
    assert b[..8] == e.name && b[8..11] == e.ext && b[13..20] == e.created;
    assert b[20..22] == Le16(e.clusterHigh) && b[22..26] == e.modified;
    assert b[26..28] == Le16(e.clusterLow) && b[28..32] == Le32(e.filesize);
    b
  }

  function EntryOf(b: seq<byte>): Entry
    requires |b| == ENTRY_SIZE
  {
    Entry(b[..8], b[8..11], b[11], b[12], b[13..20],
          FromLe16(b[20..22]), b[22..26], FromLe16(b[26..28]), FromLe32(b[28..32]))
  }

  /** The table whose bytes fill this cluster. */
  ghost predicate IsTableOf(t: Table, c: Cluster) {
    forall j | 0 <= j < CLUSTER_SIZE :: c[j] == EntryBytes(t[j / ENTRY_SIZE])[j % ENTRY_SIZE]
  }

  /** Every cluster, whatever was last written to it, reads as a directory table. */
  ghost function TableOf(c: Cluster): (t: Table) {
    TableExists(c);
    var t: Table :| IsTableOf(t, c);
    t
  }

  function TableBytes(t: Table): (c: Cluster)
    ensures TableOf(c) == t
  {
    var c: Cluster := seq(CLUSTER_SIZE, j requires 0 <= j < CLUSTER_SIZE =>
                                          EntryBytes(t[j / ENTRY_SIZE])[j % ENTRY_SIZE]);
    TableUnique(TableOf(c), t, c);
    c
  }

  /** The table that an allocation-table cluster holds. */
  ghost predicate IsFatOf(f: Fat, c: Cluster) {
    forall j | 0 <= j < CLUSTER_SIZE :: c[j] == Le32(f[j / 4])[j % 4]
  }

  ghost function FatOf(c: Cluster): (f: Fat) {
    FatExists(c);
    var f: Fat :| IsFatOf(f, c);
    f
  }

  function FatBytes(f: Fat): (c: Cluster)
    ensures FatOf(c) == f
  {
    var c: Cluster := seq(CLUSTER_SIZE, j requires 0 <= j < CLUSTER_SIZE => Le32(f[j / 4])[j % 4]);
    FatUnique(FatOf(c), f, c);
    c
  }

  /** Every entry is the image of exactly one 32-byte record. */
  lemma EntryBytesOf(b: seq<byte>)
    requires |b| == ENTRY_SIZE
    ensures EntryBytes(EntryOf(b)) == b
  {
    Le16OfBytes(b[20..22]);
    Le16OfBytes(b[26..28]);
    Le32OfBytes(b[28..32]);
  }

  /** Decoding record by record gives such a table. */
  lemma TableExists(c: Cluster)
    ensures exists t: Table :: IsTableOf(t, c)
  {
    var t: Table := seq(SLOT_COUNT, i requires 0 <= i < SLOT_COUNT =>
                                      EntryOf(c[ENTRY_SIZE * i..ENTRY_SIZE * i + ENTRY_SIZE]));
    forall j | 0 <= j < CLUSTER_SIZE
      ensures c[j] == EntryBytes(t[j / ENTRY_SIZE])[j % ENTRY_SIZE]
    {
      var i, k := j / ENTRY_SIZE, j % ENTRY_SIZE;
      var record := c[ENTRY_SIZE * i..ENTRY_SIZE * i + ENTRY_SIZE];
      EntryBytesOf(record);
      assert record[k] == c[j];
    }
    assert IsTableOf(t, c);
  }

  /** And only one table has these bytes: each entry is read from its own record. */
  lemma TableEntry(t: Table, c: Cluster, i: nat)
    requires IsTableOf(t, c) && i < SLOT_COUNT
    ensures t[i] == EntryOf(c[ENTRY_SIZE * i..ENTRY_SIZE * i + ENTRY_SIZE])
  {
    var record := c[ENTRY_SIZE * i..ENTRY_SIZE * i + ENTRY_SIZE];
    assert record == EntryBytes(t[i]) by {
      forall k | 0 <= k < ENTRY_SIZE
        ensures record[k] == EntryBytes(t[i])[k]
      {
        assert (ENTRY_SIZE * i + k) / ENTRY_SIZE == i && (ENTRY_SIZE * i + k) % ENTRY_SIZE == k;
        assert record[k] == c[ENTRY_SIZE * i + k];
      }
    }
  }

  lemma TableUnique(t: Table, t': Table, c: Cluster)
    requires IsTableOf(t, c) && IsTableOf(t', c)
    ensures t == t'
  {
    forall i | 0 <= i < SLOT_COUNT
      ensures t[i] == t'[i]
    {
      TableEntry(t, c, i);
      TableEntry(t', c, i);
    }
  }

  lemma FatExists(c: Cluster)
    ensures exists f: Fat :: IsFatOf(f, c)
  {
    var f: Fat := seq(CLUSTER_MAP_SIZE, i requires 0 <= i < CLUSTER_MAP_SIZE => FromLe32(c[4 * i..4 * i + 4]));
    forall j | 0 <= j < CLUSTER_SIZE
      ensures c[j] == Le32(f[j / 4])[j % 4]
    {
      var i, k := j / 4, j % 4;
      var word := c[4 * i..4 * i + 4];
      Le32OfBytes(word);
      assert word[k] == c[j];
    }
    assert IsFatOf(f, c);
  }

  lemma FatEntry(f: Fat, c: Cluster, i: nat)
    requires IsFatOf(f, c) && i < CLUSTER_MAP_SIZE
    ensures f[i] == FromLe32(c[4 * i..4 * i + 4])
  {
    var word := c[4 * i..4 * i + 4];
    assert word == Le32(f[i]) by {
      forall k | 0 <= k < 4
        ensures word[k] == Le32(f[i])[k]
      {
        assert (4 * i + k) / 4 == i && (4 * i + k) % 4 == k;
        assert word[k] == c[4 * i + k];
      }
    }
  }

  lemma FatUnique(f: Fat, f': Fat, c: Cluster)
    requires IsFatOf(f, c) && IsFatOf(f', c)
    ensures f == f'
  {
    forall i | 0 <= i < CLUSTER_MAP_SIZE
      ensures f[i] == f'[i]
    {
      FatEntry(f, c, i);
      FatEntry(f', c, i);
    }
  }

  /** Writing back the table that was read gives the same bytes. */
  lemma TableBytesOf(c: Cluster)
    ensures TableBytes(TableOf(c)) == c
  {
    assert IsTableOf(TableOf(c), c);
    forall j | 0 <= j < CLUSTER_SIZE
      ensures TableBytes(TableOf(c))[j] == c[j]
    {
    }
  }

  lemma FatBytesOf(c: Cluster)
    ensures FatBytes(FatOf(c)) == c
  {
    assert IsFatOf(FatOf(c), c);
    forall j | 0 <= j < CLUSTER_SIZE
      ensures FatBytes(FatOf(c))[j] == c[j]
    {
    }
  }

  /** The entries of a table, record by record. */
  lemma TableAt(c: Cluster, i: nat)
    requires i < SLOT_COUNT
    ensures TableOf(c)[i] == EntryOf(c[ENTRY_SIZE * i..ENTRY_SIZE * i + ENTRY_SIZE])
  {
    TableEntry(TableOf(c), c, i);
  }

  lemma FatAt(c: Cluster, i: nat)
    requires i < CLUSTER_MAP_SIZE
    ensures FatOf(c)[i] == FromLe32(c[4 * i..4 * i + 4])
  {
    FatEntry(FatOf(c), c, i);
  }

  // ---------- the format, byte by byte ----------

  /** Where the fields of an entry are in its 32 bytes, and what its marks, its cluster number and its size are. */
  lemma EntryFormat(e: Entry)
    ensures var b := EntryBytes(e);
            && |b| == 32
            && e.name == b[..8] && e.ext == b[8..11] && e.created == b[13..20] && e.modified == b[22..26]
            && (e.IsDir() <==> b[11] == 0x10)
            && (e.Live() <==> b[12] == 0xAA)
            && e.attribute == b[11] && e.userAttribute == b[12]
            && e.Cluster() == Number(b[26], b[27], b[20], b[21])
            && e.filesize == Number(b[28], b[29], b[30], b[31])
  {
    var b := EntryBytes(e);
    assert e == EntryOf(b);
    assert b[28..32][..2] == b[28..30] && b[28..32][2..] == b[30..32];
  }

  /** A directory's cluster holds 64 such records, one after the other. */
  lemma TableFormat(c: Cluster, i: nat)
    requires i < 64
    ensures |c| == 2048 && |TableOf(c)| == 64
    ensures EntryBytes(TableOf(c)[i]) == c[32 * i..32 * i + 32]
  {
    hide EntryBytes;
    var t := TableOf(c);
    assert IsTableOf(t, c);
    forall k | 0 <= k < 32
      ensures c[32 * i..32 * i + 32][k] == EntryBytes(t[i])[k]
    {
      assert (32 * i + k) / ENTRY_SIZE == i && (32 * i + k) % ENTRY_SIZE == k;
      assert c[32 * i + k] == EntryBytes(t[(32 * i + k) / ENTRY_SIZE])[(32 * i + k) % ENTRY_SIZE];
    }
  }

  /** The allocation table's cluster holds 512 words, the lowest byte of each first. */
  lemma FatFormat(c: Cluster, k: nat)
    requires k < 512
    ensures |FatOf(c)| == 512
    ensures FatOf(c)[k] == Number(c[4 * k], c[4 * k + 1], c[4 * k + 2], c[4 * k + 3])
  {
    FatAt(c, k);
    var w := c[4 * k..4 * k + 4];
    assert w[..2] == c[4 * k..4 * k + 2] && w[2..] == c[4 * k + 2..4 * k + 4];
  }
}
