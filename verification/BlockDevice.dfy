/** The disk: a flat byte image, moved block by block and cluster by cluster. */
module BlockDevice {
  import opened Bytes
  import opened CString
  import opened OnDisk

  /** One completed cluster write, the unit of atomicity of the crash model. */
  datatype DiskWrite = DiskWrite(cluster: nat, data: Cluster)

  ghost predicate WritesFit(disk: Disk, writes: seq<DiskWrite>) {
    forall w | w in writes :: w.cluster < |disk|
  }

  /** The disk after the given writes, in order. */
  ghost function Apply(disk: Disk, writes: seq<DiskWrite>): (d: Disk)
    requires WritesFit(disk, writes)
    ensures |d| == |disk|
    decreases |writes|
  {
    if writes == [] then disk
    else
      var n := |writes| - 1;
      assert writes[n] in writes;
      Apply(disk, writes[..n])[writes[n].cluster := writes[n].data]
  }

  lemma ApplyOne(disk: Disk, writes: seq<DiskWrite>, w: DiskWrite)
    requires WritesFit(disk, writes) && w.cluster < |disk|
    ensures WritesFit(disk, writes + [w])
    ensures Apply(disk, writes + [w]) == Apply(disk, writes)[w.cluster := w.data]
  {
    assert (writes + [w])[..|writes|] == writes;
  }

  lemma ApplyTwo(disk: Disk, a: DiskWrite, b: DiskWrite)
    requires a.cluster < |disk| && b.cluster < |disk|
    ensures WritesFit(disk, [a, b])
    ensures Apply(disk, [a, b]) == disk[a.cluster := a.data][b.cluster := b.data]
  {
    ApplyOne(disk, [], a);
    ApplyOne(disk, [a], b);
    assert [] + [a] == [a] && [a] + [b] == [a, b];
  }

  lemma ApplyThree(disk: Disk, a: DiskWrite, b: DiskWrite, c: DiskWrite)
    requires a.cluster < |disk| && b.cluster < |disk| && c.cluster < |disk|
    ensures WritesFit(disk, [a, b, c])
    ensures Apply(disk, [a, b, c]) == disk[a.cluster := a.data][b.cluster := b.data][c.cluster := c.data]
  {
    ApplyTwo(disk, a, b);
    ApplyOne(disk, [a, b], c);
    assert [a, b] + [c] == [a, b, c];
  }

  lemma {:induction false} ApplyConcat(disk: Disk, first: seq<DiskWrite>, second: seq<DiskWrite>)
    requires WritesFit(disk, first) && WritesFit(disk, second)
    ensures WritesFit(disk, first + second)
    ensures Apply(disk, first + second) == Apply(Apply(disk, first), second)
    decreases |second|
  {
    if second == [] {
      assert first + second == first;
    } else {
      var n := |second| - 1;
      ApplyConcat(disk, first, second[..n]);
      assert first + second == (first + second[..n]) + [second[n]];
      assert second[n] in second;
      ApplyOne(disk, first + second[..n], second[n]);
    }
  }

  lemma {:induction false} ApplyElsewhere(disk: Disk, writes: seq<DiskWrite>, c: nat)
    requires WritesFit(disk, writes) && c < |disk| && forall w | w in writes :: w.cluster != c
    ensures Apply(disk, writes)[c] == disk[c]
    decreases |writes|
  {
    if writes != [] {
      var n := |writes| - 1;
      assert writes[n] in writes && forall w | w in writes[..n] :: w in writes;
      ApplyElsewhere(disk, writes[..n], c);
    }
  }

  lemma SpliceNothing(bytes: seq<byte>, at: nat)
    requires at <= |bytes|
    ensures Spliced(bytes, at, []) == bytes
  {
  }

  lemma SpliceMore(bytes: seq<byte>, at: nat, src: seq<byte>, start: nat, done: nat, n: nat)
    requires at + done + n <= |bytes| && start + done + n <= |src|
    ensures Spliced(Spliced(bytes, at, src[start..start + done]), at + done, src[start + done..start + done + n])
            == Spliced(bytes, at, src[start..start + done + n])
  {
    assert src[start..start + done + n] == src[start..start + done] + src[start + done..start + done + n];
  }

  ghost predicate WholeClusters(bytes: seq<byte>) {
    |bytes| % CLUSTER_SIZE == 0 && |bytes| >= CLUSTER_MAP_SIZE * CLUSTER_SIZE
  }

  /** A byte image seen as clusters. */
  ghost function ClustersOf(bytes: seq<byte>): (d: Disk)
    requires WholeClusters(bytes)
    ensures |d| == |bytes| / CLUSTER_SIZE
  {
    seq(|bytes| / CLUSTER_SIZE, c requires 0 <= c < |bytes| / CLUSTER_SIZE =>
      bytes[CLUSTER_SIZE * c..CLUSTER_SIZE * c + CLUSTER_SIZE])
  }

  /** Replacing one cluster's bytes changes that cluster and no other. */
  lemma SpliceCluster(bytes: seq<byte>, cluster: nat, data: Cluster)
    requires WholeClusters(bytes) && CLUSTER_SIZE * (cluster + 1) <= |bytes|
    ensures var spliced := Spliced(bytes, CLUSTER_SIZE * cluster, data);
            WholeClusters(spliced) && ClustersOf(spliced) == ClustersOf(bytes)[cluster := data]
  {
    var spliced := Spliced(bytes, CLUSTER_SIZE * cluster, data);
    forall c: nat | c < |ClustersOf(bytes)|
      ensures ClustersOf(spliced)[c] == ClustersOf(bytes)[cluster := data][c]
    {
      var at := CLUSTER_SIZE * c;
      if c < cluster {
        assert spliced[at..at + CLUSTER_SIZE] == bytes[at..at + CLUSTER_SIZE];
      } else if c == cluster {
        assert spliced[at..at + CLUSTER_SIZE] == data;
      } else {
        assert spliced[at..at + CLUSTER_SIZE] == bytes[at..at + CLUSTER_SIZE];
      }
    }
  }

  class Device {
    const image: array<byte>
    ghost var log: seq<DiskWrite>

    ghost predicate Valid() {
      image.Length % CLUSTER_SIZE == 0 && image.Length >= CLUSTER_MAP_SIZE * CLUSTER_SIZE
    }

    /** The image seen as clusters. */
    ghost function Clusters(): (d: Disk)
      requires Valid()
      reads image
      ensures |d| == image.Length / CLUSTER_SIZE
    {
      ClustersOf(image[..])
    }

    constructor (storage: array<byte>)
      requires storage.Length % CLUSTER_SIZE == 0 && storage.Length >= CLUSTER_MAP_SIZE * CLUSTER_SIZE
      ensures Valid() && image == storage && log == []
    {
      image := storage;
      log := [];
    }

    method ReadBlocks(ptr: array<byte>, at: nat, logicalBlockAddress: nat, blockCount: nat)
      requires ptr != image
      requires at + BLOCK_SIZE * blockCount <= ptr.Length
      requires BLOCK_SIZE * (logicalBlockAddress + blockCount) <= image.Length
      modifies ptr
      ensures ptr[..] == Spliced(old(ptr[..]), at,
                image[BLOCK_SIZE * logicalBlockAddress..BLOCK_SIZE * (logicalBlockAddress + blockCount)])
    {
      hide Spliced;
      var start := BLOCK_SIZE * logicalBlockAddress;
      SpliceNothing(old(ptr[..]), at);
      assert image[start..start + BLOCK_SIZE * 0] == [];
      for i := 0 to blockCount
        invariant ptr[..] == Spliced(old(ptr[..]), at, image[start..start + BLOCK_SIZE * i])
      {
        Memcpy(ptr, at + BLOCK_SIZE * i, image, BLOCK_SIZE * (logicalBlockAddress + i), BLOCK_SIZE);
        SpliceMore(old(ptr[..]), at, image[..], start, BLOCK_SIZE * i, BLOCK_SIZE);
      }
    }

    method WriteBlocks(ptr: array<byte>, at: nat, logicalBlockAddress: nat, blockCount: nat)
      requires ptr != image
      requires at + BLOCK_SIZE * blockCount <= ptr.Length
      requires BLOCK_SIZE * (logicalBlockAddress + blockCount) <= image.Length
      modifies image
      ensures image[..] == Spliced(old(image[..]), BLOCK_SIZE * logicalBlockAddress,
                                   ptr[at..at + BLOCK_SIZE * blockCount])
    {
      hide Spliced;
      var start := BLOCK_SIZE * logicalBlockAddress;
      SpliceNothing(old(image[..]), start);
      assert ptr[at..at + BLOCK_SIZE * 0] == [];
      for i := 0 to blockCount
        invariant image[..] == Spliced(old(image[..]), start, ptr[at..at + BLOCK_SIZE * i])
      {
        Memcpy(image, BLOCK_SIZE * (logicalBlockAddress + i), ptr, at + BLOCK_SIZE * i, BLOCK_SIZE);
        SpliceMore(old(image[..]), start, ptr[..], at, BLOCK_SIZE * i, BLOCK_SIZE);
      }
    }

    /** Reads one cluster into the buffer at the given offset. */
    method ReadCluster(ptr: array<byte>, at: nat, cluster: nat)
      requires Valid() && ptr != image
      requires at + CLUSTER_SIZE <= ptr.Length && cluster < |Clusters()|
      modifies ptr
      ensures ptr[..] == Spliced(old(ptr[..]), at, Clusters()[cluster])
      ensures Clusters() == old(Clusters())
    {
      ReadBlocks(ptr, at, cluster * CLUSTER_BLOCK_COUNT, CLUSTER_BLOCK_COUNT);
    }

    /** Writes one cluster from the buffer; the only way the driver changes the disk. */
    method WriteCluster(ptr: array<byte>, at: nat, cluster: nat)
      requires Valid() && ptr != image
      requires at + CLUSTER_SIZE <= ptr.Length && cluster < |Clusters()|
      modifies image, `log
      ensures Clusters() == old(Clusters())[cluster := ptr[at..at + CLUSTER_SIZE]]
      ensures log == old(log) + [DiskWrite(cluster, ptr[at..at + CLUSTER_SIZE])]
    {
      WriteBlocks(ptr, at, cluster * CLUSTER_BLOCK_COUNT, CLUSTER_BLOCK_COUNT);
      log := log + [DiskWrite(cluster, ptr[at..at + CLUSTER_SIZE])];
      SpliceCluster(old(image[..]), cluster, ptr[at..at + CLUSTER_SIZE]);
    }

    /** Reads the boot sector, the first block. */
    method ReadBootSector(ptr: array<byte>)
      requires Valid() && ptr != image && ptr.Length == BLOCK_SIZE
      modifies ptr
      ensures ptr[..] == Clusters()[BOOT_CLUSTER][..BLOCK_SIZE]
      ensures Clusters() == old(Clusters())
    {
      ReadBlocks(ptr, 0, BOOT_CLUSTER, 1);
      assert ptr[..] == image[0..BLOCK_SIZE];
      assert Clusters()[BOOT_CLUSTER] == image[0..CLUSTER_SIZE];
    }

    method WriteBootSector(ptr: array<byte>)
      requires Valid() && ptr != image && ptr.Length == BLOCK_SIZE
      modifies image
      ensures Clusters()
              == old(Clusters())[BOOT_CLUSTER := ptr[..] + old(Clusters())[BOOT_CLUSTER][BLOCK_SIZE..]]
    {
      ghost var was := image[..];
      ghost var boot: Cluster := ptr[..] + was[BLOCK_SIZE..CLUSTER_SIZE];
      WriteBlocks(ptr, 0, BOOT_CLUSTER, 1);
      assert image[..] == Spliced(was, CLUSTER_SIZE * BOOT_CLUSTER, boot);
      SpliceCluster(was, BOOT_CLUSTER, boot);
      assert ClustersOf(was)[BOOT_CLUSTER][BLOCK_SIZE..] == was[BLOCK_SIZE..CLUSTER_SIZE];
    }
  }
}
