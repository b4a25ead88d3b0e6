/** The driver itself: the cached allocation table and the directory buffer, updated in place. Each call is proved to
    do exactly what module Operations says, including the order of its disk writes. */
module FatDriver {
  import opened Bytes
  import opened CString
  import opened OnDisk
  import opened Chains
  import opened BlockDevice
  import Operations

  type Request = Operations.Request

  class Driver {
    const device: Device
    const clusterMap: array<u32>
    const dirTable: array<Entry>

    ghost predicate Valid() {
      && device.Valid()
      && clusterMap.Length == CLUSTER_MAP_SIZE
      && dirTable.Length == SLOT_COUNT
      && device.image as object != clusterMap as object
    }

    ghost function FatView(): Fat
      requires Valid()
      reads clusterMap
    {
      clusterMap[..]
    }

    ghost function DiskView(): Disk
      requires Valid()
      reads device.image
    {
      device.Clusters()
    }

    constructor (storage: array<byte>)
      requires storage.Length % CLUSTER_SIZE == 0 && storage.Length >= CLUSTER_MAP_SIZE * CLUSTER_SIZE
      ensures Valid() && device.image == storage && fresh({device}) && fresh(clusterMap) && fresh(dirTable)
      ensures FatView() == ZERO_FAT && dirTable[..] == ZERO_TABLE
    {
      device := new Device(storage);
      clusterMap := new u32[CLUSTER_MAP_SIZE](_ => 0);
      dirTable := new Entry[SLOT_COUNT](_ => ZERO_ENTRY);
    }

    /** Formats an empty disk, or loads the allocation table of a formatted one. */
    method Initialize()
      requires Valid()
      modifies clusterMap, device.image, device`log
      ensures (FatView(), DiskView()) == Operations.Boot(old(FatView()), old(DiskView()))
      ensures FatView() == FatOf(DiskView()[FAT_CLUSTER]) <==>
                || Operations.IsFormatted(old(DiskView()))
                || Operations.FormattedFat(old(FatView())) == old(FatView())
    {
      Operations.BootAgreesIffFormatted(FatView(), DiskView());
      var empty := IsEmptyStorage();
      if empty {
        CreateFat32();
      } else {
        LoadFat();
      }
    }

    method IsEmptyStorage() returns (empty: bool)
      requires Valid()
      ensures empty <==> !Operations.IsFormatted(DiskView())
    {
      var block := new byte[BLOCK_SIZE];
      device.ReadBootSector(block);
      var r := Memcmp(block[..], SIGNATURE, BLOCK_SIZE);
      assert block[..][..BLOCK_SIZE] == block[..] && SIGNATURE[..BLOCK_SIZE] == SIGNATURE;
      empty := r != 0;
    }

    method CreateFat32()
      requires Valid()
      modifies clusterMap, device.image, device`log
      ensures FatView() == Operations.FormattedFat(old(FatView()))
      ensures DiskView() == Operations.FormattedDisk(old(FatView()), old(DiskView()))
    {
      hide TableOf, FatOf, TableBytes, FatBytes;
      var block := new byte[BLOCK_SIZE](i requires 0 <= i < BLOCK_SIZE => SIGNATURE[i]);
      assert block[..] == SIGNATURE;
      device.WriteBootSector(block);
      StoreFat();
      var temp := InitDirectoryTable(Operations.ROOT_NAME, ROOT_CLUSTER);
      clusterMap[0] := CLUSTER_0_VALUE;
      clusterMap[1] := CLUSTER_1_VALUE;
      clusterMap[2] := END_OF_FILE;
      temp[0] := temp[0].(userAttribute := UATTR_NOT_EMPTY, attribute := ATTR_SUBDIRECTORY, filesize := 0,
                          clusterHigh := 0, clusterLow := 2);
      temp[1] := temp[1].(name := Operations.ROOT_NAME, attribute := ATTR_SUBDIRECTORY,
                          userAttribute := UATTR_NOT_EMPTY);
      assert temp[..] == Operations.RootTable();
      StoreTable(temp, ROOT_CLUSTER);
    }

    /** An empty table that names itself in slot 0 and gives its parent's cluster in slot 1. */
    method InitDirectoryTable(name: Name, parent: u32) returns (table: array<Entry>)
      ensures fresh(table) && table.Length == SLOT_COUNT
      ensures forall i | 2 <= i < SLOT_COUNT :: table[i] == ZERO_ENTRY
      ensures table[0] == ZERO_ENTRY.(name := name)
      ensures table[1] == ZERO_ENTRY.(clusterHigh := parent / 0x1_0000, clusterLow := parent % 0x1_0000)
    {
      table := new Entry[SLOT_COUNT](_ => ZERO_ENTRY);
      table[0] := table[0].(name := name);
      table[1] := table[1].(clusterHigh := parent / 0x1_0000, clusterLow := parent % 0x1_0000);
    }

    /** Reads a cluster over a directory table. */
    method LoadTable(table: array<Entry>, cluster: nat)
      requires Valid() && table.Length == SLOT_COUNT && cluster < |DiskView()|
      modifies table
      ensures table[..] == TableOf(DiskView()[cluster])
      ensures FatView() == old(FatView()) && DiskView() == old(DiskView())
    {
      hide TableOf, FatOf, EntryOf;
      var buf := new byte[CLUSTER_SIZE];
      device.ReadCluster(buf, 0, cluster);
      ghost var c := DiskView()[cluster];
      assert buf[..] == c;
      forall i | 0 <= i < SLOT_COUNT {
        table[i] := EntryOf(buf[ENTRY_SIZE * i..ENTRY_SIZE * i + ENTRY_SIZE]);
      }
      forall i | 0 <= i < SLOT_COUNT
        ensures table[i] == TableOf(c)[i]
      {
        TableAt(c, i);
        assert buf[ENTRY_SIZE * i..ENTRY_SIZE * i + ENTRY_SIZE] == c[ENTRY_SIZE * i..ENTRY_SIZE * i + ENTRY_SIZE];
      }
    }

    method StoreTable(table: array<Entry>, cluster: nat)
      requires Valid() && table.Length == SLOT_COUNT && cluster < |DiskView()|
      modifies device.image, device`log
      ensures DiskView() == old(DiskView())[cluster := TableBytes(table[..])]
      ensures device.log == old(device.log) + [DiskWrite(cluster, TableBytes(table[..]))]
      ensures table[..] == old(table[..]) && dirTable[..] == old(dirTable[..]) && FatView() == old(FatView())
    {
      var bytes := TableBytes(table[..]);
      var buf := new byte[CLUSTER_SIZE](i requires 0 <= i < CLUSTER_SIZE => bytes[i]);
      assert buf[..] == buf[0..0 + CLUSTER_SIZE] == bytes;
      device.WriteCluster(buf, 0, cluster);
    }

    method LoadFat()
      requires Valid()
      modifies clusterMap
      ensures FatView() == FatOf(DiskView()[FAT_CLUSTER])
      ensures DiskView() == old(DiskView()) && dirTable[..] == old(dirTable[..])
    {
      hide TableOf, FatOf, FromLe32;
      var buf := new byte[CLUSTER_SIZE];
      device.ReadCluster(buf, 0, FAT_CLUSTER);
      ghost var c := DiskView()[FAT_CLUSTER];
      assert buf[..] == c;
      forall i | 0 <= i < CLUSTER_MAP_SIZE {
        clusterMap[i] := FromLe32(buf[4 * i..4 * i + 4]);
      }
      forall i | 0 <= i < CLUSTER_MAP_SIZE
        ensures clusterMap[i] == FatOf(c)[i]
      {
        FatAt(c, i);
        assert buf[4 * i..4 * i + 4] == c[4 * i..4 * i + 4];
      }
    }

    method StoreFat()
      requires Valid()
      modifies device.image, device`log
      ensures DiskView() == old(DiskView())[FAT_CLUSTER := FatBytes(FatView())]
      ensures device.log == old(device.log) + [DiskWrite(FAT_CLUSTER, FatBytes(FatView()))]
      ensures FatView() == old(FatView()) && dirTable[..] == old(dirTable[..])
    {
      var bytes := FatBytes(clusterMap[..]);
      var buf := new byte[CLUSTER_SIZE](i requires 0 <= i < CLUSTER_SIZE => bytes[i]);
      assert buf[..] == buf[0..0 + CLUSTER_SIZE] == bytes;
      device.WriteCluster(buf, 0, FAT_CLUSTER);
    }

    /** Exact comparison of name and extension, as memcmp over all 8 and all 3 bytes. */
    method SameKey(e: Entry, name: Name, ext: Ext) returns (same: bool)
      ensures same <==> e.HasKey(name, ext)
    {
      var names := Memcmp(e.name, name, 8);
      var exts := Memcmp(e.ext, ext, 3);
      assert e.name[..8] == e.name && name[..8] == name && e.ext[..3] == e.ext && ext[..3] == ext;
      same := names == 0 && exts == 0;
    }

    method NameStartsWith(e: Entry, name: Name) returns (starts: bool)
      ensures starts <==> Operations.StartsWith(e.name, name)
    {
      var n := Strlen(name);
      var names := Memcmp(e.name, name, n);
      starts := names == 0;
    }

    method FindFreeSlot() returns (slot: nat)
      requires Valid()
      ensures slot == Operations.FreeSlot(dirTable[..], 0)
    {
      slot := 0;
      while slot < SLOT_COUNT && dirTable[slot].userAttribute == UATTR_NOT_EMPTY
        invariant slot <= SLOT_COUNT
        invariant Operations.FreeSlot(dirTable[..], slot) == Operations.FreeSlot(dirTable[..], 0)
      {
        slot := slot + 1;
      }
    }

    method NameTaken(req: Request) returns (taken: bool)
      requires Valid()
      ensures taken <==> Operations.ExactSlot(dirTable[..], req.name, req.ext, 1) < SLOT_COUNT
    {
      ghost var t := dirTable[..];
      for i := 1 to SLOT_COUNT
        invariant Operations.ExactSlot(t, req.name, req.ext, i) == Operations.ExactSlot(t, req.name, req.ext, 1)
      {
        taken := SameKey(dirTable[i], req.name, req.ext);
        if taken {
          return;
        }
      }
      taken := false;
    }

    method Write(req: Request, buf: array<byte>) returns (code: int)
      requires Valid() && req.parent < |DiskView()| && Operations.Buffered(FatView(), buf[..], req.bufferSize)
      requires buf != device.image && buf as object != clusterMap as object
      modifies clusterMap, dirTable, device.image, device`log
      ensures var o := Operations.Write(old(FatView()), old(DiskView()), req, old(buf[..]));
              && code == o.code && FatView() == o.fat
              && WritesFit(old(DiskView()), o.writes)
              && DiskView() == Apply(old(DiskView()), o.writes)
              && device.log == old(device.log) + o.writes
    {
      hide TableOf, FatOf, TableBytes, FatBytes;
      LoadTable(dirTable, req.parent);
      ghost var t: Table := dirTable[..];
      if dirTable[0].attribute != ATTR_SUBDIRECTORY {
        return 2;
      }

      var slot := FindFreeSlot();
      if slot == SLOT_COUNT {
        return -1;
      }
      var taken := NameTaken(req);
      if taken {
        return 1;
      }
      if req.bufferSize == 0 {
        code := MakeDirectory(slot, req);
      } else {
        code := MakeFile(slot, req, buf);
      }
    }

    /** The directory half of `write`, once a slot has been found. */
    method MakeDirectory(slot: nat, req: Request) returns (code: int)
      requires Valid() && req.parent < |DiskView()| && slot < SLOT_COUNT && req.bufferSize == 0
      modifies clusterMap, dirTable, device.image, device`log
      ensures var o := Operations.MakeDirectory(old(FatView()), old(DiskView()), old(dirTable[..]), slot, req);
              && code == o.code && FatView() == o.fat
              && WritesFit(old(DiskView()), o.writes)
              && DiskView() == Apply(old(DiskView()), o.writes)
              && device.log == old(device.log) + o.writes
    {
      hide TableOf, FatOf, TableBytes, FatBytes;
      ghost var disk, fat, t := DiskView(), FatView(), dirTable[..];
      var c := FirstFree();
      if c == CLUSTER_MAP_SIZE {
        return -1;
      }
      clusterMap[c] := END_OF_FILE;
      StoreFat();

      SetEntry(slot, dirTable[slot].(
        name := req.name, ext := req.ext, attribute := ATTR_SUBDIRECTORY, userAttribute := UATTR_NOT_EMPTY,
        clusterHigh := c / 0x1_0000, clusterLow := c % 0x1_0000, filesize := req.bufferSize));
      ghost var t' := dirTable[..];
      StoreTable(dirTable, req.parent);

      InitChildTable(c, req);
      Operations.MakeDirectoryApplied(fat, disk, t, slot, req);
      code := 0;
    }

    method SetEntry(slot: nat, e: Entry)
      requires Valid() && slot < SLOT_COUNT
      modifies dirTable
      ensures dirTable[..] == old(dirTable[..])[slot := e]
      ensures FatView() == old(FatView()) && DiskView() == old(DiskView())
    {
      dirTable[slot] := e;
    }

    /** Reads the new directory's cluster back and fills in its first two slots. */
    method InitChildTable(c: Index, req: Request)
      requires Valid() && req.bufferSize == 0
      modifies dirTable, device.image, device`log
      ensures var bytes := TableBytes(Operations.ChildTable(TableOf(old(DiskView())[c]), req, c));
              && DiskView() == old(DiskView())[c := bytes]
              && device.log == old(device.log) + [DiskWrite(c, bytes)]
      ensures FatView() == old(FatView())
    {
      hide TableOf, FatOf, TableBytes, FatBytes;
      LoadTable(dirTable, c);
      ghost var child: Table := dirTable[..];
      dirTable[1] := dirTable[1].(
        name := req.parentName, attribute := ATTR_SUBDIRECTORY, userAttribute := UATTR_NOT_EMPTY,
        clusterHigh := req.parent / 0x1_0000, clusterLow := req.parent % 0x1_0000);
      dirTable[0] := dirTable[0].(
        name := req.name, ext := req.ext, attribute := ATTR_SUBDIRECTORY, userAttribute := UATTR_NOT_EMPTY,
        clusterHigh := c % 0x1_0000 / 0x1_0000, clusterLow := c % 0x1_0000, filesize := req.bufferSize);
      assert dirTable[..] == Operations.ChildTable(child, req, c);
      StoreTable(dirTable, c);
    }

    /** The file half of `write`, once a slot has been found. */
    method MakeFile(slot: nat, req: Request, buf: array<byte>) returns (code: int)
      requires Valid() && req.parent < |DiskView()| && slot < SLOT_COUNT
      requires req.bufferSize > 0 && Operations.Buffered(FatView(), buf[..], req.bufferSize)
      requires buf != device.image && buf as object != clusterMap as object
      modifies clusterMap, dirTable, device.image, device`log
      ensures var o := Operations.MakeFile(old(FatView()), old(dirTable[..]), slot, req, old(buf[..]));
              && code == o.code && FatView() == o.fat
              && WritesFit(old(DiskView()), o.writes)
              && DiskView() == Apply(old(DiskView()), o.writes)
              && device.log == old(device.log) + o.writes
    {
      hide TableOf, FatOf, TableBytes, FatBytes;
      var need := ClustersNeeded(req.bufferSize);
      ghost var fat, disk, t := FatView(), DiskView(), dirTable[..];
      var start, found := AllocateChain(need);
      if !found {
        return -1;
      }
      ghost var chain := Allocation(fat, need);
      AllocationLinks(fat, need);
      ghost var header := StoreFileEntry(slot, start, req);
      WriteContents(start, buf, chain);
      ApplyConcat(disk, header, Operations.DataWrites(chain, buf[..]));
      assert FatView() == Operations.MakeFile(fat, t, slot, req, buf[..]).fat;
      assert header + Operations.DataWrites(chain, buf[..]) == Operations.MakeFile(fat, t, slot, req, buf[..]).writes;
      code := 0;
    }

    /** Writes out the table and then the parent directory with the file's entry in it. */
    method StoreFileEntry(slot: nat, start: Index, req: Request) returns (ghost header: seq<DiskWrite>)
      requires Valid() && req.parent < |DiskView()| && slot < SLOT_COUNT
      modifies dirTable, device.image, device`log
      ensures var entry := Operations.FileEntry(old(dirTable[slot]), req.name, req.ext, start, req.bufferSize);
              header == [DiskWrite(FAT_CLUSTER, FatBytes(FatView())),
                         DiskWrite(req.parent, TableBytes(old(dirTable[..])[slot := entry]))]
      ensures WritesFit(old(DiskView()), header) && DiskView() == Apply(old(DiskView()), header)
      ensures device.log == old(device.log) + header
      ensures FatView() == old(FatView())
    {
      hide TableOf, FatOf, TableBytes, FatBytes;
      StoreFat();
      SetEntry(slot, dirTable[slot].(
        name := req.name, ext := req.ext, userAttribute := UATTR_NOT_EMPTY,
        clusterHigh := start % 0x1_0000 / 0x1_0000, clusterLow := start % 0x1_0000, filesize := req.bufferSize));
      ghost var t := dirTable[..];
      StoreTable(dirTable, req.parent);
      header := [DiskWrite(FAT_CLUSTER, FatBytes(FatView())), DiskWrite(req.parent, TableBytes(t))];
      ApplyTwo(old(DiskView()), header[0], header[1]);
    }

    /** Finds and links the clusters of a file; when there are too few, the partial chain is undone again. */
    method AllocateChain(need: nat) returns (start: nat, found: bool)
      requires Valid() && need > 0
      modifies clusterMap
      ensures var chain := Allocation(old(FatView()), need);
              if chain == [] then !found && FatView() == old(FatView())
              else found && start == chain[0] && FatView() == Link(old(FatView()), chain)
      ensures DiskView() == old(DiskView())
    {
      hide TableOf, FatOf, TableBytes, FatBytes;
      ghost var fat := FatView();
      ghost var free := FreeClusters(fat);
      start := FirstFree();
      if start == CLUSTER_MAP_SIZE {
        return start, false;
      }
      var ready, prev, i := LinkFree(start, need);
      ScanResult(fat, need, start, i);
      FreeBelowLists(fat, i);
      if ready >= need {
        clusterMap[prev] := END_OF_FILE;
        found := true;
      } else {
        UndoChain(start, fat, FreeBelow(fat, i));
        found := false;
      }
    }

    /** The scan from the first free cluster on: links every further free cluster to the one before, until enough. */
    method LinkFree(start: Index, need: nat) returns (ready: nat, prev: Index, i: nat)
      requires Valid() && need > 0
      requires FatView()[start] == EMPTY_ENTRY && forall d | 0 <= d < start :: FatView()[d] != EMPTY_ENTRY
      modifies clusterMap
      ensures DiskView() == old(DiskView())
      ensures start < i <= CLUSTER_MAP_SIZE
      ensures var done := FreeBelow(old(FatView()), i);
              ready == |done| > 0 && prev == done[ready - 1] && FatView() == LinkOpen(old(FatView()), done)
      ensures || (i == CLUSTER_MAP_SIZE && ready < need)
              || (i == CLUSTER_MAP_SIZE == start + 1 && need == 1)
              || (i == start + 2 && need == 1)
              || (ready == need && need > 1)
    {
      hide TableOf, FatOf, TableBytes, FatBytes, LinkOpen;
      ghost var fat := FatView();
      ready, prev, i := 1, start, start + 1;
      ghost var done := [start];
      LowestFree(fat, start);
      LinkOpenOne(fat, start);
      while i < CLUSTER_MAP_SIZE
        invariant start < i <= CLUSTER_MAP_SIZE && done == FreeBelow(fat, i)
        invariant ready == |done| > 0 && prev == done[ready - 1] && FatView() == LinkOpen(fat, done)
        invariant if i == start + 1 then ready == 1 else ready < need
      {
        ScanStep(fat, i);
        if clusterMap[i] == EMPTY_ENTRY {
          clusterMap[prev] := i;
          prev := i;
          ready := ready + 1;
          done := done + [i];
        }
        i := i + 1;
        if ready >= need {
          break;
        }
      }
    }

    /** Empties again the clusters that an unfinished scan has linked. */
    method UndoChain(head: Index, ghost fat: Fat, ghost chain: seq<Index>)
      requires Valid() && FatView() == LinkOpen(fat, chain)
      requires |chain| > 0 && chain[0] == head && Ascending(chain)
      requires forall c | c in chain :: fat[c] == EMPTY_ENTRY
      modifies clusterMap
      ensures FatView() == fat && DiskView() == old(DiskView())
    {
      hide TableOf, FatOf, TableBytes, FatBytes;
      var start := head;
      ghost var j := 0;
      assert Undone(fat, chain, 0) == FatView();
      UndoneStep(fat, chain, 0);
      while clusterMap[start] != EMPTY_ENTRY
        invariant 0 <= j < |chain| && start == chain[j]
        invariant FatView() == Undone(fat, chain, j)
        invariant FatView()[start] == if j < |chain| - 1 then chain[j + 1] else EMPTY_ENTRY
        invariant FatView()[start] == EMPTY_ENTRY <==> j == |chain| - 1
        invariant DiskView() == old(DiskView())
        decreases |chain| - j
      {
        UndoneStep(fat, chain, j);
        UndoneStep(fat, chain, j + 1);
        var next := clusterMap[start];
        clusterMap[start] := EMPTY_ENTRY;
        start := next;
        j := j + 1;
      }
      UndoneAll(fat, chain);
    }

    /** Copies the buffer to the clusters of a chain, following the cached table. */
    method WriteContents(head: Index, buf: array<byte>, ghost chain: seq<Index>)
      requires Valid() && IsChain(FatView(), chain) && chain[0] == head
      requires buf != device.image && buf.Length >= CLUSTER_SIZE * |chain|
      modifies device.image, device`log
      ensures var writes := Operations.DataWrites(chain, buf[..]);
              && WritesFit(old(DiskView()), writes)
              && DiskView() == Apply(old(DiskView()), writes)
              && device.log == old(device.log) + writes
      ensures FatView() == old(FatView())
    {
      hide TableOf, FatOf, TableBytes, FatBytes;
      ghost var disk := DiskView();
      var start, i := head, 0;
      while clusterMap[start] != END_OF_FILE
        invariant 0 <= i < |chain| && start == chain[i]
        invariant var done := Operations.DataWrites(chain[..i], buf[..]);
                  WritesFit(disk, done) && DiskView() == Apply(disk, done) && device.log == old(device.log) + done
        invariant FatView() == old(FatView())
        decreases |chain| - i
      {
        WriteDataCluster(buf, i, start, chain, disk, old(device.log));
        start := clusterMap[start];
        i := i + 1;
      }
      if i < |chain| - 1 {
        InnerLinkIsNotTheEnd(FatView(), chain, i);
      }
      WriteDataCluster(buf, i, start, chain, disk, old(device.log));
      assert chain[..i + 1] == chain;
    }

    method WriteDataCluster(buf: array<byte>, i: nat, start: Index, ghost chain: seq<Index>,
                            ghost disk: Disk, ghost log: seq<DiskWrite>)
      requires Valid() && i < |chain| && chain[i] == start
      requires buf != device.image && buf.Length >= CLUSTER_SIZE * |chain|
      requires var done := Operations.DataWrites(chain[..i], buf[..]);
               WritesFit(disk, done) && DiskView() == Apply(disk, done) && device.log == log + done
      modifies device.image, device`log
      ensures var done := Operations.DataWrites(chain[..i + 1], buf[..]);
              WritesFit(disk, done) && DiskView() == Apply(disk, done) && device.log == log + done
      ensures FatView() == old(FatView())
    {
      hide TableOf, FatOf, TableBytes, FatBytes, Apply;
      ghost var done := Operations.DataWrites(chain[..i], buf[..]);
      ghost var w := DiskWrite(start, buf[CLUSTER_SIZE * i..CLUSTER_SIZE * i + CLUSTER_SIZE]);
      device.WriteCluster(buf, CLUSTER_SIZE * i, start);
      ApplyOne(disk, done, w);
      assert chain[..i + 1][..i] == chain[..i];
      assert Operations.DataWrites(chain[..i + 1], buf[..]) == done + [w];
    }

    /** First-fit search of the allocation table; CLUSTER_MAP_SIZE when nothing is free. */
    method FirstFree() returns (c: nat)
      requires Valid()
      ensures var free := FreeClusters(FatView());
              if free == [] then c == CLUSTER_MAP_SIZE else c == free[0]
      ensures c <= CLUSTER_MAP_SIZE && forall d | 0 <= d < c :: FatView()[d] != EMPTY_ENTRY
      ensures c < CLUSTER_MAP_SIZE ==> FatView()[c] == EMPTY_ENTRY
    {
      c := 0;
      while c < CLUSTER_MAP_SIZE && clusterMap[c] != EMPTY_ENTRY
        invariant c <= CLUSTER_MAP_SIZE
        invariant forall d | 0 <= d < c :: clusterMap[d] != EMPTY_ENTRY
      {
        c := c + 1;
      }
      if c < CLUSTER_MAP_SIZE {
        LowestFree(FatView(), c);
      } else {
        NoFreeBelow(FatView(), c);
      }
    }

    method Delete(req: Request) returns (code: int)
      requires Valid() && req.parent < |DiskView()| && Operations.DeleteSafe(FatView(), DiskView(), req)
      modifies clusterMap, dirTable, device.image, device`log
      ensures var o := Operations.Delete(old(FatView()), old(DiskView()), req);
              && code == o.code && FatView() == o.fat
              && WritesFit(old(DiskView()), o.writes)
              && DiskView() == Apply(old(DiskView()), o.writes)
              && device.log == old(device.log) + o.writes
    {
      hide TableOf, FatOf, TableBytes, FatBytes;
      LoadTable(dirTable, req.parent);
      if dirTable[0].attribute != ATTR_SUBDIRECTORY {
        return -1;
      }
      var slot := FindMatch(req);
      if slot == SLOT_COUNT {
        return 1;
      }
      var cluster := dirTable[slot].clusterHigh as int * 0x1_0000 + dirTable[slot].clusterLow as int;
      if dirTable[slot].attribute == ATTR_SUBDIRECTORY {
        code := RemoveDirectory(slot, cluster, req.parent);
      } else {
        RemoveFile(slot, cluster, req.parent);
        code := 0;
      }
    }

    method FindMatch(req: Request) returns (slot: nat)
      requires Valid()
      ensures slot == Operations.MatchSlot(dirTable[..], req.name, req.ext, 2)
    {
      ghost var t := dirTable[..];
      slot := 2;
      while slot < SLOT_COUNT
        invariant 2 <= slot <= SLOT_COUNT
        invariant Operations.MatchSlot(t, req.name, req.ext, slot) == Operations.MatchSlot(t, req.name, req.ext, 2)
      {
        var starts := NameStartsWith(dirTable[slot], req.name);
        var exts := Memcmp(dirTable[slot].ext, req.ext, 3);
        assert t[slot].ext[..3] == t[slot].ext && req.ext[..3] == req.ext;
        if starts && exts == 0 {
          return;
        }
        slot := slot + 1;
      }
    }

    method RemoveDirectory(slot: nat, cluster: Index, parent: nat) returns (code: int)
      requires Valid() && parent < |DiskView()| && slot < SLOT_COUNT
      modifies clusterMap, dirTable, device.image, device`log
      ensures var o := Operations.RemoveDirectory(old(FatView()), old(DiskView()), old(dirTable[..]),
                                                  slot, cluster, parent);
              && code == o.code && FatView() == o.fat
              && WritesFit(old(DiskView()), o.writes)
              && DiskView() == Apply(old(DiskView()), o.writes)
              && device.log == old(device.log) + o.writes
    {
      hide TableOf, FatOf, TableBytes, FatBytes;
      ghost var fat, disk, t := FatView(), DiskView(), dirTable[..];
      var child := new Entry[SLOT_COUNT](_ => ZERO_ENTRY);
      LoadTable(child, cluster);
      ghost var c: Table := child[..];
      for i := 2 to SLOT_COUNT
        invariant forall j | 2 <= j < i :: !c[j].Live()
      {
        if child[i].userAttribute == UATTR_NOT_EMPTY {
          assert c[i].Live();
          return 2;
        }
      }

      BlankSlot(dirTable, slot);
      ghost var t' := dirTable[..];
      StoreTable(dirTable, parent);
      BlankSlot(child, 0);
      BlankSlot(child, 1);
      assert child[..] == Operations.EmptiedTable(c);
      StoreTable(child, cluster);
      clusterMap[cluster] := EMPTY_ENTRY;
      StoreFat();
      Operations.RemoveDirectoryApplied(fat, disk, t, slot, cluster, parent);
      code := 0;
    }

    method BlankSlot(table: array<Entry>, slot: nat)
      requires slot < table.Length
      modifies table
      ensures table[..] == old(table[..])[slot := Operations.Blanked(old(table[slot]))]
    {
      table[slot] := table[slot].(name := NO_NAME, ext := NO_EXT);
      table[slot] := table[slot].(attribute := 0, userAttribute := 0);
    }

    method RemoveFile(slot: nat, cluster: Index, parent: nat)
      requires Valid() && parent < |DiskView()| && slot < SLOT_COUNT && HeadsChain(FatView(), cluster)
      modifies clusterMap, dirTable, device.image, device`log
      ensures var o := Operations.RemoveFile(old(FatView()), old(dirTable[..]), slot, cluster, parent);
              && FatView() == o.fat
              && WritesFit(old(DiskView()), o.writes)
              && DiskView() == Apply(old(DiskView()), o.writes)
              && device.log == old(device.log) + o.writes
    {
      hide TableOf, FatOf, TableBytes, FatBytes;
      ghost var disk := DiskView();
      BlankSlot(dirTable, slot);
      ghost var t' := dirTable[..];
      StoreTable(dirTable, parent);
      FreeChain(cluster);
      StoreFat();
      ApplyTwo(disk, DiskWrite(parent, TableBytes(t')), DiskWrite(FAT_CLUSTER, FatBytes(FatView())));
    }

    /** Walks a chain to its end, emptying each entry behind itself. */
    method FreeChain(head: Index)
      requires Valid() && HeadsChain(FatView(), head)
      modifies clusterMap
      ensures FatView() == Release(old(FatView()), ChainFrom(old(FatView()), head))
      ensures DiskView() == old(DiskView()) && dirTable[..] == old(dirTable[..])
    {
      hide TableOf, FatOf, TableBytes, FatBytes;
      ghost var fat := FatView();
      ghost var chain := ChainFrom(fat, head);
      var now := head;
      ghost var j := 0;
      ReleaseStep(fat, chain, 0);
      assert Release(fat, chain[..0]) == fat;
      while clusterMap[now] != END_OF_FILE
        invariant 0 <= j < |chain| && now == chain[j]
        invariant FatView() == Release(fat, chain[..j])
        invariant FatView()[now] == if j < |chain| - 1 then chain[j + 1] else END_OF_FILE
        invariant FatView()[now] == END_OF_FILE <==> j == |chain| - 1
        invariant DiskView() == old(DiskView()) && dirTable[..] == old(dirTable[..])
        decreases |chain| - j
      {
        ReleaseStep(fat, chain, j);
        ReleaseStep(fat, chain, j + 1);
        var prev := now;
        now := clusterMap[now];
        clusterMap[prev] := EMPTY_ENTRY;
        j := j + 1;
      }
      ReleaseStep(fat, chain, j);
      assert chain[..j + 1] == chain;
      clusterMap[now] := EMPTY_ENTRY;
    }

    /** Reads a file into the buffer, whole clusters at a time. */
    method Read(req: Request, buf: array<byte>) returns (code: int)
      requires Valid() && req.parent < |DiskView()| && Operations.ReadSafe(DiskView(), req)
      requires |Operations.Read(FatView(), DiskView(), req).data| <= buf.Length
      requires buf != device.image && buf as object != clusterMap as object
      modifies clusterMap, dirTable, buf
      ensures var o := Operations.Read(old(FatView()), old(DiskView()), req);
              code == o.code && FatView() == o.fat && buf[..] == o.data + old(buf[|o.data|..])
      ensures DiskView() == old(DiskView())
    {
      hide TableOf, FatOf, TableBytes, FatBytes;
      LoadTable(dirTable, req.parent);
      if !(dirTable[0].userAttribute == UATTR_NOT_EMPTY && dirTable[0].attribute == ATTR_SUBDIRECTORY) {
        return -1;
      }
      LoadFat();
      var slot := FindExact(req);
      if slot == SLOT_COUNT {
        return 3;
      }
      if dirTable[slot].attribute == ATTR_SUBDIRECTORY {
        return 1;
      }
      if dirTable[slot].filesize > req.bufferSize {
        return 2;
      }
      var cluster := dirTable[slot].clusterHigh as int * 0x1_0000 + dirTable[slot].clusterLow as int;
      ReadContents(cluster, buf);
      code := 0;
    }

    method FindExact(req: Request) returns (slot: nat)
      requires Valid()
      ensures slot == Operations.ExactSlot(dirTable[..], req.name, req.ext, 0)
    {
      ghost var t := dirTable[..];
      slot := 0;
      while slot < SLOT_COUNT
        invariant slot <= SLOT_COUNT
        invariant Operations.ExactSlot(t, req.name, req.ext, slot) == Operations.ExactSlot(t, req.name, req.ext, 0)
      {
        var same := SameKey(dirTable[slot], req.name, req.ext);
        if same {
          return;
        }
        slot := slot + 1;
      }
    }

    method ReadContents(head: nat, buf: array<byte>)
      requires Valid() && HeadsChain(FatView(), head)
      requires buf != device.image && buf as object != clusterMap as object
      requires |Operations.Contents(DiskView(), ChainFrom(FatView(), head))| <= buf.Length
      modifies buf
      ensures var data := Operations.Contents(old(DiskView()), ChainFrom(old(FatView()), head));
              buf[..] == data + old(buf[|data|..])
      ensures DiskView() == old(DiskView()) && FatView() == old(FatView())
    {
      hide TableOf, FatOf, TableBytes, FatBytes;
      ghost var fat, disk, chain := FatView(), DiskView(), ChainFrom(FatView(), head);
      ghost var was := buf[..];
      var cluster, i: nat := head, 0;
      while cluster != END_OF_FILE
        invariant 0 <= i <= |chain| && cluster == if i < |chain| then chain[i] else END_OF_FILE
        invariant cluster == END_OF_FILE <==> i == |chain|
        invariant buf[..] == Operations.Contents(disk, chain[..i]) + was[CLUSTER_SIZE * i..]
        invariant DiskView() == disk && FatView() == fat
        decreases |chain| - i
      {
        ReadDataCluster(buf, i, cluster, chain, was[CLUSTER_SIZE * i..]);
        assert was[CLUSTER_SIZE * i..][CLUSTER_SIZE..] == was[CLUSTER_SIZE * (i + 1)..];
        cluster := clusterMap[cluster];
        i := i + 1;
        assert i < |chain| ==> chain[i] < CLUSTER_MAP_SIZE;
      }
      assert chain[..i] == chain;
    }

    method ReadDataCluster(buf: array<byte>, i: nat, cluster: Index, ghost chain: seq<Index>, ghost rest: seq<byte>)
      requires Valid() && i < |chain| && chain[i] == cluster
      requires buf != device.image && buf as object != clusterMap as object && CLUSTER_SIZE <= |rest|
      requires buf[..] == Operations.Contents(DiskView(), chain[..i]) + rest
      modifies buf
      ensures buf[..] == Operations.Contents(DiskView(), chain[..i + 1]) + rest[CLUSTER_SIZE..]
      ensures DiskView() == old(DiskView()) && FatView() == old(FatView())
    {
      device.ReadCluster(buf, CLUSTER_SIZE * i, cluster);
      assert chain[..i + 1][..i] == chain[..i];
    }

    /** Delivers the table of the directory that the request names, or of the directory itself. */
    method ReadDirectory(req: Request, table: array<Entry>) returns (code: int)
      requires Valid() && req.parent < |DiskView()| && Operations.ReadDirectorySafe(DiskView(), req)
      requires table.Length == SLOT_COUNT && table != dirTable
      modifies dirTable, table
      ensures var (c, cluster) := Operations.ReadDirectory(old(DiskView()), req);
              code == c && table[..] == if c == 0 then TableOf(old(DiskView())[cluster]) else old(table[..])
      ensures DiskView() == old(DiskView()) && FatView() == old(FatView())
    {
      hide TableOf, FatOf, TableBytes, FatBytes;
      LoadTable(dirTable, req.parent);
      if dirTable[0].attribute != ATTR_SUBDIRECTORY {
        return -1;
      }
      ghost var t := dirTable[..];
      for i := 0 to SLOT_COUNT
        invariant dirTable[..] == t && table[..] == old(table[..])
        invariant Operations.NameSlot(t, req.name, i) == Operations.NameSlot(t, req.name, 0)
        invariant DiskView() == old(DiskView()) && FatView() == old(FatView())
      {
        var starts := NameStartsWith(dirTable[i], req.name);
        if starts {
          if dirTable[i].attribute != ATTR_SUBDIRECTORY {
            return 1;
          }
          var cluster := dirTable[i].clusterHigh as int * 0x1_0000 + dirTable[i].clusterLow as int;
          LoadTable(table, cluster);
          return 0;
        }
      }
      code := 2;
    }
  }
}
