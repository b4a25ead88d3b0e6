/** What each driver call does, as a function of the cached allocation table, the disk and the request: the return
    code, the cached table afterwards, and the cluster writes in the order they reach the disk. */
module Operations {
  import opened Bytes
  import opened CString
  import opened OnDisk
  import opened Chains
  import opened BlockDevice

  datatype Request = Request(name: Name, parentName: Name, ext: Ext, parent: u32, bufferSize: u32)

  datatype Outcome = Outcome(code: int, fat: Fat, writes: seq<DiskWrite>)

  datatype ReadOutcome = ReadOutcome(code: int, fat: Fat, data: seq<byte>)

  /** memcmp over the length of the requested name: the entry's name starts with it. */
  predicate StartsWith(name: seq<byte>, prefix: seq<byte>)
    requires |name| == |prefix|
  {
    name[..Length(prefix)] == prefix[..Length(prefix)]
  }

  /** Of C strings: a name starts with another if and only if that is a prefix of it. */
  lemma StartsWithMeans(name: Name, prefix: Name)
    ensures StartsWith(name, prefix) <==> Str(prefix) <= Str(name)
  {
    hide Length;
    PrefixByLength(name, prefix);
  }

  ghost function FreeSlot(t: seq<Entry>, from: nat): (r: nat)
    requires from <= |t|
    ensures from <= r <= |t|
    ensures forall j | from <= j < r :: t[j].Live()
    ensures r < |t| ==> !t[r].Live()
    decreases |t| - from
  {
    if from == |t| || !t[from].Live() then from else FreeSlot(t, from + 1)
  }

  /** The first slot from `from` on that holds exactly this name and extension. */
  ghost function ExactSlot(t: seq<Entry>, name: Name, ext: Ext, from: nat): (r: nat)
    requires from <= |t|
    ensures from <= r <= |t|
    ensures forall j | from <= j < r :: !t[j].HasKey(name, ext)
    ensures r < |t| ==> t[r].HasKey(name, ext)
    decreases |t| - from
  {
    if from == |t| || t[from].HasKey(name, ext) then from else ExactSlot(t, name, ext, from + 1)
  }

  predicate Matches(e: Entry, name: Name, ext: Ext) {
    StartsWith(e.name, name) && e.ext == ext
  }

  /** The first slot from `from` on whose name starts with this name and whose extension is this one. */
  ghost function MatchSlot(t: seq<Entry>, name: Name, ext: Ext, from: nat): (r: nat)
    requires from <= |t|
    ensures from <= r <= |t|
    ensures forall j | from <= j < r :: !Matches(t[j], name, ext)
    ensures r < |t| ==> Matches(t[r], name, ext)
    decreases |t| - from
  {
    if from == |t| || Matches(t[from], name, ext) then from else MatchSlot(t, name, ext, from + 1)
  }

  ghost function NameSlot(t: seq<Entry>, name: Name, from: nat): (r: nat)
    requires from <= |t|
    ensures from <= r <= |t|
    ensures forall j | from <= j < r :: !StartsWith(t[j].name, name)
    ensures r < |t| ==> StartsWith(t[r].name, name)
    decreases |t| - from
  {
    if from == |t| || StartsWith(t[from].name, name) then from else NameSlot(t, name, from + 1)
  }

  ghost predicate NoLiveChild(t: Table) {
    forall j | 2 <= j < SLOT_COUNT :: !t[j].Live()
  }

  function DirEntry(e: Entry, name: Name, ext: Ext, cluster: Index): Entry {
    e.(name := name, ext := ext, attribute := ATTR_SUBDIRECTORY, userAttribute := UATTR_NOT_EMPTY,
       clusterHigh := 0, clusterLow := cluster, filesize := 0)
  }

  /** A file's entry keeps the attribute byte that the slot held. */
  function FileEntry(e: Entry, name: Name, ext: Ext, cluster: Index, size: u32): Entry {
    e.(name := name, ext := ext, userAttribute := UATTR_NOT_EMPTY,
       clusterHigh := 0, clusterLow := cluster, filesize := size)
  }

  /** A deleted entry keeps its cluster number and size. */
  function Blanked(e: Entry): Entry {
    e.(name := NO_NAME, ext := NO_EXT, attribute := 0, userAttribute := 0)
  }

  /** A new directory's table: slots 0 and 1 are filled in, every other byte is what the cluster already held. */
  function ChildTable(t: Table, req: Request, cluster: Index): Table {
    t[0 := DirEntry(t[0], req.name, req.ext, cluster)]
     [1 := t[1].(name := req.parentName, attribute := ATTR_SUBDIRECTORY, userAttribute := UATTR_NOT_EMPTY,
                 clusterHigh := req.parent / 0x1_0000, clusterLow := req.parent % 0x1_0000)]
  }

  function EmptiedTable(t: Table): Table {
    t[0 := Blanked(t[0])][1 := Blanked(t[1])]
  }

  /** The bytes of a file, cluster by cluster along its chain. */
  ghost function Contents(disk: Disk, chain: seq<Index>): (data: seq<byte>)
    ensures |data| == CLUSTER_SIZE * |chain|
    decreases |chain|
  {
    if chain == [] then []
    else
      var n := |chain| - 1;
      Contents(disk, chain[..n]) + disk[chain[n]]
  }

  /** One write per cluster of the chain, in chain order. */
  ghost function DataWrites(chain: seq<Index>, data: seq<byte>): seq<DiskWrite>
    requires |data| >= CLUSTER_SIZE * |chain|
    decreases |chain|
  {
    if chain == [] then []
    else
      var n := |chain| - 1;
      DataWrites(chain[..n], data) + [DiskWrite(chain[n], data[CLUSTER_SIZE * n..CLUSTER_SIZE * n + CLUSTER_SIZE])]
  }

  /** The buffer holds the whole clusters that a write of this size copies. */
  predicate Buffered(fat: Fat, data: seq<byte>, size: nat) {
    size > 0 ==> |data| >= CLUSTER_SIZE * |Allocation(fat, ClustersNeeded(size))|
  }

  ghost function MakeDirectory(fat: Fat, disk: Disk, t: Table, slot: nat, req: Request): Outcome
    requires req.parent < |disk| && slot < SLOT_COUNT
  {
    var free := FreeClusters(fat);
    if free == [] then Outcome(-1, fat, [])
    else
      var c := free[0];
      var fat' := fat[c := END_OF_FILE];
      var t' := t[slot := DirEntry(t[slot], req.name, req.ext, c)];
      var disk' := disk[FAT_CLUSTER := FatBytes(fat')][req.parent := TableBytes(t')];
      var child := ChildTable(TableOf(disk'[c]), req, c);
      Outcome(0, fat', [DiskWrite(FAT_CLUSTER, FatBytes(fat')), DiskWrite(req.parent, TableBytes(t')),
                        DiskWrite(c, TableBytes(child))])
  }

  lemma MakeDirectoryApplied(fat: Fat, disk: Disk, t: Table, slot: nat, req: Request)
    requires req.parent < |disk| && slot < SLOT_COUNT && FreeClusters(fat) != []
    ensures var o, c := MakeDirectory(fat, disk, t, slot, req), FreeClusters(fat)[0];
            var withEntry := disk[FAT_CLUSTER := FatBytes(o.fat)]
                                 [req.parent := TableBytes(t[slot := DirEntry(t[slot], req.name, req.ext, c)])];
            && WritesFit(disk, o.writes)
            && Apply(disk, o.writes) == withEntry[c := TableBytes(ChildTable(TableOf(withEntry[c]), req, c))]
  {
    var writes := MakeDirectory(fat, disk, t, slot, req).writes;
    ApplyThree(disk, writes[0], writes[1], writes[2]);
  }

  ghost function MakeFile(fat: Fat, t: Table, slot: nat, req: Request, data: seq<byte>): Outcome
    requires slot < SLOT_COUNT && req.bufferSize > 0 && Buffered(fat, data, req.bufferSize)
  {
    var chain := Allocation(fat, ClustersNeeded(req.bufferSize));
    if chain == [] then Outcome(-1, fat, [])
    else
      var fat' := Link(fat, chain);
      var t' := t[slot := FileEntry(t[slot], req.name, req.ext, chain[0], req.bufferSize)];
      Outcome(0, fat', [DiskWrite(FAT_CLUSTER, FatBytes(fat')), DiskWrite(req.parent, TableBytes(t'))]
                       + DataWrites(chain, data))
  }

  ghost function Write(fat: Fat, disk: Disk, req: Request, data: seq<byte>): Outcome
    requires req.parent < |disk| && Buffered(fat, data, req.bufferSize)
  {
    var t := TableOf(disk[req.parent]);
    if !t[0].IsDir() then Outcome(2, fat, [])
    else if FreeSlot(t, 0) == SLOT_COUNT then Outcome(-1, fat, [])
    else if ExactSlot(t, req.name, req.ext, 1) < SLOT_COUNT then Outcome(1, fat, [])
    else if req.bufferSize == 0 then MakeDirectory(fat, disk, t, FreeSlot(t, 0), req)
    else MakeFile(fat, t, FreeSlot(t, 0), req, data)
  }

  /** What deletion needs of the entry it finds: a cluster in the table, and for a file a chain that ends. */
  ghost predicate Deletable(fat: Fat, e: Entry) {
    e.Cluster() < CLUSTER_MAP_SIZE && (!e.IsDir() ==> HeadsChain(fat, e.Cluster()))
  }

  ghost predicate DeleteSafe(fat: Fat, disk: Disk, req: Request)
    requires req.parent < |disk|
  {
    var t := TableOf(disk[req.parent]);
    var slot := MatchSlot(t, req.name, req.ext, 2);
    t[0].IsDir() && slot < SLOT_COUNT ==> Deletable(fat, t[slot])
  }

  ghost function Delete(fat: Fat, disk: Disk, req: Request): Outcome
    requires req.parent < |disk| && DeleteSafe(fat, disk, req)
  {
    var t := TableOf(disk[req.parent]);
    var slot := MatchSlot(t, req.name, req.ext, 2);
    if !t[0].IsDir() then Outcome(-1, fat, [])
    else if slot == SLOT_COUNT then Outcome(1, fat, [])
    else
      if t[slot].IsDir() then RemoveDirectory(fat, disk, t, slot, t[slot].Cluster(), req.parent)
      else RemoveFile(fat, t, slot, t[slot].Cluster(), req.parent)
  }

  ghost function RemoveDirectory(fat: Fat, disk: Disk, t: Table, slot: nat, c: Index, parent: nat): Outcome
    requires slot < SLOT_COUNT
  {
    var child := TableOf(disk[c]);
    if !NoLiveChild(child) then Outcome(2, fat, [])
    else
      var fat' := fat[c := EMPTY_ENTRY];
      Outcome(0, fat', [DiskWrite(parent, TableBytes(t[slot := Blanked(t[slot])])),
                        DiskWrite(c, TableBytes(EmptiedTable(child))),
                        DiskWrite(FAT_CLUSTER, FatBytes(fat'))])
  }

  lemma RemoveDirectoryApplied(fat: Fat, disk: Disk, t: Table, slot: nat, c: Index, parent: nat)
    requires parent < |disk| && slot < SLOT_COUNT && NoLiveChild(TableOf(disk[c]))
    ensures var o := RemoveDirectory(fat, disk, t, slot, c, parent);
            && WritesFit(disk, o.writes)
            && Apply(disk, o.writes)
               == disk[parent := TableBytes(t[slot := Blanked(t[slot])])]
                      [c := TableBytes(EmptiedTable(TableOf(disk[c])))]
                      [FAT_CLUSTER := FatBytes(fat[c := EMPTY_ENTRY])]
  {
    var writes := RemoveDirectory(fat, disk, t, slot, c, parent).writes;
    ApplyThree(disk, writes[0], writes[1], writes[2]);
  }

  ghost function RemoveFile(fat: Fat, t: Table, slot: nat, c: Index, parent: nat): Outcome
    requires slot < SLOT_COUNT && HeadsChain(fat, c)
  {
    var fat' := Release(fat, ChainFrom(fat, c));
    Outcome(0, fat', [DiskWrite(parent, TableBytes(t[slot := Blanked(t[slot])])),
                      DiskWrite(FAT_CLUSTER, FatBytes(fat'))])
  }

  ghost predicate ReadSafe(disk: Disk, req: Request)
    requires req.parent < |disk|
  {
    var t := TableOf(disk[req.parent]);
    var slot := ExactSlot(t, req.name, req.ext, 0);
    t[0].Live() && t[0].IsDir() && slot < SLOT_COUNT && !t[slot].IsDir() && t[slot].filesize <= req.bufferSize
    ==> HeadsChain(FatOf(disk[FAT_CLUSTER]), t[slot].Cluster())
  }

  /** Reading reloads the cached table from the disk before it looks at the directory. */
  ghost function Read(fat: Fat, disk: Disk, req: Request): ReadOutcome
    requires req.parent < |disk| && ReadSafe(disk, req)
  {
    var t := TableOf(disk[req.parent]);
    if !(t[0].Live() && t[0].IsDir()) then ReadOutcome(-1, fat, [])
    else
      var fat' := FatOf(disk[FAT_CLUSTER]);
      var slot := ExactSlot(t, req.name, req.ext, 0);
      if slot == SLOT_COUNT then ReadOutcome(3, fat', [])
      else if t[slot].IsDir() then ReadOutcome(1, fat', [])
      else if t[slot].filesize > req.bufferSize then ReadOutcome(2, fat', [])
      else ReadOutcome(0, fat', Contents(disk, ChainFrom(fat', t[slot].Cluster())))
  }

  ghost predicate ReadDirectorySafe(disk: Disk, req: Request)
    requires req.parent < |disk|
  {
    var t := TableOf(disk[req.parent]);
    var slot := NameSlot(t, req.name, 0);
    t[0].IsDir() && slot < SLOT_COUNT && t[slot].IsDir() ==> t[slot].Cluster() < |disk|
  }

  /** The code, and on success the cluster whose table is delivered. */
  ghost function ReadDirectory(disk: Disk, req: Request): (r: (int, nat))
    requires req.parent < |disk| && ReadDirectorySafe(disk, req)
    ensures r.1 < |disk|
  {
    var t := TableOf(disk[req.parent]);
    var slot := NameSlot(t, req.name, 0);
    if !t[0].IsDir() then (-1, 0)
    else if slot == SLOT_COUNT then (2, 0)
    else if t[slot].IsDir() then (0, t[slot].Cluster())
    else (1, 0)
  }

  const ROOT_NAME: Name := [0x72, 0x6F, 0x6F, 0x74, 0, 0, 0, 0]

  const ROOT_ENTRY: Entry :=
    Entry(ROOT_NAME, NO_EXT, ATTR_SUBDIRECTORY, UATTR_NOT_EMPTY, [0, 0, 0, 0, 0, 0, 0], 0, [0, 0, 0, 0], ROOT_CLUSTER, 0)

  /** The root directory of a fresh disk: its own entry, and itself as its parent. */
  function RootTable(): Table {
    ZERO_TABLE[0 := ROOT_ENTRY][1 := ROOT_ENTRY]
  }

  /** The boot sector carries the signature. */
  predicate IsFormatted(disk: Disk) {
    disk[BOOT_CLUSTER][..BLOCK_SIZE] == SIGNATURE
  }

  function FormattedFat(fat: Fat): Fat {
    fat[0 := CLUSTER_0_VALUE][1 := CLUSTER_1_VALUE][2 := END_OF_FILE]
  }

  /** The disk after formatting: the allocation table is written out before its first three entries are filled in. */
  function FormattedDisk(fat: Fat, disk: Disk): Disk {
    disk[BOOT_CLUSTER := SIGNATURE + disk[BOOT_CLUSTER][BLOCK_SIZE..]]
        [FAT_CLUSTER := FatBytes(fat)]
        [ROOT_CLUSTER := TableBytes(RootTable())]
  }

  /** Initialising: the cached table and the disk as they are when the driver is ready for its first call. */
  ghost function Boot(fat: Fat, disk: Disk): (Fat, Disk) {
    if IsFormatted(disk) then (FatOf(disk[FAT_CLUSTER]), disk) else (FormattedFat(fat), FormattedDisk(fat, disk))
  }

  /** Cached and stored table agree after initialising exactly when the disk was formatted before; otherwise only if
      the cached table already had the three entries that formatting sets after it has written the table out. */
  lemma BootAgreesIffFormatted(fat: Fat, disk: Disk)
    ensures var (fat', disk') := Boot(fat, disk);
            fat' == FatOf(disk'[FAT_CLUSTER]) <==> IsFormatted(disk) || FormattedFat(fat) == fat
  {
    hide FatOf, TableOf, FormattedFat, IsFormatted;
  }
}
