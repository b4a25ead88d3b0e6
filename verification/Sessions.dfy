/** What the shell's cd, mkdir, rm and cwd do to the current directory and the file system, and what whole sessions
    keep. */
module Sessions {
  import opened Bytes
  import opened CString
  import opened OnDisk
  import opened Chains
  import opened BlockDevice
  import opened Operations
  import opened Ownership
  import opened Safety
  import opened Runs
  import opened Answers
  import opened Persistence
  import opened CleanClusters
  import opened DirectoryTree
  import opened Tokenizer
  import opened StringLibrary

  const DOT: byte := 0x2E
  const DOTS: seq<byte> := [0x2E, 0x2E]

  /** The request with which the shell reads the directory it is in: by the directory's own name. */
  function OwnRequest(d: u32, name: Name): Request {
    Request(name, NO_NAME, NO_EXT, d, 0)
  }

  /** Slot 0 answers it. */
  lemma ReadsOwnTable(disk: Disk, d: u32)
    requires d < |disk|
    requires var t := TableOf(disk[d]); t[0].IsDir() && t[0].Cluster() == d
    ensures var req := OwnRequest(d, TableOf(disk[d])[0].name);
            ReadDirectorySafe(disk, req) && ReadDirectory(disk, req) == (0, d)
  {
    hide TableOf;
    var t := TableOf(disk[d]);
    StartsWithItself(t[0].name);
  }

  /** The first slot from `from` on with exactly this name, whatever its extension. */
  ghost function EqualSlot(t: seq<Entry>, name: Name, from: nat): (r: nat)
    requires from <= |t|
    ensures from <= r <= |t|
    ensures forall j | from <= j < r :: t[j].name != name
    ensures r < |t| ==> t[r].name == name
    decreases |t| - from
  {
    if from == |t| || t[from].name == name then from else EqualSlot(t, name, from + 1)
  }

  predicate IsDots(arg: Name) {
    arg[..2] == DOTS
  }

  /** Where cd goes from a directory with this table. */
  ghost function Enter(t: Table, d: u32, name: Name, arg: Name): (u32, Name) {
    if IsDots(arg) then (t[1].Cluster(), t[1].name)
    else
      var i := EqualSlot(t, arg, 0);
      if i < SLOT_COUNT && t[i].IsDir() then (t[i].Cluster(), t[i].name) else (d, name)
  }

  ghost function ChangeDirectory(disk: Disk, d: u32, name: Name, arg: Name): (u32, Name)
    requires d < |disk| && ReadDirectorySafe(disk, OwnRequest(d, name))
  {
    var (code, cluster) := ReadDirectory(disk, OwnRequest(d, name));
    if code == 0 then Enter(TableOf(disk[cluster]), d, name, arg) else (d, name)
  }

  // ---------- cd ----------

  /** A directory entry from slot 2 on is where the directory it refers to is entered. */
  lemma DirSlot(fat: Fat, disk: Disk, l: Layout, d: Index, i: Position)
    requires Wf(fat, disk, l) && d in l.depth && i >= 2 && TableOf(disk[d])[i].IsDir()
    ensures var c := TableOf(disk[d])[i].Cluster(); c in l.home && l.home[c] == Slot(d, i)
  {
    hide TableOf, At, TablesOf, Inv;
    var s, ts := Slot(d, i), TablesOf(disk, l.depth.Keys);
    AtIs(disk, l.depth.Keys, s);
    if s !in l.chains {
      BlankUnlessEntered(fat, ts, l, s);
      InTables(disk, l.depth.Keys);
      assert false;
    }
    EntryKnown(fat, ts, l, s);
    HomeOf(fat, ts, l, s);
  }

  lemma LabelOf(disk: Disk, l: Layout, d: Index)
    requires Tree(disk, l) && d in l.depth
    ensures var t := TableOf(disk[d]);
            && t[0].IsDir() && t[0].Cluster() == d && t[0].name == NameIn(disk, l.home, d)
            && t[1].IsDir() && t[1].Cluster() == Parent(l.home, d)
            && t[1].name == NameIn(disk, l.home, Parent(l.home, d))
  {
    hide TableOf, NameIn;
    assert Labelled(TableOf(disk[d]), d, Parent(l.home, d), NameIn(disk, l.home, d),
                    NameIn(disk, l.home, Parent(l.home, d)));
  }

  /** Where cd can lead: to the parent, to a directory entered here, or nowhere; and it finds that directory's name.
      Two dots mean the parent, and a name that no slot has changes nothing. */
  lemma CdInTree(sys: System, l: Layout, d: Index, arg: Name)
    requires Good(sys, l) && Tree(sys.disk, l) && d in l.depth
    ensures var (d', name') := Enter(TableOf(sys.disk[d]), d, TableOf(sys.disk[d])[0].name, arg);
            && d' in l.depth && name' == TableOf(sys.disk[d'])[0].name
            && (d' == d || d' == Parent(l.home, d) || (d' in l.home && l.home[d'].dir == d))
            && (IsDots(arg) ==> d' == Parent(l.home, d))
            && (!IsDots(arg) && (forall j | 0 <= j < SLOT_COUNT :: TableOf(sys.disk[d])[j].name != arg) ==> d' == d)
  {
    hide TableOf, Wf, Tree;
    var t := TableOf(sys.disk[d]);
    LabelOf(sys.disk, l, d);
    HomesInDepth(sys.fat, sys.disk, l);
    LabelOf(sys.disk, l, Parent(l.home, d));
    var i := EqualSlot(t, arg, 0);
    if i < SLOT_COUNT && i >= 2 && t[i].IsDir() {
      DirSlot(sys.fat, sys.disk, l, d, i);
      LabelOf(sys.disk, l, t[i].Cluster());
    }
  }

  /** What read_directory finds in a tree, whatever is asked for: a live directory, namely this one, its parent or one
      entered here, whose own name starts with the requested one; or a file; or nothing, exactly when no slot's name
      starts so. */
  lemma ReadDirectoryInTree(sys: System, l: Layout, req: Request)
    requires Good(sys, l) && Tree(sys.disk, l) && req.parent in l.depth
    ensures ReadDirectorySafe(sys.disk, req)
    ensures var (code, c) := ReadDirectory(sys.disk, req);
            var t, i := TableOf(sys.disk[req.parent]), NameSlot(TableOf(sys.disk[req.parent]), req.name, 0);
            && (code == 2 <==> forall j | 0 <= j < SLOT_COUNT :: !(Str(req.name) <= Str(t[j].name)))
            && (code == 1 <==> 2 <= i < SLOT_COUNT && !t[i].IsDir())
            && (code == 0 <==> i < SLOT_COUNT && t[i].IsDir())
            && (code == 0 ==>
                  && c in l.depth && Str(req.name) <= Str(TableOf(sys.disk[c])[0].name)
                  && c == (if i == 0 then req.parent as nat else if i == 1 then Parent(l.home, req.parent) else c)
                  && (i >= 2 ==> c in l.home && l.home[c] == Slot(req.parent, i)))
  {
    hide TableOf, Wf, Tree, StartsWith, Str;
    var t := TableOf(sys.disk[req.parent]);
    forall name: Name
      ensures StartsWith(name, req.name) <==> Str(req.name) <= Str(name)
    {
      StartsWithMeans(name, req.name);
    }
    LabelOf(sys.disk, l, req.parent);
    HomesInDepth(sys.fat, sys.disk, l);
    LabelOf(sys.disk, l, Parent(l.home, req.parent));
    var i := NameSlot(t, req.name, 0);
    if 2 <= i < SLOT_COUNT && t[i].IsDir() {
      DirSlot(sys.fat, sys.disk, l, req.parent, i);
      LabelOf(sys.disk, l, t[i].Cluster());
    }
  }

  /** The directory that cd leads to. */
  ghost function CdFrom(sys: System, l: Layout, d: Index, arg: Name): (d': Index)
    requires Good(sys, l) && Tree(sys.disk, l) && d in l.depth
    ensures d' in l.depth
  {
    CdInTree(sys, l, d, arg);
    Enter(TableOf(sys.disk[d]), d, TableOf(sys.disk[d])[0].name, arg).0
  }

  lemma CdFromWhere(sys: System, l: Layout, d: Index, arg: Name)
    requires Good(sys, l) && Tree(sys.disk, l) && d in l.depth
    ensures var d' := CdFrom(sys, l, d, arg);
            d' == d || d' == Parent(l.home, d) || (d' in l.home && l.home[d'].dir == d)
  {
    hide TableOf, Good, Tree, Enter;
    CdInTree(sys, l, d, arg);
  }

  /** cd exactly, by the first of the 64 slots that has the argument as its name: a file's slot and the directory's own
      lead nowhere, slot 1 leads to the parent, and any other to the directory that is entered there. Two dots at the
      start mean the parent whatever the slots hold. */
  lemma CdExact(sys: System, l: Layout, d: Index, arg: Name)
    requires Good(sys, l) && Tree(sys.disk, l) && d in l.depth
    ensures var t, d' := TableOf(sys.disk[d]), CdFrom(sys, l, d, arg);
            if arg[..2] == [0x2E, 0x2E] then d' == Parent(l.home, d)
            else if forall j: nat | j < 64 :: t[j].name != arg then d' == d
            else exists i: nat ::
              && i < 64 && t[i].name == arg && (forall j: nat | j < i :: t[j].name != arg)
              && if i == 0 || !t[i].IsDir() then d' == d
                 else if i == 1 then d' == Parent(l.home, d)
                 else d' in l.home && l.home[d'] == Slot(d, i)
  {
    hide TableOf, Wf, Tree, Coherent, IsFormatted;
    var t := TableOf(sys.disk[d]);
    LabelOf(sys.disk, l, d);
    var i := EqualSlot(t, arg, 0);
    if i < SLOT_COUNT && i >= 2 && t[i].IsDir() {
      DirSlot(sys.fat, sys.disk, l, d, i);
    }
    assert i < 64 ==> t[i].name == arg;
    hide EqualSlot;
  }

  /** An argument that finds this directory from its parent. */
  ghost predicate Finds(disk: Disk, home: Homes, d: Index, arg: Name)
    requires d in home
  {
    && NameIn(disk, home, d) == arg && !IsDots(arg)
    && forall i | 0 <= i < home[d].pos :: TableOf(disk[home[d].dir])[i].name != arg
  }

  lemma DepthOf(fat: Fat, disk: Disk, l: Layout, d: Index)
    requires Wf(fat, disk, l) && d in l.depth
    ensures if d == ROOT_CLUSTER then l.depth[d] == 0 && d !in l.home
            else d in l.home && l.home[d].dir in l.depth && l.depth[d] == l.depth[l.home[d].dir] + 1
    ensures d in l.home ==> l.home[d].pos >= 2
  {
    hide TableOf, Inv, TablesOf;
    HomesInDepth(fat, disk, l);
    RootDepth(fat, TablesOf(disk, l.depth.Keys), l);
    if d in l.home {
      HomeKnown(fat, TablesOf(disk, l.depth.Keys), l, d);
      SlotKnown(fat, TablesOf(disk, l.depth.Keys), l, l.home[d]);
    }
  }

  lemma RootDepth(fat: Fat, ts: Tables, l: Layout)
    requires Inv(fat, ts, l)
    ensures ROOT_CLUSTER in l.depth && l.depth[ROOT_CLUSTER] == 0
  {
    hide Entered, Chained, DistinctKeys, Headed, Sized, Owned, Accounted, Homed;
  }

  /** The step into a table's directory entry, given that no other entry found by the argument leads there. */
  lemma EnterFinds(t: Table, p: u32, d: u32, arg: Name, k: nat)
    requires 2 <= k < SLOT_COUNT && t[k].IsDir() && t[k].Cluster() == d && d != p
    requires t[0].Cluster() != d && t[1].Cluster() != d
    requires var i := EqualSlot(t, arg, 0); 2 <= i < SLOT_COUNT && t[i].IsDir() && t[i].Cluster() == d ==> i == k
    ensures Enter(t, p, t[0].name, arg).0 == d
        <==> t[k].name == arg && !IsDots(arg) && forall i | 0 <= i < k :: t[i].name != arg
  {
    hide IsDots;
  }

  /** cd by name, exactly: it enters a subdirectory if and only if the argument is its name, does not begin with two
      dots, and is not the name of an earlier slot, be it a file's or that of the directory itself or its parent. */
  lemma CdEntersChild(sys: System, l: Layout, d: Index, arg: Name)
    requires Good(sys, l) && Tree(sys.disk, l) && d in l.home && d in l.depth && l.home[d].dir in l.depth
    ensures CdFrom(sys, l, l.home[d].dir, arg) == d <==> Finds(sys.disk, l.home, d, arg)
  {
    hide TableOf, Wf, Tree, IsDots, Enter, Coherent, IsFormatted;
    var p := l.home[d].dir;
    var t := TableOf(sys.disk[p]);
    LabelOf(sys.disk, l, p);
    LabelOf(sys.disk, l, d);
    DepthOf(sys.fat, sys.disk, l, d);
    DepthOf(sys.fat, sys.disk, l, p);
    var i := EqualSlot(t, arg, 0);
    if 2 <= i < SLOT_COUNT && t[i].IsDir() {
      DirSlot(sys.fat, sys.disk, l, p, i);
    }
    HomeCluster(sys.fat, sys.disk, l, d);
    EnterFinds(t, p, d, arg, l.home[d].pos);
  }

  lemma HomeCluster(fat: Fat, disk: Disk, l: Layout, d: Index)
    requires Wf(fat, disk, l) && d in l.home
    ensures var s := l.home[d];
            s.pos >= 2 && TableOf(disk[s.dir])[s.pos].IsDir() && TableOf(disk[s.dir])[s.pos].Cluster() == d
  {
    hide TableOf, At, TablesOf, Inv;
    var ts := TablesOf(disk, l.depth.Keys);
    HomeKnown(fat, ts, l, d);
    SlotKnown(fat, ts, l, l.home[d]);
    AtIs(disk, l.depth.Keys, l.home[d]);
    EntryKnown(fat, ts, l, l.home[d]);
  }

  // ---------- the path that cwd prints, given back to cd ----------

  /** A name as it comes back from the command line: cut at its first zero and padded with zeros. */
  function Padded(s: seq<byte>): (name: Name) {
    if |s| <= 8 then s + Repeat(8 - |s|, 0) else s[..8]
  }

  /** The components of a directory's path, from the root down. */
  ghost function PathOf(disk: Disk, l: Layout, d: Index): seq<seq<byte>>
    requires d in l.depth
    decreases l.depth[d]
  {
    if d !in l.home || l.home[d].dir !in l.depth || l.depth[l.home[d].dir] >= l.depth[d] then []
    else PathOf(disk, l, l.home[d].dir) + [Str(NameIn(disk, l.home, d))]
  }

  ghost function CdAll(sys: System, l: Layout, args: seq<seq<byte>>): (d: Index)
    requires Good(sys, l) && Tree(sys.disk, l)
    ensures d in l.depth
    decreases |args|
  {
    HomesInDepth(sys.fat, sys.disk, l);
    if args == [] then ROOT_CLUSTER
    else CdFrom(sys, l, CdAll(sys, l, args[..|args| - 1]), Padded(args[|args| - 1]))
  }

  /** Every directory on the path is found by its printed name. */
  ghost predicate PathFinds(disk: Disk, l: Layout, d: Index)
    requires d in l.depth
    decreases l.depth[d]
  {
    d in l.home && l.home[d].dir in l.depth && l.depth[l.home[d].dir] < l.depth[d] ==>
      && PathFinds(disk, l, l.home[d].dir)
      && Finds(disk, l.home, d, Padded(Str(NameIn(disk, l.home, d))))
  }

  lemma {:induction false} PathLength(sys: System, l: Layout, d: Index)
    requires Good(sys, l) && d in l.depth
    ensures |PathOf(sys.disk, l, d)| == l.depth[d]
    decreases l.depth[d]
  {
    hide TableOf, Wf;
    DepthOf(sys.fat, sys.disk, l, d);
    if d != ROOT_CLUSTER {
      PathLength(sys, l, l.home[d].dir);
    }
  }

  lemma {:induction false} CdAllDepth(sys: System, l: Layout, args: seq<seq<byte>>)
    requires Good(sys, l) && Tree(sys.disk, l)
    ensures l.depth[CdAll(sys, l, args)] <= |args|
    decreases |args|
  {
    hide TableOf, Wf, Tree, CdFrom;
    DepthOf(sys.fat, sys.disk, l, CdAll(sys, l, args));
    if args != [] {
      var rest, last := args[..|args| - 1], Padded(args[|args| - 1]);
      CdAllDepth(sys, l, rest);
      CdDeeper(sys, l, CdAll(sys, l, rest), last);
    }
  }

  /** One cd goes down by one directory at most, and only into a directory of this one. */
  lemma CdDeeper(sys: System, l: Layout, d: Index, arg: Name)
    requires Good(sys, l) && Tree(sys.disk, l) && d in l.depth
    ensures var d' := CdFrom(sys, l, d, arg);
            && l.depth[d'] <= l.depth[d] + 1
            && (l.depth[d'] > l.depth[d] ==> d' in l.home && l.home[d'].dir == d)
  {
    hide TableOf, Wf, Tree, CdFrom;
    CdFromWhere(sys, l, d, arg);
    DepthOf(sys.fat, sys.disk, l, d);
    DepthOf(sys.fat, sys.disk, l, CdFrom(sys, l, d, arg));
  }

  /** cd along the components of a directory's path, starting at the root, ends in that directory if and only if every
      directory on the way is found by its name. */
  lemma {:induction false} PathReturns(sys: System, l: Layout, d: Index)
    requires Good(sys, l) && Tree(sys.disk, l) && d in l.depth
    ensures CdAll(sys, l, PathOf(sys.disk, l, d)) == d <==> PathFinds(sys.disk, l, d)
    decreases l.depth[d]
  {
    hide TableOf, Wf, Tree, CdFrom, Finds, NameIn, Padded;
    DepthOf(sys.fat, sys.disk, l, d);
    if d != ROOT_CLUSTER {
      var p := l.home[d].dir;
      var path, arg := PathOf(sys.disk, l, p), Padded(Str(NameIn(sys.disk, l.home, d)));
      assert PathOf(sys.disk, l, d)[..|path|] == path;
      PathReturns(sys, l, p);
      PathLength(sys, l, p);
      CdAllDepth(sys, l, path);
      var q := CdAll(sys, l, path);
      CdDeeper(sys, l, q, arg);
      CdEntersChild(sys, l, d, arg);
    }
  }

  // ---------- the walk up ----------

  /** The directory n levels up. */
  ghost function Up(home: Homes, d: Index, n: nat): Index {
    if n == 0 then d else Parent(home, Up(home, d, n - 1))
  }

  /** Following the parent entries reaches the root after exactly as many steps as the directory is deep. */
  lemma {:induction false} WalkUp(sys: System, l: Layout, d: Index, n: nat)
    requires Good(sys, l) && Tree(sys.disk, l) && d in l.depth && n <= l.depth[d]
    ensures Up(l.home, d, n) in l.depth && l.depth[Up(l.home, d, n)] == l.depth[d] - n
    ensures Up(l.home, d, n) == ROOT_CLUSTER <==> n == l.depth[d]
    ensures var t := TableOf(sys.disk[Up(l.home, d, n)]);
            t[0].IsDir() && t[0].Cluster() == Up(l.home, d, n)
            && t[1].Cluster() == Up(l.home, d, n + 1) && Up(l.home, d, n + 1) in l.depth
            && t[1].name == TableOf(sys.disk[Up(l.home, d, n + 1)])[0].name
    decreases n
  {
    hide TableOf, Wf, Tree;
    if n > 0 {
      WalkUp(sys, l, d, n - 1);
      DepthOf(sys.fat, sys.disk, l, Up(l.home, d, n - 1));
    }
    var a := Up(l.home, d, n);
    DepthOf(sys.fat, sys.disk, l, a);
    LabelOf(sys.disk, l, a);
    HomesInDepth(sys.fat, sys.disk, l);
    LabelOf(sys.disk, l, Parent(l.home, a));
  }

  // ---------- rm ----------

  const SHELL: seq<byte> := [0x73, 0x68, 0x65, 0x6C, 0x6C]

  datatype Option<T> = None | Some(value: T)

  /** The deletion that rm asks for, if any: the line is split at its dots; a single part is a directory's name and may
      not begin with "shell", two or more are a name and an extension; nothing may be too long. */
  ghost function RmRequest(line: seq<byte>, d: u32): Option<Request> {
    var name, ext := RowBytes(line, [DOT], 0), RowBytes(line, [DOT], 1);
    if |TokensOf(line, [DOT])| > 1 then
      if Length(name) > 8 || Length(ext) > 3 then None
      else Some(Request(name[..8], NO_NAME, ext[..3], d, 0))
    else
      if name[..5] == SHELL || Length(name) > 8 then None
      else Some(Request(name[..8], NO_NAME, NO_EXT, d, 0))
  }

  /** A command line that the buffers can hold. */
  predicate Parsable(line: seq<byte>) {
    Length(line) < |line| && Length(line) + ROW_SIZE - 2 <= |line|
  }

  lemma ReadsStr(s: seq<byte>, token: seq<byte>)
    requires Reads(s, 0, token)
    ensures Str(s) == token && Length(s) == |token|
  {
    assert s[0..0 + |token|] == s[..|token|];
    forall k | 0 <= k < |token|
      ensures s[k] != 0
    {
      assert s[..|token|][k] in token;
    }
    LengthUnique(s, |token|);
  }

  /** What a prefix of a row holds. */
  lemma PrefixStr(row: seq<byte>, n: nat)
    requires Length(row) <= n <= |row|
    ensures Length(row[..n]) == Length(row) && Str(row[..n]) == Str(row)
  {
    LengthUnique(row[..n], Length(row));
    assert row[..n][..Length(row)] == row[..Length(row)];
  }

  /** A field of a request that is filled from the line at one of its parts on: the part, a zero behind it where there
      is room for one, and then whatever follows in the line. */
  ghost predicate FilledFrom(field: seq<byte>, line: seq<byte>, part: Span) {
    part.lo + |field| <= |line|
    && forall k: nat | k < |field| :: field[k] == if part.lo + k == part.hi then 0 else line[part.lo + k]
  }

  /** Which lines rm refuses: those with a part that is too long, and a single part that begins with "shell". */
  lemma RmRefuses(line: seq<byte>, d: u32)
    requires Parsable(line)
    ensures var parts := TokensOf(line, [0x2E]);
            var name, ext := if |parts| > 0 then parts[0] else [], if |parts| > 1 then parts[1] else [];
            RmRequest(line, d) == None
            <==> |name| > 8 || |ext| > 3 || (|parts| == 1 && [0x73, 0x68, 0x65, 0x6C, 0x6C] <= name)
  {
    hide TokensOf, RowBytes, Reads, Length;
    RowStr(line, 0);
    RowStr(line, 1);
    ShellPrefix(RowBytes(line, [DOT], 0));
  }

  /** The request in terms of the line: the name is the first part and the extension the second, as C strings, with the
      bytes behind them exactly as stated; a line of at most one part asks for an extension of three zeros. */
  lemma RmMeans(line: seq<byte>, d: u32)
    requires Parsable(line) && RmRequest(line, d).Some?
    ensures var parts, spans, req := TokensOf(line, [0x2E]), Spans(line, [0x2E], 0), RmRequest(line, d).value;
            && req.parent == d && req.bufferSize == 0 && req.parentName == [0, 0, 0, 0, 0, 0, 0, 0]
            && Str(req.name) == (if |parts| > 0 then parts[0] else [])
            && Str(req.ext) == (if |parts| > 1 then parts[1] else [])
            && (if |parts| > 0 then FilledFrom(req.name, line, spans[0]) else req.name == [0, 0, 0, 0, 0, 0, 0, 0])
            && (if |parts| > 1 then FilledFrom(req.ext, line, spans[1]) else req.ext == [0, 0, 0])
            && (Named(req) <==> |parts| > 0)
  {
    hide TokensOf, RowBytes, Reads, Length, Spans;
    var parts := TokensOf(line, [DOT]);
    var name, ext := RowBytes(line, [DOT], 0), RowBytes(line, [DOT], 1);
    RowStr(line, 0);
    RowStr(line, 1);
    StartsNamed(name);
    PrefixStr(name, 8);
    if |parts| > 1 {
      PrefixStr(ext, 3);
      FieldIs(line, 1, 3);
    }
    if |parts| > 0 {
      FieldIs(line, 0, 8);
    } else {
      NoRow(line, [DOT], 0);
    }
    EmptyExt();
  }

  lemma FieldIs(line: seq<byte>, i: nat, n: nat)
    requires Parsable(line) && i < |TokensOf(line, [DOT])| && i < 2 && n <= 8
    ensures FilledFrom(RowBytes(line, [DOT], i)[..n], line, Spans(line, [DOT], 0)[i])
  {
    hide RowBytes, Spans;
    CountOfTokens(line, [DOT]);
    RowExact(line, [DOT], i);
  }

  /** Such a field is the part padded with zeros if and only if the line has zeros behind the byte that ended the part. */
  lemma PaddedIff(field: seq<byte>, line: seq<byte>, part: Span)
    requires FilledFrom(field, line, part) && part.lo < part.hi <= part.lo + |field|
    ensures field == line[part.lo..part.hi] + Repeat(part.lo + |field| - part.hi, 0)
        <==> forall k | part.hi < k < part.lo + |field| :: line[k] == 0
  {
    var padded := line[part.lo..part.hi] + Repeat(part.lo + |field| - part.hi, 0);
    if forall k | part.hi < k < part.lo + |field| :: line[k] == 0 {
      assert field == padded;
    } else {
      var k :| part.hi < k < part.lo + |field| && line[k] != 0;
      assert field[k - part.lo] == line[k] && padded[k - part.lo] == 0;
    }
  }

  /** A row, in terms of its token. */
  lemma RowStr(line: seq<byte>, i: nat)
    requires Parsable(line) && i < 2
    ensures var parts, row := TokensOf(line, [DOT]), RowBytes(line, [DOT], i);
            var part := if i < |parts| then parts[i] else [];
            && Length(row) <= |part| && (Length(row) < |part| ==> Length(row) == ROW_SIZE - 1)
            && Str(row) == part[..Length(row)]
            && (i < |parts| ==> part != [])
  {
    hide RowBytes, Reads, Length, TokensOf;
    var parts := TokensOf(line, [DOT]);
    RowReads(line, [DOT], i);
    PartsNotEmpty(line, i);
    ReadsStr(RowBytes(line, [DOT], i), if i < |parts| then Cut(parts[i]) else []);
  }

  lemma EmptyExt()
    ensures Str(NO_EXT) == []
  {
    LengthUnique(NO_EXT, 0);
  }

  lemma StartsNamed(name: seq<byte>)
    requires |name| >= 8
    ensures name[..8][0] != 0 <==> Length(name) > 0
  {
  }

  lemma ShellPrefix(name: seq<byte>)
    requires |name| >= 8
    ensures name[..5] == SHELL <==> SHELL <= Str(name)
  {
    if name[..5] == SHELL {
      assert forall k | 0 <= k < 5 :: name[k] == name[..5][k] != 0;
      assert Length(name) >= 5;
      assert Str(name)[..5] == name[..5];
    }
    if SHELL <= Str(name) {
      assert Str(name)[..5] == name[..5];
    }
  }

  lemma PartsNotEmpty(line: seq<byte>, k: nat)
    ensures k < |TokensOf(line, [DOT])| ==> TokensOf(line, [DOT])[k] != []
  {
  }

  // ---------- whole sessions ----------

  /** The file system together with the shell's current directory and its cached name. */
  datatype Session = Session(sys: System, directory: u32, name: Name)

  /** The shell's commands, and files that other programs write. */
  datatype Command = Cd(arg: Name) | Mkdir(name: Name) | Rm(line: seq<byte>) | Save(req: Request, data: seq<byte>)

  /** The current directory is a live directory of the tree, and the cached name is its name. */
  ghost predicate Ready(s: Session, l: Layout) {
    && Good(s.sys, l) && Tree(s.sys.disk, l)
    && s.directory in l.depth && s.name == TableOf(s.sys.disk[s.directory])[0].name
  }

  /** The driver call that a command makes, if any. */
  ghost function CallOf(s: Session, c: Command): Option<Call> {
    match c
    case Cd(_) => None
    case Mkdir(name) => Some(Writing(Request(name, s.name, NO_EXT, s.directory, 0), []))
    case Rm(line) => (match RmRequest(line, s.directory)
                      case None => None
                      case Some(req) => Some(Deleting(req)))
    case Save(req, data) => Some(Writing(req, data))
  }

  /** The disk writes of a mkdir that succeeds. */
  const MKDIR_WRITES := 3

  /** What the driver asks of each command. A line for rm with some part in it always names what it deletes. */
  ghost predicate Permitted(s: Session, l: Layout, c: Command)
    requires Ready(s, l)
  {
    RmParent(s, c);
    match c
    case Cd(_) => true
    case Mkdir(name) => Harmless(s.sys, Writing(Request(name, s.name, NO_EXT, s.directory, 0), []), MKDIR_WRITES)
    case Rm(line) =>
      && Parsable(line)
      && (TokensOf(line, [DOT]) == [] && RmRequest(line, s.directory).Some? ==>
            HitsLive(s.sys.disk, RmRequest(line, s.directory).value))
    case Save(req, data) => req.parent in l.depth && req.bufferSize > 0 && Buffered(s.sys.fat, data, req.bufferSize)
  }

  lemma PermittedIsAllowed(s: Session, l: Layout, c: Command)
    requires Ready(s, l) && Permitted(s, l, c)
    ensures CallOf(s, c).Some? ==> Allowed(s.sys, l, CallOf(s, c).value) && Completes(s.sys, l, CallOf(s, c).value)
  {
    hide TableOf, Wf, Tree, RmRequest, TokensOf, NoEntries, HitsLive, Coherent, IsFormatted, Write, FreeClusters;
    if c.Rm? {
      if CallOf(s, c).Some? {
        RmMeans(c.line, s.directory);
      }
      RmParent(s, c);
      if CallOf(s, c).Some? && TokensOf(c.line, [DOT]) != [] {
        NamedHitsLive(s.sys.fat, s.sys.disk, l, CallOf(s, c).value.req);
      }
    } else if c.Mkdir? {
      MkdirCompletes(s.sys, l, CallOf(s, c).value);
    }
  }

  lemma MkdirCompletes(sys: System, l: Layout, call: Call)
    requires Good(sys, l) && Allowed(sys, l, call) && call.Writing? && call.req.bufferSize == 0
    requires Harmless(sys, call, MKDIR_WRITES)
    ensures Completes(sys, l, call)
  {
    hide TableOf, FatOf, Wf, NoEntries, Initialised, FreeClusters, IsFormatted, Coherent, Write;
    if Effect(sys, l, call).code != 0 {
      FailedChangesNothing(sys, l, call);
    } else {
      DirPath(sys.fat, sys.disk, l, call.req, call.data);
    }
  }

  lemma ReadySafe(s: Session, l: Layout)
    requires Ready(s, l)
    ensures s.directory < |s.sys.disk| && ReadDirectorySafe(s.sys.disk, OwnRequest(s.directory, s.name))
    ensures ReadDirectory(s.sys.disk, OwnRequest(s.directory, s.name)) == (0, s.directory)
  {
    hide TableOf, Good, Tree, ReadDirectorySafe, ReadDirectory;
    LabelOf(s.sys.disk, l, s.directory);
    ReadsOwnTable(s.sys.disk, s.directory);
  }

  ghost function After(s: Session, l: Layout, c: Command): (Session, Layout)
    requires Ready(s, l) && Permitted(s, l, c)
  {
    ReadySafe(s, l);
    PermittedIsAllowed(s, l, c);
    if c.Cd? then
      var (d, name) := ChangeDirectory(s.sys.disk, s.directory, s.name, c.arg);
      (s.(directory := d, name := name), l)
    else
      match CallOf(s, c)
      case None => (s, l)
      case Some(call) =>
        CallKeepsInvariant(s.sys, l, call);
        var o := Effect(s.sys, l, call);
        (s.(sys := System(o.fat, Apply(s.sys.disk, o.writes))), NextLayout(s.sys, l, call))
  }

  /** In a session cd changes nothing but the current directory and the cached name, and these go together. */
  lemma CdMoves(s: Session, l: Layout, arg: Name)
    requires Ready(s, l)
    ensures var d := CdFrom(s.sys, l, s.directory, arg);
            Permitted(s, l, Cd(arg))
            && After(s, l, Cd(arg)) == (Session(s.sys, d, TableOf(s.sys.disk[d])[0].name), l)
  {
    hide TableOf, Wf, Tree, Coherent, IsFormatted, Enter, ReadDirectory, ReadDirectorySafe;
    ReadySafe(s, l);
    CdInTree(s.sys, l, s.directory, arg);
  }

  lemma CallKeepsTree(sys: System, l: Layout, call: Call)
    requires Good(sys, l) && Tree(sys.disk, l) && Allowed(sys, l, call) && Completes(sys, l, call)
    requires call.Writing? && call.req.bufferSize == 0 ==>
               call.req.parentName == TableOf(sys.disk[call.req.parent])[0].name
    ensures WritesFit(sys.disk, Effect(sys, l, call).writes)
    ensures Tree(Apply(sys.disk, Effect(sys, l, call).writes), NextLayout(sys, l, call))
  {
    hide TableOf, FatOf, Wf, Tree, Write, Delete, Read, MatchSlot, FreeClusters, Coherent, NoEntries, NewDirLayout,
         FileLayout, IsFormatted, HitsLive;
    CallIsSafe(sys, l, call);
    CallKeepsInvariant(sys, l, call);
    if Effect(sys, l, call).code != 0 {
      FailedChangesNothing(sys, l, call);
      ApplyNothing(sys.disk);
    } else if call.Reading? {
      ReadChangesNothing(sys, l, call);
      ApplyNothing(sys.disk);
    } else if call.Deleting? {
      DeleteKeepsTree(sys, l, call.req);
    } else if call.req.bufferSize == 0 {
      MkdirKeepsTree(sys, l, call.req, call.data);
    } else {
      FileKeepsTree(sys, l, call.req, call.data);
    }
  }

  /** No call removes the directory that it works in. */
  lemma ParentStays(sys: System, l: Layout, call: Call, d: Index)
    requires Good(sys, l) && Allowed(sys, l, call) && d in l.depth && (call.Deleting? ==> d == call.req.parent)
    ensures d in NextLayout(sys, l, call).depth
  {
    hide TableOf, FatOf, Wf, Write, Delete, Read, MatchSlot, FreeClusters, Coherent, At, IsFormatted, HitsLive;
    CallIsSafe(sys, l, call);
    if Effect(sys, l, call).code == 0 && call.Writing? {
      if call.req.bufferSize == 0 {
        DirPath(sys.fat, sys.disk, l, call.req, call.data);
        NewDirDepth(sys.fat, sys.disk, l, call.req);
      } else {
        FilePath(sys.fat, sys.disk, l, call.req, call.data);
      }
    } else if Effect(sys, l, call).code == 0 && call.Deleting? {
      DeletePath(sys.fat, sys.disk, l, call.req);
      var s := Victim(sys.disk, call.req);
      if At(TablesOf(sys.disk, l.depth.Keys), s).IsDir() {
        RmdirSites(sys.fat, sys.disk, l, s);
      }
    }
  }

  /** Every command leaves the tree a tree, the current directory a live directory with its cached name, and leaks
      nothing. */
  lemma CommandKeepsReady(s: Session, l: Layout, c: Command)
    requires Ready(s, l) && Permitted(s, l, c)
    ensures var (s', l') := After(s, l, c); Ready(s', l') && l'.leaked == l.leaked
  {
    hide TableOf, FatOf, Wf, Tree, Effect, NextLayout, Coherent, RmRequest, Harmless, Enter, ReadDirectory,
         ReadDirectorySafe, IsFormatted, HitsLive;
    PermittedIsAllowed(s, l, c);
    if c.Cd? {
      ReadySafe(s, l);
      CdInTree(s.sys, l, s.directory, c.arg);
    } else if CallOf(s, c).Some? {
      var call := CallOf(s, c).value;
      CallKeepsInvariant(s.sys, l, call);
      CallKeepsTree(s.sys, l, call);
      RmParent(s, c);
      ParentStays(s.sys, l, call, s.directory);
      HeadKept(s.sys, l, call, s.directory);
    }
  }

  lemma RmParent(s: Session, c: Command)
    ensures CallOf(s, c).Some? && CallOf(s, c).value.Deleting? ==> CallOf(s, c).value.req.parent == s.directory
  {
    hide TokensOf, RowBytes, Length;
  }

  lemma HeadKept(sys: System, l: Layout, call: Call, d: Index)
    requires Good(sys, l) && Allowed(sys, l, call) && Completes(sys, l, call)
    requires d in l.depth && d in NextLayout(sys, l, call).depth
    ensures WritesFit(sys.disk, Effect(sys, l, call).writes)
    ensures TableOf(Apply(sys.disk, Effect(sys, l, call).writes)[d])[0] == TableOf(sys.disk[d])[0]
  {
    hide TableOf, FatOf, Wf, Effect, NextLayout, Coherent, HeadsSame, IsFormatted;
    CallKeepsInvariant(sys, l, call);
    var o, l' := Effect(sys, l, call), NextLayout(sys, l, call);
    var after := System(o.fat, Apply(sys.disk, o.writes));
    CoherentMeans(after, l');
    EveryWrite(sys.disk, o.writes);
    HeadsAfter(sys, l, call, |o.writes|, l');
    FewerHeads(sys.disk, after.disk, l.depth.Keys * l'.depth.Keys, {d});
    HeadIs(sys.disk, after.disk, d);
  }

  ghost predicate PermittedSession(s: Session, l: Layout, cs: seq<Command>)
    requires Ready(s, l)
    decreases |cs|
  {
    cs != [] ==>
      && Permitted(s, l, cs[0])
      && (CommandKeepsReady(s, l, cs[0]); var (s', l') := After(s, l, cs[0]); PermittedSession(s', l', cs[1..]))
  }

  ghost function RunSession(s: Session, l: Layout, cs: seq<Command>): (Session, Layout)
    requires Ready(s, l) && PermittedSession(s, l, cs)
    decreases |cs|
  {
    if cs == [] then (s, l)
    else
      CommandKeepsReady(s, l, cs[0]);
      var (s', l') := After(s, l, cs[0]);
      RunSession(s', l', cs[1..])
  }

  /** Over whole sessions. */
  lemma {:induction false} SessionKeepsTree(s: Session, l: Layout, cs: seq<Command>)
    requires Ready(s, l) && PermittedSession(s, l, cs)
    ensures var (s', l') := RunSession(s, l, cs); Ready(s', l') && l'.leaked == l.leaked
    decreases |cs|
  {
    hide Ready, Permitted, After;
    if cs != [] {
      CommandKeepsReady(s, l, cs[0]);
      var (s', l') := After(s, l, cs[0]);
      SessionKeepsTree(s', l', cs[1..]);
    }
  }

  // ---------- sessions that are always permitted ----------

  /** A command that does not delete a file, and asks only for what the line or the buffer is answerable for. */
  ghost predicate Calm(s: Session, l: Layout, c: Command)
    requires Ready(s, l)
  {
    && (c.Mkdir? || Permitted(s, l, c))
    && (CallOf(s, c).Some? ==>
          var call := CallOf(s, c).value;
          Allowed(s.sys, l, call) && !FreesFile(s.sys, l, call, |Effect(s.sys, l, call).writes|))
  }

  /** Where all free clusters are clean, such a command is permitted, mkdir included, and leaves them clean. */
  lemma CalmStep(s: Session, l: Layout, c: Command)
    requires Ready(s, l) && FreeClean(s.sys) && Calm(s, l, c)
    ensures Permitted(s, l, c) && FreeClean(After(s, l, c).0.sys)
  {
    hide TableOf, FatOf, Wf, Tree, Effect, NextLayout, Coherent, RmRequest, Harmless, Enter, ReadDirectory,
         ReadDirectorySafe, IsFormatted, HitsLive, FreesFile, FreeClean, AfterWrites, TokensOf;
    if c.Mkdir? {
      CleanIsHarmless(s.sys, CallOf(s, c).value);
    }
    PermittedIsAllowed(s, l, c);
    if !c.Cd? && CallOf(s, c).Some? {
      var call := CallOf(s, c).value;
      var o := Effect(s.sys, l, call);
      EventKeepsClean(s.sys, l, call, |o.writes|);
      CallKeepsInvariant(s.sys, l, call);
      EveryWrite(s.sys.disk, o.writes);
      CoherentMeans(After(s, l, c).0.sys, NextLayout(s.sys, l, call));
    }
  }

  ghost predicate CalmSession(s: Session, l: Layout, cs: seq<Command>)
    requires Ready(s, l) && FreeClean(s.sys)
    decreases |cs|
  {
    cs != [] ==>
      && Calm(s, l, cs[0])
      && (CalmStep(s, l, cs[0]);
          CommandKeepsReady(s, l, cs[0]);
          var (s', l') := After(s, l, cs[0]);
          CalmSession(s', l', cs[1..]))
  }

  /** Sessions without file deletions that start with clean free clusters are permitted throughout. */
  lemma {:induction false} CalmSessionIsPermitted(s: Session, l: Layout, cs: seq<Command>)
    requires Ready(s, l) && FreeClean(s.sys) && CalmSession(s, l, cs)
    ensures PermittedSession(s, l, cs) && FreeClean(RunSession(s, l, cs).0.sys)
    decreases |cs|
  {
    hide Ready, Permitted, After, Calm, FreeClean;
    if cs != [] {
      CalmStep(s, l, cs[0]);
      CommandKeepsReady(s, l, cs[0]);
      var (s', l') := After(s, l, cs[0]);
      CalmSessionIsPermitted(s', l', cs[1..]);
    }
  }
}
