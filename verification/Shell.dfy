/** The shell's built-in commands, over the driver and the string library. */
module Shell {
  import opened Bytes
  import opened CString
  import opened OnDisk
  import opened BlockDevice
  import opened Ownership
  import opened Runs
  import opened DirectoryTree
  import opened Tokenizer
  import opened StringLibrary
  import opened Sessions
  import opened WorkingPath
  import FatDriver

  const TILDE: byte := 0x7E

  class Terminal {
    const driver: FatDriver.Driver
    const library: Library
    var directory: u32
    var name: Name

    ghost predicate Valid()
      reads this, library, library.text
    {
      && driver.Valid() && library.Valid()
      && (library.text != null ==>
            library.text != driver.device.image && library.text as object != driver.clusterMap as object)
    }

    ghost function State(): Session
      requires driver.Valid()
      reads this, driver.clusterMap, driver.device.image
    {
      Session(System(driver.FatView(), driver.DiskView()), directory, name)
    }

    constructor (driver: FatDriver.Driver)
      requires driver.Valid()
      ensures Valid() && this.driver == driver && fresh(library)
      ensures directory == ROOT_CLUSTER && name == Operations.ROOT_NAME
    {
      this.driver := driver;
      library := new Library();
      directory := ROOT_CLUSTER;
      name := Operations.ROOT_NAME;
    }

    /** Moves to the parent, to a named directory, or not at all; the name moves along. */
    method Cd(dirName: seq<byte>)
      requires Valid() && |dirName| >= 8
      requires directory < |driver.DiskView()|
      requires Operations.ReadDirectorySafe(driver.DiskView(), OwnRequest(directory, name))
      modifies this`directory, this`name, driver.dirTable
      ensures State().sys == old(State()).sys
      ensures (directory, name) == ChangeDirectory(old(driver.DiskView()), old(directory), old(name), dirName[..8])
    {
      hide TableOf, FatOf, Enter, Operations.NameSlot, Operations.StartsWith;
      var table := new Entry[SLOT_COUNT](_ => ZERO_ENTRY);
      var code := driver.ReadDirectory(OwnRequest(directory, name), table);
      if code == 0 {
        EnterFrom(table, dirName);
      }
    }

    /** Moves according to the current directory's table. */
    method EnterFrom(table: array<Entry>, dirName: seq<byte>)
      requires |dirName| >= 8 && table.Length == SLOT_COUNT
      modifies this`directory, this`name
      ensures (directory, name) == Enter(table[..], old(directory), old(name), dirName[..8])
    {
      hide EqualSlot;
      var dots := Memcmp(dirName, DOTS, 2);
      assert dirName[..8][..2] == dirName[..2] && DOTS[..2] == DOTS;
      if dots == 0 {
        directory := table[1].clusterHigh as int * 0x1_0000 + table[1].clusterLow as int;
        name := table[1].name;
        return;
      }
      var i := FindEqual(table, dirName);
      if i < SLOT_COUNT && table[i].attribute == ATTR_SUBDIRECTORY {
        directory := table[i].clusterHigh as int * 0x1_0000 + table[i].clusterLow as int;
        name := table[i].name;
      }
    }

    method FindEqual(table: array<Entry>, dirName: seq<byte>) returns (i: nat)
      requires |dirName| >= 8 && table.Length == SLOT_COUNT
      ensures i == EqualSlot(table[..], dirName[..8], 0)
    {
      ghost var t := table[..];
      i := 0;
      while i < SLOT_COUNT
        invariant i <= SLOT_COUNT && EqualSlot(t, dirName[..8], i) == EqualSlot(t, dirName[..8], 0)
      {
        var differs := Memcmp(dirName, table[i].name, 8);
        assert t[i].name[..8] == t[i].name;
        if differs == 0 {
          return;
        }
        i := i + 1;
      }
    }

    /** Creates a directory here; its back-pointer carries the current directory's name. */
    method Mkdir(dirName: seq<byte>) returns (code: int)
      requires Valid() && |dirName| >= 8 && directory < |driver.DiskView()|
      modifies driver.clusterMap, driver.dirTable, driver.device.image, driver.device`log
      ensures var req := Operations.Request(dirName[..8], name, NO_EXT, directory, 0);
              var o := Operations.Write(old(driver.FatView()), old(driver.DiskView()), req, []);
              && code == o.code && driver.FatView() == o.fat
              && WritesFit(old(driver.DiskView()), o.writes)
              && driver.DiskView() == Apply(old(driver.DiskView()), o.writes)
      ensures directory == old(directory) && name == old(name)
    {
      hide TableOf, FatOf, Operations.Write, Apply;
      var nothing := new byte[0];
      assert nothing[..] == [];
      code := driver.Write(Operations.Request(dirName[..8], name, NO_EXT, directory, 0), nothing);
    }

    /** Parses the name and asks the driver for the deletion; 3 when it does not ask. */
    method Rm(line: array<byte>) returns (code: int)
      requires Valid() && Parsable(line[..]) && directory < |driver.DiskView()|
      requires line != driver.device.image && line as object != driver.clusterMap as object
      requires RmRequest(line[..], directory).Some? ==>
                 Operations.DeleteSafe(driver.FatView(), driver.DiskView(), RmRequest(line[..], directory).value)
      modifies library, line, driver.clusterMap, driver.dirTable, driver.device.image, driver.device`log
      ensures directory == old(directory) && name == old(name)
      ensures match RmRequest(old(line[..]), directory)
              case None => code == 3 && State() == old(State())
              case Some(req) =>
                var o := Operations.Delete(old(driver.FatView()), old(driver.DiskView()), req);
                && code == o.code && driver.FatView() == o.fat
                && WritesFit(old(driver.DiskView()), o.writes)
                && driver.DiskView() == Apply(old(driver.DiskView()), o.writes)
    {
      hide TableOf, FatOf, Operations.Delete, Apply, Operations.DeleteSafe, RowBytes, TokensOf, Length, Reads, Calls,
           Row, Cut;
      ghost var s, disk, fat := line[..], driver.DiskView(), driver.FatView();
      var command := new byte[COMMAND_ROWS, ROW_SIZE];
      var many := library.Strparse(line, command, [DOT]);
      assert driver.DiskView() == disk && driver.FatView() == fat;
      var first := ReadRow(command, 0);
      var second := ReadRow(command, 1);
      var length := Strlen(first);
      var extLength := Strlen(second);
      if many > 1 {
        if length > 8 || extLength > 3 {
          return 3;
        }
        code := driver.Delete(Operations.Request(first[..8], NO_NAME, second[..3], directory, 0));
      } else {
        var shell := Memcmp(first, SHELL, 5);
        assert SHELL[..5] == SHELL;
        if shell == 0 || length > 8 {
          return 3;
        }
        code := driver.Delete(Operations.Request(first[..8], NO_NAME, NO_EXT, directory, 0));
      }
    }

    /** Walks up to the root by the parent entries, and prints the path. */
    method Cwd(ghost l: Layout) returns (text: seq<byte>, ghost steps: nat)
      requires Valid() && Ready(State(), l) && |Trail(driver.DiskView(), l, directory)| < 256
      modifies driver.dirTable, library
      ensures State() == old(State()) && steps == l.depth[directory]
      ensures text == if directory == ROOT_CLUSTER then [0x7E] else Printed(driver.DiskView(), l, directory)
    {
      hide TableOf, FatOf, Tree, Wf, Spans;
      ghost var disk := driver.DiskView();
      ghost var sys := State().sys;
      DepthOf(sys.fat, disk, l, directory);
      if directory == ROOT_CLUSTER {
        return [TILDE], 0;
      }
      var path, idx;
      path, idx, steps := WalkToRoot(l);
      var printed := new byte[PATH_SIZE](_ => 0);
      BufferReads(disk, l, directory);
      assert path[..PATH_SIZE] == PathBuffer(disk, l, directory);
      library.ReversePath(path, printed);
      ReadsStr(printed[..], Printed(disk, l, directory));
      var n := Strlen(printed[..]);
      text := printed[..n];
    }

    method WalkToRoot(ghost l: Layout) returns (path: array<byte>, idx: nat, ghost steps: nat)
      requires Valid() && Ready(State(), l) && |Trail(driver.DiskView(), l, directory)| < PATH_SIZE
      modifies driver.dirTable
      ensures fresh(path) && path[..] == PathBuffer(driver.DiskView(), l, directory)
      ensures State() == old(State()) && steps == l.depth[directory]
      ensures idx == |Trail(driver.DiskView(), l, directory)|
    {
      hide TableOf, FatOf, Tree, Good, Spans, Trail, NameIn, Up, Length, Str, Repeat, Holds, PathBuffer;
      ghost var disk, sys := driver.DiskView(), State().sys;
      path := new byte[PATH_SIZE](_ => 0);
      var table := new Entry[SLOT_COUNT](_ => ZERO_ENTRY);
      var current, currentName := directory, name;
      idx, steps := 0, 0;
      ghost var done: seq<byte> := [];
      Start(sys, l, directory);
      HoldsNothing(path[..]);
      while current != ROOT_CLUSTER
        invariant State() == old(State()) && steps <= l.depth[directory]
        invariant current == Up(l.home, directory, steps) && current in l.depth
        invariant current == ROOT_CLUSTER <==> steps == l.depth[directory]
        invariant currentName == TableOf(disk[current])[0].name
        invariant done + Trail(disk, l, current) == Trail(disk, l, directory)
        invariant idx == |done| && Holds(path[..], done)
        decreases l.depth[directory] - steps
      {
        Climb(sys, l, directory, steps);
        idx := AppendName(path, idx, currentName, done);
        Regrouped(done, Str(currentName), Trail(disk, l, Up(l.home, directory, steps + 1)));
        done := done + Str(currentName) + [SLASH];
        current, currentName := ReadParent(current, currentName, table);
        steps := steps + 1;
      }
      NoTrail(sys, l);
      assert done == Trail(disk, l, directory);
      HoldsTrail(disk, l, directory, path[..]);
    }

    /** Reads a directory by its own name and takes its parent's cluster and name from slot 1. */
    method ReadParent(current: u32, currentName: Name, table: array<Entry>) returns (parent: u32, parentName: Name)
      requires Valid() && table.Length == SLOT_COUNT && table != driver.dirTable && current < |driver.DiskView()|
      requires var t := TableOf(driver.DiskView()[current]);
               t[0].IsDir() && t[0].Cluster() == current && t[0].name == currentName
      modifies driver.dirTable, table
      ensures State() == old(State())
      ensures var t := TableOf(driver.DiskView()[current]); parent == t[1].Cluster() && parentName == t[1].name
    {
      hide TableOf, FatOf;
      ReadsOwnTable(driver.DiskView(), current);
      var code := driver.ReadDirectory(OwnRequest(current, currentName), table);
      parent := table[1].clusterHigh as int * 0x1_0000 + table[1].clusterLow as int;
      parentName := table[1].name;
    }

    /** Appends one name and a slash. */
    method AppendName(path: array<byte>, start: nat, current: Name, ghost done: seq<byte>) returns (idx: nat)
      requires path.Length == PATH_SIZE && start == |done| && |done| + |Str(current)| + 1 < PATH_SIZE
      requires Holds(path[..], done)
      modifies path
      ensures idx == |done + Str(current) + [SLASH]| && Holds(path[..], done + Str(current) + [SLASH])
    {
      idx := start;
      var n := Strlen(current);
      for i := 0 to n
        invariant idx == start + i
        invariant path[..] == done + current[..i] + Repeat(PATH_SIZE - start - i, 0)
      {
        path[idx] := current[i];
        idx := idx + 1;
      }
      path[idx] := SLASH;
      idx := idx + 1;
    }
  }

  lemma Regrouped(done: seq<byte>, name: seq<byte>, rest: seq<byte>)
    ensures done + name + [SLASH] + rest == done + (name + [SLASH] + rest)
  {
  }

  /** A path buffer with this text in it, and zeros behind. */
  ghost predicate Holds(path: seq<byte>, done: seq<byte>) {
    |done| <= PATH_SIZE && path == done + Repeat(PATH_SIZE - |done|, 0)
  }

  lemma HoldsNothing(path: seq<byte>)
    requires path == Repeat(PATH_SIZE, 0)
    ensures Holds(path, [])
  {
    assert path == [] + Repeat(PATH_SIZE, 0);
  }

  lemma HoldsTrail(disk: Disk, l: Layout, d: Index, path: seq<byte>)
    requires d in l.depth && |Trail(disk, l, d)| < PATH_SIZE
    requires Holds(path, Trail(disk, l, d))
    ensures path == PathBuffer(disk, l, d)
  {
    hide Trail;
  }

  lemma Start(sys: System, l: Layout, d: Index)
    requires Good(sys, l) && Tree(sys.disk, l) && d in l.depth
    ensures d == Up(l.home, d, 0) && (d == ROOT_CLUSTER <==> l.depth[d] == 0)
  {
    hide TableOf, Good, Tree;
    WalkUp(sys, l, d, 0);
  }

  /** One step of the walk up. */
  lemma Climb(sys: System, l: Layout, d: Index, n: nat)
    requires Good(sys, l) && Tree(sys.disk, l) && d in l.depth && n < l.depth[d]
    ensures var a, p := Up(l.home, d, n), Up(l.home, d, n + 1);
            var t := TableOf(sys.disk[a]);
            && t[0].IsDir() && t[0].Cluster() == a && t[1].Cluster() == p && t[1].name == TableOf(sys.disk[p])[0].name
            && a in l.depth && p in l.depth && (p == ROOT_CLUSTER <==> n + 1 == l.depth[d])
            && Trail(sys.disk, l, a) == Str(t[0].name) + [SLASH] + Trail(sys.disk, l, p)
  {
    hide TableOf, Wf, Tree;
    WalkUp(sys, l, d, n);
    WalkUp(sys, l, d, n + 1);
    DepthOf(sys.fat, sys.disk, l, Up(l.home, d, n));
    LabelOf(sys.disk, l, Up(l.home, d, n));
  }

  lemma NoTrail(sys: System, l: Layout)
    requires Good(sys, l)
    ensures ROOT_CLUSTER in l.depth && Trail(sys.disk, l, ROOT_CLUSTER) == []
  {
    hide TableOf, Wf;
    HomesInDepth(sys.fat, sys.disk, l);
  }
}
