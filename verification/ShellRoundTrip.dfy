/** mkdir and rm in a session, in terms of the map of files: the one binds a name, the other takes it back. */
module ShellRoundTrip {
  import opened Bytes
  import opened CString
  import opened OnDisk
  import opened Chains
  import opened Operations
  import opened Ownership
  import opened Safety
  import opened Runs
  import opened Refinement
  import opened Answers
  import opened DirectoryTree
  import opened Tokenizer
  import opened Sessions

  /** The first slot from 2 on that a deletion by this name, without extension, matches holds that very name. */
  ghost predicate NamesFirst(t: Table, name: Name) {
    exists i: nat ::
      && 2 <= i < 64 && t[i].name == name && t[i].ext == [0, 0, 0]
      && forall j: nat | 2 <= j < i :: !(Str(name) <= Str(t[j].name) && t[j].ext == [0, 0, 0])
  }

  lemma DirectoryNotFree(sys: System, l: Layout, d: Index)
    requires Good(sys, l) && d in l.depth
    ensures sys.fat[d] != EMPTY_ENTRY
  {
    hide TableOf, Entered, Chained, DistinctKeys, Headed, Sized, Ranked, Homed;
    DirectoriesKnown(sys.fat, TablesOf(sys.disk, l.depth.Keys), l);
  }

  /** A mkdir in a session: unless it changes nothing, it binds the name, without extension, to a new directory here. */
  lemma MkdirBinds(s: Session, l: Layout, name: Name) returns (c: Index)
    requires Ready(s, l) && Permitted(s, l, Mkdir(name)) && After(s, l, Mkdir(name)).0 != s
    ensures var (s', l') := After(s, l, Mkdir(name));
            var m, key := View(s.sys.disk, l), Key(s.directory, name, [0, 0, 0]);
            && s'.directory == s.directory && s'.name == s.name
            && c != s.directory && key !in m && View(s'.sys.disk, l') == m[key := Directory(c)] && Unknown(m, c)
  {
    hide TableOf, FatOf, Wf, Tree, View, Effect, NextLayout, Coherent, IsFormatted, Harmless, FreeClusters, Unknown,
         KeysIn;
    var call := CallOf(s, Mkdir(name)).value;
    PermittedIsAllowed(s, l, Mkdir(name));
    CallKeepsInvariant(s.sys, l, call);
    CallSimulates(s.sys, l, call);
    if Effect(s.sys, l, call).code != 0 {
      FailedChangesNothing(s.sys, l, call);
      ApplyNothing(s.sys.disk);
    }
    c := FreeClusters(s.sys.fat)[0];
    FirstIsFree(s.sys.fat);
    DirectoryNotFree(s.sys, l, s.directory);
  }

  /** The deletion that a line with one part asks for, and its answer. */
  lemma RmDeletes(s: Session, l: Layout, line: seq<byte>, name: Name) returns (req: Request, code: int)
    requires Ready(s, l) && Parsable(line) && TokensOf(line, [0x2E]) == [Str(name)]
    requires !([0x73, 0x68, 0x65, 0x6C, 0x6C] <= Str(name))
    ensures Permitted(s, l, Rm(line)) && req.parent == s.directory && Str(req.name) == Str(name) && req.ext == [0, 0, 0]
    ensures var t := TableOf(s.sys.disk[s.directory]);
            var (s', l') := After(s, l, Rm(line));
            t[0].IsDir() && DeleteAnswer(t, View(s.sys.disk, l), req, code, View(s'.sys.disk, l'))
  {
    hide TableOf, FatOf, Wf, Tree, View, Effect, NextLayout, Coherent, IsFormatted, RmRequest, TokensOf, DeleteAnswer,
         HitsLive, Str;
    StrFits(name);
    RmRefuses(line, s.directory);
    RmMeans(line, s.directory);
    req := RmRequest(line, s.directory).value;
    RmParent(s, Rm(line));
    PermittedIsAllowed(s, l, Rm(line));
    CallKeepsInvariant(s.sys, l, Deleting(req));
    CallSimulates(s.sys, l, Deleting(req));
    code := Reply(s.sys, l, Deleting(req)).code;
    LabelOf(s.sys.disk, l, s.directory);
  }

  lemma StrFits(name: Name)
    ensures |Str(name)| <= 8
  {
  }

  lemma FirstIsNamed(t: Table, req: Request, name: Name)
    requires req.parent < CLUSTER_MAP_SIZE && Str(req.name) == Str(name) && req.ext == [0, 0, 0]
    ensures NamesFirst(t, name)
        <==> MatchSlot(t, req.name, req.ext, 2) < SLOT_COUNT && FirstMatch(t, req) == Key(req.parent, name, [0, 0, 0])
  {
    hide Str, Matches;
    forall e: Entry
      ensures Matches(e, req.name, req.ext) <==> Str(name) <= Str(e.name) && e.ext == [0, 0, 0]
    {
      MatchesMeans(e, req);
    }
    var slot := MatchSlot(t, req.name, req.ext, 2);
    if NamesFirst(t, name) {
      var i: nat :|
        && 2 <= i < 64 && t[i].name == name && t[i].ext == [0, 0, 0]
        && forall j: nat | 2 <= j < i :: !(Str(name) <= Str(t[j].name) && t[j].ext == [0, 0, 0]);
      assert Matches(t[i], req.name, req.ext);
      assert slot == i;
    }
  }

  /** A deletion that matches a key of an empty directory takes that key away if and only if it is the first match, and
      otherwise leaves it. */
  lemma EmptyDirectoryGoes(t: Table, m: Files, key: Key, c: Index, req: Request, code: int, m': Files)
    requires key !in m && Unknown(m, c) && key.dir != c && t[0].IsDir() && req.parent < CLUSTER_MAP_SIZE
    requires KeyMatches(key, req) && DeleteAnswer(t, m[key := Directory(c)], req, code, m')
    ensures m' == m <==> MatchSlot(t, req.name, req.ext, 2) < SLOT_COUNT && FirstMatch(t, req) == key
  {
    hide KeyMatches, FirstMatch, MatchSlot;
    var m1 := m[key := Directory(c)];
    assert KeysIn(m1, c) == {};
    assert key in m1;
    assert m1 - {key} == m;
  }

  /** rm of a line that names the directory that mkdir has just made takes it back, so that the map of files is what it
      was before, if and only if no earlier entry without extension has a name that begins so. */
  lemma RmUndoesMkdir(s: Session, l: Layout, name: Name, line: seq<byte>)
    requires Ready(s, l) && Permitted(s, l, Mkdir(name)) && After(s, l, Mkdir(name)).0 != s
    requires Parsable(line) && TokensOf(line, [0x2E]) == [Str(name)] && |Str(name)| > 0
    requires !([0x73, 0x68, 0x65, 0x6C, 0x6C] <= Str(name))
    ensures var (s1, l1) := After(s, l, Mkdir(name));
            && Ready(s1, l1) && Permitted(s1, l1, Rm(line))
            && (var (s2, l2) := After(s1, l1, Rm(line));
                View(s2.sys.disk, l2) == View(s.sys.disk, l)
                <==> NamesFirst(TableOf(s1.sys.disk[s.directory]), name))
  {
    hide TableOf, Wf, View, RmRequest, TokensOf, DeleteAnswer, NamesFirst, Good, Tree, Permitted, After, FirstMatch,
         MatchSlot, Str;
    var c := MkdirBinds(s, l, name);
    CommandKeepsReady(s, l, Mkdir(name));
    var (s1, l1) := After(s, l, Mkdir(name));
    var req, code := RmDeletes(s1, l1, line, name);
    var t, key := TableOf(s1.sys.disk[s.directory]), Key(s.directory, name, [0, 0, 0]);
    FirstIsNamed(t, req, name);
    EmptyDirectoryGoes(t, View(s.sys.disk, l), key, c, req, code,
                       View(After(s1, l1, Rm(line)).0.sys.disk, After(s1, l1, Rm(line)).1));
  }
}
