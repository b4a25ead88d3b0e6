/** The path that cwd prints, and that cd along its components leads back. */
module WorkingPath {
  import opened Bytes
  import opened CString
  import opened OnDisk
  import opened Ownership
  import opened Runs
  import opened DirectoryTree
  import opened Tokenizer
  import opened StringLibrary
  import opened Sessions

  /** What the walk up writes: each directory's name and a slash, the current directory's first. */
  ghost function Trail(disk: Disk, l: Layout, d: Index): seq<byte>
    requires d in l.depth
    decreases l.depth[d]
  {
    if d !in l.home || l.home[d].dir !in l.depth || l.depth[l.home[d].dir] >= l.depth[d] then []
    else Str(NameIn(disk, l.home, d)) + [SLASH] + Trail(disk, l, l.home[d].dir)
  }

  ghost function TrailOf(tokens: seq<seq<byte>>): seq<byte> {
    if tokens == [] then [] else tokens[0] + [SLASH] + TrailOf(tokens[1..])
  }

  lemma {:induction false} ReversedOne<T>(s: seq<T>, x: T)
    ensures Reversed(s + [x]) == [x] + Reversed(s)
  {
    if s == [] {
      assert s + [x] == [x];
    } else {
      assert (s + [x])[1..] == s[1..] + [x];
      ReversedOne(s[1..], x);
    }
  }

  lemma {:induction false} TrailIsPath(disk: Disk, l: Layout, d: Index)
    requires d in l.depth
    ensures Trail(disk, l, d) == TrailOf(Reversed(PathOf(disk, l, d)))
    decreases l.depth[d]
  {
    hide TableOf;
    if d in l.home && l.home[d].dir in l.depth && l.depth[l.home[d].dir] < l.depth[d] {
      TrailIsPath(disk, l, l.home[d].dir);
      ReversedOne(PathOf(disk, l, l.home[d].dir), Str(NameIn(disk, l.home, d)));
    }
  }

  /** One component at position i, with a slash after it. */
  lemma TrailSpan(s: seq<byte>, i: nat, token: seq<byte>)
    requires i <= Length(s) && Component(token) && i + |token| + 1 < |s|
    requires s[i..i + |token|] == token && s[i + |token|] == SLASH
    ensures i + |token| + 1 <= Length(s)
    ensures TokensFrom(s, i) == [token] + TokensFrom(s, i + |token| + 1)
  {
    hide Spans, SkipOver, TokenEnd, Length, TokensFrom, Component;
    var hi := i + |token|;
    ComponentBytes(s, i, token);
    WithinString(s, i, hi + 1);
    NoneSkipped(s, i);
    EndFound(s, i, hi);
    FirstSpan(s, [SLASH], i);
    FirstToken(s, i, Span(i, hi));
    SpansAfterDelimiter(s, [SLASH], hi);
    SameTokens(s, hi);
  }

  lemma SameTokens(s: seq<byte>, hi: nat)
    requires hi + 1 <= Length(s) && Spans(s, [SLASH], hi) == Spans(s, [SLASH], hi + 1)
    ensures TokensFrom(s, hi) == TokensFrom(s, hi + 1)
  {
  }

  lemma NoneSkipped(s: seq<byte>, i: nat)
    requires i < |s| && s[i] != SLASH
    ensures SkipOver(s, [SLASH], i) == i
  {
  }

  /** The walk's text splits into the names it was made of. */
  lemma {:induction false} TrailSplits(s: seq<byte>, i: nat, tokens: seq<seq<byte>>)
    requires i <= Length(s) && Reads(s, i, TrailOf(tokens)) && forall t | t in tokens :: Component(t)
    ensures TokensFrom(s, i) == tokens
    decreases |tokens|
  {
    hide Length, Spans, Component;
    if tokens == [] {
      NoSpansAtEnd(s, [SLASH], i);
    } else {
      var token, rest := tokens[0], TrailOf(tokens[1..]);
      var next := i + |token| + 1;
      assert tokens[0] in tokens && forall t | t in tokens[1..] :: t in tokens;
      TrailParts(s, i, token, rest);
      TrailSpan(s, i, token);
      TrailSplits(s, next, tokens[1..]);
    }
  }

  lemma TrailParts(s: seq<byte>, i: nat, token: seq<byte>, rest: seq<byte>)
    requires Reads(s, i, token + [SLASH] + rest)
    ensures s[i + |token|] == SLASH && s[i..i + |token|] == token && Reads(s, i + |token| + 1, rest)
  {
    var all, next := token + [SLASH] + rest, i + |token| + 1;
    assert all[0..|token|] == token && all[|token| + 1..] == rest && all[|token|] == SLASH;
    SliceOfSlice(s, i, |all|, 0, |token|);
    SliceOfSlice(s, i, |all|, |token| + 1, |all|);
    assert s[i..i + |all|][|token|] == s[i + |token|];
  }

  /** A string that ends in a slash is long enough to hold its own reversal. */
  lemma {:induction false} ReversalFits(s: seq<byte>, i: nat)
    requires i <= Length(s) && (i < Length(s) ==> s[Length(s) - 1] == SLASH)
    ensures |ReverseJoined(TokensFrom(s, i))| <= Length(s) - i
    decreases |s| - i
  {
    hide Spans;
    if SkipOver(s, [SLASH], i) < Length(s) {
      FirstSpan(s, [SLASH], i);
      var lo := SkipOver(s, [SLASH], i);
      var hi := TokenEnd(s, [SLASH], lo);
      FirstToken(s, i, Span(lo, hi));
      assert hi < Length(s);
      SpansAfterDelimiter(s, [SLASH], hi);
      SameTokens(s, hi);
      ReversalFits(s, hi + 1);
      assert (TokensFrom(s, i))[1..] == TokensFrom(s, hi);
    } else {
      NothingLeft(s, i);
    }
  }

  lemma NothingLeft(s: seq<byte>, i: nat)
    requires i <= Length(s) && SkipOver(s, [SLASH], i) >= Length(s)
    ensures TokensFrom(s, i) == []
  {
  }

  lemma {:induction false} TrailEnds(disk: Disk, l: Layout, d: Index)
    requires d in l.depth
    ensures Trail(disk, l, d) != [] ==> Trail(disk, l, d)[|Trail(disk, l, d)| - 1] == SLASH
    ensures 0 !in Trail(disk, l, d)
    decreases l.depth[d]
  {
    hide TableOf, NameIn;
    if d in l.home && l.home[d].dir in l.depth && l.depth[l.home[d].dir] < l.depth[d] {
      TrailEnds(disk, l, l.home[d].dir);
    }
  }

  /** The path buffer of the walk, and what reversing it yields. */
  ghost function PathBuffer(disk: Disk, l: Layout, d: Index): seq<byte>
    requires d in l.depth && |Trail(disk, l, d)| < PATH_SIZE
  {
    Trail(disk, l, d) + Repeat(PATH_SIZE - |Trail(disk, l, d)|, 0)
  }

  ghost function Printed(disk: Disk, l: Layout, d: Index): seq<byte>
    requires d in l.depth && |Trail(disk, l, d)| < PATH_SIZE
  {
    ReverseJoined(TokensOf(PathBuffer(disk, l, d), [SLASH]))
  }

  lemma BufferReads(disk: Disk, l: Layout, d: Index)
    requires d in l.depth && |Trail(disk, l, d)| < PATH_SIZE
    ensures Reads(PathBuffer(disk, l, d), 0, Trail(disk, l, d))
    ensures Length(PathBuffer(disk, l, d)) == |Trail(disk, l, d)|
    ensures |Printed(disk, l, d)| < PATH_SIZE
  {
    TrailEnds(disk, l, d);
    hide Trail, Spans;
    var trail, buffer := Trail(disk, l, d), PathBuffer(disk, l, d);
    assert buffer[0..0 + |trail|] == trail && buffer[|trail|] == 0;
    ReadsStr(buffer, trail);
    ReversalFits(buffer, 0);
    assert TokensFrom(buffer, 0) == TokensOf(buffer, [SLASH]);
  }

  /** Names that a path can be made of: not empty and without a slash. */
  ghost predicate Printable(disk: Disk, l: Layout, d: Index)
    requires d in l.depth
  {
    forall t | t in PathOf(disk, l, d) :: Component(t)
  }

  /** cwd prints the components from the root down, each preceded by a slash. */
  lemma PrintsThePath(disk: Disk, l: Layout, d: Index)
    requires d in l.depth && |Trail(disk, l, d)| < 256 && Printable(disk, l, d)
    ensures Printed(disk, l, d) == Joined(PathOf(disk, l, d))
  {
    BufferReads(disk, l, d);
    TrailIsPath(disk, l, d);
    hide Trail, Spans, PathOf, Component, Length;
    var path, buffer := PathOf(disk, l, d), PathBuffer(disk, l, d);
    ReversedMembers(path);
    TrailSplits(buffer, 0, Reversed(path));
    assert TokensFrom(buffer, 0) == TokensOf(buffer, [SLASH]);
    ReverseJoinedIs(Reversed(path));
    ReversedTwice(path);
  }

  /** So the root's path is empty, and any other directory's is its parent's, a slash and its own name. */
  lemma PrintsBelowParent(sys: System, l: Layout, d: Index)
    requires Good(sys, l) && d in l.depth && |Trail(sys.disk, l, d)| < 256 && Printable(sys.disk, l, d)
    ensures d == ROOT_CLUSTER ==> Printed(sys.disk, l, d) == []
    ensures d != ROOT_CLUSTER ==>
              && d in l.home && l.home[d].dir in l.depth && |Trail(sys.disk, l, l.home[d].dir)| < 256
              && (var p, i := l.home[d].dir, l.home[d].pos;
                  Printed(sys.disk, l, d) == Printed(sys.disk, l, p) + [0x2F] + Str(TableOf(sys.disk[p])[i].name))
  {
    hide TableOf, Wf, Spans, Component, Length, Printed;
    DepthOf(sys.fat, sys.disk, l, d);
    PrintsThePath(sys.disk, l, d);
    if d != ROOT_CLUSTER {
      var p := l.home[d].dir;
      assert forall t | t in PathOf(sys.disk, l, p) :: t in PathOf(sys.disk, l, d);
      PrintsThePath(sys.disk, l, p);
      JoinedOne(PathOf(sys.disk, l, p), Str(NameIn(sys.disk, l.home, d)));
    }
  }

  lemma ReversedMembers<T>(s: seq<T>)
    ensures forall x | x in Reversed(s) :: x in s
  {
    forall x | x in Reversed(s)
      ensures x in s
    {
      var k :| 0 <= k < |s| && Reversed(s)[k] == x;
      ReversedAt(s, k);
    }
  }

  /** The printed path, split again at its slashes and given to cd component by component from the root, leads back to
      the directory it was printed for, if and only if each directory on the way is found by its printed name. */
  lemma PrintedPathReturns(sys: System, l: Layout, d: Index, text: seq<byte>)
    requires Good(sys, l) && Tree(sys.disk, l) && d in l.depth
    requires |Trail(sys.disk, l, d)| < PATH_SIZE && Printable(sys.disk, l, d)
    requires Reads(text, 0, Printed(sys.disk, l, d))
    ensures TokensOf(text, [SLASH]) == PathOf(sys.disk, l, d)
    ensures CdAll(sys, l, TokensOf(text, [SLASH])) == d <==> PathFinds(sys.disk, l, d)
  {
    hide Trail, Spans, PathOf, Component, Length, Good, Tree, CdAll, PathFinds;
    PrintsThePath(sys.disk, l, d);
    JoinedSplits(text, 0, PathOf(sys.disk, l, d));
    assert TokensFrom(text, 0) == TokensOf(text, [SLASH]);
    PathReturns(sys, l, d);
  }
}
