/** strtok and its two clients: the command-line parser and the path reversal. */
module Tokenizer {
  import opened Bytes
  import opened CString

  /** The bytes lo..hi of a buffer. */
  datatype Span = Span(lo: nat, hi: nat)

  /** The first position from i on that does not hold a delimiter. */
  function SkipOver(s: seq<byte>, delim: seq<byte>, i: nat): (k: nat)
    requires i <= |s| && 0 !in delim
    ensures i <= k <= |s| && forall j | i <= j < k :: s[j] in delim
    ensures k < |s| ==> s[k] !in delim
    decreases |s| - i
  {
    if i < |s| && s[i] in delim then SkipOver(s, delim, i + 1) else i
  }

  /** The first position from i on that holds a delimiter or the end of the string. */
  function TokenEnd(s: seq<byte>, delim: seq<byte>, i: nat): (k: nat)
    requires i <= |s| && 0 !in delim
    ensures i <= k <= |s| && forall j | i <= j < k :: s[j] != 0 && s[j] !in delim
    ensures k < |s| ==> s[k] == 0 || s[k] in delim
    decreases |s| - i
  {
    if i < |s| && s[i] != 0 && s[i] !in delim then TokenEnd(s, delim, i + 1) else i
  }

  /** The tokens of a string from position i on. */
  function Spans(s: seq<byte>, delim: seq<byte>, i: nat): (spans: seq<Span>)
    requires i <= Length(s) && 0 !in delim
    ensures forall k | 0 <= k < |spans| :: i <= spans[k].lo < spans[k].hi <= Length(s)
    decreases |s| - i
  {
    var lo := SkipOver(s, delim, i);
    assert lo <= Length(s);
    if lo == Length(s) then []
    else
      var hi := TokenEnd(s, delim, lo);
      assert hi <= Length(s);
      [Span(lo, hi)] + Spans(s, delim, hi)
  }

  /** A longest run of bytes without a delimiter. */
  ghost predicate MaximalRun(s: seq<byte>, delim: seq<byte>, run: Span) {
    && run.lo < run.hi <= Length(s)
    && (forall j | run.lo <= j < run.hi :: s[j] !in delim)
    && (run.lo == 0 || s[run.lo - 1] in delim)
    && (run.hi == Length(s) || s[run.hi] in delim)
  }

  /** A place where the previous token, if any, has ended. */
  ghost predicate Boundary(s: seq<byte>, delim: seq<byte>, i: nat) {
    i <= Length(s) && (i == 0 || i == Length(s) || s[i - 1] in delim || s[i] in delim)
  }

  /** The tokens are exactly the maximal delimiter-free runs. */
  lemma {:induction false} SpansAreMaximalRuns(s: seq<byte>, delim: seq<byte>, i: nat)
    requires Boundary(s, delim, i) && 0 !in delim
    ensures forall run: Span :: run in Spans(s, delim, i) <==> run.lo >= i && MaximalRun(s, delim, run)
    decreases |s| - i
  {
    var lo := SkipOver(s, delim, i);
    assert lo <= Length(s);
    forall run: Span | run.lo >= i && MaximalRun(s, delim, run)
      ensures run.lo >= lo
    {
      assert s[run.lo] !in delim;
    }
    if lo < Length(s) {
      var hi := TokenEnd(s, delim, lo);
      assert hi <= Length(s);
      SpansAreMaximalRuns(s, delim, hi);
      assert MaximalRun(s, delim, Span(lo, hi));
      forall run: Span | run.lo >= i && MaximalRun(s, delim, run)
        ensures run == Span(lo, hi) || run.lo >= hi
      {
        RunsApart(s, delim, Span(lo, hi), run);
      }
    }
  }

  /** Maximal runs do not overlap. */
  lemma RunsApart(s: seq<byte>, delim: seq<byte>, a: Span, b: Span)
    requires MaximalRun(s, delim, a) && MaximalRun(s, delim, b)
    ensures a == b || a.hi < b.lo || b.hi < a.lo
  {
  }

  /** They come in ascending order, with a delimiter between any two. */
  lemma {:induction false} SpansAscend(s: seq<byte>, delim: seq<byte>, i: nat)
    requires i <= Length(s) && 0 !in delim
    ensures forall k, m | 0 <= k < m < |Spans(s, delim, i)| :: Spans(s, delim, i)[k].hi < Spans(s, delim, i)[m].lo
    decreases |s| - i
  {
    var lo := SkipOver(s, delim, i);
    assert lo <= Length(s);
    if lo < Length(s) {
      var hi := TokenEnd(s, delim, lo);
      assert hi <= Length(s);
      SpansAscend(s, delim, hi);
      FirstSpanLater(s, delim, hi);
    }
  }

  lemma FirstSpanLater(s: seq<byte>, delim: seq<byte>, i: nat)
    requires i <= Length(s) && 0 !in delim && (i == |s| || s[i] == 0 || s[i] in delim)
    ensures forall k | 0 <= k < |Spans(s, delim, i)| :: Spans(s, delim, i)[k].lo > i
  {
    if i < Length(s) {
      SpansAfterDelimiter(s, delim, i);
    }
  }

  lemma SpansAfterDelimiter(s: seq<byte>, delim: seq<byte>, i: nat)
    requires i < Length(s) && 0 !in delim && s[i] in delim
    ensures Spans(s, delim, i) == Spans(s, delim, i + 1)
  {
  }

  /** The state between two calls: the buffer and where the next search starts, or -1. */
  datatype Scan = Scan(text: seq<byte>, lasts: int)

  /** One call, and the position it returns, or -1. */
  function Next(scan: Scan, delim: seq<byte>): (r: (Scan, int))
    requires scan.lasts <= |scan.text| && 0 !in delim
    ensures r.0.lasts <= |r.0.text| == |scan.text|
  {
    var none: int := -1;
    if scan.lasts < 0 then (scan, none)
    else
      var lo := SkipOver(scan.text, delim, scan.lasts);
      if lo == |scan.text| || scan.text[lo] == 0 then (scan.(lasts := -1), none)
      else
        var hi := TokenEnd(scan.text, delim, lo);
        if hi == |scan.text| || scan.text[hi] == 0 then (scan.(lasts := -1), lo as int)
        else (Scan(scan.text[hi := 0], hi + 1), lo as int)
  }

  function Calls(s: seq<byte>, delim: seq<byte>, n: nat): (scan: Scan)
    requires 0 !in delim
    ensures scan.lasts <= |scan.text| == |s|
  {
    if n == 0 then Scan(s, 0) else Next(Calls(s, delim, n - 1), delim).0
  }

  /** The buffer holds this C string at this position. */
  ghost predicate Reads(text: seq<byte>, at: nat, token: seq<byte>) {
    && at + |token| < |text| && 0 !in token
    && text[at..at + |token|] == token && text[at + |token|] == 0
  }

  function TokenAt(s: seq<byte>, span: Span): seq<byte> {
    if span.lo <= span.hi <= |s| then s[span.lo..span.hi] else []
  }

  /** The buffers do not differ from position i on. */
  ghost predicate Agree(s: seq<byte>, s': seq<byte>, i: nat) {
    |s| == |s'| && forall j | i <= j < |s| :: s'[j] == s[j]
  }

  /** What stands between n calls and the next: the bytes ahead are untouched, the rest of the tokens is still to come,
      and each token handed out reads as a C string of its own. */
  ghost predicate Midway(s: seq<byte>, delim: seq<byte>, n: nat, scan: Scan)
    requires 0 !in delim
  {
    var all := Spans(s, delim, 0);
    && |scan.text| == |s| && n <= |all|
    && (scan.lasts < 0 ==> n == |all|)
    && (scan.lasts >= 0 ==>
          && scan.lasts <= Length(s)
          && Spans(s, delim, scan.lasts) == all[n..]
          && Agree(s, scan.text, scan.lasts)
          && (n > 0 ==> all[n - 1].hi < scan.lasts))
    && (forall j | 0 <= j < n :: Reads(scan.text, all[j].lo, TokenAt(s, all[j])))
  }

  /** Only the bytes from i on matter. */
  lemma SkipOverFrame(s: seq<byte>, s': seq<byte>, delim: seq<byte>, i: nat)
    requires i <= |s| && 0 !in delim && Agree(s, s', i)
    ensures SkipOver(s', delim, i) == SkipOver(s, delim, i)
    ensures TokenEnd(s', delim, i) == TokenEnd(s, delim, i)
    decreases |s| - i
  {
    if i < |s| {
      SkipOverFrame(s, s', delim, i + 1);
    }
  }

  /** One call takes one token. */
  lemma MidwayStep(s: seq<byte>, delim: seq<byte>, n: nat, scan: Scan)
    requires 0 !in delim && Length(s) < |s| && scan.lasts <= |scan.text| && Midway(s, delim, n, scan)
    ensures var (scan', tok) := Next(scan, delim);
            var all := Spans(s, delim, 0);
            && tok == (if n < |all| then all[n].lo as int else -1)
            && Midway(s, delim, if n < |all| then n + 1 else n, scan')
            && (n == |all| ==> scan'.text == scan.text)
  {
    hide Reads;
    if scan.lasts >= 0 {
      var lo := SkipOver(s, delim, scan.lasts);
      SkipOverFrame(s, scan.text, delim, scan.lasts);
      assert lo <= Length(s);
      if lo < Length(s) {
        var hi := TokenEnd(s, delim, lo);
        SkipOverFrame(s, scan.text, delim, lo);
        MidwayTake(s, delim, n, scan, lo, hi);
      }
    }
  }

  lemma MidwayTake(s: seq<byte>, delim: seq<byte>, n: nat, scan: Scan, lo: nat, hi: nat)
    requires 0 !in delim && Length(s) < |s| && 0 <= scan.lasts <= |scan.text| && Midway(s, delim, n, scan)
    requires lo == SkipOver(s, delim, scan.lasts) < Length(s) && hi == TokenEnd(s, delim, lo)
    requires lo == SkipOver(scan.text, delim, scan.lasts) && hi == TokenEnd(scan.text, delim, lo)
    ensures n < |Spans(s, delim, 0)| && Spans(s, delim, 0)[n] == Span(lo, hi)
    ensures Next(scan, delim).1 == lo && Midway(s, delim, n + 1, Next(scan, delim).0)
  {
    hide Spans, Reads, Next, SkipOver, TokenEnd, Length, TokenAt;
    var all, scan' := Spans(s, delim, 0), Next(scan, delim).0;
    FirstSpan(s, delim, scan.lasts);
    OneLess(all, n, Span(lo, hi), Spans(s, delim, hi));
    TokenReads(s, scan, delim, lo, hi);
    NextIs(scan, delim, lo, hi);
    SpansBefore(s, delim, n);
    EarlierRead(s, all, n, scan.text, hi);
    if s[hi] != 0 {
      FirstSpanDelimited(s, delim, lo);
    } else {
      NoSpansAtEnd(s, delim, hi);
    }
  }

  lemma FirstSpan(s: seq<byte>, delim: seq<byte>, i: nat)
    requires i <= Length(s) && 0 !in delim && SkipOver(s, delim, i) < Length(s)
    ensures var lo := SkipOver(s, delim, i);
            var hi := TokenEnd(s, delim, lo);
            lo < hi <= Length(s) && Spans(s, delim, i) == [Span(lo, hi)] + Spans(s, delim, hi)
  {
  }

  lemma FirstSpanDelimited(s: seq<byte>, delim: seq<byte>, lo: nat)
    requires lo < Length(s) && 0 !in delim && TokenEnd(s, delim, lo) < |s| && s[TokenEnd(s, delim, lo)] != 0
    ensures var hi := TokenEnd(s, delim, lo);
            hi < Length(s) && Spans(s, delim, hi) == Spans(s, delim, hi + 1)
  {
    var hi := TokenEnd(s, delim, lo);
    assert hi <= Length(s);
    SpansAfterDelimiter(s, delim, hi);
  }

  lemma NoSpansAtEnd(s: seq<byte>, delim: seq<byte>, i: nat)
    requires i <= Length(s) && 0 !in delim && i < |s| && s[i] == 0
    ensures Spans(s, delim, i) == []
  {
  }

  lemma NextIs(scan: Scan, delim: seq<byte>, lo: nat, hi: nat)
    requires 0 !in delim && 0 <= scan.lasts <= |scan.text|
    requires lo == SkipOver(scan.text, delim, scan.lasts) < |scan.text| && scan.text[lo] != 0
    requires hi == TokenEnd(scan.text, delim, lo) < |scan.text|
    ensures Next(scan, delim).1 == lo
    ensures Next(scan, delim).0 == Scan(scan.text[hi := 0], if scan.text[hi] == 0 then -1 else hi + 1)
  {
  }

  lemma OneLess(all: seq<Span>, n: nat, first: Span, rest: seq<Span>)
    requires n <= |all| && all[n..] == [first] + rest
    ensures n < |all| && all[n] == first && all[n + 1..] == rest
  {
    assert all[n..][0] == all[n] && all[n..][1..] == all[n + 1..];
  }

  lemma SpansBefore(s: seq<byte>, delim: seq<byte>, n: nat)
    requires 0 !in delim && n < |Spans(s, delim, 0)|
    ensures var all := Spans(s, delim, 0);
            forall j | 0 <= j < n :: all[j].lo < all[j].hi < all[n].lo && all[j].hi <= |s|
  {
    SpansAscend(s, delim, 0);
  }

  lemma EarlierRead(s: seq<byte>, all: seq<Span>, n: nat, text: seq<byte>, hi: nat)
    requires n < |all| && all[n].lo < hi < |text|
    requires forall j | 0 <= j < n :: all[j].lo < all[j].hi < all[n].lo && all[j].hi <= |s|
    requires forall j | 0 <= j < n :: Reads(text, all[j].lo, TokenAt(s, all[j]))
    ensures forall j | 0 <= j < n :: Reads(text[hi := 0], all[j].lo, TokenAt(s, all[j]))
  {
    hide Reads;
    forall j | 0 <= j < n
      ensures Reads(text[hi := 0], all[j].lo, TokenAt(s, all[j]))
    {
      StillReads(text, all[j].lo, TokenAt(s, all[j]), hi);
    }
  }

  lemma StillReads(text: seq<byte>, at: nat, token: seq<byte>, hi: nat)
    requires Reads(text, at, token) && at + |token| < hi < |text|
    ensures Reads(text[hi := 0], at, token)
  {
  }

  lemma TokenReads(s: seq<byte>, scan: Scan, delim: seq<byte>, lo: nat, hi: nat)
    requires 0 !in delim && Length(s) < |s| == |scan.text| && 0 <= scan.lasts <= lo < hi <= Length(s)
    requires Agree(s, scan.text, scan.lasts)
    requires hi == TokenEnd(s, delim, lo)
    ensures Reads(scan.text[hi := 0], lo, TokenAt(s, Span(lo, hi)))
  {
    assert scan.text[hi := 0][lo..hi] == s[lo..hi];
  }

  lemma {:induction false} MidwayAfter(s: seq<byte>, delim: seq<byte>, n: nat)
    requires 0 !in delim && Length(s) < |s|
    ensures Midway(s, delim, if n < |Spans(s, delim, 0)| then n else |Spans(s, delim, 0)|, Calls(s, delim, n))
  {
    hide Spans, Next, Reads;
    var all := Spans(s, delim, 0);
    if n == 0 {
      assert all[0..] == all;
    } else {
      hide Midway;
      MidwayAfter(s, delim, n - 1);
      MidwayStep(s, delim, if n - 1 < |all| then n - 1 else |all|, Calls(s, delim, n - 1));
    }
  }

  /** Repeated calls on one buffer hand out its tokens in order and then nothing, although each call overwrites the
      delimiter after its token; and every token handed out stays readable as a C string. */
  lemma RepeatedCalls(s: seq<byte>, delim: seq<byte>, n: nat)
    requires 0 !in delim && Length(s) < |s|
    ensures Next(Calls(s, delim, n), delim).1
            == if n < |Spans(s, delim, 0)| then Spans(s, delim, 0)[n].lo as int else -1
    ensures forall j | 0 <= j < n && j < |Spans(s, delim, 0)| ::
              Reads(Calls(s, delim, n).text, Spans(s, delim, 0)[j].lo, TokenAt(s, Spans(s, delim, 0)[j]))
  {
    hide Spans, Next, Reads;
    var all := Spans(s, delim, 0);
    MidwayAfter(s, delim, n);
    MidwayStep(s, delim, if n < |all| then n else |all|, Calls(s, delim, n));
  }

  /** One call that takes a token writes one zero, behind that token. */
  lemma NextText(s: seq<byte>, delim: seq<byte>, n: nat, scan: Scan)
    requires 0 !in delim && Length(s) < |s| && scan.lasts <= |scan.text| && Midway(s, delim, n, scan)
    requires n < |Spans(s, delim, 0)|
    ensures Next(scan, delim).0.text == scan.text[Spans(s, delim, 0)[n].hi := 0]
  {
    hide Reads, Next, TokenAt;
    var all, lo := Spans(s, delim, 0), SkipOver(s, delim, scan.lasts);
    SkipOverFrame(s, scan.text, delim, scan.lasts);
    assert all[n..] != [];
    assert lo < Length(s);
    var hi := TokenEnd(s, delim, lo);
    SkipOverFrame(s, scan.text, delim, lo);
    FirstSpan(s, delim, scan.lasts);
    OneLess(all, n, Span(lo, hi), Spans(s, delim, hi));
    NextIs(scan, delim, lo, hi);
  }

  /** Position k is where one of the first n tokens ends. */
  ghost predicate EndsAt(all: seq<Span>, n: nat, k: int) {
    exists j: nat :: j < n && j < |all| && all[j].hi == k
  }

  /** The string with a zero behind each of the first n tokens, and no other byte changed. */
  ghost predicate Zeroed(s: seq<byte>, all: seq<Span>, n: nat, text: seq<byte>) {
    |text| == |s| && forall k | 0 <= k < |s| :: text[k] == if EndsAt(all, n, k) then 0 else s[k]
  }

  lemma EndsNext(all: seq<Span>, n: nat, k: int)
    ensures EndsAt(all, n + 1, k) <==> EndsAt(all, n, k) || (n < |all| && all[n].hi == k)
  {
  }

  lemma ZeroedNext(s: seq<byte>, all: seq<Span>, n: nat, text: seq<byte>, text': seq<byte>)
    requires Zeroed(s, all, n, text)
    requires if n < |all| then all[n].hi < |s| && text' == text[all[n].hi := 0] else text' == text
    ensures Zeroed(s, all, n + 1, text')
  {
    hide EndsAt;
    forall k | 0 <= k < |s|
      ensures text'[k] == if EndsAt(all, n + 1, k) then 0 else s[k]
    {
      EndsNext(all, n, k);
    }
  }

  /** The (n + 1)-th call on one buffer. */
  lemma CallText(s: seq<byte>, delim: seq<byte>, n: nat)
    requires 0 !in delim && Length(s) < |s|
    ensures var all, text := Spans(s, delim, 0), Calls(s, delim, n).text;
            && |text| == |s|
            && if n < |all| then all[n].hi < |s| && Calls(s, delim, n + 1).text == text[all[n].hi := 0]
               else Calls(s, delim, n + 1).text == text
  {
    hide Spans, Next, Midway;
    var all, scan := Spans(s, delim, 0), Calls(s, delim, n);
    MidwayAfter(s, delim, n);
    if n < |all| {
      NextText(s, delim, n, scan);
    } else {
      MidwayStep(s, delim, |all|, scan);
    }
  }

  /** What n calls do to the buffer: a zero is written behind each token handed out, and no other byte changes. */
  lemma {:induction false} CallsText(s: seq<byte>, delim: seq<byte>, n: nat)
    requires 0 !in delim && Length(s) < |s|
    ensures Zeroed(s, Spans(s, delim, 0), n, Calls(s, delim, n).text)
  {
    hide Spans, Next, Zeroed, Length;
    if n == 0 {
      NothingZeroed(s, Spans(s, delim, 0));
    } else {
      hide Calls;
      CallsText(s, delim, n - 1);
      CallText(s, delim, n - 1);
      ZeroedNext(s, Spans(s, delim, 0), n - 1, Calls(s, delim, n - 1).text, Calls(s, delim, n).text);
    }
  }

  lemma NothingZeroed(s: seq<byte>, all: seq<Span>)
    ensures Zeroed(s, all, 0, s)
  {
  }

  lemma {:induction false} SpansCount(s: seq<byte>, delim: seq<byte>, i: nat)
    requires i <= Length(s) && 0 !in delim
    ensures |Spans(s, delim, i)| <= Length(s) - i
    decreases |s| - i
  {
    if SkipOver(s, delim, i) < Length(s) {
      FirstSpan(s, delim, i);
      SpansCount(s, delim, TokenEnd(s, delim, SkipOver(s, delim, i)));
    }
  }

  ghost predicate Terminated(s: seq<byte>, i: int) {
    exists z :: 0 <= z < |s| && i <= z && s[z] == 0
  }

  lemma MidwayTerminated(s: seq<byte>, delim: seq<byte>, n: nat)
    requires 0 !in delim && Length(s) < |s|
    ensures Terminated(Calls(s, delim, n).text, Calls(s, delim, n).lasts)
    ensures Calls(s, delim, n).lasts <= Length(s)
  {
    hide Spans, Next, Reads;
    MidwayAfter(s, delim, n);
    var scan := Calls(s, delim, n);
    if scan.lasts >= 0 {
      assert scan.text[Length(s)] == s[Length(s)] == 0;
    } else {
      NextKeepsTerminated(s, delim, n);
    }
  }

  /** However often it has been called, the buffer still ends where it did. */
  lemma {:induction false} NextKeepsTerminated(s: seq<byte>, delim: seq<byte>, n: nat)
    requires 0 !in delim && Length(s) < |s|
    ensures Calls(s, delim, n).text[Length(s)] == 0
    ensures Calls(s, delim, n).lasts >= -1
  {
    if n > 0 {
      NextKeepsTerminated(s, delim, n - 1);
    }
  }

  function TokensOf(s: seq<byte>, delim: seq<byte>): (tokens: seq<seq<byte>>)
    requires 0 !in delim
    ensures |tokens| == |Spans(s, delim, 0)|
  {
    var all := Spans(s, delim, 0);
    seq(|all|, k requires 0 <= k < |all| => TokenAt(s, all[k]))
  }

  /** The state of a client after n + 1 calls, the last of which returned tok. */
  ghost predicate AfterCall(s: seq<byte>, delim: seq<byte>, n: nat, scan: Scan, tok: int)
    requires 0 !in delim
  {
    && scan == Calls(s, delim, n + 1) && n <= |TokensOf(s, delim)|
    && (tok == -1 <==> n == |TokensOf(s, delim)|)
    && tok == Next(Calls(s, delim, n), delim).1
    && -1 <= scan.lasts <= |scan.text| == |s| && Terminated(scan.text, scan.lasts)
  }

  lemma FirstCall(s: seq<byte>, delim: seq<byte>)
    requires 0 !in delim && Length(s) < |s|
    ensures Terminated(s, 0) && |Scan(s, 0).text| == |s|
    ensures var (scan, tok) := Next(Scan(s, 0), delim); AfterCall(s, delim, 0, scan, tok)
  {
    assert s[Length(s)] == 0;
    RepeatedCalls(s, delim, 0);
    MidwayTerminated(s, delim, 1);
    NextKeepsTerminated(s, delim, 1);
  }

  /** A token that has been handed out can be read, also after the next call. */
  lemma NextCall(s: seq<byte>, delim: seq<byte>, n: nat, scan: Scan, tok: int)
    requires 0 !in delim && Length(s) < |s| && AfterCall(s, delim, n, scan, tok) && tok != -1
    ensures n < |TokensOf(s, delim)| && 0 <= tok < Length(s)
    ensures Reads(scan.text, tok, TokensOf(s, delim)[n])
    ensures var (scan', tok') := Next(scan, delim); AfterCall(s, delim, n + 1, scan', tok')
  {
    hide Spans, Reads, Terminated, TokenAt, Length;
    RepeatedCalls(s, delim, n);
    RepeatedCalls(s, delim, n + 1);
    MidwayTerminated(s, delim, n + 2);
    NextKeepsTerminated(s, delim, n + 2);
  }

  /** The buffer at the end holds every token. */
  lemma AllRead(s: seq<byte>, delim: seq<byte>, n: nat, scan: Scan, tok: int, k: nat)
    requires 0 !in delim && Length(s) < |s| && AfterCall(s, delim, n, scan, tok) && k < n
    ensures k < |Spans(s, delim, 0)| && Reads(scan.text, Spans(s, delim, 0)[k].lo, TokensOf(s, delim)[k])
  {
    hide Spans, Next, Calls, Reads, Terminated, TokenAt;
    RepeatedCalls(s, delim, n + 1);
  }

  /** Where the n-th call found its token. */
  lemma CallFound(s: seq<byte>, delim: seq<byte>, n: nat, scan: Scan, tok: int)
    requires 0 !in delim && Length(s) < |s| && AfterCall(s, delim, n, scan, tok) && tok != -1
    ensures n < |Spans(s, delim, 0)| && tok == Spans(s, delim, 0)[n].lo
  {
    RepeatedCalls(s, delim, n);
  }

  const COMMAND_ROWS := 12
  const ROW_SIZE := 128
  const PATH_SIZE := 256
  const SLASH: byte := 0x2F

  /** As much of a token as fits into a row with its terminator. */
  function Cut(token: seq<byte>): seq<byte> {
    if |token| < ROW_SIZE then token else token[..ROW_SIZE - 1]
  }

  lemma CutReads(text: seq<byte>, at: nat, token: seq<byte>, row: seq<byte>)
    requires Reads(text, at, token) && at + ROW_SIZE - 1 <= |text| && |row| == ROW_SIZE
    requires row[..ROW_SIZE - 1] == text[at..at + ROW_SIZE - 1] && row[ROW_SIZE - 1] == 0
    ensures Reads(row, 0, Cut(token))
  {
    if |token| < ROW_SIZE - 1 {
      assert row[..ROW_SIZE - 1][|token|] == text[at..at + ROW_SIZE - 1][|token|];
      assert row[..ROW_SIZE - 1][..|token|] == text[at..at + |token|];
      assert row[..ROW_SIZE - 1][..|token|] == row[0..0 + |token|];
    } else {
      assert text[at..at + ROW_SIZE - 1] == text[at..at + |token|][..ROW_SIZE - 1];
      assert row[0..0 + (ROW_SIZE - 1)] == row[..ROW_SIZE - 1];
    }
  }

  /** What the parser leaves in row i: 127 bytes from the token on, whatever follows it in the buffer, and a zero. */
  ghost function RowBytes(s: seq<byte>, delim: seq<byte>, i: nat): (row: seq<byte>)
    requires 0 !in delim
    ensures |row| == ROW_SIZE
  {
    var all, text := Spans(s, delim, 0), Calls(s, delim, i + 1).text;
    if i < |all| && i < COMMAND_ROWS && all[i].lo + ROW_SIZE - 1 <= |text|
    then text[all[i].lo..all[i].lo + ROW_SIZE - 1] + [0]
    else Repeat(ROW_SIZE, 0)
  }

  /** Read as a C string, a row is its token, cut to 127 bytes. */
  lemma RowReads(s: seq<byte>, delim: seq<byte>, i: nat)
    requires 0 !in delim && Length(s) < |s| && Length(s) + ROW_SIZE - 2 <= |s|
    ensures Reads(RowBytes(s, delim, i), 0,
                  if i < |TokensOf(s, delim)| && i < COMMAND_ROWS then Cut(TokensOf(s, delim)[i]) else [])
  {
    hide Spans, Calls, Reads, Next, TokenAt, Length;
    CountOfTokens(s, delim);
    if i < |TokensOf(s, delim)| && i < COMMAND_ROWS {
      RepeatedCalls(s, delim, i + 1);
      var text, lo := Calls(s, delim, i + 1).text, Spans(s, delim, 0)[i].lo;
      var row := text[lo..lo + ROW_SIZE - 1] + [0];
      assert row[..ROW_SIZE - 1] == text[lo..lo + ROW_SIZE - 1];
      CutReads(text, lo, TokensOf(s, delim)[i], row);
    } else {
      EmptyReads(RowBytes(s, delim, i));
    }
  }

  /** Byte by byte, a row is the line from its token on, with a zero behind the token. */
  lemma RowExact(s: seq<byte>, delim: seq<byte>, i: nat)
    requires 0 !in delim && Length(s) < |s| && Length(s) + 126 <= |s| && i < |Spans(s, delim, 0)| && i < 12
    ensures var token, row := Spans(s, delim, 0)[i], RowBytes(s, delim, i);
            && token.lo + 127 <= |s| && |row| == 128 && row[127] == 0
            && forall k: nat | k < 127 :: row[k] == if token.lo + k == token.hi then 0 else s[token.lo + k]
  {
    hide Spans, Calls, EndsAt, Length;
    var all := Spans(s, delim, 0);
    CallsText(s, delim, i + 1);
    SpansBefore(s, delim, i);
    var text, lo := Calls(s, delim, i + 1).text, all[i].lo;
    forall k: nat | k < 127
      ensures RowBytes(s, delim, i)[k] == if lo + k == all[i].hi then 0 else s[lo + k]
    {
      assert RowBytes(s, delim, i)[k] == text[lo + k];
      EndsNext(all, i, lo + k);
      NotEarlier(all, i, lo + k);
    }
  }

  lemma NotEarlier(all: seq<Span>, i: nat, k: int)
    requires forall j: nat | j < i && j < |all| :: all[j].hi < k
    ensures !EndsAt(all, i, k)
  {
  }

  lemma EmptyReads(row: seq<byte>)
    requires row != [] && row[0] == 0
    ensures Reads(row, 0, [])
  {
    assert row[0..0] == [];
  }

  lemma CountOfTokens(s: seq<byte>, delim: seq<byte>)
    requires 0 !in delim
    ensures |TokensOf(s, delim)| == |Spans(s, delim, 0)|
  {
  }

  /** The tokens, last one first, each preceded by a slash. */
  function ReverseJoined(tokens: seq<seq<byte>>): seq<byte> {
    if tokens == [] then [] else ReverseJoined(tokens[1..]) + [SLASH] + tokens[0]
  }
}
