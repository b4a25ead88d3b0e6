/** The string routines that share strtok's one static position, and what reversing a path does. */
module StringLibrary {
  import opened Bytes
  import opened CString
  import opened Tokenizer

  ghost function Row(m: array2<byte>, i: nat): seq<byte>
    requires i < m.Length0
    reads m
  {
    seq(m.Length1, j requires 0 <= j < m.Length1 reads m => m[i, j])
  }

  method ReadRow(m: array2<byte>, i: nat) returns (row: seq<byte>)
    requires i < m.Length0
    ensures row == Row(m, i)
  {
    row := seq(m.Length1, j requires 0 <= j < m.Length1 reads m => m[i, j]);
  }

  lemma RowIs(s: seq<byte>, delim: seq<byte>, i: nat)
    requires 0 !in delim && i < |Spans(s, delim, 0)| && i < COMMAND_ROWS
    requires Spans(s, delim, 0)[i].lo + ROW_SIZE - 1 <= |s|
    ensures var lo := Spans(s, delim, 0)[i].lo;
            lo + ROW_SIZE - 1 <= |Calls(s, delim, i + 1).text|
            && RowBytes(s, delim, i) == Calls(s, delim, i + 1).text[lo..lo + ROW_SIZE - 1] + [0]
  {
    hide Spans, Calls;
  }

  lemma NoRow(s: seq<byte>, delim: seq<byte>, i: nat)
    requires 0 !in delim && (i >= |TokensOf(s, delim)| || i >= COMMAND_ROWS)
    ensures RowBytes(s, delim, i) == Repeat(ROW_SIZE, 0)
  {
    hide Spans, Calls;
    CountOfTokens(s, delim);
  }

  /** The position of the first such character in a C string, or -1. */
  method StrchrCustom(str: seq<byte>, character: byte) returns (at: int)
    ensures at == -1 <==> character !in Str(str)
    ensures at != -1 ==> 0 <= at < Length(str) && str[at] == character && character !in str[..at]
  {
    at := 0;
    while at < |str| && str[at] != 0
      invariant 0 <= at <= |str| && forall k | 0 <= k < at :: str[k] != 0 && str[k] != character
    {
      if str[at] == character {
        return;
      }
      at := at + 1;
    }
    LengthUnique(str, at);
    at := -1;
  }

  class Library {
    var text: array?<byte>
    var lasts: int

    ghost predicate Valid()
      reads this, text
    {
      && lasts >= -1 && (text == null ==> lasts == -1)
      && (text != null ==> lasts <= text.Length && (lasts >= 0 ==> Terminated(text[..], lasts)))
    }

    /** The state that a call with this argument starts from: a new buffer, or where the last call stopped. */
    ghost function Start(str: array?<byte>): (scan: Scan)
      requires Valid()
      reads this, text, str
      ensures scan.lasts <= |scan.text|
    {
      if str != null then Scan(str[..], 0) else if text != null then Scan(text[..], lasts) else Scan([], -1)
    }

    ghost function Buffer(str: array?<byte>): set<object>
      reads this
    {
      if str != null then {str} else if text != null then {text} else {}
    }

    constructor ()
      ensures Valid() && text == null
    {
      text, lasts := null, -1;
    }

    method Strtok(str: array?<byte>, delim: seq<byte>) returns (tok: int)
      requires Valid() && 0 !in delim
      requires str != null ==> Terminated(str[..], 0)
      modifies this, Buffer(str)
      ensures text == (if str != null then str else old(text)) && lasts >= -1
      ensures text == null ==> lasts == -1 && tok == -1
      ensures text != null ==> (Scan(text[..], lasts), tok) == Next(old(Start(str)), delim)
    {
      hide SkipOver, TokenEnd;
      if str != null {
        text, lasts := str, 0;
      }
      if lasts < 0 {
        return -1;
      }
      ghost var was := text[..];
      ghost var from := lasts;
      SkipDelimiters(delim);
      if text[lasts] == 0 {
        lasts := -1;
        return -1;
      }
      tok := lasts;
      SkipToken(delim);
      if text[lasts] != 0 {
        text[lasts] := 0;
        lasts := lasts + 1;
      } else {
        lasts := -1;
      }
    }

    method SkipDelimiters(delim: seq<byte>)
      requires text != null && 0 <= lasts <= text.Length && Terminated(text[..], lasts) && 0 !in delim
      modifies this`lasts
      ensures lasts == SkipOver(text[..], delim, old(lasts))
      ensures Terminated(text[..], lasts) && lasts < text.Length
    {
      ghost var z :| 0 <= z < text.Length && lasts <= z && text[z] == 0;
      var at := StrchrCustom(delim, text[lasts]);
      StrIsAll(delim);
      while text[lasts] != 0 && at != -1
        invariant old(lasts) <= lasts <= z
        invariant at != -1 <==> text[lasts] in delim
        invariant SkipOver(text[..], delim, lasts) == SkipOver(text[..], delim, old(lasts))
        decreases z - lasts
      {
        lasts := lasts + 1;
        at := StrchrCustom(delim, text[lasts]);
      }
    }

    method SkipToken(delim: seq<byte>)
      requires text != null && 0 <= lasts < text.Length && Terminated(text[..], lasts) && 0 !in delim
      modifies this`lasts
      ensures lasts == TokenEnd(text[..], delim, old(lasts)) < text.Length
    {
      ghost var z :| 0 <= z < text.Length && lasts <= z && text[z] == 0;
      var at := StrchrCustom(delim, text[lasts]);
      StrIsAll(delim);
      while text[lasts] != 0 && at == -1
        invariant old(lasts) <= lasts <= z
        invariant at != -1 <==> text[lasts] in delim
        invariant TokenEnd(text[..], delim, lasts) == TokenEnd(text[..], delim, old(lasts))
        decreases z - lasts
      {
        lasts := lasts + 1;
        at := StrchrCustom(delim, text[lasts]);
      }
    }

    /** Splits a command line: the first 12 tokens, each cut to 127 bytes, one to a row; the other rows are cleared.
        It makes one call more than it keeps tokens. */
    method Strparse(str: array<byte>, command: array2<byte>, delim: seq<byte>) returns (n: nat)
      requires Valid() && 0 !in delim
      requires command.Length0 == COMMAND_ROWS && command.Length1 == ROW_SIZE
      requires Length(str[..]) < str.Length && Length(str[..]) + ROW_SIZE - 2 <= str.Length
      modifies this, str, command
      ensures var tokens := TokensOf(old(str[..]), delim);
              && n == (if |tokens| < COMMAND_ROWS then |tokens| else COMMAND_ROWS)
              && (forall i | 0 <= i < n :: Reads(Row(command, i), 0, Cut(tokens[i])))
      ensures forall i | 0 <= i < COMMAND_ROWS :: Row(command, i) == RowBytes(old(str[..]), delim, i)
      ensures Valid() && text == str && Scan(str[..], lasts) == Calls(old(str[..]), delim, n + 1)
    {
      hide Spans, TokensOf, Next, Calls, Reads, Cut, Terminated, Length, RowBytes, Row;
      ghost var s := str[..];
      ClearRows(command);
      n := 0;
      FirstCall(s, delim);
      var token := Strtok(str, delim);
      while token != -1 && n < COMMAND_ROWS
        invariant n <= COMMAND_ROWS && text == str && lasts >= -1
        invariant AfterCall(s, delim, n, Scan(str[..], lasts), token)
        invariant forall i | 0 <= i < n :: Row(command, i) == RowBytes(s, delim, i)
        invariant forall i | n <= i < COMMAND_ROWS :: Row(command, i) == Repeat(ROW_SIZE, 0)
        decreases COMMAND_ROWS - n
      {
        NextCall(s, delim, n, Scan(str[..], lasts), token);
        CallFound(s, delim, n, Scan(str[..], lasts), token);
        RowIs(s, delim, n);
        CopyRow(command, n, str, token);
        n := n + 1;
        token := Strtok(null, delim);
      }
      forall i | 0 <= i < COMMAND_ROWS
        ensures Row(command, i) == RowBytes(s, delim, i)
        ensures i < n ==> Reads(Row(command, i), 0, Cut(TokensOf(s, delim)[i]))
      {
        RowReads(s, delim, i);
        if i >= n {
          NoRow(s, delim, i);
        }
      }
    }

    method ClearRows(command: array2<byte>)
      modifies command
      ensures forall i | 0 <= i < command.Length0 :: Row(command, i) == Repeat(command.Length1, 0)
    {
      for i := 0 to command.Length0
        invariant forall k, j | 0 <= k < i && 0 <= j < command.Length1 :: command[k, j] == 0
      {
        for j := 0 to command.Length1
          invariant forall k, m | 0 <= k < i && 0 <= m < command.Length1 :: command[k, m] == 0
          invariant forall m | 0 <= m < j :: command[i, m] == 0
        {
          command[i, j] := 0;
        }
      }
    }

    /** Copies 127 bytes from a token on into a row and ends the row. */
    method CopyRow(command: array2<byte>, i: nat, str: array<byte>, token: nat)
      requires command.Length0 == COMMAND_ROWS && command.Length1 == ROW_SIZE && i < COMMAND_ROWS
      requires token + ROW_SIZE - 1 <= str.Length
      modifies command
      ensures Row(command, i) == str[token..token + ROW_SIZE - 1] + [0]
      ensures forall k | 0 <= k < COMMAND_ROWS && k != i :: Row(command, k) == old(Row(command, k))
    {
      for j := 0 to ROW_SIZE - 1
        invariant forall m | 0 <= m < j :: command[i, m] == str[token + m]
        invariant forall k, m | 0 <= k < COMMAND_ROWS && k != i && 0 <= m < ROW_SIZE ::
                    command[k, m] == old(command[k, m])
      {
        command[i, j] := str[token + j];
      }
      command[i, ROW_SIZE - 1] := 0;
    }

    /** Writes the components of a path in reverse order, each preceded by a slash. */
    method ReversePath(path: array<byte>, reversed: array<byte>)
      requires Valid() && path.Length >= PATH_SIZE && Length(path[..PATH_SIZE]) < PATH_SIZE && path != reversed
      requires |ReverseJoined(TokensOf(path[..PATH_SIZE], [SLASH]))| < reversed.Length
      modifies this, reversed
      ensures Reads(reversed[..], 0, ReverseJoined(TokensOf(path[..PATH_SIZE], [SLASH])))
      ensures var n := |ReverseJoined(TokensOf(path[..PATH_SIZE], [SLASH]))|;
              reversed[n + 1..] == old(reversed[n + 1..])
      ensures Valid() && fresh(text)
    {
      hide Spans, TokensOf, ReverseJoined, Reads, Length;
      ghost var s := path[..PATH_SIZE];
      var temp := new byte[PATH_SIZE](_ => 0);
      Memcpy(temp, 0, path, 0, PATH_SIZE);
      assert temp[..] == s;
      var tokens, count := Collect(temp, s);
      Emit(tokens, count, temp, reversed, s);
    }

    /** The positions of all the components. */
    method Collect(temp: array<byte>, ghost s: seq<byte>) returns (tokens: array<nat>, count: nat)
      requires Valid() && temp[..] == s && |s| == PATH_SIZE && Length(s) < PATH_SIZE
      modifies this, temp
      ensures Valid() && text == temp && fresh(tokens) && tokens.Length == PATH_SIZE
      ensures count == |TokensOf(s, [SLASH])| <= PATH_SIZE
      ensures forall k | 0 <= k < count :: Reads(temp[..], tokens[k], TokensOf(s, [SLASH])[k])
    {
      hide Spans, TokensOf, Next, Calls, Reads, Terminated, Length;
      tokens := new nat[PATH_SIZE](_ => 0);
      count := 0;
      SpansCount(s, [SLASH], 0);
      CountOfTokens(s, [SLASH]);
      FirstCall(s, [SLASH]);
      var token := Strtok(temp, [SLASH]);
      while token != -1
        invariant text == temp && lasts >= -1
        invariant AfterCall(s, [SLASH], count, Scan(temp[..], lasts), token)
        invariant forall k | 0 <= k < count :: tokens[k] == Spans(s, [SLASH], 0)[k].lo
        decreases PATH_SIZE - count
      {
        NextCall(s, [SLASH], count, Scan(temp[..], lasts), token);
        CallFound(s, [SLASH], count, Scan(temp[..], lasts), token);
        tokens[count] := token;
        count := count + 1;
        token := Strtok(null, [SLASH]);
      }
      forall k | 0 <= k < count
        ensures Reads(temp[..], tokens[k], TokensOf(s, [SLASH])[k])
      {
        AllRead(s, [SLASH], count, Scan(temp[..], lasts), token, k);
      }
    }

    /** Lays the components down from the last to the first. */
    method Emit(tokens: array<nat>, count: nat, temp: array<byte>, reversed: array<byte>, ghost s: seq<byte>)
      requires count == |TokensOf(s, [SLASH])| <= tokens.Length && temp != reversed
      requires forall k | 0 <= k < count :: Reads(temp[..], tokens[k], TokensOf(s, [SLASH])[k])
      requires |ReverseJoined(TokensOf(s, [SLASH]))| < reversed.Length
      modifies reversed
      ensures Reads(reversed[..], 0, ReverseJoined(TokensOf(s, [SLASH])))
      ensures var n := |ReverseJoined(TokensOf(s, [SLASH]))|; reversed[n + 1..] == old(reversed[n + 1..])
    {
      hide TokensOf, ReverseJoined, Reads, Length;
      ghost var all := TokensOf(s, [SLASH]);
      var pos, i := 0, count;
      NothingJoined(all);
      while i > 0
        invariant 0 <= i <= count && pos == |ReverseJoined(all[i..])| <= |ReverseJoined(all)|
        invariant reversed[..pos] == ReverseJoined(all[i..])
        invariant reversed[|ReverseJoined(all)| + 1..] == old(reversed[|ReverseJoined(all)| + 1..])
      {
        i := i - 1;
        JoinedGrows(all, i);
        pos := EmitOne(temp, tokens[i], all[i], reversed, pos);
      }
      assert all[0..] == all;
      reversed[pos] := 0;
      JoinedHasNoZero(s, all, 0);
      PrefixReads(reversed[..], ReverseJoined(all));
    }

    method EmitOne(temp: array<byte>, token: nat, ghost bytes: seq<byte>, reversed: array<byte>, pos: nat)
      returns (end: nat)
      requires temp != reversed && Reads(temp[..], token, bytes) && pos + 1 + |bytes| <= reversed.Length
      modifies reversed
      ensures end == pos + 1 + |bytes| && reversed[..end] == old(reversed[..pos]) + [SLASH] + bytes
      ensures reversed[pos + 1 + |bytes|..] == old(reversed[pos + 1 + |bytes|..])
    {
      reversed[pos] := SLASH;
      var len := Strlen(temp[token..]);
      ReadsLength(temp[..], token, bytes);
      assert temp[..][token..] == temp[token..];
      assert temp[token..token + len] == bytes;
      Memcpy(reversed, pos + 1, temp, token, len);
      end := pos + 1 + len;
    }
  }

  lemma NothingJoined(all: seq<seq<byte>>)
    ensures all[|all|..] == [] && ReverseJoined(all[|all|..]) == []
  {
  }

  lemma PrefixReads(text: seq<byte>, token: seq<byte>)
    requires |token| < |text| && text[..|token|] == token && text[|token|] == 0 && 0 !in token
    ensures Reads(text, 0, token)
  {
    assert text[0..0 + |token|] == text[..|token|];
  }

  /** A delimiter list without a zero byte is one whole C string. */
  lemma StrIsAll(delim: seq<byte>)
    requires 0 !in delim
    ensures Str(delim) == delim
  {
  }

  lemma ReadsLength(text: seq<byte>, at: nat, token: seq<byte>)
    requires Reads(text, at, token)
    ensures Length(text[at..]) == |token| && text[at..at + |token|] == token
  {
    assert text[at..][..|token|] == token;
    forall k | 0 <= k < |token|
      ensures text[at..][k] != 0
    {
      assert text[at..][k] == text[at..][..|token|][k];
    }
    LengthUnique(text[at..], |token|);
  }

  lemma {:induction false} JoinedGrows(all: seq<seq<byte>>, i: nat)
    requires i < |all|
    ensures ReverseJoined(all[i..]) == ReverseJoined(all[i + 1..]) + [SLASH] + all[i]
    ensures |ReverseJoined(all[i..])| <= |ReverseJoined(all)|
    decreases i
  {
    assert all[i..][0] == all[i] && all[i..][1..] == all[i + 1..];
    if i > 0 {
      JoinedGrows(all, i - 1);
    } else {
      assert all[0..] == all;
    }
  }

  lemma {:induction false} JoinedHasNoZero(s: seq<byte>, all: seq<seq<byte>>, i: nat)
    requires i <= |all| && all == TokensOf(s, [SLASH])
    ensures 0 !in ReverseJoined(all[i..])
    decreases |all| - i
  {
    if i < |all| {
      JoinedHasNoZero(s, all, i + 1);
      assert all[i..][1..] == all[i + 1..];
      TokensAreProper(s, i);
    }
  }

  /** A path component: not empty, without a slash and without a zero byte. */
  predicate Component(token: seq<byte>) {
    token != [] && 0 !in token && SLASH !in token
  }

  lemma {:induction false} SpanBytes(s: seq<byte>, delim: seq<byte>, i: nat, k: nat)
    requires i <= Length(s) && 0 !in delim && k < |Spans(s, delim, i)|
    ensures forall c | c in TokenAt(s, Spans(s, delim, i)[k]) :: c != 0 && c !in delim
    decreases |s| - i
  {
    if SkipOver(s, delim, i) < Length(s) {
      FirstSpan(s, delim, i);
      if k > 0 {
        SpanBytes(s, delim, TokenEnd(s, delim, SkipOver(s, delim, i)), k - 1);
      }
    }
  }

  lemma TokensAreProper(s: seq<byte>, k: nat)
    requires k < |TokensOf(s, [SLASH])|
    ensures Component(TokensOf(s, [SLASH])[k])
  {
    SpanBytes(s, [SLASH], 0, k);
  }

  // ---------- what reversing a path means ----------

  function Reversed<T>(s: seq<T>): (r: seq<T>)
    ensures |r| == |s|
  {
    if s == [] then [] else Reversed(s[1..]) + [s[0]]
  }

  function Joined(tokens: seq<seq<byte>>): seq<byte> {
    if tokens == [] then [] else [SLASH] + tokens[0] + Joined(tokens[1..])
  }

  lemma {:induction false} ReversedAt<T>(s: seq<T>, k: nat)
    requires k < |s|
    ensures Reversed(s)[k] == s[|s| - 1 - k]
  {
    if k < |s| - 1 {
      ReversedAt(s[1..], k);
    }
  }

  lemma ReversedTwice<T>(s: seq<T>)
    ensures Reversed(Reversed(s)) == s
  {
    forall k | 0 <= k < |s|
      ensures Reversed(Reversed(s))[k] == s[k]
    {
      ReversedAt(Reversed(s), k);
      ReversedAt(s, |s| - 1 - k);
    }
  }

  lemma {:induction false} JoinedOne(a: seq<seq<byte>>, token: seq<byte>)
    ensures Joined(a + [token]) == Joined(a) + [SLASH] + token
  {
    if a == [] {
      assert a + [token] == [token];
      assert Joined([token][1..]) == [];
    } else {
      assert (a + [token])[1..] == a[1..] + [token];
      JoinedOne(a[1..], token);
    }
  }

  lemma {:induction false} ReverseJoinedIs(tokens: seq<seq<byte>>)
    ensures ReverseJoined(tokens) == Joined(Reversed(tokens))
  {
    if tokens != [] {
      ReverseJoinedIs(tokens[1..]);
      JoinedOne(Reversed(tokens[1..]), tokens[0]);
    }
  }

  ghost function TokensFrom(s: seq<byte>, i: nat): seq<seq<byte>>
    requires i <= Length(s)
  {
    var all := Spans(s, [SLASH], i);
    seq(|all|, k requires 0 <= k < |all| => TokenAt(s, all[k]))
  }

  /** A slash, and after it a span of other bytes. */
  lemma SpanAfterSlash(s: seq<byte>, i: nat, hi: nat)
    requires i <= Length(s) && i + 1 < hi < |s| && s[i] == SLASH
    requires forall j | i + 1 <= j < hi :: s[j] != 0 && s[j] != SLASH
    requires s[hi] == 0 || s[hi] == SLASH
    ensures hi <= Length(s)
    ensures TokensFrom(s, i) == [TokenAt(s, Span(i + 1, hi))] + TokensFrom(s, hi)
  {
    hide Spans, Length, TokensFrom, TokenAt;
    SpanFound(s, i, hi);
    FirstToken(s, i, Span(i + 1, hi));
  }

  lemma SpanFound(s: seq<byte>, i: nat, hi: nat)
    requires i <= Length(s) && i + 1 < hi < |s| && s[i] == SLASH
    requires forall j | i + 1 <= j < hi :: s[j] != 0 && s[j] != SLASH
    requires s[hi] == 0 || s[hi] == SLASH
    ensures hi <= Length(s) && Spans(s, [SLASH], i) == [Span(i + 1, hi)] + Spans(s, [SLASH], hi)
  {
    hide Spans, SkipOver, TokenEnd, Length;
    WithinString(s, i, hi);
    OneSkipped(s, i);
    EndFound(s, i + 1, hi);
    FirstSpan(s, [SLASH], i);
  }

  lemma FirstToken(s: seq<byte>, i: nat, span: Span)
    requires i <= Length(s) && span.lo <= span.hi <= Length(s)
    requires Spans(s, [SLASH], i) == [span] + Spans(s, [SLASH], span.hi)
    ensures TokensFrom(s, i) == [TokenAt(s, span)] + TokensFrom(s, span.hi)
  {
    hide Spans, Length;
  }

  lemma ComponentBytes(s: seq<byte>, lo: nat, token: seq<byte>)
    requires Component(token) && lo + |token| <= |s| && s[lo..lo + |token|] == token
    ensures |token| > 0 && forall j | lo <= j < lo + |token| :: s[j] != 0 && s[j] != SLASH
  {
    forall j | lo <= j < lo + |token|
      ensures s[j] in token
    {
      assert s[lo..lo + |token|][j - lo] == s[j];
    }
  }

  lemma WithinString(s: seq<byte>, i: nat, hi: nat)
    requires i <= Length(s) && i <= hi < |s| && forall j | i <= j < hi :: s[j] != 0
    ensures hi <= Length(s)
  {
  }

  lemma OneSkipped(s: seq<byte>, i: nat)
    requires i + 1 < |s| && s[i] == SLASH && s[i + 1] != SLASH
    ensures SkipOver(s, [SLASH], i) == i + 1
  {
  }

  lemma EndFound(s: seq<byte>, lo: nat, hi: nat)
    requires lo <= hi < |s| && forall j | lo <= j < hi :: s[j] != 0 && s[j] != SLASH
    requires s[hi] == 0 || s[hi] == SLASH
    ensures TokenEnd(s, [SLASH], lo) == hi
  {
  }

  /** A path that is put together from components splits into them again. */
  lemma {:induction false} JoinedSplits(s: seq<byte>, i: nat, tokens: seq<seq<byte>>)
    requires i <= Length(s) && Reads(s, i, Joined(tokens)) && forall t | t in tokens :: Component(t)
    ensures TokensFrom(s, i) == tokens
    decreases |tokens|
  {
    hide Length, Spans, Component;
    if tokens == [] {
      NoSpansAtEnd(s, [SLASH], i);
    } else {
      var token, rest := tokens[0], Joined(tokens[1..]);
      var next := i + 1 + |token|;
      assert tokens[0] in tokens && forall t | t in tokens[1..] :: t in tokens;
      ReadsParts(s, i, token, rest);
      assert rest != [] ==> rest[0] == SLASH;
      ComponentBytes(s, i + 1, token);
      SpanAfterSlash(s, i, next);
      JoinedSplits(s, next, tokens[1..]);
    }
  }

  lemma SliceOfSlice(s: seq<byte>, i: nat, n: nat, a: nat, b: nat)
    requires i + n <= |s| && a <= b <= n
    ensures s[i..i + n][a..b] == s[i + a..i + b]
  {
    var inner, outer := s[i..i + n][a..b], s[i + a..i + b];
    assert |inner| == |outer| && forall k | 0 <= k < b - a :: inner[k] == outer[k];
  }

  lemma ReadsParts(s: seq<byte>, i: nat, token: seq<byte>, rest: seq<byte>)
    requires Reads(s, i, [SLASH] + token + rest)
    ensures s[i] == SLASH && s[i + 1..i + 1 + |token|] == token && Reads(s, i + 1 + |token|, rest)
    ensures s[i + 1 + |token|] == if rest == [] then 0 else rest[0]
  {
    var all, next := [SLASH] + token + rest, i + 1 + |token|;
    var here := s[i..i + |all|];
    assert here[0] == s[i];
    assert all[1..1 + |token|] == token && all[1 + |token|..] == rest;
    SliceOfSlice(s, i, |all|, 1, 1 + |token|);
    SliceOfSlice(s, i, |all|, 1 + |token|, |all|);
    if rest != [] {
      assert s[next..next + |rest|][0] == s[next];
    }
  }

  /** Reversing a path: the components of the result are those of the path, last one first. */
  lemma ReversedPath(path: seq<byte>, reversed: seq<byte>)
    requires Reads(reversed, 0, ReverseJoined(TokensOf(path, [SLASH])))
    ensures TokensOf(reversed, [SLASH]) == Reversed(TokensOf(path, [SLASH]))
  {
    var tokens := TokensOf(path, [SLASH]);
    ReverseJoinedIs(tokens);
    forall t | t in Reversed(tokens)
      ensures Component(t)
    {
      var k :| 0 <= k < |tokens| && Reversed(tokens)[k] == t;
      ReversedAt(tokens, k);
      TokensAreProper(path, |tokens| - 1 - k);
    }
    JoinedSplits(reversed, 0, Reversed(tokens));
  }

  /** Reversing twice gives the list of components back. */
  lemma ReversedPathTwice(path: seq<byte>, once: seq<byte>, twice: seq<byte>)
    requires Reads(once, 0, ReverseJoined(TokensOf(path, [SLASH])))
    requires Reads(twice, 0, ReverseJoined(TokensOf(once, [SLASH])))
    ensures TokensOf(twice, [SLASH]) == TokensOf(path, [SLASH])
  {
    ReversedPath(path, once);
    ReversedPath(once, twice);
    ReversedTwice(TokensOf(path, [SLASH]));
  }
}
