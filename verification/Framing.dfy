/** JSON-lines framing over a chunked pipe: the stdout listener of apps/desktop/src/main/sidecar-process.ts and
    its mirror, the stdin listener of packages/cli/src/ipc-server.ts. */
module Framing {
  import opened Text

  /** The complete lines of a stream, without their newlines. */
  function Lines(s: string): seq<string>
    decreases |s|, 1
  {
    if '\n' !in s then [] else LinesAt(s, FirstNewline(s))
  }

  function LinesAt(s: string, i: nat): seq<string>
    requires i < |s|
    decreases |s|, 0
  {
    [s[..i]] + Lines(s[i + 1..])
  }

  /** The text after the last newline. */
  function Rest(s: string): string
    decreases |s|, 1
  {
    if '\n' !in s then s else RestAt(s, FirstNewline(s))
  }

  function RestAt(s: string, i: nat): string
    requires i < |s|
    decreases |s|, 0
  {
    Rest(s[i + 1..])
  }

  function FirstNewline(s: string): (i: nat)
    requires '\n' in s
    ensures i < |s| && s[i] == '\n' && '\n' !in s[..i]
  {
    if s[0] == '\n' then 0
    else
      var i := FirstNewline(s[1..]);
      assert s[..i + 1] == [s[0]] + s[1..][..i];
      i + 1
  }

  /** The messages a list of lines delivers: trimmed, blank ones dropped. */
  function Messages(lines: seq<string>): seq<string> {
    if lines == [] then []
    else (if Trim(lines[0]) == "" then [] else [Trim(lines[0])]) + Messages(lines[1..])
  }

  function Delivered(s: string): seq<string> {
    Messages(Lines(s))
  }

  /** Each line followed by a newline, as `JSON.stringify(m) + '\n'` is written. */
  function Encode(lines: seq<string>): string {
    if lines == [] then "" else lines[0] + "\n" + Encode(lines[1..])
  }

  function Concat(chunks: seq<string>): string {
    if chunks == [] then "" else chunks[0] + Concat(chunks[1..])
  }

  /** Text that survives framing: what a JSON serializer produces. */
  predicate Framable(m: string) {
    m != "" && '\n' !in m && Trim(m) == m
  }

  // ---------------------------------------------------------------- the framing is the unique split at newlines

  lemma FirstNewlineAfter(line: string, t: string)
    requires '\n' !in line
    ensures '\n' in line + "\n" + t && FirstNewline(line + "\n" + t) == |line|
  {
    var s := line + "\n" + t;
    assert s[|line|] == '\n' && s[..|line|] == line;
  }

  /** One line off the front. */
  lemma SplitFirst(line: string, t: string)
    requires '\n' !in line
    ensures Lines(line + "\n" + t) == [line] + Lines(t)
    ensures Rest(line + "\n" + t) == Rest(t)
  {
    var s := line + "\n" + t;
    FirstNewlineAfter(line, t);
    assert s[..|line|] == line && s[|line| + 1..] == t;
  }

  lemma FirstLine(s: string) returns (line: string, t: string)
    requires '\n' in s
    ensures s == line + "\n" + t && '\n' !in line
    ensures Lines(s) == [line] + Lines(t) && Rest(s) == Rest(t)
  {
    var i := FirstNewline(s);
    line, t := s[..i], s[i + 1..];
    assert s == line + "\n" + t;
    SplitFirst(line, t);
  }

  lemma {:induction false} SplitIsUnique(lines: seq<string>, rest: string)
    requires forall l :: l in lines ==> '\n' !in l
    requires '\n' !in rest
    ensures Lines(Encode(lines) + rest) == lines
    ensures Rest(Encode(lines) + rest) == rest
  {
    if lines == [] {
      assert Encode(lines) + rest == rest;
    } else {
      assert Encode(lines) + rest == lines[0] + "\n" + (Encode(lines[1..]) + rest);
      SplitFirst(lines[0], Encode(lines[1..]) + rest);
      SplitIsUnique(lines[1..], rest);
    }
  }

  lemma {:induction false} SplitIsExhaustive(s: string)
    ensures s == Encode(Lines(s)) + Rest(s)
    ensures '\n' !in Rest(s) && forall l :: l in Lines(s) ==> '\n' !in l
    decreases |s|
  {
    if '\n' in s {
      var line, t := FirstLine(s);
      SplitIsExhaustive(t);
      EncodeCons(line, Lines(t));
      assert line + "\n" + t == line + "\n" + Encode(Lines(t)) + Rest(t);
    }
  }

  lemma EncodeCons(line: string, lines: seq<string>)
    ensures Encode([line] + lines) == line + "\n" + Encode(lines)
  {
    assert ([line] + lines)[1..] == lines;
  }

  // ---------------------------------------------------------------- chunking does not matter

  lemma {:induction false} SplitAcross(s: string, t: string)
    ensures Lines(s + t) == Lines(s) + Lines(Rest(s) + t)
    ensures Rest(s + t) == Rest(Rest(s) + t)
    decreases |s|
  {
    if '\n' in s {
      var line, u := FirstLine(s);
      assert s + t == line + "\n" + (u + t);
      SplitFirst(line, u + t);
      SplitAcross(u, t);
    }
  }

  lemma {:induction false} MessagesAppend(a: seq<string>, b: seq<string>)
    ensures Messages(a + b) == Messages(a) + Messages(b)
  {
    if a == [] {
      assert a + b == b;
    } else {
      assert (a + b)[1..] == a[1..] + b;
      MessagesAppend(a[1..], b);
    }
  }

  lemma DeliveredAcross(s: string, t: string)
    ensures Delivered(s + t) == Delivered(s) + Delivered(Rest(s) + t)
    ensures Rest(s + t) == Rest(Rest(s) + t)
  {
    SplitAcross(s, t);
    MessagesAppend(Lines(s), Lines(Rest(s) + t));
  }

  /** What a listener holding `buffer` delivers when the chunks arrive one by one. */
  function Feed(buffer: string, chunks: seq<string>): seq<string>
    decreases |chunks|
  {
    if chunks == [] then []
    else Delivered(buffer + chunks[0]) + Feed(Rest(buffer + chunks[0]), chunks[1..])
  }

  /** What it then still holds. */
  function Held(buffer: string, chunks: seq<string>): string
    decreases |chunks|
  {
    if chunks == [] then buffer else Held(Rest(buffer + chunks[0]), chunks[1..])
  }

  /** Only the concatenated stream matters, not how it was cut into chunks. */
  lemma {:induction false} ChunkingDoesNotMatter(buffer: string, chunks: seq<string>, stream: string)
    requires '\n' !in buffer && stream == buffer + Concat(chunks)
    ensures Feed(buffer, chunks) == Delivered(stream)
    ensures Held(buffer, chunks) == Rest(stream)
    decreases |chunks|
  {
    if chunks == [] {
      assert stream == buffer;
    } else {
      var s, later := buffer + chunks[0], Concat(chunks[1..]);
      assert '\n' !in Rest(s) by { SplitIsExhaustive(s); }
      ChunkingDoesNotMatter(Rest(s), chunks[1..], Rest(s) + later);
      DeliveredAcross(s, later);
      assert stream == s + later;
    }
  }

  // ---------------------------------------------------------------- round trip

  lemma {:induction false} FramableMessagesAreThemselves(ms: seq<string>)
    requires forall m :: m in ms ==> Framable(m)
    ensures Messages(ms) == ms
  {
    if ms != [] {
      FramableMessagesAreThemselves(ms[1..]);
      assert Framable(ms[0]);
    }
  }

  lemma DecodeEncode(ms: seq<string>)
    requires forall m :: m in ms ==> Framable(m)
    ensures Delivered(Encode(ms)) == ms && Rest(Encode(ms)) == ""
  {
    SplitIsUnique(ms, "");
    assert Encode(ms) + "" == Encode(ms);
    FramableMessagesAreThemselves(ms);
  }

  /** However the encoded messages are cut into chunks, exactly those messages arrive and nothing is left over. */
  lemma AnyChunkingDecodes(ms: seq<string>, chunks: seq<string>)
    requires forall m :: m in ms ==> Framable(m)
    requires Concat(chunks) == Encode(ms)
    ensures Feed("", chunks) == ms && Held("", chunks) == ""
  {
    ChunkingDoesNotMatter("", chunks, Encode(ms));
    DecodeEncode(ms);
  }

  /** A stream cut off anywhere has delivered a prefix of the messages, in order. */
  lemma PrefixDeliversPrefix(ms: seq<string>, s: string)
    requires forall m :: m in ms ==> Framable(m)
    requires s <= Encode(ms)
    ensures Delivered(s) <= ms
  {
    var t := Encode(ms)[|s|..];
    assert s + t == Encode(ms);
    DeliveredAcross(s, t);
    DecodeEncode(ms);
  }

  predicate IsPadding(s: string) {
    forall i :: 0 <= i < |s| ==> s[i] in {' ', '\t', '\r'}
  }

  lemma {:induction false} PaddingIsTrimmed(before: string, m: string, after: string)
    requires IsPadding(before) && IsPadding(after) && Framable(m)
    ensures Trim(before + m + after) == m
    decreases |before|
  {
    var s := before + m + after;
    if before == "" {
      assert s == m + after;
      StartIsKept(m, after);
      EndIsTrimmed(m, after);
    } else {
      assert s[1..] == before[1..] + m + after;
      PaddingIsTrimmed(before[1..], m, after);
    }
  }

  lemma StartIsKept(m: string, after: string)
    requires Framable(m)
    ensures !IsSpace(m[0]) && !IsSpace(m[|m| - 1]) && TrimStart(m + after) == m + after
  {
    TrimShortens(m);
    TrimEndShortens(TrimStart(m));
  }

  lemma {:induction false} TrimShortens(s: string)
    ensures |TrimStart(s)| <= |s| && (s != "" && IsSpace(s[0]) ==> |TrimStart(s)| < |s|)
  {
    if s != "" && IsSpace(s[0]) {
      TrimShortens(s[1..]);
    }
  }

  lemma {:induction false} TrimEndShortens(s: string)
    ensures |TrimEnd(s)| <= |s| && (s != "" && IsSpace(s[|s| - 1]) ==> |TrimEnd(s)| < |s|)
  {
    if s != "" && IsSpace(s[|s| - 1]) {
      TrimEndShortens(s[..|s| - 1]);
    }
  }

  lemma {:induction false} EndIsTrimmed(m: string, after: string)
    requires m != "" && !IsSpace(m[|m| - 1]) && IsPadding(after)
    ensures TrimEnd(m + after) == m
    decreases |after|
  {
    if after == "" {
      assert m + after == m;
    } else {
      assert (m + after)[..|m + after| - 1] == m + after[..|after| - 1];
      EndIsTrimmed(m, after[..|after| - 1]);
    }
  }

  lemma {:induction false} PaddingIsBlank(s: string)
    requires IsPadding(s)
    ensures Trim(s) == ""
  {
    if s != "" {
      PaddingIsBlank(s[1..]);
    }
  }

  /** Blanks, tabs and carriage returns around a message are dropped, so that lines may end in either way; a line of
      nothing else delivers nothing. */
  lemma PaddingDoesNotMatter(before: string, m: string, after: string, blank: string)
    requires IsPadding(before) && IsPadding(after) && IsPadding(blank) && Framable(m)
    ensures Delivered(before + m + after + "\n") == [m]
    ensures Delivered(blank + "\n") == []
  {
    var line := before + m + after;
    assert '\n' !in line;
    OneLineDelivers(line);
    PaddingIsTrimmed(before, m, after);
    OneLineDelivers(blank);
    PaddingIsBlank(blank);
  }

  lemma OneLineDelivers(line: string)
    requires '\n' !in line
    ensures Delivered(line + "\n") == if Trim(line) == "" then [] else [Trim(line)]
  {
    assert line + "\n" + "" == line + "\n" && Lines("") == [];
    SplitFirst(line, "");
    assert Lines(line + "\n") == [line];
    assert [line][1..] == [] && Messages([]) == [];
  }

  // ---------------------------------------------------------------- the listener

  /** One iteration of the listener's loop moves one line from the buffer to the messages. */
  lemma LoopStep(s: string, idx: nat, line: string, messages: seq<string>)
    requires '\n' in s && idx == FirstNewline(s) && line == Trim(s[..idx])
    ensures messages + Delivered(s) == (if line == "" then messages else messages + [line]) + Delivered(s[idx + 1..])
    ensures Rest(s) == Rest(s[idx + 1..])
  {
    DeliveredFirst(s, idx);
    var emitted, later := if line == "" then [] else [line], Delivered(s[idx + 1..]);
    assert messages + (emitted + later) == (messages + emitted) + later;
    assert line == "" ==> messages + emitted == messages;
  }

  lemma DeliveredFirst(s: string, idx: nat)
    requires '\n' in s && idx == FirstNewline(s)
    ensures Delivered(s) == (if Trim(s[..idx]) == "" then [] else [Trim(s[..idx])]) + Delivered(s[idx + 1..])
    ensures Rest(s) == Rest(s[idx + 1..])
  {
    var line, t := s[..idx], s[idx + 1..];
    assert s == line + "\n" + t;
    SplitFirst(line, t);
    MessagesAppend([line], Lines(t));
    assert Messages([line]) == if Trim(line) == "" then [] else [Trim(line)];
  }

  method IndexOfNewline(s: string) returns (idx: int)
    ensures idx == -1 <==> '\n' !in s
    ensures idx != -1 ==> '\n' in s && idx == FirstNewline(s)
  {
    idx := 0;
    while idx < |s|
      invariant 0 <= idx <= |s|
      invariant '\n' !in s[..idx]
    {
      if s[idx] == '\n' {
        assert s == s[..idx] + "\n" + s[idx + 1..];
        FirstNewlineAfter(s[..idx], s[idx + 1..]);
        return;
      }
      assert s[..idx + 1] == s[..idx] + [s[idx]];
      idx := idx + 1;
    }
    assert s[..idx] == s;
    idx := -1;
  }

  class LineListener {
    var buffer: string
    /** The lines handed to `onMessage` so far, in order. */
    var messages: seq<string>
    /** Everything that has arrived. */
    ghost var received: string

    ghost predicate Valid()
      reads this
    {
      && buffer == Rest(received)
      && messages == Delivered(received)
    }

    constructor ()
      ensures Valid() && received == "" && messages == []
    {
      buffer, messages, received := "", [], "";
    }

    method OnData(chunk: string)
      requires Valid()
      modifies this
      ensures Valid() && received == old(received) + chunk
      ensures messages == old(messages) + Delivered(old(buffer) + chunk)
      ensures buffer == Rest(old(buffer) + chunk)
    {
      ghost var all := buffer + chunk;
      DeliveredAcross(received, chunk);
      ghost var total := messages + Delivered(all);
      received := received + chunk;
      buffer := buffer + chunk;
      var idx := IndexOfNewline(buffer);
      while idx != -1
        invariant received == old(received) + chunk
        invariant idx == -1 <==> '\n' !in buffer
        invariant idx != -1 ==> idx == FirstNewline(buffer)
        invariant Rest(buffer) == Rest(all)
        invariant messages + Delivered(buffer) == total
        decreases |buffer|
      {
        var line := Trim(buffer[..idx]);
        LoopStep(buffer, idx, line, messages);
        buffer := buffer[idx + 1..];
        if line != "" {
          messages := messages + [line];
        }
        idx := IndexOfNewline(buffer);
      }
    }
  }
}
