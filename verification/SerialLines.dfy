/** The serial line splitter (components/interface/include/interface/serial.hpp).

    A fixed buffer with two cursors takes a byte stream in arbitrary chunks and hands out
    one line per call.  It refines a plain split of the stream at its newlines. */
module SerialLines {
  import opened Options

  const MAX_CMD_SIZE: nat := 256

  // ---- The plain split -----------------------------------------------------

  function FirstNewline(s: string): (i: nat)
    requires '\n' in s
    ensures i < |s| && s[i] == '\n' && '\n' !in s[..i]
  {
    if s[0] == '\n' then 0 else 1 + FirstNewline(s[1..])
  }

  /** The lines that a newline ends. */
  function Lines(s: string): (lines: seq<string>)
    ensures forall l :: l in lines ==> '\n' !in l
    decreases |s|
  {
    if '\n' !in s then [] else [s[..FirstNewline(s)]] + Lines(s[FirstNewline(s) + 1..])
  }

  /** What follows the last newline. */
  function Tail(s: string): (tail: string)
    ensures '\n' !in tail
    decreases |s|
  {
    if '\n' !in s then s else Tail(s[FirstNewline(s) + 1..])
  }

  function Join(lines: seq<string>, tail: string): string {
    if lines == [] then tail else lines[0] + "\n" + Join(lines[1..], tail)
  }

  lemma SplitStep(s: string)
    requires '\n' in s
    ensures var i := FirstNewline(s); Lines(s) == [s[..i]] + Lines(s[i + 1..]) && Tail(s) == Tail(s[i + 1..])
  {
    hide FirstNewline;
    var i := FirstNewline(s);
    var rest := s[i + 1..];
    assert Lines(s) == [s[..i]] + Lines(rest) by {
      hide Tail;
    }
    assert Tail(s) == Tail(rest) by {
      hide Lines;
    }
  }

  lemma NoSplit(s: string)
    requires '\n' !in s
    ensures Lines(s) == [] && Tail(s) == s
  {
  }

  lemma NoJoin(tail: string)
    ensures Join([], tail) == tail
  {
  }

  lemma JoinFirst(line: string, lines: seq<string>, tail: string)
    ensures Join([line] + lines, tail) == line + "\n" + Join(lines, tail)
  {
    assert ([line] + lines)[1..] == lines;
  }

  lemma {:induction false} SplitLosesNothing(s: string)
    ensures Join(Lines(s), Tail(s)) == s
    decreases |s|
  {
    hide Join, Lines, Tail, FirstNewline;
    if '\n' !in s {
      NoSplit(s);
      NoJoin(s);
    } else {
      var i := FirstNewline(s);
      SplitStep(s);
      SplitLosesNothing(s[i + 1..]);
      JoinFirst(s[..i], Lines(s[i + 1..]), Tail(s[i + 1..]));
      assert s == s[..i] + "\n" + s[i + 1..];
    }
  }

  function NonEmpty(lines: seq<string>): (r: seq<string>)
    ensures "" !in r && ("" !in lines ==> r == lines)
  {
    if lines == [] then []
    else if lines[0] == "" then NonEmpty(lines[1..])
    else [lines[0]] + NonEmpty(lines[1..])
  }

  function StripCr(s: string): (r: string)
    ensures '\r' !in r && ('\r' !in s ==> r == s)
  {
    if s == "" then "" else if s[0] == '\r' then StripCr(s[1..]) else [s[0]] + StripCr(s[1..])
  }

  lemma {:induction false} NonEmptyConcat(a: seq<string>, b: seq<string>)
    ensures NonEmpty(a + b) == NonEmpty(a) + NonEmpty(b)
  {
    if a == [] {
      assert a + b == b;
    } else {
      assert (a + b)[1..] == a[1..] + b;
      NonEmptyConcat(a[1..], b);
    }
  }

  lemma {:induction false} StripCrConcat(a: string, b: string)
    ensures StripCr(a + b) == StripCr(a) + StripCr(b)
  {
    if a == "" {
      assert a + b == b;
    } else {
      assert (a + b)[1..] == a[1..] + b;
      StripCrConcat(a[1..], b);
    }
  }

  lemma FirstNewlineIs(s: string, i: nat)
    requires i < |s| && s[i] == '\n' && '\n' !in s[..i]
    ensures FirstNewline(s) == i
  {
    assert forall k :: 0 <= k < i ==> s[..i][k] == s[k];
    assert forall k :: 0 <= k < FirstNewline(s) ==> s[..FirstNewline(s)][k] == s[k];
  }

  lemma {:induction false} SplitConcat(a: string, b: string)
    ensures Lines(a + b) == Lines(a) + Lines(Tail(a) + b)
    ensures Tail(a + b) == Tail(Tail(a) + b)
    decreases |a|
  {
    hide Lines, Tail, FirstNewline;
    if '\n' !in a {
      NoSplit(a);
    } else {
      var i := FirstNewline(a);
      SplitStep(a);
      assert (a + b)[i] == '\n';
      SplitStep(a + b);
      assert (a + b)[..i] == a[..i] && (a + b)[i + 1..] == a[i + 1..] + b;
      FirstNewlineIs(a + b, i);
      SplitConcat(a[i + 1..], b);
    }
  }

  lemma NewlineFirst(s: string)
    ensures NonEmpty(Lines("\n" + s)) == NonEmpty(Lines(s)) && Tail("\n" + s) == Tail(s)
  {
    FirstNewlineIs("\n" + s, 0);
    assert ("\n" + s)[1..] == s && ("\n" + s)[..0] == "";
  }

  // ---- The buffer ------------------------------------------------------------

  /** The pending characters after a chunk, with the limit as the code applies it: a
      character that finds the buffer full empties it and drops the rest of the chunk. */
  function Append(pending: string, data: string): string
    decreases |data|
  {
    if data == "" then pending
    else if data[0] == '\r' || (data[0] == '\n' && pending == "") then Append(pending, data[1..])
    else if data[0] != '\n' && |pending| >= MAX_CMD_SIZE then ""
    else Append(pending + [data[0]], data[1..])
  }

  /** A newline finds the buffer full: the one store the code does not guard. */
  predicate NewlineOverflows(pending: string, data: string)
    decreases |data|
  {
    if data == "" then false
    else if data[0] == '\r' || (data[0] == '\n' && pending == "") then NewlineOverflows(pending, data[1..])
    else if |pending| >= MAX_CMD_SIZE then data[0] == '\n'
    else NewlineOverflows(pending + [data[0]], data[1..])
  }

  /** The same without any limit. */
  function AppendFree(pending: string, data: string): string
    decreases |data|
  {
    if data == "" then pending
    else if data[0] == '\r' || (data[0] == '\n' && pending == "") then AppendFree(pending, data[1..])
    else AppendFree(pending + [data[0]], data[1..])
  }

  predicate Fits(pending: string, data: string) {
    |AppendFree(pending, data)| <= MAX_CMD_SIZE
  }

  function TakeLine(pending: string): (Option<string>, string) {
    if '\n' in pending then (Some(pending[..FirstNewline(pending)]), pending[FirstNewline(pending) + 1..])
    else (None, pending)
  }

  class SerialReader {
    const lineBuf: array<char>
    var linePos: nat
    var readPos: nat

    ghost predicate Valid()
      reads this
    {
      lineBuf.Length == MAX_CMD_SIZE && readPos <= linePos <= MAX_CMD_SIZE
    }

    ghost function Pending(): (s: string)
      requires Valid()
      reads this, lineBuf
      ensures |s| <= MAX_CMD_SIZE
    {
      lineBuf[readPos..linePos]
    }

    constructor ()
      ensures Valid() && fresh(lineBuf) && Pending() == ""
    {
      lineBuf := new char[MAX_CMD_SIZE];
      linePos, readPos := 0, 0;
    }

    method SplitBuffer(data: string) returns (line: Option<string>)
      requires Valid() && !NewlineOverflows(Pending(), data)
      modifies this, lineBuf
      ensures Valid()
      ensures (line, Pending()) == TakeLine(Append(old(Pending()), data))
    {
      Compact();
      AppendAll(data);
      line := None;
      var i := readPos;
      while i < linePos
        invariant readPos <= i <= linePos && '\n' !in lineBuf[readPos..i]
      {
        if lineBuf[i] == '\n' {
          ghost var appended := Pending();
          assert appended[..i - readPos] == lineBuf[readPos..i];
          FirstNewlineIs(appended, i - readPos);
          line := Some(lineBuf[readPos..i]);
          readPos := i + 1;
          return;
        }
        i := i + 1;
      }
    }

    method Compact()
      requires Valid()
      modifies this, lineBuf
      ensures Valid() && readPos == 0 && Pending() == old(Pending())
    {
      if readPos > 0 {
        if readPos < linePos {
          var remaining := linePos - readPos;
          forall i | 0 <= i < remaining {
            lineBuf[i] := lineBuf[readPos + i];
          }
          linePos := remaining;
        } else {
          linePos := 0;
        }
        readPos := 0;
      }
    }

    method AppendAll(data: string)
      requires Valid() && readPos == 0 && !NewlineOverflows(Pending(), data)
      modifies this`linePos, lineBuf
      ensures Valid() && Pending() == Append(old(Pending()), data)
    {
      ghost var before := Pending();
      var i := 0;
      while i < |data|
        invariant i <= |data| && Valid()
        invariant Append(before, data) == Append(Pending(), data[i..])
        invariant !NewlineOverflows(Pending(), data[i..])
      {
        var c := data[i];
        i := i + 1;
        assert data[i - 1..][1..] == data[i..];
        if c == '\r' {
          continue;
        }
        if c == '\n' {
          if linePos == readPos {
            continue;
          }
          PushChar('\n');
          continue;
        }
        if linePos >= MAX_CMD_SIZE {
          linePos := 0;
          break;
        }
        PushChar(c);
      }
    }

    method PushChar(c: char)
      requires Valid() && readPos == 0 && linePos < MAX_CMD_SIZE
      modifies this`linePos, lineBuf
      ensures Valid() && Pending() == old(Pending()) + [c]
    {
      lineBuf[linePos] := c;
      linePos := linePos + 1;
    }
  }

  // ---- What fits, and what does not ----------------------------------------

  lemma {:induction false} AppendFreeGrows(pending: string, data: string)
    ensures |AppendFree(pending, data)| >= |pending|
    decreases |data|
  {
    if data == "" {
    } else if data[0] == '\r' || (data[0] == '\n' && pending == "") {
      AppendFreeGrows(pending, data[1..]);
    } else {
      AppendFreeGrows(pending + [data[0]], data[1..]);
    }
  }

  /** A chunk is kept whole exactly when it fits; otherwise the buffer is emptied, or a
      newline is stored past its end. */
  lemma {:induction false} KeptExactlyWhenItFits(pending: string, data: string)
    requires |pending| <= MAX_CMD_SIZE
    ensures Fits(pending, data)
       <==> !NewlineOverflows(pending, data) && Append(pending, data) == AppendFree(pending, data)
    ensures !Fits(pending, data) && !NewlineOverflows(pending, data) ==> Append(pending, data) == ""
    decreases |data|
  {
    if data == "" {
    } else if data[0] == '\r' || (data[0] == '\n' && pending == "") {
      KeptExactlyWhenItFits(pending, data[1..]);
    } else {
      AppendFreeGrows(pending + [data[0]], data[1..]);
      if |pending| < MAX_CMD_SIZE {
        KeptExactlyWhenItFits(pending + [data[0]], data[1..]);
      }
    }
  }

  /** Any line that fills the buffer exactly is such an input: its newline has no room. */
  lemma {:induction false} FullLineOverflows(pending: string, line: string)
    requires |pending| + |line| == MAX_CMD_SIZE && '\n' !in line && '\r' !in line
    ensures NewlineOverflows(pending, line + "\n")
    decreases |line|
  {
    if line == "" {
      assert line + "\n" == "\n";
    } else {
      assert (line + "\n")[1..] == line[1..] + "\n";
      FullLineOverflows(pending + [line[0]], line[1..]);
    }
  }

  // ---- Runs ------------------------------------------------------------------

  datatype Progress = Progress(lines: seq<string>, pending: string)

  function After(chunks: seq<string>): Progress {
    if chunks == [] then Progress([], "")
    else
      var before := After(chunks[..|chunks| - 1]);
      var (line, pending) := TakeLine(Append(before.pending, chunks[|chunks| - 1]));
      Progress(before.lines + (if line.Some? then [line.value] else []), pending)
  }

  predicate AllFit(chunks: seq<string>) {
    chunks != [] ==>
      AllFit(chunks[..|chunks| - 1]) && Fits(After(chunks[..|chunks| - 1]).pending, chunks[|chunks| - 1])
  }

  function Stream(chunks: seq<string>): string {
    if chunks == [] then "" else Stream(chunks[..|chunks| - 1]) + chunks[|chunks| - 1]
  }

  lemma {:induction false} AppendSplits(pending: string, data: string)
    ensures NonEmpty(Lines(AppendFree(pending, data))) == NonEmpty(Lines(pending + StripCr(data)))
    ensures Tail(AppendFree(pending, data)) == Tail(pending + StripCr(data))
    decreases |data|
  {
    if data == "" {
      assert pending + "" == pending;
    } else if data[0] == '\r' {
      AppendSplits(pending, data[1..]);
    } else if data[0] == '\n' && pending == "" {
      AppendSplits(pending, data[1..]);
      NewlineFirst(StripCr(data[1..]));
      assert pending + StripCr(data) == "\n" + StripCr(data[1..]);
      assert pending + StripCr(data[1..]) == StripCr(data[1..]);
    } else {
      AppendSplits(pending + [data[0]], data[1..]);
      assert pending + [data[0]] + StripCr(data[1..]) == pending + StripCr(data);
    }
  }

  lemma {:induction false} PendingBounded(chunks: seq<string>)
    requires AllFit(chunks)
    ensures |After(chunks).pending| <= MAX_CMD_SIZE
  {
    if chunks != [] {
      var init := chunks[..|chunks| - 1];
      PendingBounded(init);
      KeptExactlyWhenItFits(After(init).pending, chunks[|chunks| - 1]);
    }
  }

  lemma TakenLine(pending: string)
    ensures var (line, rest) := TakeLine(pending);
            && Lines(pending) == (if line.Some? then [line.value] else []) + Lines(rest)
            && Tail(pending) == Tail(rest)
  {
  }

  /** For every chunking that fits: the non-empty lines handed out, followed by those still
      pending, are the non-empty lines of the stream without its carriage returns, and the
      unfinished line is the same. */
  lemma {:induction false} SplitterRefinesSplit(chunks: seq<string>)
    requires AllFit(chunks)
    ensures NonEmpty(After(chunks).lines) + NonEmpty(Lines(After(chunks).pending))
         == NonEmpty(Lines(StripCr(Stream(chunks))))
    ensures Tail(After(chunks).pending) == Tail(StripCr(Stream(chunks)))
  {
    if chunks != [] {
      var init, data := chunks[..|chunks| - 1], chunks[|chunks| - 1];
      var before := After(init);
      SplitterRefinesSplit(init);
      PendingBounded(init);
      KeptExactlyWhenItFits(before.pending, data);
      StripCrConcat(Stream(init), data);
      AppendStep(before.lines, before.pending, StripCr(Stream(init)), data);
      TakeStep(before.lines, AppendFree(before.pending, data));
    }
  }

  lemma AppendStep(lines: seq<string>, p: string, s: string, data: string)
    requires NonEmpty(lines) + NonEmpty(Lines(p)) == NonEmpty(Lines(s)) && Tail(p) == Tail(s)
    ensures NonEmpty(lines) + NonEmpty(Lines(AppendFree(p, data))) == NonEmpty(Lines(s + StripCr(data)))
    ensures Tail(AppendFree(p, data)) == Tail(s + StripCr(data))
  {
    var x := StripCr(data);
    AppendSplits(p, data);
    NonEmptySplitConcat(p, x);
    NonEmptySplitConcat(s, x);
    AppendBoth(NonEmpty(lines), NonEmpty(Lines(p)), NonEmpty(Lines(s)), NonEmpty(Lines(Tail(p) + x)));
  }

  lemma AppendBoth<T>(n: seq<T>, a: seq<T>, b: seq<T>, y: seq<T>)
    requires n + a == b
    ensures n + (a + y) == b + y
  {
  }

  lemma NonEmptySplitConcat(a: string, b: string)
    ensures NonEmpty(Lines(a + b)) == NonEmpty(Lines(a)) + NonEmpty(Lines(Tail(a) + b))
    ensures Tail(a + b) == Tail(Tail(a) + b)
  {
    SplitConcat(a, b);
    NonEmptyConcat(Lines(a), Lines(Tail(a) + b));
  }

  lemma TakeStep(lines: seq<string>, appended: string)
    ensures var (line, rest) := TakeLine(appended);
            NonEmpty(lines + if line.Some? then [line.value] else []) + NonEmpty(Lines(rest))
            == NonEmpty(lines) + NonEmpty(Lines(appended))
  {
    var (line, rest) := TakeLine(appended);
    var taken := if line.Some? then [line.value] else [];
    TakenLine(appended);
    NonEmptyConcat(taken, Lines(rest));
    NonEmptyConcat(lines, taken);
  }

  predicate Drained(chunks: seq<string>) {
    '\n' !in After(chunks).pending
  }

  /** Once drained, the result depends on the stream alone and not on its chunks. */
  lemma ChunkingDoesNotMatter(a: seq<string>, b: seq<string>)
    requires AllFit(a) && AllFit(b) && Drained(a) && Drained(b)
    requires Stream(a) == Stream(b)
    ensures NonEmpty(After(a).lines) == NonEmpty(After(b).lines)
    ensures After(a).pending == After(b).pending
  {
    DrainedResult(a);
    DrainedResult(b);
  }

  lemma DrainedResult(chunks: seq<string>)
    requires AllFit(chunks) && Drained(chunks)
    ensures NonEmpty(After(chunks).lines) == NonEmpty(Lines(StripCr(Stream(chunks))))
    ensures After(chunks).pending == Tail(StripCr(Stream(chunks)))
  {
    SplitterRefinesSplit(chunks);
    assert Lines(After(chunks).pending) == [];
  }

  /** Enough empty calls drain the buffer, without changing the stream. */
  lemma {:induction false} DrainingEnds(chunks: seq<string>) returns (drained: seq<string>)
    requires AllFit(chunks)
    ensures AllFit(drained) && Drained(drained) && Stream(drained) == Stream(chunks)
    decreases |After(chunks).pending|
  {
    if Drained(chunks) {
      drained := chunks;
    } else {
      var next := chunks + [""];
      assert next[..|next| - 1] == chunks;
      PendingBounded(chunks);
      drained := DrainingEnds(next);
    }
  }
}
