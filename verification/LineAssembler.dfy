/**
  The command server's line assembly: a 256-byte buffer that is filled by reads, cut at
  newlines in place, and compacted.

  `RawCut` is what one pass over a buffer does; the lemmas show that a run of passes does the
  same as one pass over the whole stream, however it was chunked.
  */
module LineAssembler {
  import opened Bytes

  const NEWLINE: byte := 10
  const RETURN: byte := 13
  const NUL: byte := 0
  const BUFFER: nat := 256

  // ----- The text of a stream -----

  /** The first newline that no zero byte precedes. */
  function FindNewline(s: seq<byte>): (r: Option<nat>)
    ensures r.Some? ==> r.value < |s| && s[r.value] == NEWLINE
    ensures r.Some? ==> NEWLINE !in s[..r.value] && NUL !in s[..r.value]
  {
    if s == [] || s[0] == NUL then None
    else if s[0] == NEWLINE then Some(0)
    else match FindNewline(s[1..])
      case None => None
      case Some(k) =>
        assert s[..k + 1] == [s[0]] + s[1..][..k];
        Some(k + 1)
  }

  datatype Text = Text(lines: seq<seq<byte>>, rest: seq<byte>)

  /** Cuts off line after line until no newline is found. */
  function RawCut(s: seq<byte>): (t: Text)
    ensures |t.rest| <= |s|
    decreases |s|
  {
    match FindNewline(s)
    case None => Text([], s)
    case Some(k) =>
      var t := RawCut(s[k + 1..]);
      Text([s[..k]] + t.lines, t.rest)
  }

  /** One trailing carriage return is dropped. */
  function Trimmed(line: seq<byte>): seq<byte> {
    if line != [] && line[|line| - 1] == RETURN then line[..|line| - 1] else line
  }

  /** The commands of a list of lines: trimmed, and not empty. */
  function Commands(lines: seq<seq<byte>>): seq<seq<byte>> {
    if lines == [] then []
    else (if Trimmed(lines[0]) == [] then [] else [Trimmed(lines[0])]) + Commands(lines[1..])
  }

  // ----- Chunking does not matter -----

  lemma {:induction false} FindAppend(a: seq<byte>, b: seq<byte>)
    requires FindNewline(a).Some?
    ensures FindNewline(a + b) == FindNewline(a)
  {
    if a[0] != NEWLINE {
      assert (a + b)[1..] == a[1..] + b;
      FindAppend(a[1..], b);
    }
  }

  lemma CutStep(s: seq<byte>)
    ensures FindNewline(s) == None ==> RawCut(s) == Text([], s)
    ensures forall k :: FindNewline(s) == Some(k) ==>
      RawCut(s) == Text([s[..k]] + RawCut(s[k + 1..]).lines, RawCut(s[k + 1..]).rest)
  {
  }

  lemma {:induction false} CutAppend(a: seq<byte>, b: seq<byte>)
    ensures var t, u := RawCut(a), RawCut(RawCut(a).rest + b);
      RawCut(a + b) == Text(t.lines + u.lines, u.rest)
    decreases |a|
  {
    hide RawCut, FindNewline;
    CutStep(a);
    CutStep(a + b);
    match FindNewline(a)
    case None =>
      assert [] + RawCut(a + b).lines == RawCut(a + b).lines;
    case Some(k) =>
      FindAppend(a, b);
      assert (a + b)[..k] == a[..k] && (a + b)[k + 1..] == a[k + 1..] + b;
      CutAppend(a[k + 1..], b);
      var t, u := RawCut(a[k + 1..]), RawCut(RawCut(a).rest + b);
      assert [a[..k]] + (t.lines + u.lines) == [a[..k]] + t.lines + u.lines;
  }

  lemma {:induction false} CommandsAppend(a: seq<seq<byte>>, b: seq<seq<byte>>)
    ensures Commands(a + b) == Commands(a) + Commands(b)
  {
    if a == [] {
      assert a + b == b;
    } else {
      assert (a + b)[1..] == a[1..] + b;
      CommandsAppend(a[1..], b);
    }
  }

  function Joined(chunks: seq<seq<byte>>): seq<byte> {
    if chunks == [] then [] else Joined(chunks[..|chunks| - 1]) + chunks[|chunks| - 1]
  }

  /** The server over a list of reads: what it has handled, and what it still holds. */
  function Serve(chunks: seq<seq<byte>>): Text {
    if chunks == [] then Text([], [])
    else
      var before := Serve(chunks[..|chunks| - 1]);
      var t := RawCut(before.rest + chunks[|chunks| - 1]);
      Text(before.lines + Commands(t.lines), t.rest)
  }

  /**
    The commands handled are those of the whole stream, and what is held is what follows its
    last newline, whatever the sizes of the reads.
    */
  lemma {:induction false} ChunkingIndependent(chunks: seq<seq<byte>>)
    ensures var whole := RawCut(Joined(chunks));
      Serve(chunks) == Text(Commands(whole.lines), whole.rest)
  {
    if chunks != [] {
      var front, last := chunks[..|chunks| - 1], chunks[|chunks| - 1];
      ChunkingIndependent(front);
      CutAppend(Joined(front), last);
      CommandsAppend(RawCut(Joined(front)).lines, RawCut(Serve(front).rest + last).lines);
    }
  }

  // ----- What the lines are -----

  function Terminated(lines: seq<seq<byte>>): seq<byte> {
    if lines == [] then [] else lines[0] + [NEWLINE] + Terminated(lines[1..])
  }

  /** `lines` and `rest` are the newline-separated pieces of `s`. */
  ghost predicate Splits(s: seq<byte>, lines: seq<seq<byte>>, rest: seq<byte>) {
    && s == Terminated(lines) + rest
    && (forall i :: 0 <= i < |lines| ==> NEWLINE !in lines[i])
    && NEWLINE !in rest
  }

  lemma {:induction false} FindFirst(line: seq<byte>, tail: seq<byte>)
    requires NEWLINE !in line && NUL !in line
    ensures FindNewline(line + [NEWLINE] + tail) == Some(|line|)
  {
    var s := line + [NEWLINE] + tail;
    if line != [] {
      assert s[1..] == line[1..] + [NEWLINE] + tail;
      FindFirst(line[1..], tail);
    }
  }

  lemma {:induction false} FindNothing(s: seq<byte>)
    requires NEWLINE !in s
    ensures FindNewline(s) == None
  {
    if s != [] {
      FindNothing(s[1..]);
    }
  }

  /** For a stream without zero bytes the cut is the one and only newline splitting. */
  lemma {:induction false} CutIsSplit(s: seq<byte>, lines: seq<seq<byte>>, rest: seq<byte>)
    requires NUL !in s && Splits(s, lines, rest)
    ensures RawCut(s) == Text(lines, rest)
    decreases |lines|
  {
    hide RawCut, FindNewline;
    CutStep(s);
    if lines == [] {
      assert s == rest;
      FindNothing(s);
    } else {
      var line, tail := lines[0], Terminated(lines[1..]) + rest;
      assert s == line + [NEWLINE] + tail;
      assert line == s[..|line|] && tail == s[|line| + 1..];
      FindFirst(line, tail);
      CutIsSplit(tail, lines[1..], rest);
    }
  }

  lemma {:induction false} CutSplits(s: seq<byte>)
    requires NUL !in s
    ensures Splits(s, RawCut(s).lines, RawCut(s).rest)
    decreases |s|
  {
    hide RawCut, Splits, FindNewline;
    CutStep(s);
    match FindNewline(s) {
      case None =>
        NoNewline(s);
        NothingSplit(s);
      case Some(k) =>
        var tail := s[k + 1..];
        CutSplits(tail);
        AddLine(s[..k], tail, RawCut(tail).lines, RawCut(tail).rest);
        assert s == s[..k] + [NEWLINE] + tail;
    }
  }

  lemma NothingSplit(s: seq<byte>)
    requires NEWLINE !in s
    ensures Splits(s, [], s)
  {
  }

  lemma AddLine(line: seq<byte>, tail: seq<byte>, lines: seq<seq<byte>>, rest: seq<byte>)
    requires NEWLINE !in line && Splits(tail, lines, rest)
    ensures Splits(line + [NEWLINE] + tail, [line] + lines, rest)
  {
    assert ([line] + lines)[1..] == lines;
    assert line + [NEWLINE] + (Terminated(lines) + rest) == (line + [NEWLINE] + Terminated(lines)) + rest;
  }

  lemma {:induction false} NoNewline(s: seq<byte>)
    requires NUL !in s && FindNewline(s) == None
    ensures NEWLINE !in s
  {
    if s != [] {
      FindStep(s);
      NoNewline(s[1..]);
    }
  }

  /** A stream without zero bytes has one newline splitting and no other, and the cut is it. */
  lemma SplittingIsUnique(s: seq<byte>, lines: seq<seq<byte>>, rest: seq<byte>)
    requires NUL !in s
    ensures Splits(s, lines, rest) <==> RawCut(s) == Text(lines, rest)
  {
    hide Splits, RawCut;
    CutSplits(s);
    if Splits(s, lines, rest) {
      CutIsSplit(s, lines, rest);
    }
  }

  lemma {:induction false} NulHides(s: seq<byte>, t: seq<byte>)
    requires FindNewline(s) == None && NUL in s
    ensures FindNewline(s + t) == None
  {
    FindStep(s);
    FindStep(s + t);
    if s[0] != NUL {
      assert (s + t)[1..] == s[1..] + t;
      NulHides(s[1..], t);
    }
  }

  /** A zero byte in the pending line jams the assembly: nothing received after it completes a line. */
  lemma NulJams(s: seq<byte>, t: seq<byte>)
    requires NUL in RawCut(s).rest
    ensures RawCut(s + t) == Text(RawCut(s).lines, RawCut(s).rest + t)
  {
    hide RawCut, FindNewline;
    CutAppend(s, t);
    RestHasNone(s);
    NulHides(RawCut(s).rest, t);
    CutStep(RawCut(s).rest + t);
    assert RawCut(s).lines + [] == RawCut(s).lines;
  }

  // ----- What the commands are -----

  /** Lines and the commands made of them: an empty line or a bare 13 makes none, any other line loses one last 13. */
  ghost predicate Handled(lines: seq<seq<byte>>, commands: seq<seq<byte>>) {
    if lines == [] then commands == []
    else if lines[0] == [] || lines[0] == [13] then Handled(lines[1..], commands)
    else
      && commands != [] && Handled(lines[1..], commands[1..])
      && (lines[0] == commands[0] + [13] || (lines[0] == commands[0] && lines[0][|lines[0]| - 1] != 13))
  }

  /** One line, in the three cases. */
  lemma OneCommand(l: seq<byte>)
    ensures Commands([l + [13]]) == if l == [] then [] else [l]
    ensures l != [] && l[|l| - 1] != 13 ==> Commands([l]) == [l]
    ensures Commands([[]]) == []
  {
    var m := l + [13];
    assert m[..|m| - 1] == l;
    NothingElse(m);
    NothingElse(l);
    NothingElse([]);
  }

  lemma NothingElse(l: seq<byte>)
    ensures Commands([l]) == if Trimmed(l) == [] then [] else [Trimmed(l)]
  {
    assert [l][1..] == [];
  }

  lemma TrimmedCases(line: seq<byte>)
    ensures Trimmed(line) == [] <==> line == [] || line == [13]
    ensures Trimmed(line) != [] ==>
      line == Trimmed(line) + [13] || (line == Trimmed(line) && line[|line| - 1] != 13)
  {
    if line != [] && line[|line| - 1] == 13 {
      assert line == line[..|line| - 1] + [13];
    }
  }

  lemma {:induction false} CommandsHandled(lines: seq<seq<byte>>)
    ensures Handled(lines, Commands(lines))
  {
    hide Trimmed;
    if lines != [] {
      var line, rest := lines[0], lines[1..];
      CommandsHandled(rest);
      TrimmedCases(line);
      if Trimmed(line) == [] {
        assert Commands(lines) == Commands(rest);
      } else {
        assert Commands(lines)[1..] == Commands(rest);
      }
    }
  }

  lemma {:induction false} HandledIsUnique(lines: seq<seq<byte>>, a: seq<seq<byte>>, b: seq<seq<byte>>)
    requires Handled(lines, a) && Handled(lines, b)
    ensures a == b
  {
    if lines == [] {
    } else if lines[0] == [] || lines[0] == [13] {
      HandledIsUnique(lines[1..], a, b);
    } else {
      HandledIsUnique(lines[1..], a[1..], b[1..]);
      SameCommand(lines[0], a[0], b[0]);
      assert a == [a[0]] + a[1..] && b == [b[0]] + b[1..];
    }
  }

  lemma SameCommand(line: seq<byte>, a: seq<byte>, b: seq<byte>)
    requires line != []
    requires line == a + [13] || (line == a && line[|line| - 1] != 13)
    requires line == b + [13] || (line == b && line[|line| - 1] != 13)
    ensures a == b
  {
    if line == a + [13] && line == b + [13] {
      assert a == line[..|line| - 1] == b;
    }
  }

  /**
    Over a stream without zero bytes, however it is cut into reads, what is handed over is exactly
    the newline-separated pieces that are neither empty nor a bare 13, each without one last 13.
    */
  lemma CommandsOfStream(chunks: seq<seq<byte>>, lines: seq<seq<byte>>, rest: seq<byte>, commands: seq<seq<byte>>)
    requires 0 !in Joined(chunks) && Splits(Joined(chunks), lines, rest)
    ensures Serve(chunks).rest == rest
    ensures Handled(lines, commands) <==> commands == Serve(chunks).lines
  {
    hide Serve, RawCut, Splits, Handled, Commands;
    ChunkingIndependent(chunks);
    CutIsSplit(Joined(chunks), lines, rest);
    CommandsHandled(lines);
    if Handled(lines, commands) {
      HandledIsUnique(lines, commands, Commands(lines));
    }
  }

  /** "S", carriage return, newline, "A" in three reads: one command of one letter, and one letter held. */
  lemma ExampleServed()
    ensures Serve([[83], [13], [10, 65]]) == Text([[83]], [65])
  {
    hide Serve, RawCut, Commands;
    var chunks: seq<seq<byte>> := [[83], [13], [10, 65]];
    ChunkingIndependent(chunks);
    ExampleJoined();
    ExampleCut();
    OneCommand([83]);
    assert [83 as byte] + [13] == [83, 13];
  }

  lemma ExampleJoined()
    ensures Joined([[83], [13], [10, 65]]) == [83, 13, 10, 65]
  {
    var chunks: seq<seq<byte>> := [[83], [13], [10, 65]];
    var two := chunks[..2];
    assert two == [[83], [13]] && two[..1] == [[83]] && two[..1][..0] == [];
    assert Joined(two[..1]) == [83];
    assert Joined(two) == [83, 13];
  }

  lemma ExampleCut()
    ensures RawCut([83, 13, 10, 65]) == Text([[83, 13]], [65])
  {
    hide RawCut;
    var s: seq<byte>, line: seq<byte> := [83, 13, 10, 65], [83, 13];
    assert [line][1..] == [];
    assert Terminated([line]) == line + [NEWLINE] + [];
    assert s == Terminated([line]) + [65];
    CutIsSplit(s, [line], [65]);
  }

  // ----- Which streams fit -----

  /** Each read delivers something and fits behind what is already held. */
  ghost predicate Legal(chunks: seq<seq<byte>>) {
    chunks == [] ||
    (var front, last := chunks[..|chunks| - 1], chunks[|chunks| - 1];
     Legal(front) && 1 <= |last| <= 255 - |Serve(front).rest|)
  }

  ghost predicate Fits(t: Text) {
    (forall i :: 0 <= i < |t.lines| ==> |t.lines[i]| <= 254) && |t.rest| <= 255
  }

  lemma {:induction false} CutOfSmall(s: seq<byte>)
    requires |s| <= 255
    ensures Fits(RawCut(s))
    decreases |s|
  {
    if FindNewline(s).Some? {
      CutOfSmall(s[FindNewline(s).value + 1..]);
    }
  }

  lemma {:induction false} LegalFits(chunks: seq<seq<byte>>)
    requires Legal(chunks)
    ensures Fits(RawCut(Joined(chunks)))
  {
    if chunks == [] {
      CutOfSmall([]);
    } else {
      var front, last := chunks[..|chunks| - 1], chunks[|chunks| - 1];
      LegalFits(front);
      ChunkingIndependent(front);
      CutAppend(Joined(front), last);
      CutOfSmall(Serve(front).rest + last);
    }
  }

  /** How one more byte changes the cut. */
  lemma CutSnoc(s: seq<byte>, b: byte)
    ensures var t := RawCut(s);
      RawCut(s + [b]) == if b == NEWLINE && NUL !in t.rest then Text(t.lines + [t.rest], [])
                         else Text(t.lines, t.rest + [b])
  {
    hide RawCut, FindNewline;
    CutAppend(s, [b]);
    RestHasNone(s);
    var rest := RawCut(s).rest;
    FindLast(rest, b);
    CutStep(rest + [b]);
    CutStep([]);
    FindNothing([]);
    if b == NEWLINE && NUL !in rest {
      assert (rest + [b])[..|rest|] == rest && (rest + [b])[|rest| + 1..] == [];
    }
  }

  lemma {:induction false} RestHasNone(s: seq<byte>)
    ensures FindNewline(RawCut(s).rest) == None
    decreases |s|
  {
    if FindNewline(s).Some? {
      RestHasNone(s[FindNewline(s).value + 1..]);
    }
  }

  lemma {:induction false} FindLast(s: seq<byte>, b: byte)
    requires FindNewline(s) == None
    ensures FindNewline(s + [b]) == if b == NEWLINE && NUL !in s then Some(|s|) else None
  {
    if s != [] && s[0] != NUL {
      assert (s + [b])[1..] == s[1..] + [b];
      FindLast(s[1..], b);
    }
  }

  function Singles(s: seq<byte>): seq<seq<byte>> {
    if s == [] then [] else Singles(s[..|s| - 1]) + [s[|s| - 1..]]
  }

  lemma FitsBefore(s: seq<byte>, b: byte)
    requires Fits(RawCut(s + [b]))
    ensures Fits(RawCut(s)) && |RawCut(s).rest| <= 254
  {
    hide RawCut;
    CutSnoc(s, b);
    var t, u := RawCut(s), RawCut(s + [b]);
    if b == NEWLINE && NUL !in t.rest {
      assert u.lines[|t.lines|] == t.rest;
      assert forall i :: 0 <= i < |t.lines| ==> t.lines[i] == u.lines[i];
    }
  }

  lemma {:induction false} SinglesServe(s: seq<byte>)
    requires Fits(RawCut(s))
    ensures Legal(Singles(s)) && Joined(Singles(s)) == s
  {
    hide RawCut, Fits, Serve;
    if s != [] {
      var front, b := s[..|s| - 1], s[|s| - 1];
      assert s == front + [b];
      FitsBefore(front, b);
      SinglesServe(front);
      ChunkingIndependent(Singles(front));
      assert Singles(s)[..|Singles(s)| - 1] == Singles(front);
    }
  }

  /**
    A stream can be received at all, in reads that fit, exactly when each of its lines has at
    most 254 bytes before the newline and at most 255 bytes follow the last one.
    */
  lemma ReceivableIff(s: seq<byte>)
    ensures (exists chunks :: Legal(chunks) && Joined(chunks) == s) <==> Fits(RawCut(s))
  {
    if Fits(RawCut(s)) {
      SinglesServe(s);
    }
    forall chunks | Legal(chunks) && Joined(chunks) == s
      ensures Fits(RawCut(s))
    {
      LegalFits(chunks);
    }
  }

  lemma CommandOfOne(line: seq<byte>)
    ensures Commands([line]) == if Trimmed(line) == [] then [] else [Trimmed(line)]
  {
    assert [line][1..] == [];
  }

  lemma FoundBefore(s: seq<byte>)
    requires FindNewline(s).Some?
    ensures var k := FindNewline(s).value; k < |s| && NUL !in s[..k]
  {
  }

  /** Taking one line off the front of a text. */
  lemma CutAdvance(s: seq<byte>, k: nat)
    requires FindNewline(s) == Some(k)
    ensures Commands(RawCut(s).lines) == Commands([s[..k]]) + Commands(RawCut(s[k + 1..]).lines)
    ensures RawCut(s).rest == RawCut(s[k + 1..]).rest
  {
    hide Commands, RawCut, FindNewline;
    CutStep(s);
    CommandsAppend([s[..k]], RawCut(s[k + 1..]).lines);
  }

  lemma CutEnd(s: seq<byte>)
    requires FindNewline(s) == None
    ensures Commands(RawCut(s).lines) == [] && RawCut(s).rest == s
  {
    CutStep(s);
  }

  // ----- The C string functions, on a buffer -----

  /** First newline at or after `from`, none if a zero byte comes first. */
  method StrChr(buf: array<byte>, from: nat, ghost end: nat) returns (r: Option<nat>)
    requires from <= end < buf.Length && buf[end] == NUL
    ensures r == None ==> FindNewline(buf[from..end]) == None
    ensures r.Some? ==> from <= r.value < end && FindNewline(buf[from..end]) == Some(r.value - from)
  {
    hide FindNewline;
    var p := from;
    while buf[p] != NUL && buf[p] != NEWLINE
      invariant from <= p <= end
      invariant FindNewline(buf[from..end])
             == match FindNewline(buf[p..end]) case None => None case Some(k) => Some(p - from + k)
      decreases end - p
    {
      FindStep(buf[p..end]);
      assert buf[p..end][1..] == buf[p + 1..end];
      p := p + 1;
    }
    FindStep(buf[p..end]);
    r := if buf[p] == NEWLINE then Some(p) else None;
  }

  lemma FindStep(s: seq<byte>)
    ensures s == [] || s[0] == NUL ==> FindNewline(s) == None
    ensures s != [] && s[0] == NEWLINE ==> FindNewline(s) == Some(0)
    ensures s != [] && s[0] != NUL && s[0] != NEWLINE ==>
      FindNewline(s) == match FindNewline(s[1..]) case None => None case Some(k) => Some(k + 1)
  {
  }

  method StrLen(buf: array<byte>, from: nat, ghost end: nat) returns (n: nat)
    requires from <= end < buf.Length && buf[end] == NUL
    ensures from + n <= end && buf[from + n] == NUL && NUL !in buf[from..from + n]
    ensures NUL !in buf[from..end] ==> from + n == end
  {
    n := 0;
    while buf[from + n] != NUL
      invariant from + n <= end && NUL !in buf[from..from + n]
      decreases end - from - n
    {
      assert buf[from..from + n + 1] == buf[from..from + n] + [buf[from + n]];
      n := n + 1;
    }
    if from + n < end {
      assert buf[from..end][n] == NUL;
    }
  }

  // ----- The server -----

  /** What a non-blocking read of the client socket gave. */
  datatype ReadResult = Data(bytes: seq<byte>) | EndOfFile | WouldBlock | Failed

  lemma SplitAt(s: seq<byte>, start: nat, p: nat, end: nat)
    requires start <= p < end <= |s|
    ensures s[start..end][..p - start] == s[start..p]
    ensures s[start..end][p - start + 1..] == s[p + 1..end]
  {
  }

  lemma SameTail(s: seq<byte>, t: seq<byte>, from: nat, end: nat)
    requires |s| == |t| && from <= end < |s| && s[from..] == t[from..]
    ensures s[from..end] == t[from..end] && s[end] == t[end]
  {
    assert s[from..end] == s[from..][..end - from];
    assert t[from..end] == t[from..][..end - from];
    assert s[end] == s[from..][end - from];
  }

  class CommandServer {
    const rxBuf: array<byte>
    var rxPos: nat

    ghost predicate Valid()
      reads this
    {
      rxBuf.Length == BUFFER && rxPos <= BUFFER - 1
    }

    /** The bytes held between ticks. */
    ghost function Pending(): (s: seq<byte>)
      reads this, rxBuf
      requires Valid()
      ensures |s| == rxPos
    {
      rxBuf[..rxPos]
    }

    constructor ()
      ensures Valid() && Pending() == [] && fresh(rxBuf) && rxBuf.Length == 256
    {
      rxBuf := new byte[BUFFER](_ => 0);
      rxPos := 0;
    }

    /**
      Terminates the line `rxBuf[start..newline]` in place, strips a carriage return, and
      returns what is passed on, if anything.
      */
    method TakeLine(start: nat, newline: nat) returns (command: seq<seq<byte>>)
      requires rxBuf.Length == BUFFER && start <= newline < BUFFER
      requires NUL !in rxBuf[start..newline]
      modifies rxBuf
      ensures command == Commands(old([rxBuf[start..newline]]))
      ensures rxBuf[newline + 1..] == old(rxBuf[newline + 1..])
    {
      hide Commands;
      ghost var line := rxBuf[start..newline];
      ghost var kept := Trimmed(line);
      rxBuf[newline] := NUL;
      assert rxBuf[start..newline] == line;
      var len := StrLen(rxBuf, start, newline);
      if len > 0 && rxBuf[start + len - 1] == RETURN {
        rxBuf[start + len - 1] := NUL;
      }
      assert rxBuf[start..start + |kept|] == kept == line[..|kept|];
      var n := StrLen(rxBuf, start, start + |kept|);
      command := if n > 0 then [rxBuf[start..start + n]] else [];
      CommandOfOne(line);
    }

    /** Moves the unterminated rest to the front of the buffer. */
    method Compact(start: nat)
      requires Valid() && start <= rxPos
      modifies this`rxPos, rxBuf
      ensures Valid() && Pending() == old(rxBuf[start..rxPos])
    {
      var remaining := rxPos - start;
      if remaining > 0 && start != 0 {
        forall i | 0 <= i < remaining {
          rxBuf[i] := rxBuf[start + i];
        }
      }
      rxPos := remaining;
    }

    /** One tick with a connected client. */
    method Tick(r: ReadResult) returns (handled: seq<seq<byte>>, open: bool)
      requires Valid()
      requires r.Data? ==> 1 <= |r.bytes| <= BUFFER - 1 - rxPos
      modifies this, rxBuf
      ensures Valid()
      ensures open <==> r.Data? || r.WouldBlock?
      ensures match r
        case Data(bytes) =>
          var t := RawCut(old(Pending()) + bytes);
          handled == Commands(t.lines) && Pending() == t.rest
        case WouldBlock => handled == [] && Pending() == old(Pending())
        case _ => handled == [] && Pending() == []
    {
      handled, open := [], true;
      match r {
        case Failed => rxPos, open := 0, false;
        case EndOfFile => rxPos, open := 0, false;
        case WouldBlock =>
        case Data(bytes) =>
          handled := Receive(bytes);
      }
    }

    method Receive(bytes: seq<byte>) returns (handled: seq<seq<byte>>)
      requires Valid() && |bytes| <= BUFFER - 1 - rxPos
      modifies this, rxBuf
      ensures Valid()
      ensures var t := RawCut(old(Pending()) + bytes);
        handled == Commands(t.lines) && Pending() == t.rest
    {
      hide RawCut, FindNewline, Commands;
      ghost var all := Pending() + bytes;
      Put(rxBuf, rxPos, bytes);
      rxPos := rxPos + |bytes|;
      rxBuf[rxPos] := NUL;
      assert rxBuf[..rxPos] == all;
      var start;
      handled, start := ServeLines();
      Compact(start);
    }

    /** The newline loop; `start` is where the unterminated rest begins. */
    method ServeLines() returns (handled: seq<seq<byte>>, start: nat)
      requires Valid() && rxBuf[rxPos] == NUL
      modifies rxBuf
      ensures start <= rxPos
      ensures var t := RawCut(old(Pending()));
        handled == Commands(t.lines) && rxBuf[start..rxPos] == t.rest
    {
      hide RawCut, FindNewline, Commands;
      ghost var all := Pending();
      handled, start := [], 0;
      assert rxBuf[0..rxPos] == all;
      var newline := StrChr(rxBuf, start, rxPos);
      while newline.Some?
        invariant start <= rxPos && rxBuf[rxPos] == NUL
        invariant newline == None ==> FindNewline(rxBuf[start..rxPos]) == None
        invariant newline.Some? ==>
          start <= newline.value < rxPos && FindNewline(rxBuf[start..rxPos]) == Some(newline.value - start)
        invariant handled + Commands(RawCut(rxBuf[start..rxPos]).lines) == Commands(RawCut(all).lines)
        invariant RawCut(rxBuf[start..rxPos]).rest == RawCut(all).rest
        decreases rxPos - start
      {
        var p := newline.value;
        ghost var left := rxBuf[start..rxPos];
        ghost var k := p - start;
        ghost var before := rxBuf[..];
        FoundBefore(left);
        CutAdvance(left, k);
        SplitAt(before, start, p, rxPos);
        var command := TakeLine(start, p);
        SameTail(before, rxBuf[..], p + 1, rxPos);
        handled := handled + command;
        start := p + 1;
        newline := StrChr(rxBuf, start, rxPos);
      }
      CutEnd(rxBuf[start..rxPos]);
    }
  }
}
