/**
 Capturing a child's output: a pipe is read into a fixed buffer piece by piece, and every
 complete line is sent to the log server as soon as it is there.
 */
module PipeCapture {
  import opened Common

  type Line = string

  const MAX_MESSAGE := 1024

  // --------------------------------------------------------- batch reading

  /** Index of the first newline, or the length. */
  function LineLength(s: string): nat
    ensures LineLength(s) <= |s|
  {
    if s == "" || s[0] == '\n' then 0 else 1 + LineLength(s[1..])
  }

  /** The text up to each newline, in order, and what follows the last newline. */
  function Lines(s: string): (seq<Line>, string) {
    var n := LineLength(s);
    if n == |s| then ([], s)
    else
      var (lines, rest) := Lines(s[n + 1..]);
      ([s[..n]] + lines, rest)
  }

  /** The newline-separated pieces of a text, the last one included. */
  function Pieces(s: string): seq<Line> {
    Lines(s).0 + [Lines(s).1]
  }

  /** The log socket: what it took, and whether it is still open. */
  datatype Log = Log(sent: seq<Line>, open: bool)

  /** Whether the n-th datagram can be sent. */
  type Socket = nat -> bool

  function Truncated(line: Line): Line {
    if |line| <= MAX_MESSAGE then line else line[..MAX_MESSAGE]
  }

  /** `OnLine`: empty lines are skipped; a NUL byte or a failed send closes the log for good. */
  function Submit(log: Log, socket: Socket, line: Line): Log {
    if !log.open || line == "" then log
    else if '\0' in line || !socket(|log.sent|) then log.(open := false)
    else log.(sent := log.sent + [Truncated(line)])
  }

  function SubmitAll(log: Log, socket: Socket, lines: seq<Line>): Log
    decreases lines
  {
    if lines == [] then log else SubmitAll(Submit(log, socket, lines[0]), socket, lines[1..])
  }

  /** The log of a whole text, read at once. */
  function Batch(socket: Socket, text: string): Log {
    SubmitAll(Log([], true), socket, Pieces(text))
  }

  // ---------------------------------------------------------------- lemmas

  lemma {:induction false} LineLengthAppend(s: string, t: string)
    requires LineLength(s) < |s|
    ensures LineLength(s + t) == LineLength(s)
  {
    if s[0] != '\n' {
      LineLengthAppend(s[1..], t);
      assert (s + t)[1..] == s[1..] + t;
    }
  }

  /** The first line of a longer text is the first line. */
  lemma FirstLine(s: string, t: string)
    requires LineLength(s) < |s|
    ensures var n := LineLength(s);
            var (lines, rest) := Lines(s[n + 1..] + t);
            Lines(s + t) == ([s[..n]] + lines, rest)
  {
    var n := LineLength(s);
    LineLengthAppend(s, t);
    assert (s + t)[n + 1..] == s[n + 1..] + t && (s + t)[..n] == s[..n];
  }

  lemma Assoc(a: seq<Line>, b: seq<Line>, c: seq<Line>)
    ensures a + (b + c) == (a + b) + c && [] + c == c && c + [] == c
  {
  }

  /** Appending text keeps the complete lines, and goes on in the unfinished one. */
  lemma {:induction false} LinesAppend(s: string, t: string)
    ensures Lines(s + t) == (Lines(s).0 + Lines(Lines(s).1 + t).0, Lines(Lines(s).1 + t).1)
    decreases |s|
  {
    var n := LineLength(s);
    if n < |s| {
      FirstLine(s, t);
      LinesAppend(s[n + 1..], t);
      Assoc([s[..n]], Lines(s[n + 1..]).0, Lines(Lines(s).1 + t).0);
    } else {
      Assoc([], [], Lines(s + t).0);
    }
  }

  function Join(pieces: seq<Line>): string
    requires pieces != []
  {
    if |pieces| == 1 then pieces[0] else pieces[0] + "\n" + Join(pieces[1..])
  }

  lemma {:induction false} NoNewlineBefore(s: string)
    ensures forall i | 0 <= i < LineLength(s) :: s[i] != '\n'
    ensures LineLength(s) < |s| ==> s[LineLength(s)] == '\n'
  {
    if s != "" && s[0] != '\n' {
      NoNewlineBefore(s[1..]);
      assert forall i | 1 <= i < LineLength(s) :: s[i] == s[1..][i - 1];
    }
  }

  /** The pieces are the text cut at its newlines: joined again they give the text, and none holds a newline. */
  lemma {:induction false} PiecesAreTheText(s: string)
    ensures Join(Pieces(s)) == s
    ensures forall i | 0 <= i < |Pieces(s)| :: '\n' !in Pieces(s)[i]
    decreases |s|
  {
    NoNewlineBefore(s);
    var n := LineLength(s);
    if n < |s| {
      PiecesAreTheText(s[n + 1..]);
      Assoc([s[..n]], Lines(s[n + 1..]).0, [Lines(s[n + 1..]).1]);
      assert Pieces(s)[1..] == Pieces(s[n + 1..]);
      assert s == s[..n] + "\n" + s[n + 1..];
    }
  }

  lemma {:induction false} SubmitAllAppend(log: Log, socket: Socket, a: seq<Line>, b: seq<Line>)
    ensures SubmitAll(log, socket, a + b) == SubmitAll(SubmitAll(log, socket, a), socket, b)
    decreases |a|
  {
    if a == [] {
      assert a + b == b;
    } else {
      assert (a + b)[1..] == a[1..] + b;
      SubmitAllAppend(Submit(log, socket, a[0]), socket, a[1..], b);
    }
  }

  lemma {:induction false} ClosedStaysClosed(log: Log, socket: Socket, lines: seq<Line>)
    requires !log.open
    ensures SubmitAll(log, socket, lines) == log
  {
    if lines != [] {
      ClosedStaysClosed(log, socket, lines[1..]);
    }
  }

  // ------------------------------------------------------ what the log holds

  /**
   The log of some lines, none of them empty: one datagram each, cut to 1024 bytes, until a
   line holds a NUL byte or a datagram cannot be sent.
   */
  predicate IsLogOf(log: Log, lines: seq<Line>, socket: Socket) {
    && |log.sent| <= |lines|
    && (forall i | 0 <= i < |log.sent| ::
          && log.sent[i] <= lines[i] && |log.sent[i]| == (if |lines[i]| <= 1024 then |lines[i]| else 1024)
          && '\0' !in lines[i] && socket(i))
    && if log.open then |log.sent| == |lines|
       else |log.sent| < |lines| && ('\0' in lines[|log.sent|] || !socket(|log.sent|))
  }

  lemma SubmitIsLogged(log: Log, socket: Socket, lines: seq<Line>, line: Line)
    requires IsLogOf(log, lines, socket) && line != ""
    ensures IsLogOf(Submit(log, socket, line), lines + [line], socket)
  {
  }

  lemma {:induction false} LogOfMore(log: Log, socket: Socket, lines: seq<Line>, more: seq<Line>)
    requires IsLogOf(log, lines, socket)
    ensures IsLogOf(SubmitAll(log, socket, more), lines + Kept(more, (line: Line) => line == ""), socket)
    decreases |more|
  {
    if more == [] {
      assert lines + [] == lines;
    } else if more[0] == "" {
      LogOfMore(log, socket, lines, more[1..]);
    } else {
      SubmitIsLogged(log, socket, lines, more[0]);
      LogOfMore(Submit(log, socket, more[0]), socket, lines + [more[0]], more[1..]);
      Assoc(lines, [more[0]], Kept(more[1..], (line: Line) => line == ""));
    }
  }

  /** A batch sends exactly the nonempty pieces of the text, in order. */
  lemma BatchIsLogOfPieces(socket: Socket, text: string) returns (lines: seq<Line>)
    ensures IsKept(lines, Pieces(text), (line: Line) => line == "")
    ensures IsLogOf(Batch(socket, text), lines, socket)
  {
    lines := Kept(Pieces(text), (line: Line) => line == "");
    KeptIsKept(Pieces(text), (line: Line) => line == "");
    LogOfMore(Log([], true), socket, [], Pieces(text));
    assert [] + lines == lines;
  }

  // --------------------------------------------------------------- adapter

  /** `PipePondAdapter` with its capture buffer. */
  class PipePondAdapter {
    const data: array<char>
    const socket: Socket
    var size: nat
    var position: nat
    var log: Log
    var closed: bool
    /** Everything the pipe has delivered so far. */
    ghost var input: string
    /** `OnEnd` has run: end of pipe, or the buffer is full. */
    ghost var ended: bool

    constructor (capacity: nat, socket: Socket)
      ensures Valid() && data.Length == capacity && fresh(data) && input == "" && !closed && this.socket == socket
    {
      data := new char[capacity];
      this.socket, size, position, log, closed := socket, 0, 0, Log([], true), false;
      input, ended := "", capacity == 0;
    }

    ghost function Captured(): string
      requires size <= data.Length
      reads this, data
    {
      data[..size]
    }

    /**
     The buffer holds the first `capacity` bytes of the pipe, however they were cut into
     reads; the log is what a batch over the complete lines gives, and over all pieces at
     the end.
     */
    ghost predicate Valid()
      reads this, data
    {
      && position <= size <= data.Length
      && size == (if |input| <= data.Length then |input| else data.Length)
      && Captured() == input[..size]
      && (ended <==> closed || size == data.Length)
      && if ended then log == Batch(socket, Captured()) else Streaming()
    }

    /** Exactly the complete lines have been sent; the unfinished one starts at `position`. */
    ghost predicate Streaming()
      requires position <= size <= data.Length
      reads this, data
    {
      && log == SubmitAll(Log([], true), socket, Lines(Captured()).0)
      && (log.open ==> data[position..size] == Lines(Captured()).1)
    }

    /** `memchr`: how far the next newline is, or the end. */
    method FindNewline() returns (n: nat)
      requires position <= size <= data.Length
      ensures n == LineLength(data[position..size])
    {
      n := 0;
      ghost var rest := data[position..size];
      while position + n < size && data[position + n] != '\n'
        invariant position + n <= size
        invariant LineLength(rest) == n + LineLength(rest[n..])
      {
        assert rest[n..][1..] == rest[n + 1..];
        n := n + 1;
      }
    }

    /** Send every complete line from `position` on, and with `flush` the last piece too. */
    method SendLines(flush: bool)
      requires position <= size <= data.Length
      modifies this`position, this`log
      ensures position <= size
      ensures var (lines, last) := old(Lines(data[position..size]));
              && log == old(if log.open then SubmitAll(log, socket, lines + if flush then [last] else []) else log)
              && (old(log.open) && !flush && log.open ==> data[position..size] == last)
    {
      if !log.open {
        return;
      }
      ghost var log0, done, whole := log, [], Lines(data[position..size]);
      NothingSent(log0, socket, whole);
      while position < size
        invariant position <= size
        invariant Sent(log0, log, socket, done, data[position..size], whole)
        decreases size - position
      {
        var n := FindNewline();
        if position + n == size {
          break;
        }
        ghost var rest := data[position..size];
        var line := data[position..position + n];
        Slice(data[..], position, n, size);
        position := position + n + 1;
        ghost var before := log;
        log := Submit(log, socket, line);
        SendOne(log0, before, socket, done, rest, line, data[position..size], whole);
        done := done + [line];
        if !log.open {
          NothingMore(log0, log, socket, whole.0, done, if flush then [whole.1] else []);
          return;
        }
      }
      EverythingSent(log0, log, socket, done, data[position..size], whole);
      if flush {
        log := Submit(log, socket, data[position..size]);
        position := size;
      }
    }

    /** The read puts its bytes behind those which are already there. */
    method Append(chunk: string)
      requires position <= size <= data.Length && |chunk| <= data.Length - size
      modifies this`size, data
      ensures size == old(size) + |chunk|
      ensures data[..size] == old(data[..size]) + chunk
      ensures data[position..size] == old(data[position..size]) + chunk
    {
      forall i | 0 <= i < |chunk| {
        data[size + i] := chunk[i];
      }
      size := size + |chunk|;
    }

    /** `OnAppend`: the newly completed lines are sent. */
    method OnAppend(chunk: string)
      requires position <= size <= data.Length && |chunk| <= data.Length - size && Streaming()
      modifies this`size, this`position, this`log, data
      ensures position <= size <= data.Length && Streaming()
      ensures size == old(size) + |chunk| && Captured() == old(Captured()) + chunk
    {
      ghost var before := Captured();
      StreamOn(socket, before, chunk, log);
      Append(chunk);
      Assoc([], [], Lines(data[position..size]).0);
      SendLines(false);
    }

    /** `OnEnd`: the unfinished line is sent too. */
    method OnEnd()
      requires position <= size <= data.Length && Streaming()
      modifies this`position, this`log
      ensures position <= size && log == Batch(socket, Captured())
    {
      EndOfPipe(socket, Captured(), log);
      Assoc([], [], [Lines(Captured()).1]);
      SendLines(true);
    }

    /** The pipe is readable: `chunk` is what the read returned, empty at the end of the pipe. */
    method OnSocket(chunk: string)
      requires Valid() && !closed
      requires size < data.Length ==> |chunk| <= data.Length - size
      modifies this, data
      ensures Valid() && input == old(input) + chunk
      ensures closed <==> chunk == ""
    {
      assert input + "" == input;
      if size < data.Length {
        if chunk == "" {
          closed, ended := true, true;
          OnEnd();
          return;
        }
        OnAppend(chunk);
        input := input + chunk;
        if size == data.Length {
          OnEnd();
          ended := true;
        }
      } else {
        /* the buffer is full: discard */
        closed := chunk == "";
        input := input + chunk;
      }
    }
  }

  lemma Slice(s: string, i: nat, n: nat, j: nat)
    requires i + n < j <= |s|
    ensures s[i..j][..n] == s[i..i + n] && s[i..j][n + 1..] == s[i + n + 1..j]
  {
  }

  /** The lines `done` of `whole` have been sent, and `rest` is the text behind them. */
  ghost predicate Sent(log0: Log, log: Log, socket: Socket, done: seq<Line>, rest: string, whole: (seq<Line>, string)) {
    && log.open && log == SubmitAll(log0, socket, done)
    && whole == (done + Lines(rest).0, Lines(rest).1)
  }

  lemma NothingSent(log: Log, socket: Socket, whole: (seq<Line>, string))
    ensures SubmitAll(log, socket, []) == log && ([] + whole.0, whole.1) == whole
  {
    Assoc([], [], whole.0);
  }

  lemma SendOne(log0: Log, log: Log, socket: Socket, done: seq<Line>, rest: string, line: Line, tail: string,
                whole: (seq<Line>, string))
    requires Sent(log0, log, socket, done, rest, whole)
    requires LineLength(rest) < |rest| && line == rest[..LineLength(rest)] && tail == rest[LineLength(rest) + 1..]
    ensures Submit(log, socket, line) == SubmitAll(log0, socket, done + [line])
    ensures whole == (done + [line] + Lines(tail).0, Lines(tail).1) && done + [line] <= whole.0
  {
    Assoc(done, [line], Lines(tail).0);
    SubmitAllAppend(log0, socket, done, [line]);
  }

  lemma EverythingSent(log0: Log, log: Log, socket: Socket, done: seq<Line>, rest: string, whole: (seq<Line>, string))
    requires Sent(log0, log, socket, done, rest, whole) && LineLength(rest) == |rest|
    ensures whole == (done, rest) && log == SubmitAll(log0, socket, whole.0 + [])
    ensures Submit(log, socket, rest) == SubmitAll(log0, socket, whole.0 + [whole.1])
  {
    Assoc([], [], done);
    SubmitAllAppend(log0, socket, done, [rest]);
  }

  lemma NothingMore(log0: Log, log: Log, socket: Socket, lines: seq<Line>, done: seq<Line>, last: seq<Line>)
    requires done <= lines && log == SubmitAll(log0, socket, done) && !log.open
    ensures SubmitAll(log0, socket, lines + last) == log
  {
    var tail := lines[|done|..] + last;
    assert lines + last == done + tail;
    SubmitAllAppend(log0, socket, done, tail);
    ClosedStaysClosed(log, socket, tail);
  }

  /** Reading on: the log after more text is the log before it, and then the newly completed lines. */
  lemma StreamOn(socket: Socket, text: string, chunk: string, log: Log)
    requires log == SubmitAll(Log([], true), socket, Lines(text).0)
    ensures Lines(text + chunk).1 == Lines(Lines(text).1 + chunk).1
    ensures SubmitAll(Log([], true), socket, Lines(text + chunk).0) ==
            if log.open then SubmitAll(log, socket, Lines(Lines(text).1 + chunk).0) else log
  {
    LinesAppend(text, chunk);
    SubmitAllAppend(Log([], true), socket, Lines(text).0, Lines(Lines(text).1 + chunk).0);
    if !log.open {
      ClosedStaysClosed(log, socket, Lines(Lines(text).1 + chunk).0);
    }
  }

  lemma {:induction false} RestIsUnfinished(s: string)
    ensures Lines(Lines(s).1) == ([], Lines(s).1)
    decreases |s|
  {
    var n := LineLength(s);
    if n < |s| {
      RestIsUnfinished(s[n + 1..]);
    }
  }

  /** Flushing the unfinished line completes the batch. */
  lemma EndOfPipe(socket: Socket, text: string, log: Log)
    requires log == SubmitAll(Log([], true), socket, Lines(text).0)
    ensures Batch(socket, text) == if log.open then SubmitAll(log, socket, [Lines(text).1]) else log
    ensures Lines(Lines(text).1) == ([], Lines(text).1)
  {
    RestIsUnfinished(text);
    SubmitAllAppend(Log([], true), socket, Lines(text).0, [Lines(text).1]);
    if !log.open {
      ClosedStaysClosed(log, socket, [Lines(text).1]);
    }
  }
}
