/**
 The drpc packet dumper: a push-style adapter that accepts arbitrary byte
 chunks, buffers them, and logs one line per chunk and one line per complete
 frame it can scan and parse. Its first error is kept and every later write
 returns it.

 The dumper's state is its unconsumed buffer, its stored error and the lines
 it has handed to its writer. The writer itself is the `sink` argument of
 each write: given the lines written so far and the next line, it reports
 whether writing that line fails.
 */
module Dump {
  import opened Wire

  /** A line the dumper hands to its writer. */
  datatype Event =
    | RawChunk(chunk: seq<byte>) // "write: <hex>" for every accepted chunk
    | FrameLine(pkt: Packet)     // one line per decoded frame

  /** The output writer: None when the line was written, Some(e) when it failed. */
  type Sink = (seq<Event>, Event) -> Option<Error>

  datatype Dumper = Dumper(buf: seq<byte>, err: Option<Error>, log: seq<Event>)

  /** One frame consumed by a write: the buffered bytes it advanced over,
      the token the scanner returned for them, and the parsed packet. */
  datatype Frame = Frame(raw: seq<byte>, token: seq<byte>, pkt: Packet)

  /** Why the scan loop of a write stopped. */
  datatype Stop =
    | Drained            // the scanner needs more bytes
    | ScanFailed(err: Error)
    | ParseMismatch      // the parser disagreed with the scanner
    | SinkFailed(err: Error)

  datatype Pumped = Pumped(buf: seq<byte>, frames: seq<Frame>, log: seq<Event>, stop: Stop)

  datatype WriteResult = WriteResult(dumper: Dumper, n: nat, err: Option<Error>)

  /** The frame lines of a sequence of frames, in order. */
  function Lines(frames: seq<Frame>): seq<Event>
    decreases |frames|
  {
    if frames == [] then [] else [FrameLine(frames[0].pkt)] + Lines(frames[1..])
  }

  /** The bytes a sequence of frames advanced over, in order. */
  function Consumed(frames: seq<Frame>): seq<byte>
    decreases |frames|
  {
    if frames == [] then [] else frames[0].raw + Consumed(frames[1..])
  }

  /** The packets of the frame lines of a log, in order. */
  function Decoded(log: seq<Event>): seq<Packet>
    decreases |log|
  {
    if log == [] then []
    else if log[0].FrameLine? then [log[0].pkt] + Decoded(log[1..])
    else Decoded(log[1..])
  }

  /** `frames` is what repeatedly scanning and parsing `input` yields before
      `rest` is left: each frame is the token the scanner finds at the front
      of what remains, its raw bytes are the prefix the scanner advanced over,
      and the parser agrees with the scanner on it. */
  predicate Explains(scan: Scanner, parse: Parser, input: seq<byte>, frames: seq<Frame>, rest: seq<byte>)
    decreases |frames|
  {
    if frames == [] then input == rest
    else
      var f := frames[0];
      && scan(input, false) == Token(|f.raw|, f.token)
      && f.raw <= input
      && Agrees(parse(f.token))
      && parse(f.token).pkt == f.pkt
      && Explains(scan, parse, input[|f.raw|..], frames[1..], rest)
  }

  /** The writer accepted the line of every frame in turn, starting from the
      history `log`, except that under a SinkFailed stop it refused the line
      of the last frame with exactly that error. */
  predicate Accepted(sink: Sink, log: seq<Event>, frames: seq<Frame>, stop: Stop)
    decreases |frames|
  {
    if frames == [] then !stop.SinkFailed?
    else
      var line := FrameLine(frames[0].pkt);
      if |frames| == 1 && stop.SinkFailed? then sink(log, line) == Some(stop.err)
      else sink(log, line) == None && Accepted(sink, log + [line], frames[1..], stop)
  }

  /** What the scanner and the parser say about the buffer left behind, for
      each way the loop can stop other than a writer failure. */
  predicate Halts(scan: Scanner, parse: Parser, rest: seq<byte>, stop: Stop) {
    match stop
    case Drained => scan(rest, false).Incomplete?
    case ScanFailed(e) => scan(rest, false) == Failed(e)
    case ParseMismatch => scan(rest, false).Token? && !Agrees(parse(scan(rest, false).token))
    case SinkFailed(_) => true
  }

  /** The declarative description of one run of the scan loop over `input`
      starting with the history `log`. */
  ghost predicate Accounts(scan: Scanner, parse: Parser, sink: Sink, input: seq<byte>, log: seq<Event>, r: Pumped) {
    && Explains(scan, parse, input, r.frames, r.buf)
    && r.log == log + Lines(r.frames)
    && Accepted(sink, log, r.frames, r.stop)
    && Halts(scan, parse, r.buf, r.stop)
  }

  /** The error a write returns for the way its scan loop stopped. */
  function Outcome(stop: Stop): (err: Option<Error>)
    ensures err.None? <==> stop.Drained?
    ensures stop.ParseMismatch? ==> err == Some(InvalidParse)
    ensures stop.ScanFailed? || stop.SinkFailed? ==> err == Some(stop.err)
  {
    match stop
    case Drained => None
    case ScanFailed(e) => Some(e)
    case ParseMismatch => Some(InvalidParse)
    case SinkFailed(e) => Some(e)
  }

  /** The deferred capture of a write's error: the stored error is set only
      when none is stored yet. */
  function Capture(stored: Option<Error>, err: Option<Error>): (r: Option<Error>)
    ensures stored.Some? ==> r == stored
    ensures stored.None? ==> r == err
  {
    if err.Some? && stored.None? then err else stored
  }

  /** A fresh dumper. */
  function NewDumper(): (d: Dumper)
    ensures d.buf == [] && d.err == None && d.log == []
  {
    Dumper([], None, [])
  }

  /** The scan loop of a write: scan the buffer; stop on a scanner error or
      on a nil token; parse the token and stop unless the parser agrees;
      advance the buffer past the token; write the frame's line and stop if
      that fails; repeat. The loop ends because every token consumes at
      least one byte. */
  function Pump(scan: Scanner, parse: Parser, sink: Sink, buf: seq<byte>, log: seq<Event>): Pumped
    requires ScannerContract(scan)
    decreases |buf|
  {
    match scan(buf, false)
    case Failed(e) => Pumped(buf, [], log, ScanFailed(e))
    case Incomplete => Pumped(buf, [], log, Drained)
    case Token(advance, token) =>
      var parsed := parse(token);
      if !Agrees(parsed) then Pumped(buf, [], log, ParseMismatch)
      else
        var frame := Frame(buf[..advance], token, parsed.pkt);
        var line := FrameLine(parsed.pkt);
        match sink(log, line)
        case Some(e) => Pumped(buf[advance..], [frame], log + [line], SinkFailed(e))
        case None =>
          var more := Pump(scan, parse, sink, buf[advance..], log + [line]);
          Pumped(more.buf, [frame] + more.frames, more.log, more.stop)
  }

  /** Dumper.Write: a stored error short-circuits the call; otherwise the
      chunk is appended, its raw line is written (a failure of that write is
      ignored), the scan loop runs, and its error, if any, becomes the stored
      error. An unpoisoned write always reports the whole chunk as taken. */
  function Write(scan: Scanner, parse: Parser, sink: Sink, d: Dumper, p: seq<byte>): (r: WriteResult)
    requires ScannerContract(scan)
    ensures d.err.Some? ==> r == WriteResult(d, 0, d.err)
    ensures d.err.None? ==> r.n == |p| && r.dumper.err == r.err
  {
    if d.err.Some? then WriteResult(d, 0, d.err)
    else
      var pumped := Pump(scan, parse, sink, d.buf + p, d.log + [RawChunk(p)]);
      var err := Outcome(pumped.stop);
      WriteResult(Dumper(pumped.buf, Capture(d.err, err), pumped.log), |p|, err)
  }

  /** The replies of a sequence of writes. */
  datatype Reply = Reply(n: nat, err: Option<Error>)

  datatype Session = Session(dumper: Dumper, replies: seq<Reply>)

  /** One writer feeding the chunks to the dumper, one write per chunk. */
  function WriteAll(scan: Scanner, parse: Parser, sink: Sink, d: Dumper, chunks: seq<seq<byte>>): (s: Session)
    requires ScannerContract(scan)
    ensures |s.replies| == |chunks|
    ensures forall i | 0 <= i < |chunks| :: s.replies[i].n == 0 || s.replies[i].n == |chunks[i]|
    decreases |chunks|
  {
    if chunks == [] then Session(d, [])
    else
      var w := Write(scan, parse, sink, d, chunks[0]);
      var rest := WriteAll(scan, parse, sink, w.dumper, chunks[1..]);
      Session(rest.dumper, [Reply(w.n, w.err)] + rest.replies)
  }
}
