/**
 Properties of the drpc packet dumper that relate several calls or unfold
 the scan loop: buffer accounting, the uniqueness of the loop's outcome,
 the permanence of the first error, and independence from how the byte
 stream is cut into chunks.
 */
module DumpProperties {
  import opened Wire
  import opened Dump

  /** The writer's failures do not depend on what it was given before. */
  ghost predicate ForgetsHistory(sink: Sink) {
    forall before: seq<Event>, after: seq<Event>, line: Event :: sink(before, line) == sink(after, line)
  }

  /** The bytes of a sequence of chunks, in order. */
  function Flatten(chunks: seq<seq<byte>>): seq<byte>
    decreases |chunks|
  {
    if chunks == [] then [] else chunks[0] + Flatten(chunks[1..])
  }

  lemma {:induction false} DecodedAppend(a: seq<Event>, b: seq<Event>)
    ensures Decoded(a + b) == Decoded(a) + Decoded(b)
    decreases |a|
  {
    if a != [] {
      assert a + b != [];
      assert (a + b)[0] == a[0];
      assert (a + b)[1..] == a[1..] + b;
      DecodedAppend(a[1..], b);
      if a[0].FrameLine? {
        assert Decoded(a + b) == [a[0].pkt] + (Decoded(a[1..]) + Decoded(b));
        assert Decoded(a) == [a[0].pkt] + Decoded(a[1..]);
        AppendAssociates([a[0].pkt], Decoded(a[1..]), Decoded(b));
      } else {
        assert Decoded(a + b) == Decoded(a[1..]) + Decoded(b);
      }
    } else {
      assert a + b == b;
    }
  }

  lemma DecodedAfterChunk(log: seq<Event>, chunk: seq<byte>, frames: seq<Frame>)
    ensures Decoded(log + [RawChunk(chunk)] + Lines(frames)) == Decoded(log) + Decoded(Lines(frames))
  {
    var raw: seq<Event> := [RawChunk(chunk)];
    assert Decoded(raw) == [];
    DecodedAppend(log, raw);
    DecodedAppend(log + raw, Lines(frames));
  }

  /** An explained input is exactly the frames' raw bytes followed by what
      is left, and every frame advanced over at least one byte. */
  lemma {:induction false} ExplainedInputSplits(scan: Scanner, parse: Parser, input: seq<byte>, frames: seq<Frame>, rest: seq<byte>)
    requires ScannerContract(scan)
    requires Explains(scan, parse, input, frames, rest)
    ensures input == Consumed(frames) + rest
    ensures forall i | 0 <= i < |frames| :: |frames[i].raw| > 0
    decreases |frames|
  {
    if frames != [] {
      var f := frames[0];
      ExplainedInputSplits(scan, parse, input[|f.raw|..], frames[1..], rest);
      assert input == f.raw + input[|f.raw|..];
      forall i | 0 <= i < |frames|
        ensures |frames[i].raw| > 0
      {
        if i > 0 {
          assert frames[i] == frames[1..][i - 1];
        }
      }
    }
  }

  /** The scan loop's outcome meets its declarative description. */
  lemma {:induction false} PumpAccounts(scan: Scanner, parse: Parser, sink: Sink, buf: seq<byte>, log: seq<Event>)
    requires ScannerContract(scan)
    ensures Accounts(scan, parse, sink, buf, log, Pump(scan, parse, sink, buf, log))
    decreases |buf|
  {
    var scanned := scan(buf, false);
    if scanned.Token? && Agrees(parse(scanned.token)) {
      var advance := scanned.advance;
      var frame := Frame(buf[..advance], scanned.token, parse(scanned.token).pkt);
      var line := FrameLine(frame.pkt);
      if sink(log, line).None? {
        PumpAccounts(scan, parse, sink, buf[advance..], log + [line]);
        var more := Pump(scan, parse, sink, buf[advance..], log + [line]);
        var frames := [frame] + more.frames;
        assert frames[0] == frame && frames[1..] == more.frames;
        assert Lines(frames) == [line] + Lines(more.frames);
      } else {
        assert Lines([frame]) == [line] + Lines([]);
      }
    }
  }

  /** The scan loop logs one line per frame it consumed, after the lines
      logged before it. */
  lemma PumpLog(scan: Scanner, parse: Parser, sink: Sink, buf: seq<byte>, log: seq<Event>)
    requires ScannerContract(scan)
    ensures Pump(scan, parse, sink, buf, log).log == log + Lines(Pump(scan, parse, sink, buf, log).frames)
  {
    PumpAccounts(scan, parse, sink, buf, log);
  }

  /** The scan loop's outcome is the only one its declarative description
      admits. */
  lemma {:induction false} PumpUnique(scan: Scanner, parse: Parser, sink: Sink, buf: seq<byte>, log: seq<Event>, r: Pumped)
    requires ScannerContract(scan)
    requires Accounts(scan, parse, sink, buf, log, r)
    ensures r == Pump(scan, parse, sink, buf, log)
    decreases |buf|
  {
    if r.frames != [] {
      var f := r.frames[0];
      var line := FrameLine(f.pkt);
      assert Lines(r.frames) == [line] + Lines(r.frames[1..]);
      assert f.raw == buf[..|f.raw|];
      if !(|r.frames| == 1 && r.stop.SinkFailed?) {
        var tail := Pumped(r.buf, r.frames[1..], r.log, r.stop);
        assert Accounts(scan, parse, sink, buf[|f.raw|..], log + [line], tail);
        PumpUnique(scan, parse, sink, buf[|f.raw|..], log + [line], tail);
        assert f == Frame(buf[..|f.raw|], f.token, parse(f.token).pkt);
        assert sink(log, line) == None;
        assert r.frames == [f] + r.frames[1..];
        assert Pump(scan, parse, sink, buf, log) == Pumped(tail.buf, [f] + tail.frames, tail.log, tail.stop);
      } else {
        assert f == Frame(buf[..|f.raw|], f.token, parse(f.token).pkt);
        assert r.frames == [f] && r.frames[1..] == [];
        assert Explains(scan, parse, buf[|f.raw|..], [], r.buf);
        assert Pump(scan, parse, sink, buf, log) == Pumped(buf[|f.raw|..], [f], log + [line], r.stop);
      }
    }
  }

  /** After an unpoisoned write the chunk has been appended and then whole
      frames were dropped from the front, in scan order. */
  lemma WriteDropsWholeFrames(scan: Scanner, parse: Parser, sink: Sink, d: Dumper, p: seq<byte>)
    requires ScannerContract(scan)
    requires d.err.None?
    ensures var pumped := Pump(scan, parse, sink, d.buf + p, d.log + [RawChunk(p)]);
            d.buf + p == Consumed(pumped.frames) + Write(scan, parse, sink, d, p).dumper.buf
  {
    var pumped := Pump(scan, parse, sink, d.buf + p, d.log + [RawChunk(p)]);
    assert Write(scan, parse, sink, d, p).dumper.buf == pumped.buf;
    PumpAccounts(scan, parse, sink, d.buf + p, d.log + [RawChunk(p)]);
    ExplainedInputSplits(scan, parse, d.buf + p, pumped.frames, pumped.buf);
  }

  /** An unpoisoned write logs the chunk's raw line and then one line per
      dropped frame, in scan order, after everything logged before. */
  lemma WriteLogsChunkThenFrames(scan: Scanner, parse: Parser, sink: Sink, d: Dumper, p: seq<byte>)
    requires ScannerContract(scan)
    requires d.err.None?
    ensures var pumped := Pump(scan, parse, sink, d.buf + p, d.log + [RawChunk(p)]);
            Write(scan, parse, sink, d, p).dumper.log == d.log + [RawChunk(p)] + Lines(pumped.frames)
  {
    var pumped := Pump(scan, parse, sink, d.buf + p, d.log + [RawChunk(p)]);
    assert Write(scan, parse, sink, d, p).dumper.log == pumped.log;
    PumpAccounts(scan, parse, sink, d.buf + p, d.log + [RawChunk(p)]);
  }

  /** When the writer refuses a frame's line, the write returns the writer's
      error, that line is the last one logged, and the buffer has already
      been advanced past the frame. */
  lemma SinkFailureAfterAdvance(scan: Scanner, parse: Parser, sink: Sink, d: Dumper, p: seq<byte>)
    requires ScannerContract(scan)
    requires d.err.None?
    requires Pump(scan, parse, sink, d.buf + p, d.log + [RawChunk(p)]).stop.SinkFailed?
    ensures var pumped := Pump(scan, parse, sink, d.buf + p, d.log + [RawChunk(p)]);
            var w := Write(scan, parse, sink, d, p);
            && |pumped.frames| > 0
            && w.err == Some(pumped.stop.err)
            && |w.dumper.log| > 0
            && w.dumper.log[|w.dumper.log| - 1] == FrameLine(pumped.frames[|pumped.frames| - 1].pkt)
            && d.buf + p == Consumed(pumped.frames) + w.dumper.buf
  {
    var pumped := Pump(scan, parse, sink, d.buf + p, d.log + [RawChunk(p)]);
    PumpAccounts(scan, parse, sink, d.buf + p, d.log + [RawChunk(p)]);
    LastLine(sink, d.log + [RawChunk(p)], pumped.frames, pumped.stop);
    WriteDropsWholeFrames(scan, parse, sink, d, p);
  }

  lemma {:induction false} LastLine(sink: Sink, log: seq<Event>, frames: seq<Frame>, stop: Stop)
    requires Accepted(sink, log, frames, stop) && stop.SinkFailed?
    ensures |frames| > 0
    ensures var all := log + Lines(frames); all[|all| - 1] == FrameLine(frames[|frames| - 1].pkt)
    decreases |frames|
  {
    assert Lines(frames) == [FrameLine(frames[0].pkt)] + Lines(frames[1..]);
    if |frames| > 1 {
      LastLine(sink, log + [FrameLine(frames[0].pkt)], frames[1..], stop);
    }
  }

  /** A write returns no error exactly when its scan loop ran until the
      scanner asked for more bytes; the buffer it keeps is then the
      incomplete tail. */
  lemma DrainedWriteSucceeds(scan: Scanner, parse: Parser, sink: Sink, d: Dumper, p: seq<byte>)
    requires ScannerContract(scan)
    requires d.err.None?
    ensures var pumped := Pump(scan, parse, sink, d.buf + p, d.log + [RawChunk(p)]);
            var w := Write(scan, parse, sink, d, p);
            && (w.err.None? <==> pumped.stop.Drained?)
            && (w.err.None? ==> scan(w.dumper.buf, false).Incomplete?)
  {
    PumpAccounts(scan, parse, sink, d.buf + p, d.log + [RawChunk(p)]);
  }

  /** When the parser disagrees with the scanner, the write reports the
      internal error and keeps the offending token's bytes at the front of
      the buffer. */
  lemma MismatchKeepsToken(scan: Scanner, parse: Parser, sink: Sink, d: Dumper, p: seq<byte>)
    requires ScannerContract(scan)
    requires d.err.None?
    requires Pump(scan, parse, sink, d.buf + p, d.log + [RawChunk(p)]).stop.ParseMismatch?
    ensures var w := Write(scan, parse, sink, d, p);
            && w.err == Some(InvalidParse)
            && w.dumper.err == Some(InvalidParse)
            && scan(w.dumper.buf, false).Token?
            && scan(w.dumper.buf, false).advance <= |w.dumper.buf|
            && !Agrees(parse(scan(w.dumper.buf, false).token))
  {
    PumpAccounts(scan, parse, sink, d.buf + p, d.log + [RawChunk(p)]);
  }

  /** When the scanner fails, the write returns and stores the scanner's own
      error, and the bytes the scanner rejected are still buffered. */
  lemma ScanFailureKeepsBytes(scan: Scanner, parse: Parser, sink: Sink, d: Dumper, p: seq<byte>)
    requires ScannerContract(scan)
    requires d.err.None?
    requires Pump(scan, parse, sink, d.buf + p, d.log + [RawChunk(p)]).stop.ScanFailed?
    ensures var e := Pump(scan, parse, sink, d.buf + p, d.log + [RawChunk(p)]).stop.err;
            var w := Write(scan, parse, sink, d, p);
            && w.err == Some(e)
            && w.dumper.err == Some(e)
            && scan(w.dumper.buf, false) == Failed(e)
  {
    PumpAccounts(scan, parse, sink, d.buf + p, d.log + [RawChunk(p)]);
  }

  /** The first write to a fresh dumper takes the whole chunk, logs it
      first, and keeps a suffix of it. */
  lemma FreshDumperFirstWrite(scan: Scanner, parse: Parser, sink: Sink, p: seq<byte>)
    requires ScannerContract(scan)
    ensures var w := Write(scan, parse, sink, NewDumper(), p);
            && w.n == |p|
            && w.dumper.err == w.err
            && |w.dumper.log| > 0 && w.dumper.log[0] == RawChunk(p)
            && |w.dumper.buf| <= |p| && w.dumper.buf == p[|p| - |w.dumper.buf|..]
  {
    WriteDropsWholeFrames(scan, parse, sink, NewDumper(), p);
    WriteLogsChunkThenFrames(scan, parse, sink, NewDumper(), p);
    assert NewDumper().buf + p == p;
  }

  /** A poisoned dumper stays exactly as it is and answers every later
      write with zero bytes and its stored error. */
  lemma {:induction false} PoisonAbsorbs(scan: Scanner, parse: Parser, sink: Sink, d: Dumper, chunks: seq<seq<byte>>)
    requires ScannerContract(scan)
    requires d.err.Some?
    ensures var s := WriteAll(scan, parse, sink, d, chunks);
            && s.dumper == d
            && forall i | 0 <= i < |s.replies| :: s.replies[i] == Reply(0, d.err)
    decreases |chunks|
  {
    if chunks != [] {
      PoisonAbsorbs(scan, parse, sink, d, chunks[1..]);
    }
  }

  /** The session after a first write is that write's reply followed by the
      session of the remaining chunks from the dumper it left. */
  lemma WriteAllStep(scan: Scanner, parse: Parser, sink: Sink, d: Dumper, chunks: seq<seq<byte>>)
    requires ScannerContract(scan)
    requires chunks != []
    ensures var w := Write(scan, parse, sink, d, chunks[0]);
            var rest := WriteAll(scan, parse, sink, w.dumper, chunks[1..]);
            var s := WriteAll(scan, parse, sink, d, chunks);
            && s.dumper == rest.dumper
            && s.replies[0] == Reply(w.n, w.err)
            && forall i | 0 <= i < |rest.replies| :: s.replies[i + 1] == rest.replies[i]
  {
  }

  /** Over any sequence of writes, once a write reports an error every later
      write reports that same error with zero bytes, and the stored error is
      that error; it is never overwritten or cleared. */
  lemma {:induction false} ErrorsStick(scan: Scanner, parse: Parser, sink: Sink, d: Dumper, chunks: seq<seq<byte>>)
    requires ScannerContract(scan)
    ensures var s := WriteAll(scan, parse, sink, d, chunks);
            && (forall i, j | 0 <= i < j < |s.replies| && s.replies[i].err.Some? :: s.replies[j] == Reply(0, s.replies[i].err))
            && (forall i | 0 <= i < |s.replies| && s.replies[i].err.Some? :: s.dumper.err == s.replies[i].err)
            && (d.err.Some? ==> s.dumper.err == d.err)
    decreases |chunks|
  {
    if chunks != [] {
      var w := Write(scan, parse, sink, d, chunks[0]);
      var rest := WriteAll(scan, parse, sink, w.dumper, chunks[1..]);
      var s := WriteAll(scan, parse, sink, d, chunks);
      WriteAllStep(scan, parse, sink, d, chunks);
      if w.err.Some? {
        PoisonAbsorbs(scan, parse, sink, w.dumper, chunks[1..]);
        assert w.dumper.err == w.err;
        forall i | 0 <= i < |s.replies|
          ensures s.replies[i].err == w.err
        {
          if i > 0 {
            assert s.replies[i] == rest.replies[i - 1];
          }
        }
      } else {
        ErrorsStick(scan, parse, sink, w.dumper, chunks[1..]);
        forall i, j | 0 <= i < j < |s.replies| && s.replies[i].err.Some?
          ensures s.replies[j] == Reply(0, s.replies[i].err)
        {
          assert s.replies[i] == rest.replies[i - 1];
          assert s.replies[j] == rest.replies[j - 1];
        }
        forall i | 0 <= i < |s.replies| && s.replies[i].err.Some?
          ensures s.dumper.err == s.replies[i].err
        {
          assert s.replies[i] == rest.replies[i - 1];
        }
      }
    }
  }

  /** Starting unpoisoned, the dumper ends unpoisoned exactly when no write
      reported an error. */
  lemma {:induction false} CleanSessionIffNoErrors(scan: Scanner, parse: Parser, sink: Sink, d: Dumper, chunks: seq<seq<byte>>)
    requires ScannerContract(scan)
    requires d.err.None?
    ensures var s := WriteAll(scan, parse, sink, d, chunks);
            s.dumper.err.None? <==> forall i | 0 <= i < |s.replies| :: s.replies[i].err.None?
    decreases |chunks|
  {
    if chunks != [] {
      var w := Write(scan, parse, sink, d, chunks[0]);
      var rest := WriteAll(scan, parse, sink, w.dumper, chunks[1..]);
      var s := WriteAll(scan, parse, sink, d, chunks);
      WriteAllStep(scan, parse, sink, d, chunks);
      if w.err.Some? {
        PoisonAbsorbs(scan, parse, sink, w.dumper, chunks[1..]);
        assert s.dumper.err == w.err;
      } else {
        CleanSessionIffNoErrors(scan, parse, sink, w.dumper, chunks[1..]);
        if s.dumper.err.None? {
          forall i | 0 <= i < |s.replies|
            ensures s.replies[i].err.None?
          {
            if i > 0 {
              assert s.replies[i] == rest.replies[i - 1];
            }
          }
        }
        if forall i | 0 <= i < |s.replies| :: s.replies[i].err.None? {
          forall i | 0 <= i < |rest.replies|
            ensures rest.replies[i].err.None?
          {
            assert rest.replies[i] == s.replies[i + 1];
          }
        }
      }
    }
  }

  /** Every write made before the first error takes its whole chunk. */
  lemma {:induction false} UnpoisonedWritesTakeWholeChunks(scan: Scanner, parse: Parser, sink: Sink, d: Dumper, chunks: seq<seq<byte>>)
    requires ScannerContract(scan)
    requires d.err.None?
    ensures var s := WriteAll(scan, parse, sink, d, chunks);
            forall i | 0 <= i < |s.replies| && (forall k | 0 <= k < i :: s.replies[k].err.None?) ::
              s.replies[i].n == |chunks[i]|
    decreases |chunks|
  {
    if chunks != [] {
      var w := Write(scan, parse, sink, d, chunks[0]);
      var rest := WriteAll(scan, parse, sink, w.dumper, chunks[1..]);
      var s := WriteAll(scan, parse, sink, d, chunks);
      assert s.replies == [Reply(w.n, w.err)] + rest.replies;
      if w.err.None? {
        UnpoisonedWritesTakeWholeChunks(scan, parse, sink, w.dumper, chunks[1..]);
        forall i | 0 <= i < |s.replies| && (forall k | 0 <= k < i :: s.replies[k].err.None?)
          ensures s.replies[i].n == |chunks[i]|
        {
          if i > 0 {
            assert s.replies[i] == rest.replies[i - 1];
            assert chunks[i] == chunks[1..][i - 1];
            forall k | 0 <= k < i - 1
              ensures rest.replies[k].err.None?
            {
              assert rest.replies[k] == s.replies[k + 1];
            }
          }
        }
      }
    }
  }

  /** With a writer whose failures do not depend on history, the scan loop
      consumes the same frames and stops the same way whatever was logged
      before it. */
  lemma {:induction false} PumpIgnoresHistory(scan: Scanner, parse: Parser, sink: Sink, buf: seq<byte>, log1: seq<Event>, log2: seq<Event>)
    requires ScannerContract(scan)
    requires ForgetsHistory(sink)
    ensures var a := Pump(scan, parse, sink, buf, log1);
            var b := Pump(scan, parse, sink, buf, log2);
            a.buf == b.buf && a.frames == b.frames && a.stop == b.stop
    decreases |buf|
  {
    var scanned := scan(buf, false);
    if scanned.Token? && Agrees(parse(scanned.token)) {
      var line := FrameLine(parse(scanned.token).pkt);
      assert sink(log1, line) == sink(log2, line);
      if sink(log1, line).None? {
        PumpIgnoresHistory(scan, parse, sink, buf[scanned.advance..], log1 + [line], log2 + [line]);
      }
    }
  }

  /** One turn of the scan loop when the scanner yields a token the parser
      agrees on and the writer accepts the frame's line. */
  lemma PumpStep(scan: Scanner, parse: Parser, sink: Sink, buf: seq<byte>, log: seq<Event>)
    requires ScannerContract(scan)
    requires scan(buf, false).Token? && Agrees(parse(scan(buf, false).token))
    requires sink(log, FrameLine(parse(scan(buf, false).token).pkt)).None?
    ensures var scanned := scan(buf, false);
            var pkt := parse(scanned.token).pkt;
            var more := Pump(scan, parse, sink, buf[scanned.advance..], log + [FrameLine(pkt)]);
            Pump(scan, parse, sink, buf, log)
              == Pumped(more.buf, [Frame(buf[..scanned.advance], scanned.token, pkt)] + more.frames, more.log, more.stop)
  {
  }

  /** Sequence concatenation is associative. Stated apart so that proofs
      about the scan loop can use it without the solver rediscovering it
      among their many other facts. */
  lemma AppendAssociates<T>(a: seq<T>, b: seq<T>, c: seq<T>)
    ensures a + (b + c) == (a + b) + c
  {
  }

  /** If the scan loop over `buf` ran until the scanner asked for more bytes,
      then running it over `buf + more` consumes the same frames first and
      then continues exactly as a loop over the leftover bytes plus `more`. */
  lemma {:induction false} PumpResumes(scan: Scanner, parse: Parser, sink: Sink, buf: seq<byte>, more: seq<byte>, log: seq<Event>)
    requires ScannerContract(scan)
    requires SelfDelimiting(scan)
    requires Pump(scan, parse, sink, buf, log).stop.Drained?
    ensures var a := Pump(scan, parse, sink, buf, log);
            var b := Pump(scan, parse, sink, buf + more, log);
            var c := Pump(scan, parse, sink, a.buf + more, a.log);
            b.buf == c.buf && b.frames == a.frames + c.frames && b.log == c.log && b.stop == c.stop
    decreases |buf|
  {
    var scanned := scan(buf, false);
    if scanned.Token? {
      var advance := scanned.advance;
      var pkt := parse(scanned.token).pkt;
      var frame := Frame(buf[..advance], scanned.token, pkt);
      var line := FrameLine(pkt);
      if !Agrees(parse(scanned.token)) || sink(log, line).Some? {
        assert false;
      }
      PumpStep(scan, parse, sink, buf, log);
      assert scan(buf + more, false) == scanned;
      PumpStep(scan, parse, sink, buf + more, log);
      assert (buf + more)[..advance] == buf[..advance];
      assert (buf + more)[advance..] == buf[advance..] + more;
      PumpResumes(scan, parse, sink, buf[advance..], more, log + [line]);
      var a' := Pump(scan, parse, sink, buf[advance..], log + [line]);
      var c := Pump(scan, parse, sink, a'.buf + more, a'.log);
      AppendAssociates([frame], a'.frames, c.frames);
    }
  }

  lemma {:induction false} LinesAppend(a: seq<Frame>, b: seq<Frame>)
    ensures Lines(a + b) == Lines(a) + Lines(b)
    decreases |a|
  {
    if a == [] {
      assert a + b == b;
    } else {
      assert (a + b)[0] == a[0];
      assert (a + b)[1..] == a[1..] + b;
      LinesAppend(a[1..], b);
    }
  }

  /** The scan loop over two chunks' worth of bytes, when the loop over the
      first chunk's worth drained, consumes the first loop's frames and then
      the frames of a loop over what the first left plus the second chunk. */
  lemma JoinedPumpMatchesSplit(scan: Scanner, parse: Parser, sink: Sink, buf: seq<byte>, p1: seq<byte>, p2: seq<byte>,
                               log1: seq<Event>, log2: seq<Event>, log12: seq<Event>)
    requires ScannerContract(scan)
    requires SelfDelimiting(scan)
    requires ForgetsHistory(sink)
    requires Pump(scan, parse, sink, buf + p1, log1).stop.Drained?
    ensures var first := Pump(scan, parse, sink, buf + p1, log1);
            var second := Pump(scan, parse, sink, first.buf + p2, log2);
            var joined := Pump(scan, parse, sink, buf + (p1 + p2), log12);
            && joined.buf == second.buf
            && joined.stop == second.stop
            && joined.frames == first.frames + second.frames
  {
    var first := Pump(scan, parse, sink, buf + p1, log1);
    var first' := Pump(scan, parse, sink, buf + p1, log12);
    PumpIgnoresHistory(scan, parse, sink, buf + p1, log1, log12);
    assert first'.stop.Drained? && first'.buf == first.buf && first'.frames == first.frames;
    PumpResumes(scan, parse, sink, buf + p1, p2, log12);
    var resumed := Pump(scan, parse, sink, first'.buf + p2, first'.log);
    AppendAssociates(buf, p1, p2);
    var joined := Pump(scan, parse, sink, buf + (p1 + p2), log12);
    assert joined.buf == resumed.buf && joined.stop == resumed.stop && joined.frames == first.frames + resumed.frames;
    PumpIgnoresHistory(scan, parse, sink, first.buf + p2, first'.log, log2);
  }

  /** The log of the joined write and the log of the split writes decode to
      the same packets. */
  lemma DecodedSplitMatchesJoined(log: seq<Event>, p1: seq<byte>, p2: seq<byte>, f1: seq<Frame>, f2: seq<Frame>)
    ensures Decoded(log + [RawChunk(p1 + p2)] + Lines(f1 + f2))
         == Decoded((log + [RawChunk(p1)] + Lines(f1)) + [RawChunk(p2)] + Lines(f2))
  {
    DecodedAfterChunk(log, p1 + p2, f1 + f2);
    DecodedAfterChunk(log, p1, f1);
    DecodedAfterChunk(log + [RawChunk(p1)] + Lines(f1), p2, f2);
    LinesAppend(f1, f2);
    DecodedAppend(Lines(f1), Lines(f2));
    AppendAssociates(Decoded(log), Decoded(Lines(f1)), Decoded(Lines(f2)));
  }

  /** Writing two chunks one after the other, the first without error,
      leaves the same buffer, returns the same error and logs the same
      frames as writing their concatenation at once. */
  lemma SplitWriteMatchesJoined(scan: Scanner, parse: Parser, sink: Sink, d: Dumper, p1: seq<byte>, p2: seq<byte>)
    requires ScannerContract(scan)
    requires SelfDelimiting(scan)
    requires ForgetsHistory(sink)
    requires d.err.None?
    requires Write(scan, parse, sink, d, p1).err.None?
    ensures var split := Write(scan, parse, sink, Write(scan, parse, sink, d, p1).dumper, p2);
            var joined := Write(scan, parse, sink, d, p1 + p2);
            && joined.dumper.buf == split.dumper.buf
            && joined.err == split.err
            && joined.dumper.err == split.dumper.err
            && Decoded(joined.dumper.log) == Decoded(split.dumper.log)
  {
    var log1 := d.log + [RawChunk(p1)];
    var log12 := d.log + [RawChunk(p1 + p2)];
    var first := Pump(scan, parse, sink, d.buf + p1, log1);
    var log2 := first.log + [RawChunk(p2)];
    var second := Pump(scan, parse, sink, first.buf + p2, log2);
    var joined := Pump(scan, parse, sink, d.buf + (p1 + p2), log12);
    JoinedPumpMatchesSplit(scan, parse, sink, d.buf, p1, p2, log1, log2, log12);
    PumpLog(scan, parse, sink, d.buf + p1, log1);
    PumpLog(scan, parse, sink, first.buf + p2, log2);
    PumpLog(scan, parse, sink, d.buf + (p1 + p2), log12);
    DecodedSplitMatchesJoined(d.log, p1, p2, first.frames, second.frames);
  }

  /** If the scan loop over `buf + more` ran until the scanner asked for
      more bytes, so did the loop over `buf` alone: frames found in `buf`
      are found again with `more` after them, and a scanner error in `buf`
      would have stayed an error. */
  lemma {:induction false} DrainedBeforeMore(scan: Scanner, parse: Parser, sink: Sink, buf: seq<byte>, more: seq<byte>, log: seq<Event>)
    requires ScannerContract(scan)
    requires SelfDelimiting(scan)
    requires FailuresStick(scan)
    requires Pump(scan, parse, sink, buf + more, log).stop.Drained?
    ensures Pump(scan, parse, sink, buf, log).stop.Drained?
    decreases |buf|
  {
    var scanned := scan(buf, false);
    if scanned.Failed? {
      assert false;
    } else if scanned.Token? {
      var advance := scanned.advance;
      var line := FrameLine(parse(scanned.token).pkt);
      assert scan(buf + more, false) == scanned;
      if !Agrees(parse(scanned.token)) || sink(log, line).Some? {
        assert false;
      }
      assert (buf + more)[advance..] == buf[advance..] + more;
      DrainedBeforeMore(scan, parse, sink, buf[advance..], more, log + [line]);
    }
  }

  /** A write whose chunk is followed by more bytes in a single error-free
      write would itself have been error-free. */
  lemma PrefixWriteSucceeds(scan: Scanner, parse: Parser, sink: Sink, d: Dumper, p1: seq<byte>, p2: seq<byte>)
    requires ScannerContract(scan)
    requires SelfDelimiting(scan)
    requires FailuresStick(scan)
    requires ForgetsHistory(sink)
    requires d.err.None?
    requires Write(scan, parse, sink, d, p1 + p2).err.None?
    ensures Write(scan, parse, sink, d, p1).err.None?
  {
    var log1 := d.log + [RawChunk(p1)];
    var log12 := d.log + [RawChunk(p1 + p2)];
    AppendAssociates(d.buf, p1, p2);
    DrainedBeforeMore(scan, parse, sink, d.buf + p1, p2, log12);
    PumpIgnoresHistory(scan, parse, sink, d.buf + p1, log12, log1);
  }

  /* Chunk-boundary independence: feeding a byte stream to a dumper in any
     number of chunks is the same as feeding the whole stream in one write.
     The three lemmas below state it for the errors, the buffer left behind
     and the packets logged. */

  /** If one write of the whole stream returns no error, writing it in
      chunks leaves no stored error either. */
  lemma {:induction false} JoinedSuccessSplits(scan: Scanner, parse: Parser, sink: Sink, d: Dumper, chunks: seq<seq<byte>>)
    requires ScannerContract(scan)
    requires SelfDelimiting(scan)
    requires FailuresStick(scan)
    requires ForgetsHistory(sink)
    requires Write(scan, parse, sink, d, Flatten(chunks)).err.None?
    ensures WriteAll(scan, parse, sink, d, chunks).dumper.err.None?
    decreases |chunks|
  {
    if chunks != [] {
      var w1 := Write(scan, parse, sink, d, chunks[0]);
      var rest := chunks[1..];
      assert Flatten(chunks) == chunks[0] + Flatten(rest);
      WriteAllStep(scan, parse, sink, d, chunks);
      if rest == [] {
        assert Flatten(chunks) == chunks[0];
      } else {
        PrefixWriteSucceeds(scan, parse, sink, d, chunks[0], Flatten(rest));
        SplitWriteMatchesJoined(scan, parse, sink, d, chunks[0], Flatten(rest));
        JoinedSuccessSplits(scan, parse, sink, w1.dumper, rest);
      }
    }
  }

  /** If writing a stream in chunks leaves no stored error, one write of the
      whole stream returns no error either. */
  lemma {:induction false} SplitSuccessJoins(scan: Scanner, parse: Parser, sink: Sink, d: Dumper, chunks: seq<seq<byte>>)
    requires ScannerContract(scan)
    requires SelfDelimiting(scan)
    requires ForgetsHistory(sink)
    requires |chunks| > 0
    requires WriteAll(scan, parse, sink, d, chunks).dumper.err.None?
    ensures Write(scan, parse, sink, d, Flatten(chunks)).err.None?
    decreases |chunks|
  {
    if d.err.Some? {
      PoisonAbsorbs(scan, parse, sink, d, chunks);
      assert false;
    }
    var w1 := Write(scan, parse, sink, d, chunks[0]);
    var rest := chunks[1..];
    assert Flatten(chunks) == chunks[0] + Flatten(rest);
    if rest == [] {
      assert Flatten(chunks) == chunks[0];
    } else {
      if w1.err.Some? {
        PoisonAbsorbs(scan, parse, sink, w1.dumper, rest);
        assert false;
      }
      SplitSuccessJoins(scan, parse, sink, w1.dumper, rest);
      SplitWriteMatchesJoined(scan, parse, sink, d, chunks[0], Flatten(rest));
    }
  }

  /** One write of the whole stream returns no error exactly when the
      chunked writes leave no stored error, and exactly when every one of
      them returns no error. */
  lemma ChunkingSucceeds(scan: Scanner, parse: Parser, sink: Sink, d: Dumper, chunks: seq<seq<byte>>)
    requires ScannerContract(scan)
    requires SelfDelimiting(scan)
    requires FailuresStick(scan)
    requires ForgetsHistory(sink)
    requires d.err.None? && |chunks| > 0
    ensures var s := WriteAll(scan, parse, sink, d, chunks);
            var w := Write(scan, parse, sink, d, Flatten(chunks));
            && (w.err.None? <==> s.dumper.err.None?)
            && (w.err.None? <==> forall i | 0 <= i < |s.replies| :: s.replies[i].err.None?)
  {
    if Write(scan, parse, sink, d, Flatten(chunks)).err.None? {
      JoinedSuccessSplits(scan, parse, sink, d, chunks);
    }
    if WriteAll(scan, parse, sink, d, chunks).dumper.err.None? {
      SplitSuccessJoins(scan, parse, sink, d, chunks);
    }
    CleanSessionIffNoErrors(scan, parse, sink, d, chunks);
  }

  /** An error-free write of the whole stream leaves the same buffer as
      writing it in chunks. */
  lemma {:induction false} ChunkingKeepsBuffer(scan: Scanner, parse: Parser, sink: Sink, d: Dumper, chunks: seq<seq<byte>>)
    requires ScannerContract(scan)
    requires SelfDelimiting(scan)
    requires FailuresStick(scan)
    requires ForgetsHistory(sink)
    requires d.err.None? && |chunks| > 0
    requires Write(scan, parse, sink, d, Flatten(chunks)).err.None?
    ensures Write(scan, parse, sink, d, Flatten(chunks)).dumper.buf == WriteAll(scan, parse, sink, d, chunks).dumper.buf
    decreases |chunks|
  {
    var w1 := Write(scan, parse, sink, d, chunks[0]);
    var rest := chunks[1..];
    assert Flatten(chunks) == chunks[0] + Flatten(rest);
    if rest == [] {
      assert Flatten(chunks) == chunks[0];
    } else {
      PrefixWriteSucceeds(scan, parse, sink, d, chunks[0], Flatten(rest));
      SplitWriteMatchesJoined(scan, parse, sink, d, chunks[0], Flatten(rest));
      ChunkingKeepsBuffer(scan, parse, sink, w1.dumper, rest);
    }
  }

  /** An error-free write of the whole stream logs the same packets, in the
      same order, as writing it in chunks. */
  lemma {:induction false} ChunkingKeepsPackets(scan: Scanner, parse: Parser, sink: Sink, d: Dumper, chunks: seq<seq<byte>>)
    requires ScannerContract(scan)
    requires SelfDelimiting(scan)
    requires FailuresStick(scan)
    requires ForgetsHistory(sink)
    requires d.err.None? && |chunks| > 0
    requires Write(scan, parse, sink, d, Flatten(chunks)).err.None?
    ensures Decoded(Write(scan, parse, sink, d, Flatten(chunks)).dumper.log) == Decoded(WriteAll(scan, parse, sink, d, chunks).dumper.log)
    decreases |chunks|
  {
    var w1 := Write(scan, parse, sink, d, chunks[0]);
    var rest := chunks[1..];
    assert Flatten(chunks) == chunks[0] + Flatten(rest);
    if rest == [] {
      assert Flatten(chunks) == chunks[0];
    } else {
      PrefixWriteSucceeds(scan, parse, sink, d, chunks[0], Flatten(rest));
      SplitWriteMatchesJoined(scan, parse, sink, d, chunks[0], Flatten(rest));
      ChunkingKeepsPackets(scan, parse, sink, w1.dumper, rest);
    }
  }
}
