/**
 Dumper.Write written as the source writes it: a loop that keeps the
 buffer and the output in local state and returns from the middle of the
 loop, with the stored error captured on every return. It computes exactly
 what the functional `Dump.Write` computes.
 */
module DumpLoop {
  import opened Wire
  import opened Dump

  method WriteLoop(scan: Scanner, parse: Parser, sink: Sink, d: Dumper, p: seq<byte>)
    returns (next: Dumper, n: nat, err: Option<Error>)
    requires ScannerContract(scan)
    ensures WriteResult(next, n, err) == Write(scan, parse, sink, d, p)
  {
    if d.err.Some? {
      return d, 0, d.err;
    }
    var buf := d.buf + p;
    var log := d.log + [RawChunk(p)];
    ghost var goal := Pump(scan, parse, sink, buf, log);
    while true
      invariant Pump(scan, parse, sink, buf, log).buf == goal.buf
      invariant Pump(scan, parse, sink, buf, log).log == goal.log
      invariant Pump(scan, parse, sink, buf, log).stop == goal.stop
      decreases |buf|
    {
      var scanned := scan(buf, false);
      if scanned.Failed? {
        err := Some(scanned.err);
        return Dumper(buf, Capture(d.err, err), log), |p|, err;
      } else if scanned.Incomplete? {
        return Dumper(buf, Capture(d.err, None), log), |p|, None;
      }
      var parsed := parse(scanned.token);
      if !Agrees(parsed) {
        err := Some(InvalidParse);
        return Dumper(buf, Capture(d.err, err), log), |p|, err;
      }
      buf := buf[scanned.advance..];
      var line := FrameLine(parsed.pkt);
      var written := sink(log, line);
      log := log + [line];
      if written.Some? {
        return Dumper(buf, Capture(d.err, written), log), |p|, written;
      }
    }
  }
}
