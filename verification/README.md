# drpc packet dumper, modelled in Dafny

This project models the `Dumper` of `drpc/drpcwire/dump.go`. The dumper is a
push-style `io.Writer` that traces a drpc byte stream. Each `Write(p)`:

1. returns `(0, storedErr)` at once if an earlier write failed;
2. appends `p` to its buffer and writes a `write: <hex p>` line, ignoring
   that line's own write error;
3. loops: it asks the packet scanner (end-of-stream flag off) for the next
   complete frame; it stops with no error on a nil token and with the
   scanner's error on a failure; it parses the token and stops with the
   internal error "invalid parse after scanner" unless the parser reports
   `ok`, no error and no leftover bytes; it drops the frame's `advance`
   bytes from the buffer and writes one line for the packet, stopping with
   the writer's error if that write fails;
4. always returns `n == len(p)`, and a deferred function stores the returned
   error when none is stored yet.

## Layout

- `wire.dfy` (module `Wire`): bytes, `Packet`, `Error`, the scanner and parser
  as function types (`Scanner`, `Parser`), and their contracts.
  - `ScannerContract`: a token consumes at least one and at most all
    buffered bytes.
  - `SelfDelimiting`: a token found in a buffer is found unchanged when more
    bytes follow.
  - `FailuresStick`: a buffer the scanner rejects stays rejected, with the
    same error, when more bytes follow.
  - `Agrees`: the parser's consistency check.
- `dump.dfy` (module `Dump`): the dumper state `Dumper(buf, err, log)`.
  - `NewDumper`.
  - `Pump`, the scan/parse/advance loop, recursive on the buffer length.
  - `Write`.
  - `WriteAll`, one writer making a sequence of writes.
  - `Accounts`, a declarative description of one run of the loop. It is
    built from `Explains` (the consumed frames), `Accepted` (the writer's
    answers) and `Halts` (why the loop stopped).
- `dump_loop.dfy` (module `DumpLoop`): `WriteLoop`, the same operation
  written as the source writes it, as a `while` loop that returns from
  inside the loop.
- `dump_properties.dfy` (module `DumpProperties`): lemmas relating several
  calls or unfolding the loop.

The output writer is modelled as `Sink = (history, line) -> Option<Error>`,
an arbitrary function that may refuse any line. The dumper's `log` holds
every line the dumper hands to the writer, whether accepted or not. The
writer is passed to each `Write` as an argument. It is not a field of
`Dumper`.

## Model

| member | source | states |
|---|---|---|
| Dump.NewDumper | drpc/drpcwire/dump.go:19-21 | a new dumper has an empty buffer, no stored error and an empty log |
| Dump.Write | drpc/drpcwire/dump.go:23-63 | on a poisoned dumper the result is `(0, storedErr)` and buffer, error and log are unchanged; otherwise `n == len(p)` whatever happens later, and the returned error is the new stored error |
| Dump.Capture | drpc/drpcwire/dump.go:31-35 | the deferred capture never overwrites or clears a stored error; it stores the returned error only when none is stored |
| Dump.Outcome | drpc/drpcwire/dump.go:39-61 | a write returns nil exactly when the loop ended on a nil token; a scanner failure returns the scanner's own error and a writer failure the writer's own error; a parser disagreement returns the internal "invalid parse after scanner" error |
| Dump.WriteAll | drpc/drpcwire/dump.go:23-63 | a sequence of writes gives one reply per chunk, and each reply's count is either 0 (a poisoned dumper) or the whole chunk's length |
| DumpLoop.WriteLoop | drpc/drpcwire/dump.go:23-63 | the loop with early returns and the deferred capture computes exactly the state, count and error of the functional `Write` |
| DumpProperties.PumpAccounts | drpc/drpcwire/dump.go:37-62 | the consumed frames are, in order, the tokens the scanner finds at the front of what remains, each agreed on by the parser; the log gains one packet line per frame in that order; the writer accepted every line except possibly the last; the stop reason matches what scanner and parser say about the buffer left behind |
| DumpProperties.PumpUnique | drpc/drpcwire/dump.go:37-62 | conversely, the loop's result is the only one that description admits |
| DumpProperties.ExplainedInputSplits | drpc/drpcwire/dump.go:38-49 | the input is the concatenation of the frames' advanced-over prefixes followed by the remaining buffer, and each prefix is at least one byte long, so the loop terminates |
| DumpProperties.WriteDropsWholeFrames | drpc/drpcwire/dump.go:27-49 | after an unpoisoned write, `oldBuf ++ p` equals the dropped frame prefixes, in scan order, followed by the new buffer |
| DumpProperties.WriteLogsChunkThenFrames | drpc/drpcwire/dump.go:29-61 | after an unpoisoned write, the log is the old log, then the raw chunk line, then one line per dropped frame in scan order |
| DumpProperties.SinkFailureAfterAdvance | drpc/drpcwire/dump.go:49-61 | when the writer refuses a packet line, that line is the last logged, the write returns the writer's error, and the buffer has already moved past that frame |
| DumpProperties.DrainedWriteSucceeds | drpc/drpcwire/dump.go:37-43 | a write returns a nil error exactly when the loop stopped on a nil token, and the buffer it keeps is then one the scanner calls incomplete |
| DumpProperties.ScanFailureKeepsBytes | drpc/drpcwire/dump.go:37-41 | when the scanner fails, the write returns and stores exactly the scanner's error, and the scanner still rejects the buffer that is kept with that error |
| DumpProperties.MismatchKeepsToken | drpc/drpcwire/dump.go:45-48 | when the parser disagrees, the write returns and stores the internal error, and the token is still at the front of the buffer |
| DumpProperties.FreshDumperFirstWrite | drpc/drpcwire/dump.go:19-29 | the first write to a new dumper takes the whole chunk, logs it first, and keeps a suffix of it |
| DumpProperties.PoisonAbsorbs | drpc/drpcwire/dump.go:24-26 | a poisoned dumper is never changed by any sequence of writes, and each of them returns `(0, storedErr)` |
| DumpProperties.ErrorsStick | drpc/drpcwire/dump.go:24-35 | once a write returns an error, every later write returns `(0, thatErr)` and the stored error is that error for good |
| DumpProperties.CleanSessionIffNoErrors | drpc/drpcwire/dump.go:31-42 | starting unpoisoned, the dumper ends unpoisoned exactly when no write returned an error |
| DumpProperties.UnpoisonedWritesTakeWholeChunks | drpc/drpcwire/dump.go:37-61 | every write before the first error returns the full length of its chunk |
| DumpProperties.PumpIgnoresHistory | drpc/drpcwire/dump.go:51-61 | with a writer whose failures do not depend on earlier lines, the loop consumes the same frames and stops the same way whatever was logged before |
| DumpProperties.PumpResumes | drpc/drpcwire/dump.go:27-49 | with self-delimiting frames, a loop that drained over `buf` and is then run over `buf ++ more` consumes the same frames first and then goes on like a loop over the leftover bytes plus `more` |
| DumpProperties.JoinedPumpMatchesSplit | drpc/drpcwire/dump.go:27-62 | with self-delimiting frames and a writer whose failures do not depend on earlier lines: when the loop over the first chunk's worth of bytes drained, the loop over both chunks at once consumes the first loop's frames followed by those of a loop over the leftover bytes plus the second chunk, and ends with the same buffer and stop reason |
| DumpProperties.SplitWriteMatchesJoined | drpc/drpcwire/dump.go:23-63 | writing `p1` then `p2`, the first without error, gives the same buffer, returned error, stored error and decoded packet lines as writing `p1 ++ p2` at once |
| DumpProperties.DrainedBeforeMore | drpc/drpcwire/dump.go:37-62 | if the loop over `buf ++ more` stops only because the scanner needs more bytes, so does the loop over `buf` alone |
| DumpProperties.PrefixWriteSucceeds | drpc/drpcwire/dump.go:23-63 | if writing `p1 ++ p2` in one write returns no error, writing `p1` alone returns no error either |
| DumpProperties.JoinedSuccessSplits | drpc/drpcwire/dump.go:23-63 | chunk-boundary independence, errors: if one write of the whole stream returns no error, writing it in any number of chunks leaves no stored error |
| DumpProperties.SplitSuccessJoins | drpc/drpcwire/dump.go:23-63 | conversely, if the chunked writes leave no stored error, one write of the whole stream returns no error |
| DumpProperties.ChunkingSucceeds | drpc/drpcwire/dump.go:23-63 | one write of the whole stream returns no error exactly when the chunked writes leave no stored error, and exactly when every chunked write returns no error |
| DumpProperties.ChunkingKeepsBuffer | drpc/drpcwire/dump.go:23-63 | chunk-boundary independence, buffer: when one write of the whole stream returns no error, writing it in any number of chunks leaves the same buffer |
| DumpProperties.ChunkingKeepsPackets | drpc/drpcwire/dump.go:23-63 | chunk-boundary independence, output: when one write of the whole stream returns no error, writing it in any number of chunks logs the same packets in the same order |

## Left out

- `web/satellite/src/utils/configgen.go` is a build-time code generator. It does flag parsing, reflection and file output, and has no logic to state.
- The packet scanner `PacketScanner` and the parser `ParsePacket` are not part of this model. They are parameters. The dumper relies only on `ScannerContract`. `Write` requires that contract.
- `ScannerContract` excludes a token whose `advance` is negative, 0 or beyond the buffer. Go's `advance` is an `int`; the model's is a `nat`, so a negative value cannot even be represented. On such a token the Go code first parses it. If the parser disagrees, Go returns the internal error cleanly (drpc/drpcwire/dump.go:45-48). If the parser agrees, Go slices `d.buf[advance:]`, which panics when `advance` is negative or beyond the buffer. With `advance` 0 the slice leaves the buffer unchanged, so the loop writes the same packet line again and again until the writer refuses one (drpc/drpcwire/dump.go:59-60). With a writer that never fails, it loops forever. The model describes neither the panic nor the endless loop. It also leaves out the clean internal-error return that Go gives such a token when the parser rejects it.
- Header layout, varint rules and the maximum frame size belong to the scanner and parser. So do the errors they raise. Properties that depend on them are not modelled: a frame split byte by byte yields no line before its last byte; an unrecognized tag is an error; decoding a frame's bytes gives back its fields.
- The end-of-stream path, including the truncated-at-end error, is not modelled. `Write` always passes `false` to the scanner.
- `fmt.Fprintf` formatting is not modelled: hex rendering and the `%-5v` / `%-4d` padding. Lines are the events `RawChunk(p)` and `FrameLine(pkt)`.
- The error of the raw-chunk `Fprintf` is ignored, as in the source, so the model never asks the writer about that line.
- Packet field widths (uint64 identifiers, the byte-sized kind) are not modelled. The fields are `nat`, and the dumper only prints them.
- Concurrency is not modelled. The dumper has no locking and is used by one writer at a time.
- DumpProperties.SplitWriteMatchesJoined: requires the first write to return no error. If it fails, the dumper is poisoned and drops the second chunk, so the split and joined writes differ by design. `PrefixWriteSucceeds` shows that an error-free joined write implies an error-free first write. The lemma also needs two hypotheses the source does not state. Frames must be self-delimiting (`SelfDelimiting`). The writer's failures must not depend on earlier lines (`ForgetsHistory`, true of a writer that never fails). This is needed because the split writes log two raw-chunk lines where the joined write logs one.
- DumpProperties.JoinedPumpMatchesSplit: needs two hypotheses the source does not state. Frames must be self-delimiting (`SelfDelimiting`), so that a frame found in the first chunk's bytes is found again with the second chunk after it. The writer's failures must not depend on earlier lines (`ForgetsHistory`), because the joined loop and the second split loop start from different logs. Without `ForgetsHistory` the equality fails: a writer that refuses every line once anything has been logged already refuses the first frame of the joined loop, while the second split loop may drain.
- DumpProperties.DrainedBeforeMore: holds for scanners that satisfy `SelfDelimiting` and `FailuresStick`. These are properties of the packet scanner, which is not part of this model: frame boundaries are self-describing, and a malformed header is a fatal error that more bytes never repair.
- DumpProperties.PrefixWriteSucceeds: same scanner hypotheses as DrainedBeforeMore, and a writer satisfying `ForgetsHistory`.
- DumpProperties.JoinedSuccessSplits: same hypotheses as PrefixWriteSucceeds.
- DumpProperties.SplitSuccessJoins: needs self-delimiting frames (`SelfDelimiting`) and a writer satisfying `ForgetsHistory`, for the reasons given for SplitWriteMatchesJoined. It also needs at least one chunk. Zero chunks leave the dumper as it is. A write of the empty stream, however, still runs the scan loop over the old buffer, and that loop may fail.
- DumpProperties.ChunkingSucceeds: same hypotheses as PrefixWriteSucceeds, plus at least one chunk for the reason given for SplitSuccessJoins.
- DumpProperties.ChunkingKeepsBuffer: same hypotheses as ChunkingSucceeds. With zero chunks the buffer would be left unscanned, while the empty write scans it. It asks only that the whole stream be written without error, not that it be a whole number of well-formed frames.
- DumpProperties.ChunkingKeepsPackets: same hypotheses as ChunkingKeepsBuffer. It states equality of the decoded packets, not of the formatted lines, because formatting is not modelled.

