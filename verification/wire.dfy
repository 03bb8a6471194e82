/**
 The wire-level collaborators of the drpc packet dumper: bytes, decoded
 packets, errors, and the packet scanner and packet parser the dumper calls.

 The scanner and the parser live in files that are not part of this model.
 They are represented here by their types and by the contract the dumper
 relies on; every operation of the dumper takes them as parameters.
 */
module Wire {

  newtype byte = x: int | 0 <= x < 256

  datatype Option<+T> = None | Some(value: T)

  /** The errors a dumper can report. Scanner and parser errors are opaque
      to the dumper; the writer's failures are opaque too. */
  datatype Error =
    | Malformed(detail: string)   // a scanner or parser rejected the bytes
    | Internal(detail: string)    // an invariant of the implementation broke
    | WriteFailed(detail: string) // the output writer refused a line

  /** The error the dumper reports when scanner and parser disagree. */
  const InvalidParse: Error := Internal("invalid parse after scanner")

  /** One decoded frame, with the fields the dumper prints. */
  datatype Packet = Packet(
    streamID: nat,
    messageID: nat,
    kind: nat,
    continuation: bool,
    starting: bool,
    length: nat,
    data: seq<byte>)

  /** What one scanner call reports: a failure, "need more bytes" (a nil
      token), or a token together with the number of bytes it consumed. */
  datatype ScanResult =
    | Failed(err: Error)
    | Incomplete
    | Token(advance: nat, token: seq<byte>)

  /** The packet scanner: the buffered bytes and an end-of-stream flag. */
  type Scanner = (seq<byte>, bool) -> ScanResult

  /** What one parser call reports: the bytes it left over, the packet, and
      its success flag and error. */
  datatype ParseResult = ParseResult(rem: seq<byte>, pkt: Packet, ok: bool, err: Option<Error>)

  type Parser = seq<byte> -> ParseResult

  /** The contract the dumper relies on: whenever the scanner (called with
      the end-of-stream flag off) yields a token, it consumes at least one and
      at most all of the buffered bytes. */
  ghost predicate ScannerContract(scan: Scanner) {
    forall buf: seq<byte> :: scan(buf, false).Token? ==> 0 < scan(buf, false).advance <= |buf|
  }

  /** Frames are self-delimiting: a token found at the front of a buffer is
      found unchanged however many bytes arrive after it. */
  ghost predicate SelfDelimiting(scan: Scanner) {
    forall buf: seq<byte>, more: seq<byte> ::
      scan(buf, false).Token? ==> scan(buf + more, false) == scan(buf, false)
  }

  /** Scanner errors are final: a buffer the scanner rejects is rejected
      with the same error however many bytes arrive after it (the scanner
      never resynchronises). */
  ghost predicate FailuresStick(scan: Scanner) {
    forall buf: seq<byte>, more: seq<byte> ::
      scan(buf, false).Failed? ==> scan(buf + more, false) == scan(buf, false)
  }

  /** The parser consumed the whole token and reported success. */
  predicate Agrees(parsed: ParseResult) {
    parsed.ok && parsed.err.None? && |parsed.rem| == 0
  }
}
