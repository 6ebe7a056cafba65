/** The network side of a connection, reduced to what the handlers can
    observe: the calls made on the connection, in order, each answered by
    a fault fixed for the connection, and a scanner that hands out the
    tokens of the input one at a time. */
module Network {
  import opened Wrappers
  import opened Bytes
  import opened Errors
  import SeparatorProtocol

  /** A call made on the connection. Deadlines are recorded by the timeout
      they were computed from; the clock is not modelled. */
  datatype Event =
    | ReadDeadlineSet(timeout: nat)
    | WriteDeadlineSet(timeout: nat)
    | Written(data: bytes)
    | Closed

  /** How each kind of call on the connection ends: `None` for success. */
  datatype Faults = Faults(
    setReadDeadline: Option<Error>,
    setWriteDeadline: Option<Error>,
    write: Option<Error>,
    close: Option<Error>)

  const NO_FAULTS := Faults(None, None, None, None)

  /** `net.Conn`: every call is appended to `log`. */
  class Connection {
    var log: seq<Event>
    const faults: Faults

    constructor (faults: Faults)
      ensures log == [] && this.faults == faults
    {
      log := [];
      this.faults := faults;
    }

    method SetReadDeadline(timeout: nat) returns (err: Option<Error>)
      modifies this
      ensures log == old(log) + [ReadDeadlineSet(timeout)]
      ensures err == faults.setReadDeadline
    {
      log := log + [ReadDeadlineSet(timeout)];
      err := faults.setReadDeadline;
    }

    method SetWriteDeadline(timeout: nat) returns (err: Option<Error>)
      modifies this
      ensures log == old(log) + [WriteDeadlineSet(timeout)]
      ensures err == faults.setWriteDeadline
    {
      log := log + [WriteDeadlineSet(timeout)];
      err := faults.setWriteDeadline;
    }

    method Write(data: bytes) returns (err: Option<Error>)
      modifies this
      ensures log == old(log) + [Written(data)]
      ensures err == faults.write
    {
      log := log + [Written(data)];
      err := faults.write;
    }

    method Close() returns (err: Option<Error>)
      modifies this
      ensures log == old(log) + [Closed]
      ensures err == faults.close
    {
      log := log + [Closed];
      err := faults.close;
    }
  }

  /** One step of the scanner: a token, or the end of the tokens with the
      scanner's error (`None` at a clean end of the stream). */
  datatype ScanResult = Scanned(token: bytes) | Exhausted(err: Option<Error>)

  /** What the next `Scan` yields for the given pending tokens. */
  function Next(pending: seq<bytes>, failure: Option<Error>): (r: ScanResult)
    ensures r.Scanned? <==> |pending| > 0
    ensures r.Scanned? ==> r.token == pending[0]
    ensures r.Exhausted? ==> r.err == failure
  {
    if |pending| > 0 then Scanned(pending[0]) else Exhausted(failure)
  }

  /** `bufio.Scanner` over a connection: the tokens still to come, and the
      error it reports once they run out; a scanner that has stopped keeps
      reporting the same end. */
  class Scanner {
    var pending: seq<bytes>
    const failure: Option<Error>

    constructor (tokens: seq<bytes>, failure: Option<Error>)
      ensures pending == tokens && this.failure == failure
    {
      pending := tokens;
      this.failure := failure;
    }

    /** A scanner split by `ExtractToken` over an input that has fully
        arrived. */
    constructor FromInput(data: bytes, separator: bytes)
      requires |separator| > 0
      ensures pending == SeparatorProtocol.Tokens(data, separator) && failure == None
    {
      pending := SeparatorProtocol.Tokens(data, separator);
      failure := None;
    }

    /** `Scan`, together with `Bytes` or `Err` for its outcome. */
    method Scan() returns (r: ScanResult)
      modifies this
      ensures r == Next(old(pending), failure)
      ensures pending == if old(pending) == [] then [] else old(pending)[1..]
    {
      r := Next(pending, failure);
      if pending != [] {
        pending := pending[1..];
      }
    }
  }
}
