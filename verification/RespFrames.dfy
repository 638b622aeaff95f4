/** What one request frame is: parsing from scratch, and the request encoding. */
module RespFrames {
  import opened ByteStrings
  import opened Decimal
  import Inline

  const CR: Byte := 13
  const LF: Byte := 10
  const ASTERISK: Byte := 42
  const DOLLAR: Byte := 36
  const INLINE_MAX_SIZE: nat := 65536
  const MULTIBULK_MAX: int := 1048576

  datatype ProtoError =
    | InvalidMultibulkLength
    | InvalidBulkLength
    | ExpectedDollar(c: Byte)
    | TooBigInline
    | UnbalancedQuotes
    | TooBigMbulkCount
    | TooBigBulkCount

  datatype Parsed =
    | Command(args: seq<Bytes>)
    | Empty
    | Incomplete
    | Error(e: ProtoError)

  /** The result of one parse and the bytes it takes off the buffer. */
  datatype Outcome = Outcome(parsed: Parsed, consumed: nat)

  type Range = (nat, nat)

  /** First position of `b` at or after `from`, or the length. */
  function IndexOf(buf: Bytes, from: nat, b: Byte): (i: nat)
    requires from <= |buf|
    ensures from <= i <= |buf|
    ensures forall k :: from <= k < i ==> buf[k] != b
    ensures i < |buf| ==> buf[i] == b
    decreases |buf| - from
  {
    if from == |buf| || buf[from] == b then from else IndexOf(buf, from + 1, b)
  }

  lemma IndexOfUnique(buf: Bytes, from: nat, b: Byte, i: nat)
    requires from <= i <= |buf|
    requires forall k :: from <= k < i ==> buf[k] != b
    requires i < |buf| ==> buf[i] == b
    ensures IndexOf(buf, from, b) == i
  {
  }

  datatype Line = Found(end: nat) | Unterminated | Malformed

  /** The header line that starts at `from` and ends at a CR LF. */
  function LineAt(buf: Bytes, from: nat): (r: Line)
    requires from <= |buf|
    ensures r.Found? ==> from <= r.end && r.end + 2 <= |buf|
  {
    var cr := IndexOf(buf, from, CR);
    if cr + 1 >= |buf| then Unterminated
    else if buf[cr + 1] == LF then Found(cr)
    else Malformed
  }

  function Slices(buf: Bytes, ranges: seq<Range>): seq<Bytes>
    requires forall k :: 0 <= k < |ranges| ==> ranges[k].0 <= ranges[k].1 <= |buf|
  {
    seq(|ranges|, k requires 0 <= k < |ranges| => buf[ranges[k].0..ranges[k].1])
  }

  ghost predicate RangesWithin(ranges: seq<Range>, n: nat) {
    forall k :: 0 <= k < |ranges| ==> ranges[k].0 <= ranges[k].1 <= n
  }

  function Nothing(): Outcome {
    Outcome(Incomplete, 0)
  }

  function Fail(e: ProtoError): Outcome {
    Outcome(Error(e), 0)
  }

  // ------------------------------------------------- parsing from scratch

  /** The bulks from `pos` on, `remaining` of them. */
  function Bulks(buf: Bytes, max: nat, pos: nat, remaining: nat, args: seq<Bytes>): Outcome
    requires pos <= |buf| && remaining > 0
    decreases remaining, 0
  {
    if pos == |buf| then Nothing()
    else if buf[pos] != DOLLAR then Fail(ExpectedDollar(buf[pos]))
    else
      match LineAt(buf, pos + 1)
      case Unterminated => if |buf| - pos > INLINE_MAX_SIZE then Fail(TooBigBulkCount) else Nothing()
      case Malformed => Fail(InvalidBulkLength)
      case Found(end) =>
        match ParseI64Strict(buf[pos + 1..end])
        case None => Fail(InvalidBulkLength)
        case Some(len) =>
          if len < 0 || len > max then Fail(InvalidBulkLength)
          else Body(buf, max, end + 2, len, remaining - 1, args)
  }

  /** A payload of `len` bytes at `start`, with `remaining` more bulks after it. */
  function Body(buf: Bytes, max: nat, start: nat, len: nat, remaining: nat, args: seq<Bytes>): Outcome
    requires start <= |buf|
    decreases remaining, 1
  {
    var after := start + len + 2;
    if |buf| < after then Nothing()
    else
      var args' := args + [buf[start..start + len]];
      if remaining == 0 then Outcome(Command(args'), after) else Bulks(buf, max, after, remaining, args')
  }

  function Multibulk(buf: Bytes, max: nat): Outcome
    requires |buf| > 0
  {
    match LineAt(buf, 1)
    case Unterminated => if |buf| > INLINE_MAX_SIZE then Fail(TooBigMbulkCount) else Nothing()
    case Malformed => Fail(InvalidMultibulkLength)
    case Found(end) =>
      match ParseI64Strict(buf[1..end])
      case None => Fail(InvalidMultibulkLength)
      case Some(count) =>
        if count > MULTIBULK_MAX then Fail(InvalidMultibulkLength)
        else if count <= 0 then Outcome(Empty, end + 2)
        else Bulks(buf, max, end + 2, count, [])
  }

  function InlineEnd(buf: Bytes, nl: nat): nat
    requires nl < |buf|
  {
    if nl > 0 && buf[nl - 1] == CR then nl - 1 else nl
  }

  function InlineFrame(buf: Bytes): Outcome {
    var nl := IndexOf(buf, 0, LF);
    if nl == |buf| then if |buf| > INLINE_MAX_SIZE then Fail(TooBigInline) else Nothing()
    else if nl > INLINE_MAX_SIZE then Fail(TooBigInline)
    else
      match Inline.SplitFrom(buf[..InlineEnd(buf, nl)], 0)
      case None => Outcome(Error(UnbalancedQuotes), nl + 1)
      case Some(args) => Outcome(if args == [] then Empty else Command(args), nl + 1)
  }

  /** One frame off the front of `buf`. */
  function ParseOne(buf: Bytes, max: nat): Outcome {
    if |buf| == 0 then Nothing()
    else if buf[0] == ASTERISK then Multibulk(buf, max)
    else InlineFrame(buf)
  }
}
