/** The resumable request parser: offsets remembered between reads. */
module RespParser {
  import opened ByteStrings
  import opened Decimal
  import opened RespFrames
  import Inline

  /** Where the scan is inside the frame being read; offsets count from its start. */
  datatype State =
    | Start
    | MbulkHeader(scanned: nat)
    | BulkHeader(pos: nat, remaining: nat, scanned: nat)
    | BulkBody(start: nat, len: nat, remaining: nat)
    | InlineScan(scanned: nat)

  // ----------------------------------------- found lines stay where they are

  lemma FoundStays(buf: Bytes, ext: Bytes, from: nat, b: Byte)
    requires from <= |buf|
    ensures var i := IndexOf(buf, from, b);
      if i < |buf| then IndexOf(buf + ext, from, b) == i else IndexOf(buf + ext, from, b) >= |buf|
  {
    var i := IndexOf(buf, from, b);
    if i < |buf| {
      IndexOfUnique(buf + ext, from, b, i);
    } else {
      var j := IndexOf(buf + ext, from, b);
      assert forall k :: from <= k < |buf| ==> (buf + ext)[k] == buf[k] != b;
    }
  }

  lemma LineStays(buf: Bytes, ext: Bytes, from: nat)
    requires from <= |buf| && !LineAt(buf, from).Unterminated?
    ensures LineAt(buf + ext, from) == LineAt(buf, from)
    ensures LineAt(buf, from).Found? ==> (buf + ext)[from..LineAt(buf, from).end] == buf[from..LineAt(buf, from).end]
  {
    FoundStays(buf, ext, from, CR);
  }

  // ----------------------------------------------------------- state meaning

  ghost predicate Clear(buf: Bytes, from: nat, to: nat, b: Byte) {
    to <= |buf| && forall k :: from <= k < to ==> buf[k] != b
  }

  /** However the stream goes on, parsing it from scratch comes down to reading
      `remaining` bulks from `pos` on. */
  ghost predicate AtBulks(buf: Bytes, max: nat, pos: nat, remaining: nat, args: seq<Bytes>) {
    && pos <= |buf| && remaining > 0
    && forall ext: Bytes :: ParseOne(buf + ext, max) == Bulks(buf + ext, max, pos, remaining, args)
  }

  ghost predicate AtBody(buf: Bytes, max: nat, start: nat, len: nat, remaining: nat, args: seq<Bytes>) {
    && start <= |buf|
    && forall ext: Bytes :: ParseOne(buf + ext, max) == Body(buf + ext, max, start, len, remaining, args)
  }

  /** The remembered state fits the unconsumed bytes. */
  ghost predicate Fits(state: State, ranges: seq<Range>, max: nat, buf: Bytes) {
    match state
    case Start => true
    case MbulkHeader(scanned) => |buf| > 0 && buf[0] == ASTERISK && Clear(buf, 1, scanned, CR)
    case BulkHeader(pos, remaining, scanned) =>
      && pos <= |buf| && remaining > 0 && RangesWithin(ranges, pos) && AtBulks(buf, max, pos, remaining, Slices(buf, ranges))
      && Clear(buf, pos + 1, scanned, CR)
    case BulkBody(start, len, remaining) =>
      start <= |buf| && RangesWithin(ranges, start) && AtBody(buf, max, start, len, remaining, Slices(buf, ranges))
    case InlineScan(scanned) => |buf| > 0 && buf[0] != ASTERISK && Clear(buf, 0, scanned, LF)
  }

  /** Of an incomplete frame all bytes have been searched, but for a last one that
      may begin a line end: none is searched twice. */
  ghost predicate Searched(state: State, buf: Bytes) {
    match state
    case Start => buf == []
    case MbulkHeader(scanned) => scanned + 1 >= |buf|
    case BulkHeader(pos, _, scanned) => pos == |buf| || scanned + 1 >= |buf|
    case BulkBody(start, len, _) => start + len + 2 > |buf|
    case InlineScan(scanned) => scanned == |buf|
  }

  /** More bytes at the end invalidate nothing that was remembered. */
  lemma FitsExtended(state: State, ranges: seq<Range>, max: nat, buf: Bytes, more: Bytes)
    requires Fits(state, ranges, max, buf)
    ensures Fits(state, ranges, max, buf + more)
  {
    hide ParseOne, Bulks, Body;
    var buf' := buf + more;
    if state.BulkHeader? || state.BulkBody? {
      SlicesStay(buf, more, ranges);
      forall ext: Bytes
        ensures buf' + ext == buf + (more + ext)
      {
      }
    }
  }

  lemma SlicesStay(buf: Bytes, more: Bytes, ranges: seq<Range>)
    requires RangesWithin(ranges, |buf|)
    ensures RangesWithin(ranges, |buf + more|) && Slices(buf + more, ranges) == Slices(buf, ranges)
  {
    assert forall k :: 0 <= k < |ranges| ==> (buf + more)[ranges[k].0..ranges[k].1] == buf[ranges[k].0..ranges[k].1];
  }

  // ------------------------------------------------------------- transitions

  lemma HeaderRead(buf: Bytes, max: nat)
    requires |buf| > 0 && buf[0] == ASTERISK && LineAt(buf, 1).Found?
    requires ParseI64Strict(buf[1..LineAt(buf, 1).end]).Some? && 0 < ParseI64Strict(buf[1..LineAt(buf, 1).end]).value <= MULTIBULK_MAX
    ensures AtBulks(buf, max, LineAt(buf, 1).end + 2, ParseI64Strict(buf[1..LineAt(buf, 1).end]).value, [])
  {
    hide Bulks, ParseI64Strict;
    forall ext: Bytes
      ensures ParseOne(buf + ext, max) ==
        Bulks(buf + ext, max, LineAt(buf, 1).end + 2, ParseI64Strict(buf[1..LineAt(buf, 1).end]).value, [])
    {
      LineStays(buf, ext, 1);
    }
  }

  lemma BulkHeaderRead(buf: Bytes, max: nat, pos: nat, remaining: nat, args: seq<Bytes>)
    requires AtBulks(buf, max, pos, remaining, args) && pos < |buf| && buf[pos] == DOLLAR && LineAt(buf, pos + 1).Found?
    requires var n := ParseI64Strict(buf[pos + 1..LineAt(buf, pos + 1).end]); n.Some? && 0 <= n.value <= max
    ensures AtBody(buf, max, LineAt(buf, pos + 1).end + 2, ParseI64Strict(buf[pos + 1..LineAt(buf, pos + 1).end]).value, remaining - 1, args)
  {
    hide Body, ParseI64Strict, ParseOne;
    forall ext: Bytes
      ensures ParseOne(buf + ext, max) ==
        Body(buf + ext, max, LineAt(buf, pos + 1).end + 2, ParseI64Strict(buf[pos + 1..LineAt(buf, pos + 1).end]).value, remaining - 1, args)
    {
      LineStays(buf, ext, pos + 1);
      assert (buf + ext)[pos] == buf[pos];
    }
  }

  lemma BodyRead(buf: Bytes, max: nat, start: nat, len: nat, remaining: nat, args: seq<Bytes>)
    requires AtBody(buf, max, start, len, remaining, args) && start + len + 2 <= |buf| && remaining > 0
    ensures AtBulks(buf, max, start + len + 2, remaining, args + [buf[start..start + len]])
  {
    hide ParseOne, Bulks;
    forall ext: Bytes
      ensures ParseOne(buf + ext, max) ==
        Bulks(buf + ext, max, start + len + 2, remaining, args + [buf[start..start + len]])
    {
      assert (buf + ext)[start..start + len] == buf[start..start + len];
    }
  }

  lemma AtBulksNow(buf: Bytes, max: nat, pos: nat, remaining: nat, args: seq<Bytes>)
    requires AtBulks(buf, max, pos, remaining, args)
    ensures ParseOne(buf, max) == Bulks(buf, max, pos, remaining, args)
  {
    assert buf + [] == buf;
  }

  lemma AtBodyNow(buf: Bytes, max: nat, start: nat, len: nat, remaining: nat, args: seq<Bytes>)
    requires AtBody(buf, max, start, len, remaining, args)
    ensures ParseOne(buf, max) == Body(buf, max, start, len, remaining, args)
  {
    assert buf + [] == buf;
  }

  lemma PushRange(buf: Bytes, ranges: seq<Range>, start: nat, end: nat)
    requires RangesWithin(ranges, start) && start <= end <= |buf|
    ensures RangesWithin(ranges + [(start, end)], end)
    ensures Slices(buf, ranges + [(start, end)]) == Slices(buf, ranges) + [buf[start..end]]
  {
  }

  lemma NoSlices(buf: Bytes)
    ensures RangesWithin([], |buf|) && Slices(buf, []) == []
  {
  }

  lemma FrameSlices(buf: Bytes, after: nat, ranges: seq<Range>)
    requires after <= |buf| && RangesWithin(ranges, after)
    ensures RangesWithin(ranges, |buf[..after]|) && RangesWithin(ranges, |buf|)
    ensures Slices(buf[..after], ranges) == Slices(buf, ranges)
  {
    assert forall k :: 0 <= k < |ranges| ==> buf[..after][ranges[k].0..ranges[k].1] == buf[ranges[k].0..ranges[k].1];
  }

  // ---------------------------------------------------------------- the code

  /** Find `b` from `from` on. */
  method MemChr(buf: Bytes, from: nat, b: Byte) returns (i: nat)
    requires from <= |buf|
    ensures i == IndexOf(buf, from, b)
  {
    i := from;
    while i < |buf| && buf[i] != b
      invariant from <= i <= |buf| && IndexOf(buf, from, b) == IndexOf(buf, i, b)
    {
      i := i + 1;
    }
  }

  /** The line from `from`, searched from `scanned` on, and where to resume. */
  method LineEnd(buf: Bytes, from: nat, scanned: nat) returns (line: Line, next: nat)
    requires from <= |buf| && Clear(buf, from, scanned, CR)
    ensures line == LineAt(buf, from)
    ensures line.Unterminated? ==> Clear(buf, from, next, CR) && next + 1 >= |buf|
  {
    var scanFrom := if scanned > from then scanned else from;
    var cr := MemChr(buf, scanFrom, CR);
    IndexOfUnique(buf, from, CR, cr);
    if cr == |buf| || cr + 1 == |buf| {
      return Unterminated, cr;
    } else if buf[cr + 1] == LF {
      return Found(cr), cr + 2;
    } else {
      return Malformed, cr;
    }
  }

  /** Where the loop of `Parse` still has to go. */
  function StateRank(state: State): (nat, nat) {
    match state
    case Start => (2, 0)
    case MbulkHeader(_) => (1, 0)
    case InlineScan(_) => (1, 0)
    case BulkHeader(_, remaining, _) => (0, 2 * remaining)
    case BulkBody(_, _, remaining) => (0, 2 * remaining + 1)
  }

  class RequestParser {
    const maxBulk: nat
    var state: State
    var ranges: seq<Range>

    constructor (maxBulk: nat)
      ensures this.maxBulk == maxBulk && state == Start
    {
      this.maxBulk := maxBulk;
      state, ranges := Start, [];
    }

    ghost predicate Resumes(buf: Bytes)
      reads this
    {
      Fits(state, ranges, maxBulk, buf)
    }

    /** `r` and `rest` are what parsing `buf` from scratch gives, and the parser
        is ready for what follows. */
    ghost predicate Answers(buf: Bytes, r: Parsed, rest: Bytes)
      reads this
    {
      var o := ParseOne(buf, maxBulk);
      && o.consumed <= |buf| && r == o.parsed && rest == buf[o.consumed..]
      && (r.Command? || r.Empty? ==> state == Start)
      && (r.Incomplete? ==> rest == buf && Resumes(buf) && Searched(state, buf))
    }

    /** Inside `*<count>`. */
    method StepMbulkHeader(buf: Bytes) returns (r: Option<Parsed>, rest: Bytes)
      requires state.MbulkHeader? && Resumes(buf)
      modifies this
      ensures r.Some? ==> Answers(buf, r.value, rest)
      ensures r == None ==> Resumes(buf) && state.BulkHeader?
    {
      hide AtBulks, AtBody, ParseI64Strict, LineAt, Slices, Bulks, InlineFrame;
      var line, next := LineEnd(buf, 1, state.scanned);
      if line.Unterminated? {
        if |buf| > INLINE_MAX_SIZE {
          return Some(Error(TooBigMbulkCount)), buf;
        }
        state := MbulkHeader(next);
        return Some(Incomplete), buf;
      } else if line.Malformed? {
        return Some(Error(InvalidMultibulkLength)), buf;
      }
      var count := ParseStrict(buf[1..line.end]);
      if count == None || count.value > MULTIBULK_MAX {
        return Some(Error(InvalidMultibulkLength)), buf;
      }
      if count.value <= 0 {
        state, ranges := Start, [];
        return Some(Empty), buf[line.end + 2..];
      }
      HeaderRead(buf, maxBulk);
      NoSlices(buf);
      ranges := [];
      state := BulkHeader(line.end + 2, count.value, line.end + 2);
      return None, buf;
    }

    /** At `$<len>`. */
    method StepBulkHeader(buf: Bytes) returns (r: Option<Parsed>, rest: Bytes)
      requires state.BulkHeader? && Resumes(buf)
      modifies `state
      ensures r.Some? ==> Answers(buf, r.value, rest)
      ensures r == None ==> Resumes(buf) && state.BulkBody? && state.remaining < old(state.remaining)
    {
      hide AtBulks, AtBody, ParseI64Strict, LineAt, Slices, ParseOne, Body;
      var BulkHeader(pos, remaining, scanned) := state;
      ghost var args := Slices(buf, ranges);
      AtBulksNow(buf, maxBulk, pos, remaining, args);
      if pos == |buf| {
        return Some(Incomplete), buf;
      } else if buf[pos] != DOLLAR {
        return Some(Error(ExpectedDollar(buf[pos]))), buf;
      }
      var line, next := LineEnd(buf, pos + 1, scanned);
      if line.Unterminated? {
        if |buf| - pos > INLINE_MAX_SIZE {
          return Some(Error(TooBigBulkCount)), buf;
        }
        state := BulkHeader(pos, remaining, next);
        return Some(Incomplete), buf;
      } else if line.Malformed? {
        return Some(Error(InvalidBulkLength)), buf;
      }
      var len := ParseStrict(buf[pos + 1..line.end]);
      if len == None || len.value < 0 || len.value > maxBulk {
        return Some(Error(InvalidBulkLength)), buf;
      }
      BulkHeaderRead(buf, maxBulk, pos, remaining, args);
      state := BulkBody(line.end + 2, len.value, remaining - 1);
      return None, buf;
    }

    /** Waiting for a payload. */
    method StepBulkBody(buf: Bytes) returns (r: Option<Parsed>, rest: Bytes)
      requires state.BulkBody? && Resumes(buf)
      modifies this
      ensures r.Some? ==> Answers(buf, r.value, rest)
      ensures r == None ==> Resumes(buf) && state.BulkHeader? && state.remaining == old(state.remaining)
    {
      hide AtBulks, AtBody, ParseI64Strict, LineAt, Slices, ParseOne, Bulks;
      var BulkBody(start, len, remaining) := state;
      ghost var args := Slices(buf, ranges);
      AtBodyNow(buf, maxBulk, start, len, remaining, args);
      var after := start + len + 2;
      if |buf| < after {
        return Some(Incomplete), buf;
      }
      PushRange(buf, ranges, start, after - 2);
      ranges := ranges + [(start, after - 2)];
      if remaining == 0 {
        FrameSlices(buf, after, ranges);
        var words := Slices(buf[..after], ranges);
        state, ranges := Start, [];
        return Some(Command(words)), buf[after..];
      }
      BodyRead(buf, maxBulk, start, len, remaining, args);
      state := BulkHeader(after, remaining, after);
      return None, buf;
    }

    /** Inside an inline request. */
    method StepInline(buf: Bytes) returns (r: Parsed, rest: Bytes)
      requires state.InlineScan? && Resumes(buf)
      modifies this
      ensures Answers(buf, r, rest)
    {
      hide AtBulks, AtBody, Slices, Multibulk, Inline.SplitFrom;
      var nl := MemChr(buf, state.scanned, LF);
      IndexOfUnique(buf, 0, LF, nl);
      if nl == |buf| {
        if |buf| > INLINE_MAX_SIZE {
          return Error(TooBigInline), buf;
        }
        state := InlineScan(|buf|);
        return Incomplete, buf;
      }
      if nl > INLINE_MAX_SIZE {
        return Error(TooBigInline), buf;
      }
      state, ranges := Start, [];
      var words := Inline.SplitInline(buf[..InlineEnd(buf, nl)]);
      if words == None {
        return Error(UnbalancedQuotes), buf[nl + 1..];
      }
      return if words.value == [] then Empty else Command(words.value), buf[nl + 1..];
    }

    /** Take one frame off the front of `buf`, exactly as parsing the buffer from
        scratch would; an incomplete frame leaves it alone. */
    method Parse(buf: Bytes) returns (r: Parsed, rest: Bytes)
      requires Resumes(buf)
      modifies this
      ensures Answers(buf, r, rest)
    {
      hide AtBulks, AtBody, Slices, Multibulk, InlineFrame;
      while true
        invariant Resumes(buf)
        decreases StateRank(state).0, StateRank(state).1
      {
        var step: Option<Parsed>;
        match state {
          case Start =>
            if |buf| == 0 {
              return Incomplete, buf;
            }
            state, step := if buf[0] == ASTERISK then MbulkHeader(1) else InlineScan(0), None;
          case MbulkHeader(_) => step, rest := StepMbulkHeader(buf);
          case BulkHeader(_, _, _) => step, rest := StepBulkHeader(buf);
          case BulkBody(_, _, _) => step, rest := StepBulkBody(buf);
          case InlineScan(_) =>
            r, rest := StepInline(buf);
            return;
        }
        if step.Some? {
          return step.value, rest;
        }
      }
    }
  }
}
