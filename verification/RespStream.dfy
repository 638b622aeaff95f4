/** Whole request streams: chunking does not matter, and encoded pipelines come back. */
module RespStream {
  import opened ByteStrings
  import opened Decimal
  import opened RespFrames
  import opened RespParser
  import Inline

  // ------------------------------------------------------ header lines fit

  /** The header line that starts at `pos` ends within 64 KB, if it ends at all. */
  ghost predicate ShortLine(buf: Bytes, pos: nat)
    requires pos < |buf|
  {
    LineAt(buf, pos + 1).Unterminated? || IndexOf(buf, pos + 1, CR) - pos < INLINE_MAX_SIZE
  }

  ghost predicate ShortBulks(buf: Bytes, max: nat, pos: nat, remaining: nat)
    requires pos <= |buf|
    decreases remaining
  {
    remaining > 0 && pos < |buf| && buf[pos] == DOLLAR ==>
      && ShortLine(buf, pos)
      && (LineAt(buf, pos + 1).Found? ==>
            var end := LineAt(buf, pos + 1).end;
            var len := ParseI64Strict(buf[pos + 1..end]);
            len.Some? && 0 <= len.value <= max && end + 2 + len.value + 2 <= |buf| ==>
              ShortBulks(buf, max, end + 2 + len.value + 2, remaining - 1))
  }

  /** All header lines of the frame at the front of `buf` are short. */
  ghost predicate ShortFrame(buf: Bytes, max: nat) {
    |buf| > 0 && buf[0] == ASTERISK ==>
      && ShortLine(buf, 0)
      && (LineAt(buf, 1).Found? ==>
            var count := ParseI64Strict(buf[1..LineAt(buf, 1).end]);
            count.Some? && 0 < count.value <= MULTIBULK_MAX ==> ShortBulks(buf, max, LineAt(buf, 1).end + 2, count.value))
  }

  // --------------------------------------------- outcomes survive extension

  /** What is decided about a frame stays decided when more bytes arrive, except
      that a header line reported as too long may end after all. */
  ghost predicate Persists(o: Outcome, o': Outcome, short: bool) {
    || o.parsed.Incomplete?
    || o' == o
    || (!short && o.parsed.Error? && (o.parsed.e.TooBigBulkCount? || o.parsed.e.TooBigMbulkCount?))
  }

  lemma UnterminatedLong(buf: Bytes, ext: Bytes, pos: nat)
    requires pos < |buf| && LineAt(buf, pos + 1).Unterminated? && |buf| - pos > INLINE_MAX_SIZE
    requires ShortLine(buf + ext, pos)
    ensures LineAt(buf + ext, pos + 1).Unterminated? && |buf + ext| - pos > INLINE_MAX_SIZE
  {
    FoundStays(buf, ext, pos + 1, CR);
  }

  lemma {:induction false} BulksPersist(buf: Bytes, ext: Bytes, max: nat, pos: nat, remaining: nat, args: seq<Bytes>)
    requires pos <= |buf| && remaining > 0
    ensures Persists(Bulks(buf, max, pos, remaining, args), Bulks(buf + ext, max, pos, remaining, args),
                     ShortBulks(buf + ext, max, pos, remaining))
    decreases remaining
  {
    hide ParseI64Strict, LineAt, ShortLine;
    var buf' := buf + ext;
    if pos < |buf| && buf[pos] == DOLLAR {
      assert buf'[pos] == DOLLAR;
      var line := LineAt(buf, pos + 1);
      if line.Unterminated? {
        if |buf| - pos > INLINE_MAX_SIZE && ShortBulks(buf', max, pos, remaining) {
          UnterminatedLong(buf, ext, pos);
        }
      } else {
        LineStays(buf, ext, pos + 1);
        if line.Found? {
          BodyPersists(buf, ext, max, pos, remaining, args);
        }
      }
    }
  }

  lemma {:induction false} BodyPersists(buf: Bytes, ext: Bytes, max: nat, pos: nat, remaining: nat, args: seq<Bytes>)
    requires pos < |buf| && remaining > 0 && buf[pos] == DOLLAR && LineAt(buf, pos + 1).Found?
    requires LineAt(buf + ext, pos + 1) == LineAt(buf, pos + 1)
    requires (buf + ext)[pos + 1..LineAt(buf, pos + 1).end] == buf[pos + 1..LineAt(buf, pos + 1).end]
    ensures Persists(Bulks(buf, max, pos, remaining, args), Bulks(buf + ext, max, pos, remaining, args),
                     ShortBulks(buf + ext, max, pos, remaining))
    decreases remaining, 0
  {
    hide ParseI64Strict, LineAt, ShortLine;
    var buf' := buf + ext;
    var end := LineAt(buf, pos + 1).end;
    var len := ParseI64Strict(buf[pos + 1..end]);
    assert buf'[pos] == DOLLAR;
    if len.Some? && 0 <= len.value <= max {
      var start: nat, l: nat := end + 2, len.value;
      if start + l + 2 <= |buf| {
        assert buf'[start..start + l] == buf[start..start + l];
        if remaining > 1 {
          BulksPersist(buf, ext, max, start + l + 2, remaining - 1, args + [buf[start..start + l]]);
        }
      }
    }
  }

  lemma FramePersists(buf: Bytes, ext: Bytes, max: nat)
    requires |buf| > 0
    ensures Persists(ParseOne(buf, max), ParseOne(buf + ext, max), ShortFrame(buf + ext, max))
  {
    var buf' := buf + ext;
    if buf[0] != ASTERISK {
      InlinePersists(buf, ext);
    } else {
      hide ParseI64Strict, LineAt, ShortLine, Bulks, ShortBulks;
      var line := LineAt(buf, 1);
      if line.Unterminated? {
        if |buf| > INLINE_MAX_SIZE && ShortFrame(buf', max) {
          UnterminatedLong(buf, ext, 0);
        }
      } else {
        LineStays(buf, ext, 1);
        if line.Found? {
          var count := ParseI64Strict(buf[1..line.end]);
          if count.Some? && 0 < count.value <= MULTIBULK_MAX {
            BulksPersist(buf, ext, max, line.end + 2, count.value, []);
          }
        }
      }
    }
  }

  lemma InlinePersists(buf: Bytes, ext: Bytes)
    ensures Persists(InlineFrame(buf), InlineFrame(buf + ext), true)
  {
    hide Inline.SplitFrom, IndexOf;
    var nl := IndexOf(buf, 0, LF);
    FoundStays(buf, ext, 0, LF);
    if nl < |buf| {
      assert (buf + ext)[..InlineEnd(buf, nl)] == buf[..InlineEnd(buf, nl)];
    }
  }

  // --------------------------------------------------------- whole streams

  /** How a stream ends: with bytes of an unfinished frame, or with an error. */
  datatype End = Waiting(rest: Bytes) | Failed(e: ProtoError)

  datatype Run = Run(commands: seq<seq<Bytes>>, end: End)

  /** A frame taken off the buffer leaves less of it. */
  lemma {:induction false} BulksConsume(buf: Bytes, max: nat, pos: nat, remaining: nat, args: seq<Bytes>)
    requires pos <= |buf| && remaining > 0
    ensures var o := Bulks(buf, max, pos, remaining, args); o.consumed <= |buf| && (o.parsed.Command? ==> pos < o.consumed) && !o.parsed.Empty?
    ensures var o := Bulks(buf, max, pos, remaining, args); o.parsed.Error? ==> !o.parsed.e.TooBigMbulkCount? && o == Fail(o.parsed.e)
    decreases remaining
  {
    hide ParseI64Strict, LineAt, IndexOf;
    if pos < |buf| && buf[pos] == DOLLAR && LineAt(buf, pos + 1).Found? {
      var end := LineAt(buf, pos + 1).end;
      var len := ParseI64Strict(buf[pos + 1..end]);
      if len.Some? && 0 <= len.value <= max && end + 2 + len.value + 2 <= |buf| && remaining > 1 {
        BulksConsume(buf, max, end + 2 + len.value + 2, remaining - 1, args + [buf[end + 2..end + 2 + len.value]]);
      }
    }
  }

  lemma FrameConsumes(buf: Bytes, max: nat)
    ensures ParseOne(buf, max).consumed <= |buf|
    ensures ParseOne(buf, max).parsed.Command? || ParseOne(buf, max).parsed.Empty? ==> ParseOne(buf, max).consumed > 0
  {
    hide ParseI64Strict, Inline.SplitFrom, Bulks;
    if |buf| > 0 && buf[0] == ASTERISK && LineAt(buf, 1).Found? {
      var count := ParseI64Strict(buf[1..LineAt(buf, 1).end]);
      if count.Some? && 0 < count.value {
        BulksConsume(buf, max, LineAt(buf, 1).end + 2, count.value, []);
      }
    }
  }

  ghost function Prepend(commands: seq<seq<Bytes>>, r: Run): Run {
    Run(commands + r.commands, r.end)
  }

  /** Parsing a whole stream, frame by frame, each from scratch. */
  ghost function StreamRun(buf: Bytes, max: nat): Run
    decreases |buf|
  {
    FrameConsumes(buf, max);
    var o := ParseOne(buf, max);
    match o.parsed
    case Incomplete => Run([], Waiting(buf))
    case Error(e) => Run([], Failed(e))
    case Empty => StreamRun(buf[o.consumed..], max)
    case Command(args) => Prepend([args], StreamRun(buf[o.consumed..], max))
  }

  /** The complaint about the first header line of the frame that is too long. */
  ghost function TooLong(buf: Bytes): ProtoError {
    if |buf| == 0 || ShortLine(buf, 0) then TooBigBulkCount else TooBigMbulkCount
  }

  /** From `pos` on there are complete bulks and then a header line that has not
      ended after 64 KB. */
  ghost predicate OpenBulks(buf: Bytes, max: nat, pos: nat, remaining: nat)
    requires pos <= |buf|
    decreases remaining
  {
    && remaining > 0 && pos < |buf| && buf[pos] == DOLLAR
    && match LineAt(buf, pos + 1)
       case Unterminated => |buf| - pos > INLINE_MAX_SIZE
       case Malformed => false
       case Found(end) =>
         var len := ParseI64Strict(buf[pos + 1..end]);
         && len.Some? && 0 <= len.value <= max && end + 2 + len.value + 2 <= |buf|
         && OpenBulks(buf, max, end + 2 + len.value + 2, remaining - 1)
  }

  /** A short count line, complete bulks, and then such a header line. */
  ghost predicate OpenFrame(buf: Bytes, max: nat) {
    && |buf| > 0 && buf[0] == ASTERISK && ShortLine(buf, 0) && LineAt(buf, 1).Found?
    && var end := LineAt(buf, 1).end;
    var count := ParseI64Strict(buf[1..end]);
    count.Some? && 0 < count.value <= MULTIBULK_MAX && OpenBulks(buf, max, end + 2, count.value)
  }

  /** Empty frames, and then a count line that has not ended after 64 KB. */
  ghost predicate OpenCount(buf: Bytes, max: nat)
    decreases |buf|
  {
    FrameConsumes(buf, max);
    if ParseOne(buf, max).parsed.Empty? then OpenCount(buf[ParseOne(buf, max).consumed..], max)
    else |buf| > INLINE_MAX_SIZE && buf[0] == ASTERISK && LineAt(buf, 1).Unterminated?
  }

  /** The header lines of the frame are short, or the first one that is not is
      followed by one of its kind that has not ended after 64 KB, with nothing but
      bulks, or nothing but empty frames, between them. */
  ghost predicate SteadyFrame(buf: Bytes, max: nat) {
    FrameConsumes(buf, max);
    var o := ParseOne(buf, max);
    ShortFrame(buf, max) || OpenFrame(buf, max) || (o.parsed.Empty? && OpenCount(buf[o.consumed..], max))
  }

  /** All frames of the stream are steady. */
  ghost predicate SteadyStream(buf: Bytes, max: nat)
    decreases |buf|
  {
    FrameConsumes(buf, max);
    var o := ParseOne(buf, max);
    && SteadyFrame(buf, max)
    && (o.parsed.Command? || o.parsed.Empty? ==> SteadyStream(buf[o.consumed..], max))
  }

  lemma {:induction false} OpenBulksFail(buf: Bytes, max: nat, pos: nat, remaining: nat, args: seq<Bytes>)
    requires pos <= |buf| && remaining > 0
    ensures Bulks(buf, max, pos, remaining, args) == Fail(TooBigBulkCount) <==> OpenBulks(buf, max, pos, remaining)
    decreases remaining
  {
    hide ParseI64Strict, LineAt;
    if pos < |buf| && buf[pos] == DOLLAR && LineAt(buf, pos + 1).Found? {
      var end := LineAt(buf, pos + 1).end;
      var len := ParseI64Strict(buf[pos + 1..end]);
      if len.Some? && 0 <= len.value <= max && end + 2 + len.value + 2 <= |buf| && remaining > 1 {
        OpenBulksFail(buf, max, end + 2 + len.value + 2, remaining - 1, args + [buf[end + 2..end + 2 + len.value]]);
      }
    }
  }

  /** A frame with a header line that is too long is refused for it anyhow, exactly
      if it goes on to one that does not end. */
  lemma OpenFrameFails(buf: Bytes, max: nat)
    requires !ShortFrame(buf, max)
    ensures ParseOne(buf, max) == Fail(TooLong(buf)) <==> OpenFrame(buf, max)
    ensures ShortLine(buf, 0) ==> !ParseOne(buf, max).parsed.Empty?
  {
    hide ParseI64Strict, LineAt, ShortLine, Bulks, OpenBulks, ShortBulks, IndexOf;
    LongLineEnds(buf, 0);
    if LineAt(buf, 1).Found? {
      var end := LineAt(buf, 1).end;
      var count := ParseI64Strict(buf[1..end]);
      if count.Some? && 0 < count.value <= MULTIBULK_MAX {
        OpenBulksFail(buf, max, end + 2, count.value, []);
        BulksConsume(buf, max, end + 2, count.value, []);
      }
    }
  }

  lemma LongLineEnds(buf: Bytes, pos: nat)
    requires pos < |buf|
    ensures !ShortLine(buf, pos) ==> !LineAt(buf, pos + 1).Unterminated?
  {
  }

  lemma CountComplaint(buf: Bytes, max: nat)
    ensures ParseOne(buf, max).parsed == Error(TooBigMbulkCount) <==>
      |buf| > INLINE_MAX_SIZE && buf[0] == ASTERISK && LineAt(buf, 1).Unterminated?
  {
    hide ParseI64Strict, LineAt, Bulks, IndexOf, Inline.SplitFrom;
    if |buf| > 0 && buf[0] == ASTERISK && LineAt(buf, 1).Found? {
      var end := LineAt(buf, 1).end;
      var count := ParseI64Strict(buf[1..end]);
      if count.Some? && 0 < count.value <= MULTIBULK_MAX {
        BulksConsume(buf, max, end + 2, count.value, []);
      }
    }
  }

  /** A stream of nothing but empty frames is refused for its count line. */
  lemma {:induction false} OpenCountFails(buf: Bytes, max: nat)
    ensures StreamRun(buf, max) == Run([], Failed(TooBigMbulkCount)) <==> OpenCount(buf, max)
    decreases |buf|
  {
    hide ParseOne, LineAt;
    FrameConsumes(buf, max);
    CountComplaint(buf, max);
    if ParseOne(buf, max).parsed.Empty? {
      OpenCountFails(buf[ParseOne(buf, max).consumed..], max);
    }
  }

  /** Where a frame is not short but steady, the whole stream is refused for the
      line a read would refuse it for. */
  lemma SteadyMeans(buf: Bytes, max: nat)
    ensures SteadyFrame(buf, max) <==> ShortFrame(buf, max) || StreamRun(buf, max) == Run([], Failed(TooLong(buf)))
  {
    hide ParseOne, ShortFrame, OpenFrame, ShortLine;
    FrameConsumes(buf, max);
    var o := ParseOne(buf, max);
    if !ShortFrame(buf, max) {
      LongFrameErrors(buf, max);
      OpenFrameFails(buf, max);
      CountComplaint(buf, max);
      LongLineEnds(buf, 0);
      if o.parsed.Empty? {
        OpenCountFails(buf[o.consumed..], max);
      }
    }
  }

  lemma LongFrameErrors(buf: Bytes, max: nat)
    requires !ShortFrame(buf, max)
    ensures |buf| > 0 && (ParseOne(buf, max).parsed.Error? ==> ParseOne(buf, max) == Fail(ParseOne(buf, max).parsed.e))
  {
    hide ParseI64Strict, LineAt, Bulks, IndexOf, ShortLine, ShortBulks;
    if LineAt(buf, 1).Found? {
      var end := LineAt(buf, 1).end;
      var count := ParseI64Strict(buf[1..end]);
      if count.Some? && 0 < count.value <= MULTIBULK_MAX {
        BulksConsume(buf, max, end + 2, count.value, []);
      }
    }
  }

  ghost function Concat(chunks: seq<Bytes>): Bytes {
    if |chunks| == 0 then [] else chunks[0] + Concat(chunks[1..])
  }

  lemma PrependNothing(r: Run)
    ensures Prepend([], r) == r
  {
    assert [] + r.commands == r.commands;
  }

  lemma PrependOne(out: seq<seq<Bytes>>, args: seq<Bytes>, r: Run)
    ensures Prepend(out, Prepend([args], r)) == Prepend(out + [args], r)
  {
    assert out + ([args] + r.commands) == (out + [args]) + r.commands;
  }

  // -------------------------------------------------- what chunks can change

  /** What is decided about a frame and does not stay decided is a complaint about
      a header line that does end, too late. */
  lemma Undecided(buf: Bytes, ext: Bytes, max: nat)
    requires |buf| > 0 && !ParseOne(buf, max).parsed.Incomplete? && ParseOne(buf + ext, max) != ParseOne(buf, max)
    ensures !ShortFrame(buf + ext, max) && Overtaken(buf, ext, max)
  {
    hide ShortFrame, Multibulk, InlineFrame;
    FramePersists(buf, ext, max);
    if buf[0] == ASTERISK {
      if LineAt(buf, 1).Unterminated? {
        CountOvertaken(buf, ext, max);
      } else {
        BulksOvertaken(buf, ext, max);
      }
    } else {
      InlinePersists(buf, ext);
    }
  }

  ghost predicate Overtaken(buf: Bytes, ext: Bytes, max: nat)
    requires |buf| > 0
  {
    var o, o' := ParseOne(buf, max), ParseOne(buf + ext, max);
    || (o == Fail(TooBigMbulkCount) && !ShortLine(buf + ext, 0))
    || (o == Fail(TooBigBulkCount) && !o'.parsed.Empty? && o'.parsed != Error(TooBigMbulkCount))
  }

  lemma CountOvertaken(buf: Bytes, ext: Bytes, max: nat)
    requires |buf| > 0 && buf[0] == ASTERISK && LineAt(buf, 1).Unterminated?
    requires !ParseOne(buf, max).parsed.Incomplete? && ParseOne(buf + ext, max) != ParseOne(buf, max)
    ensures Overtaken(buf, ext, max)
  {
    hide ParseI64Strict, LineAt, ShortLine, Bulks, IndexOf;
    if ShortLine(buf + ext, 0) {
      UnterminatedLong(buf, ext, 0);
    }
  }

  lemma BulksOvertaken(buf: Bytes, ext: Bytes, max: nat)
    requires |buf| > 0 && buf[0] == ASTERISK && !LineAt(buf, 1).Unterminated?
    requires !ParseOne(buf, max).parsed.Incomplete? && ParseOne(buf + ext, max) != ParseOne(buf, max)
    ensures Overtaken(buf, ext, max)
  {
    hide ParseI64Strict, LineAt, ShortLine, Bulks, ShortBulks, IndexOf, ShortFrame;
    FramePersists(buf, ext, max);
    LineStays(buf, ext, 1);
    var end := LineAt(buf, 1).end;
    var count := ParseI64Strict(buf[1..end]).value;
    BulksConsume(buf, max, end + 2, count, []);
    BulksConsume(buf + ext, max, end + 2, count, []);
  }

  lemma NonEmptyFrame(buf: Bytes, max: nat)
    requires !ParseOne(buf, max).parsed.Incomplete?
    ensures |buf| > 0
  {
  }

  /** A frame decided on what has arrived so far is a frame of a steady stream. */
  lemma FrameOfStream(buf: Bytes, tail: Bytes, max: nat)
    requires SteadyStream(buf + tail, max) && !ParseOne(buf, max).parsed.Incomplete?
    ensures ParseOne(buf, max).consumed <= |buf|
    ensures var o := ParseOne(buf, max); var rest := buf[o.consumed..];
      match o.parsed
      case Incomplete => true
      case Error(e) => StreamRun(buf + tail, max) == Run([], Failed(e))
      case Empty => SteadyStream(rest + tail, max) && StreamRun(buf + tail, max) == StreamRun(rest + tail, max)
      case Command(args) =>
        && SteadyStream(rest + tail, max)
        && StreamRun(buf + tail, max) == Prepend([args], StreamRun(rest + tail, max))
  {
    hide ParseOne, ShortFrame, ShortLine, SteadyFrame;
    NonEmptyFrame(buf, max);
    FrameConsumes(buf, max);
    SteadyMeans(buf + tail, max);
    var o := ParseOne(buf, max);
    if ParseOne(buf + tail, max) == o {
      assert (buf + tail)[o.consumed..] == buf[o.consumed..] + tail;
    } else {
      Undecided(buf, tail, max);
    }
  }

  // ---------------------------------------------------- reading in chunks

  /** What a connection makes of the chunks it reads, with `buf` left over from
      those before: each read is parsed as far as it goes. */
  ghost function ChunkedRun(buf: Bytes, chunks: seq<Bytes>, max: nat): Run
    decreases |chunks|, 0
  {
    if |chunks| == 0 then Run([], Waiting(buf))
    else Continued(StreamRun(buf + chunks[0], max), chunks[1..], max)
  }

  ghost function Continued(r: Run, chunks: seq<Bytes>, max: nat): Run
    decreases |chunks|, 1
  {
    match r.end
    case Failed(_) => r
    case Waiting(rest) => Prepend(r.commands, ChunkedRun(rest, chunks, max))
  }

  lemma ContinuedPrepend(commands: seq<seq<Bytes>>, r: Run, chunks: seq<Bytes>, max: nat)
    ensures Continued(Prepend(commands, r), chunks, max) == Prepend(commands, Continued(r, chunks, max))
  {
    if r.end.Waiting? {
      PrependTwice(commands, r.commands, ChunkedRun(r.end.rest, chunks, max));
    }
  }

  lemma PrependTwice(a: seq<seq<Bytes>>, b: seq<seq<Bytes>>, r: Run)
    ensures Prepend(a, Prepend(b, r)) == Prepend(a + b, r)
  {
    assert a + (b + r.commands) == (a + b) + r.commands;
  }

  /** Feed a stream to a parser chunk by chunk, as a connection does.  The offsets
      the parser remembers change nothing: every read is parsed from scratch. */
  method FeedAll(chunks: seq<Bytes>, max: nat) returns (commands: seq<seq<Bytes>>, end: End)
    ensures Run(commands, end) == ChunkedRun([], chunks, max)
    ensures SteadyStream(Concat(chunks), max) ==> Run(commands, end) == StreamRun(Concat(chunks), max)
  {
    hide ParseOne, SteadyStream, StreamRun, ChunkedRun;
    var parser := new RequestParser(max);
    var buf: Bytes := [];
    commands := [];
    PrependNothing(ChunkedRun([], chunks, max));
    if SteadyStream(Concat(chunks), max) {
      SteadyChunks(chunks, max);
    }
    assert chunks[0..] == chunks;
    for k := 0 to |chunks|
      invariant parser.maxBulk == max && parser.Resumes(buf) && fresh(parser)
      invariant ChunkedRun([], chunks, max) == Prepend(commands, ChunkedRun(buf, chunks[k..], max))
    {
      FitsExtended(parser.state, parser.ranges, max, buf, chunks[k]);
      ghost var more := chunks[k + 1..];
      assert chunks[k..][0] == chunks[k] && chunks[k..][1..] == more;
      NextChunk(buf, chunks[k..], max);
      buf := buf + chunks[k];
      while true
        invariant parser.maxBulk == max && parser.Resumes(buf) && fresh(parser)
        invariant ChunkedRun([], chunks, max) == Prepend(commands, Continued(StreamRun(buf, max), more, max))
        decreases |buf|
      {
        ghost var before := buf;
        var r;
        r, buf := parser.Parse(buf);
        FrameConsumes(before, max);
        FirstFrame(before, max);
        match r {
          case Incomplete =>
            PrependNothing(ChunkedRun(before, more, max));
            break;
          case Command(args) =>
            ContinuedPrepend([args], StreamRun(buf, max), more, max);
            PrependOne(commands, args, Continued(StreamRun(buf, max), more, max));
            commands := commands + [args];
          case Empty =>
          case Error(e) =>
            assert commands + [] == commands;
            return commands, Failed(e);
        }
      }
    }
    assert chunks[|chunks|..] == [];
    NoChunks(buf, max);
    assert commands + [] == commands;
    end := Waiting(buf);
  }

  lemma NextChunk(buf: Bytes, chunks: seq<Bytes>, max: nat)
    requires |chunks| > 0
    ensures ChunkedRun(buf, chunks, max) == Continued(StreamRun(buf + chunks[0], max), chunks[1..], max)
  {
  }

  lemma NoChunks(buf: Bytes, max: nat)
    ensures ChunkedRun(buf, [], max) == Run([], Waiting(buf))
  {
  }

  lemma FirstFrame(buf: Bytes, max: nat)
    ensures ParseOne(buf, max).consumed <= |buf|
    ensures match ParseOne(buf, max).parsed
      case Incomplete => StreamRun(buf, max) == Run([], Waiting(buf))
      case Error(e) => StreamRun(buf, max) == Run([], Failed(e))
      case Empty => StreamRun(buf, max) == StreamRun(buf[ParseOne(buf, max).consumed..], max)
      case Command(args) => StreamRun(buf, max) == Prepend([args], StreamRun(buf[ParseOne(buf, max).consumed..], max))
  {
    hide ParseOne;
    FrameConsumes(buf, max);
  }

  lemma IncompleteRun(buf: Bytes, max: nat)
    requires ParseOne(buf, max).parsed.Incomplete? || buf == []
    ensures StreamRun(buf, max) == Run([], Waiting(buf))
  {
  }

  /** Parsing what has arrived of a steady stream is parsing the start of it. */
  lemma {:induction false} SteadyDrain(buf: Bytes, tail: Bytes, max: nat)
    requires SteadyStream(buf + tail, max)
    ensures match StreamRun(buf, max).end
      case Failed(_) => StreamRun(buf + tail, max) == StreamRun(buf, max)
      case Waiting(rest) =>
        && SteadyStream(rest + tail, max)
        && StreamRun(buf + tail, max) == Prepend(StreamRun(buf, max).commands, StreamRun(rest + tail, max))
    decreases |buf|
  {
    hide ParseOne, SteadyStream, StreamRun;
    FirstFrame(buf, max);
    FrameConsumes(buf, max);
    var o := ParseOne(buf, max);
    if o.parsed.Incomplete? {
      PrependNothing(StreamRun(buf + tail, max));
    } else {
      FrameOfStream(buf, tail, max);
      if !o.parsed.Error? {
        var next := buf[o.consumed..];
        SteadyDrain(next, tail, max);
        var r := StreamRun(next, max);
        if o.parsed.Command? && r.end.Waiting? {
          PrependTwice([o.parsed.args], r.commands, StreamRun(r.end.rest + tail, max));
        }
      }
    }
  }

  /** The chunks of a steady stream do not matter. */
  lemma {:induction false} SteadyRest(buf: Bytes, chunks: seq<Bytes>, max: nat)
    requires SteadyStream(buf + Concat(chunks), max) && StreamRun(buf, max) == Run([], Waiting(buf))
    ensures ChunkedRun(buf, chunks, max) == StreamRun(buf + Concat(chunks), max)
    decreases |chunks|
  {
    hide SteadyStream, StreamRun, ParseOne;
    if |chunks| == 0 {
      assert buf + Concat(chunks) == buf;
    } else {
      var here, tail := buf + chunks[0], Concat(chunks[1..]);
      assert buf + Concat(chunks) == here + tail;
      SteadyDrain(here, tail, max);
      var r := StreamRun(here, max);
      if r.end.Waiting? {
        DrainStops(here, max);
        SteadyRest(r.end.rest, chunks[1..], max);
      }
    }
  }

  /** What is left waiting is the start of an unfinished frame. */
  lemma {:induction false} DrainStops(buf: Bytes, max: nat)
    requires StreamRun(buf, max).end.Waiting?
    ensures StreamRun(StreamRun(buf, max).end.rest, max) == Run([], Waiting(StreamRun(buf, max).end.rest))
    decreases |buf|
  {
    hide ParseOne, StreamRun;
    FirstFrame(buf, max);
    FrameConsumes(buf, max);
    var o := ParseOne(buf, max);
    if !o.parsed.Incomplete? {
      DrainStops(buf[o.consumed..], max);
    }
  }

  lemma SteadyChunks(chunks: seq<Bytes>, max: nat)
    requires SteadyStream(Concat(chunks), max)
    ensures ChunkedRun([], chunks, max) == StreamRun(Concat(chunks), max)
  {
    hide SteadyStream, ChunkedRun;
    assert [] + Concat(chunks) == Concat(chunks);
    IncompleteRun([], max);
    SteadyRest([], chunks, max);
  }

  // ---------------------------------------------- exactly the short headers

  /** A header line that ends, but too late, is reported too long by a prefix. */
  lemma LongLineFails(buf: Bytes, pos: nat)
    requires pos < |buf| && !ShortLine(buf, pos)
    ensures pos + INLINE_MAX_SIZE + 1 <= |buf|
    ensures LineAt(buf[..pos + INLINE_MAX_SIZE + 1], pos + 1).Unterminated?
  {
    var k := pos + INLINE_MAX_SIZE + 1;
    var cut := buf[..k];
    assert buf == cut + buf[k..];
    FoundStays(cut, buf[k..], pos + 1, CR);
  }

  lemma {:induction false} LongBulksFail(buf: Bytes, max: nat, pos: nat, remaining: nat, args: seq<Bytes>) returns (k: nat)
    requires pos <= |buf| && remaining > 0
    requires !ShortBulks(buf, max, pos, remaining)
    ensures pos < k <= |buf| && Bulks(buf[..k], max, pos, remaining, args) == Fail(TooBigBulkCount)
    decreases remaining
  {
    hide ParseI64Strict, LineAt, ShortLine;
    if !ShortLine(buf, pos) {
      k := pos + INLINE_MAX_SIZE + 1;
      LongLineFails(buf, pos);
    } else {
      var end := LineAt(buf, pos + 1).end;
      var len: nat := ParseI64Strict(buf[pos + 1..end]).value;
      var next := end + 2 + len + 2;
      k := LongBulksFail(buf, max, next, remaining - 1, args + [buf[end + 2..end + 2 + len]]);
      CutKeepsBulk(buf, k, pos, end);
      assert buf[..k][end + 2..end + 2 + len] == buf[end + 2..end + 2 + len];
    }
  }

  lemma CutKeepsBulk(buf: Bytes, k: nat, pos: nat, end: nat)
    requires pos < |buf| && LineAt(buf, pos + 1) == Found(end) && end + 2 <= k <= |buf|
    ensures LineAt(buf[..k], pos + 1) == Found(end) && buf[..k][pos + 1..end] == buf[pos + 1..end]
  {
    FoundStays(buf[..k], buf[k..], pos + 1, CR);
    assert buf == buf[..k] + buf[k..];
  }

  /** Some read boundary inside a header line that is too long gets it refused. */
  lemma LongFrameFails(buf: Bytes, max: nat) returns (k: nat)
    requires !ShortFrame(buf, max)
    ensures k <= |buf| && ParseOne(buf[..k], max) == Fail(TooLong(buf))
  {
    hide ParseI64Strict, LineAt, ShortLine, Bulks, ShortBulks;
    if !ShortLine(buf, 0) {
      k := INLINE_MAX_SIZE + 1;
      LongLineFails(buf, 0);
    } else {
      var end := LineAt(buf, 1).end;
      k := LongBulksFail(buf, max, end + 2, ParseI64Strict(buf[1..end]).value, []);
      CutKeepsBulk(buf, k, 0, end);
    }
  }

  /** A frame is the same at every read that decides it, exactly when its header
      lines are short, or a bulk header that is too long is followed by one that has
      not ended after 64 KB.  This covers commands, empty frames, errors and
      unfinished frames. */
  lemma PrefixesAgreeIffShort(buf: Bytes, max: nat)
    ensures ShortFrame(buf, max) || OpenFrame(buf, max) <==>
      forall k :: 0 <= k <= |buf| ==> ParseOne(buf[..k], max).parsed.Incomplete? || ParseOne(buf[..k], max) == ParseOne(buf, max)
  {
    hide ParseOne, ShortFrame, ShortLine, OpenFrame;
    if !ShortFrame(buf, max) {
      OpenFrameFails(buf, max);
    }
    if ShortFrame(buf, max) || OpenFrame(buf, max) {
      forall k | 0 <= k <= |buf|
        ensures ParseOne(buf[..k], max).parsed.Incomplete? || ParseOne(buf[..k], max) == ParseOne(buf, max)
      {
        assert buf[..k] + buf[k..] == buf;
        if !ParseOne(buf[..k], max).parsed.Incomplete? && ParseOne(buf[..k], max) != ParseOne(buf, max) {
          NonEmptyFrame(buf[..k], max);
          Undecided(buf[..k], buf[k..], max);
        }
      }
    } else {
      var k := LongFrameFails(buf, max);
      assert ParseOne(buf[..k], max).parsed.Error?;
    }
  }

  /** What follows a complete frame does not matter. */
  lemma {:induction false} BulksCut(buf: Bytes, m: nat, max: nat, pos: nat, remaining: nat, args: seq<Bytes>)
    requires pos <= |buf| && remaining > 0 && m <= |buf|
    requires Bulks(buf, max, pos, remaining, args).parsed.Command? && Bulks(buf, max, pos, remaining, args).consumed <= m
    ensures pos <= m && Bulks(buf[..m], max, pos, remaining, args) == Bulks(buf, max, pos, remaining, args)
    decreases remaining
  {
    hide ParseI64Strict, LineAt;
    var end := LineAt(buf, pos + 1).end;
    var len: nat := ParseI64Strict(buf[pos + 1..end]).value;
    var next := end + 2 + len + 2;
    if remaining > 1 {
      BulksCut(buf, m, max, next, remaining - 1, args + [buf[end + 2..end + 2 + len]]);
    }
    CutKeepsBulk(buf, m, pos, end);
    assert buf[..m][end + 2..end + 2 + len] == buf[end + 2..end + 2 + len];
  }

  lemma FrameCut(buf: Bytes, m: nat, max: nat)
    requires ParseOne(buf, max).parsed.Command? || ParseOne(buf, max).parsed.Empty?
    requires ParseOne(buf, max).consumed <= m <= |buf|
    ensures ParseOne(buf[..m], max) == ParseOne(buf, max)
  {
    hide Multibulk, InlineFrame;
    FrameConsumes(buf, max);
    if buf[0] == ASTERISK {
      MultibulkCut(buf, m, max);
    } else {
      InlineCut(buf, m);
    }
  }

  lemma InlineCut(buf: Bytes, m: nat)
    requires InlineFrame(buf).parsed.Command? || InlineFrame(buf).parsed.Empty?
    requires InlineFrame(buf).consumed <= m <= |buf|
    ensures InlineFrame(buf[..m]) == InlineFrame(buf)
  {
    hide Inline.SplitFrom, IndexOf;
    var nl := IndexOf(buf, 0, LF);
    IndexOfUnique(buf[..m], 0, LF, nl);
    assert buf[..m][..InlineEnd(buf, nl)] == buf[..InlineEnd(buf, nl)];
  }

  lemma MultibulkCut(buf: Bytes, m: nat, max: nat)
    requires |buf| > 0 && (Multibulk(buf, max).parsed.Command? || Multibulk(buf, max).parsed.Empty?)
    requires 0 < Multibulk(buf, max).consumed <= m <= |buf|
    ensures Multibulk(buf[..m], max) == Multibulk(buf, max)
  {
    hide ParseI64Strict, LineAt, Bulks;
    var end := LineAt(buf, 1).end;
    var count := ParseI64Strict(buf[1..end]).value;
    if count > 0 {
      BulksConsume(buf, max, end + 2, count, []);
      BulksCut(buf, m, max, end + 2, count, []);
    }
    CutKeepsBulk(buf, m, 0, end);
  }

  /** A stream that is not steady has a read boundary at which the connection
      fails although the whole stream gives something else. */
  lemma {:induction false} UnsteadyCut(buf: Bytes, max: nat) returns (k: nat)
    requires !SteadyStream(buf, max)
    ensures k <= |buf| && StreamRun(buf[..k], max).end.Failed? && StreamRun(buf[..k], max) != StreamRun(buf, max)
    decreases |buf|
  {
    hide ParseOne, ShortFrame, ShortLine, SteadyFrame;
    FirstFrame(buf, max);
    FrameConsumes(buf, max);
    SteadyMeans(buf, max);
    var o := ParseOne(buf, max);
    if !SteadyFrame(buf, max) {
      k := LongFrameFails(buf, max);
      FirstFrame(buf[..k], max);
    } else {
      var rest := buf[o.consumed..];
      var j := UnsteadyCut(rest, max);
      k := o.consumed + j;
      FrameCut(buf, k, max);
      FirstFrame(buf[..k], max);
      assert buf[..k][o.consumed..] == rest[..j];
      if o.parsed.Command? {
        if Prepend([o.parsed.args], StreamRun(rest[..j], max)) == Prepend([o.parsed.args], StreamRun(rest, max)) {
          PrependInjective(o.parsed.args, StreamRun(rest[..j], max), StreamRun(rest, max));
        }
      }
    }
  }

  lemma PrependInjective(args: seq<Bytes>, r: Run, r': Run)
    requires Prepend([args], r) == Prepend([args], r')
    ensures r == r'
  {
    assert r.commands == ([args] + r.commands)[1..] && r'.commands == ([args] + r'.commands)[1..];
  }

  /** (Chunks) A connection makes the same of a stream however it is cut into
      reads, exactly if the stream is steady. */
  lemma ChunksAgreeIffSteady(buf: Bytes, max: nat)
    ensures SteadyStream(buf, max) <==>
      forall chunks :: Concat(chunks) == buf ==> ChunkedRun([], chunks, max) == StreamRun(buf, max)
  {
    hide SteadyStream, StreamRun, ChunkedRun, Concat;
    if SteadyStream(buf, max) {
      forall chunks | Concat(chunks) == buf
        ensures ChunkedRun([], chunks, max) == StreamRun(buf, max)
      {
        SteadyChunks(chunks, max);
      }
    } else {
      var k := UnsteadyCut(buf, max);
      TwoChunks(buf, k, max);
      assert Concat([buf[..k], buf[k..]]) == buf && ChunkedRun([], [buf[..k], buf[k..]], max) != StreamRun(buf, max);
    }
  }

  lemma TwoChunks(buf: Bytes, k: nat, max: nat)
    requires k <= |buf| && StreamRun(buf[..k], max).end.Failed?
    ensures Concat([buf[..k], buf[k..]]) == buf
    ensures ChunkedRun([], [buf[..k], buf[k..]], max) == StreamRun(buf[..k], max)
  {
    hide StreamRun;
    var chunks: seq<Bytes> := [buf[..k], buf[k..]];
    assert chunks[1..] == [buf[k..]] && |chunks[1..][1..]| == 0;
    assert Concat(chunks[1..]) == buf[k..] + [] == buf[k..];
    assert Concat(chunks) == buf[..k] + buf[k..] == buf;
    assert [] + buf[..k] == buf[..k];
  }

  // ------------------------------------------------------------ round trip

  function Crlf(): Bytes {
    [CR, LF]
  }

  /** One bulk of a request. */
  function EncodeBulk(arg: Bytes): Bytes {
    [DOLLAR] + Text(|arg|) + Crlf() + arg + Crlf()
  }

  function EncodeBulks(args: seq<Bytes>): Bytes {
    if |args| == 0 then [] else EncodeBulk(args[0]) + EncodeBulks(args[1..])
  }

  /** A command as a client sends it. */
  function Encode(args: seq<Bytes>): Bytes {
    [ASTERISK] + Text(|args|) + Crlf() + EncodeBulks(args)
  }

  function EncodeAll(commands: seq<seq<Bytes>>): Bytes {
    if |commands| == 0 then [] else Encode(commands[0]) + EncodeAll(commands[1..])
  }

  /** Within the protocol's limits. */
  ghost predicate Sendable(args: seq<Bytes>, max: nat) {
    |args| <= 1048576 && forall i :: 0 <= i < |args| ==> |args[i]| <= max && |args[i]| <= I64_MAX
  }

  /** A header line somewhere in a buffer. */
  function LineOf(pre: Bytes, line: Bytes, post: Bytes): Bytes {
    pre + line + Crlf() + post
  }

  lemma LineParts(pre: Bytes, line: Bytes, post: Bytes)
    ensures var buf, cr := LineOf(pre, line, post), |pre| + |line|;
      cr + 1 < |buf| && buf[|pre|..cr] == line && buf[cr] == CR && buf[cr + 1] == LF
  {
  }

  lemma LineEndsAt(buf: Bytes, from: nat, digits: Bytes)
    requires AllDigits(digits)
    requires var cr := from + |digits|; cr + 1 < |buf| && buf[from..cr] == digits && buf[cr] == CR && buf[cr + 1] == LF
    ensures IndexOf(buf, from, CR) == from + |digits| && LineAt(buf, from) == Found(from + |digits|)
  {
    var cr := from + |digits|;
    forall k | from <= k < cr
      ensures buf[k] != CR
    {
      assert digits[k - from] == buf[k] && IsDigit(digits[k - from]);
    }
    IndexOfUnique(buf, from, CR, cr);
  }

  /** The header line of a number, wherever it stands. */
  lemma NumberLine(pre: Bytes, n: nat, post: Bytes)
    requires n <= I64_MAX
    ensures var buf := LineOf(pre, Text(n), post);
      && LineAt(buf, |pre|) == Found(|pre| + |Text(n)|)
      && IndexOf(buf, |pre|, CR) == |pre| + |Text(n)| <= |pre| + 19
      && ParseI64Strict(buf[|pre|..|pre| + |Text(n)|]) == Some(n as int)
  {
    hide Text, IndexOf, LineAt, ParseI64Strict, AllDigits, LineOf;
    I64IsShort(n);
    ParseText(n);
    LineParts(pre, Text(n), post);
    LineEndsAt(LineOf(pre, Text(n), post), |pre|, Text(n));
  }

  /** Encoded bulks parse back, and their header lines are short. */
  lemma {:induction false} BulksDecode(pre: Bytes, args: seq<Bytes>, post: Bytes, max: nat, done: seq<Bytes>)
    requires |args| > 0 && Sendable(args, max)
    ensures var buf := pre + EncodeBulks(args) + post;
      && Bulks(buf, max, |pre|, |args|, done) == Outcome(Command(done + args), |pre| + |EncodeBulks(args)|)
      && ShortBulks(buf, max, |pre|, |args|)
    decreases |args|
  {
    hide Text, ParseI64Strict, LineAt, IndexOf, Bulks, ShortBulks, EncodeBulks;
    var arg, more := args[0], args[1..];
    var buf := pre + EncodeBulks(args) + post;
    EncodeBulksIs(args);
    var tail := EncodeBulks(more) + post;
    NumberLine(pre + [DOLLAR], |arg|, arg + Crlf() + tail);
    assert buf == LineOf(pre + [DOLLAR], Text(|arg|), arg + Crlf() + tail);
    var end := |pre| + 1 + |Text(|arg|)|;
    var next := pre + EncodeBulk(arg);
    assert buf == next + tail && |next| == end + 2 + |arg| + 2;
    assert buf[end + 2..end + 2 + |arg|] == arg;
    if |args| == 1 {
      EncodeNoBulks(more);
      NoBulksShort(buf, max, |next|);
      assert more == [] && args == [arg];
    } else {
      BulksDecode(next, more, post, max, done + [arg]);
      assert buf == next + EncodeBulks(more) + post;
      assert done + args == (done + [arg]) + more;
    }
    OneBulk(buf, max, |pre|, |args|, done, end, arg);
  }

  lemma NoBulksShort(buf: Bytes, max: nat, pos: nat)
    requires pos <= |buf|
    ensures ShortBulks(buf, max, pos, 0)
  {
  }

  lemma EncodeBulksIs(args: seq<Bytes>)
    requires |args| > 0
    ensures EncodeBulks(args) == EncodeBulk(args[0]) + EncodeBulks(args[1..])
  {
  }

  lemma EncodeNoBulks(args: seq<Bytes>)
    ensures |args| == 0 ==> EncodeBulks(args) == []
  {
  }

  /** Reading one well-formed bulk. */
  lemma OneBulk(buf: Bytes, max: nat, pos: nat, remaining: nat, done: seq<Bytes>, end: nat, arg: Bytes)
    requires pos < |buf| && remaining > 0 && buf[pos] == DOLLAR && |arg| <= max
    requires LineAt(buf, pos + 1) == Found(end) && IndexOf(buf, pos + 1, CR) == end && end - pos < INLINE_MAX_SIZE
    requires end + 2 + |arg| + 2 <= |buf| && buf[end + 2..end + 2 + |arg|] == arg
    requires ParseI64Strict(buf[pos + 1..end]) == Some(|arg| as int)
    ensures Bulks(buf, max, pos, remaining, done) ==
      if remaining == 1 then Outcome(Command(done + [arg]), end + 2 + |arg| + 2)
      else Bulks(buf, max, end + 2 + |arg| + 2, remaining - 1, done + [arg])
    ensures ShortBulks(buf, max, pos, remaining) <==> ShortBulks(buf, max, end + 2 + |arg| + 2, remaining - 1)
  {
    hide ParseI64Strict, LineAt, IndexOf;
  }

  /** One encoded command comes back, whatever follows it. */
  lemma FrameDecodes(args: seq<Bytes>, post: Bytes, max: nat)
    requires Sendable(args, max)
    ensures ParseOne(Encode(args) + post, max) == Outcome(if |args| == 0 then Empty else Command(args), |Encode(args)|)
    ensures ShortFrame(Encode(args) + post, max)
  {
    hide Text, ParseI64Strict, LineAt, IndexOf, Bulks, ShortBulks, EncodeBulks;
    var buf := Encode(args) + post;
    NumberLine([ASTERISK], |args|, EncodeBulks(args) + post);
    assert buf == LineOf([ASTERISK], Text(|args|), EncodeBulks(args) + post);
    if |args| > 0 {
      var pre := [ASTERISK] + Text(|args|) + Crlf();
      BulksDecode(pre, args, post, max, []);
      assert buf == pre + EncodeBulks(args) + post;
      assert [] + args == args;
    } else {
      EncodeNoBulks(args);
    }
  }

  function Zeros(n: nat): Bytes {
    seq(n, _ => ZERO)
  }

  lemma {:induction false} ZerosValue(n: nat)
    ensures AllDigits(Zeros(n)) && Value(Zeros(n)) == 0
  {
    if n > 0 {
      ZerosValue(n - 1);
      assert Zeros(n)[..n - 1] == Zeros(n - 1);
    }
  }

  /** Leading zeros change no number. */
  lemma {:induction false} LeadingZeros(n: nat, s: Bytes)
    requires AllDigits(s)
    ensures AllDigits(Zeros(n) + s) && Value(Zeros(n) + s) == Value(s)
    decreases |s|
  {
    ZerosValue(n);
    if |s| == 0 {
      assert Zeros(n) + s == Zeros(n);
    } else {
      var init := s[..|s| - 1];
      LeadingZeros(n, init);
      assert (Zeros(n) + s)[..n + |s| - 1] == Zeros(n) + init;
    }
  }

  lemma PaddedLine(n: nat, m: nat, post: Bytes)
    requires m <= I64_MAX
    ensures var buf, cr := LineOf([ASTERISK], Zeros(n) + Text(m), post), 1 + n + |Text(m)|;
      IndexOf(buf, 1, CR) == cr && LineAt(buf, 1) == Found(cr) && ParseI64Strict(buf[1..cr]) == Some(m as int)
  {
    hide Text, IndexOf, LineAt, AllDigits, LineOf;
    var digits := Zeros(n) + Text(m);
    TextValue(m);
    LeadingZeros(n, Text(m));
    LineParts([ASTERISK], digits, post);
    LineEndsAt(LineOf([ASTERISK], digits, post), 1, digits);
    NoSign(digits);
  }

  lemma NoSign(digits: Bytes)
    requires |digits| > 0 && AllDigits(digits) && Value(digits) <= I64_MAX
    ensures ParseI64Strict(digits) == Some(Value(digits) as int)
  {
    assert IsDigit(digits[0]);
  }

  /** A command whose count has `n` leading zeros. */
  function Padded(n: nat, args: seq<Bytes>): Bytes {
    LineOf([ASTERISK], Zeros(n) + Text(|args|), EncodeBulks(args))
  }

  /** It is the same command, and chunks do not matter to it exactly while its
      count line stays below 64 KB.  With 65536 zeros the read that ends just past
      64 KB refuses it. */
  lemma PaddedCount(n: nat, args: seq<Bytes>, max: nat)
    requires |args| > 0 && Sendable(args, max)
    ensures var buf := Padded(n, args);
      && ParseOne(buf, max) == Outcome(Command(args), |buf|)
      && (SteadyStream(buf, max) <==> 1 + n + |Text(|args|)| < 65536)
      && (n >= 65536 ==> |buf| > 65536 && ParseOne(buf[..65537], max) == Fail(TooBigMbulkCount))
  {
    hide Text, ParseI64Strict, LineAt, IndexOf, Bulks, ShortBulks, EncodeBulks, LineOf, Sendable;
    var buf := Padded(n, args);
    PaddedBulks(n, args, max);
    PaddedLine(n, |args|, EncodeBulks(args));
    IncompleteRun([], max);
    EmptyShort(max);
    FirstFrame(buf, max);
    SteadyMeans(buf, max);
    assert buf[|buf|..] == [];
    if n >= INLINE_MAX_SIZE {
      LongLineFails(buf, 0);
    }
  }

  lemma PaddedBulks(n: nat, args: seq<Bytes>, max: nat)
    requires |args| > 0 && Sendable(args, max)
    ensures var buf, pos := Padded(n, args), 1 + n + |Text(|args|)| + 2;
      && pos <= |buf| && buf[0] == ASTERISK && |args| <= MULTIBULK_MAX
      && Bulks(buf, max, pos, |args|, []) == Outcome(Command(args), |buf|) && ShortBulks(buf, max, pos, |args|)
  {
    hide Text, Bulks, ShortBulks, EncodeBulks;
    var pre := [ASTERISK] + (Zeros(n) + Text(|args|)) + Crlf();
    BulksDecode(pre, args, [], max, []);
    assert Padded(n, args) == pre + EncodeBulks(args) + [] && [] + args == args;
  }

  function LineBreak(cr: bool): Bytes {
    if cr then [13, 10] else [10]
  }

  lemma InlineEnds(line: Bytes, cr: bool, post: Bytes)
    requires LF !in line && (|line| > 0 ==> line[|line| - 1] != CR)
    ensures var buf, nl := line + LineBreak(cr) + post, |line| + |LineBreak(cr)| - 1;
      && nl < |buf| && IndexOf(buf, 0, LF) == nl && buf[..InlineEnd(buf, nl)] == line
      && (if |line| > 0 then buf[0] == line[0] else buf[0] == 13 || buf[0] == 10)
  {
    hide IndexOf;
    var buf, nl := line + LineBreak(cr) + post, |line| + |LineBreak(cr)| - 1;
    assert forall k :: 0 <= k < |line| ==> buf[k] == line[k];
    assert buf[|line|] == LineBreak(cr)[0] && buf[nl] == 10;
    IndexOfUnique(buf, 0, LF, nl);
  }

  /** A request typed as a line, with a carriage return before the line feed or
      without, is what its words mean; it may take 64 KB. */
  lemma InlineDecodes(words: seq<Inline.Word>, cr: bool, post: Bytes, max: nat)
    requires var line := Inline.Line(words);
      && Inline.WordsOk(words) && |line| <= 65535 && LF !in line
      && (|line| > 0 ==> line[0] != ASTERISK && line[|line| - 1] != CR)
    ensures var line := Inline.Line(words) + LineBreak(cr);
      ParseOne(line + post, max) ==
        Outcome(if |words| == 0 then Empty else Command(Inline.Meanings(words)), |line|)
  {
    hide Inline.SplitFrom, Inline.WordsOk, Inline.Line, IndexOf, InlineEnd;
    var line := Inline.Line(words);
    InlineEnds(line, cr, post);
    Inline.SplitSpelled([], words);
    assert [] + line == line;
    MeaningsCount(words);
  }

  lemma {:induction false} MeaningsCount(words: seq<Inline.Word>)
    ensures |Inline.Meanings(words)| == |words|
  {
    if |words| > 0 {
      MeaningsCount(words[1..]);
    }
  }

  ghost function NonEmpty(commands: seq<seq<Bytes>>): seq<seq<Bytes>> {
    if |commands| == 0 then []
    else (if |commands[0]| == 0 then [] else [commands[0]]) + NonEmpty(commands[1..])
  }

  /** (Round trip) A pipeline of encoded argument lists parses back to exactly
      those lists; only empty ones, which mean nothing, are dropped. */
  lemma {:induction false} PipelineDecodes(commands: seq<seq<Bytes>>, max: nat)
    requires forall i :: 0 <= i < |commands| ==> Sendable(commands[i], max)
    ensures StreamRun(EncodeAll(commands), max) == Run(NonEmpty(commands), Waiting([]))
    ensures SteadyStream(EncodeAll(commands), max)
  {
    hide ParseOne, Encode, ShortFrame;
    var buf := EncodeAll(commands);
    if |commands| == 0 {
      IncompleteRun([], max);
      EmptyShort(max);
    } else {
      var rest := EncodeAll(commands[1..]);
      FrameDecodes(commands[0], rest, max);
      PipelineDecodes(commands[1..], max);
      assert buf[|Encode(commands[0])|..] == rest;
    }
  }

  lemma EmptyShort(max: nat)
    ensures SteadyStream([], max)
  {
  }

  /** ... however the pipeline is cut into chunks on its way. */
  method FeedPipeline(commands: seq<seq<Bytes>>, chunks: seq<Bytes>, max: nat) returns (got: seq<seq<Bytes>>, end: End)
    requires forall i :: 0 <= i < |commands| ==> Sendable(commands[i], max)
    requires Concat(chunks) == EncodeAll(commands)
    ensures got == NonEmpty(commands) && end == Waiting([])
  {
    PipelineDecodes(commands, max);
    got, end := FeedAll(chunks, max);
  }
}
