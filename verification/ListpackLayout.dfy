/**
  A listpack as a list of chunks.  A chunk is an entry together with its backlen;
  it reads the same wherever it stands in a buffer, forwards and backwards.
  */
module ListpackLayout {
  import opened ByteStrings
  import opened Decimal
  import opened LittleEndian
  import opened ListpackCodec

  const LP_HDR_SIZE: nat := 6
  const LP_EOF: Byte := 0xFF
  const LP_HDR_NUMELE_UNKNOWN: nat := 65535
  const LP_MAX_SAFETY_SIZE: nat := 1073741824

  // ------------------------------------------------------------------- chunks

  ghost predicate ChunkOk(c: Bytes) {
    match DecodeAt(c, 0)
    case None => false
    case Some((_, n)) => n < Pow128(5) && |c| == n + BacklenSize(n) && c[n..] == Backlen(n)
  }

  function Enclen(c: Bytes): nat
    requires ChunkOk(c)
  {
    DecodeAt(c, 0).value.1
  }

  function Element(c: Bytes): Entry
    requires ChunkOk(c)
  {
    DecodeAt(c, 0).value.0
  }

  /** The chunk an entry is written as. */
  function Chunk(e: Entry): Bytes
    requires Encodable(e)
  {
    Encode(e) + Backlen(PayloadEnclen(e))
  }

  lemma ChunkWritten(e: Entry)
    requires Encodable(e)
    ensures ChunkOk(Chunk(e)) && Element(Chunk(e)) == e && Enclen(Chunk(e)) == PayloadEnclen(e)
    ensures |Chunk(e)| == PayloadEnclen(e) + BacklenSize(PayloadEnclen(e))
  {
    hide DecodeAt, Encode;
    DecodeEncode(e, Backlen(PayloadEnclen(e)));
    assert Pow128(5) == 34359738368 by {
      assert Pow128(3) == 2097152;
    }
  }

  lemma CutLocal(buf: Bytes, off: nat, c: Bytes, at: nat, n: nat)
    requires off + |c| <= |buf| && buf[off..off + |c|] == c && at + n <= |c|
    ensures Cut(buf, off + at, n) == Cut(c, at, n)
  {
    var x, y := buf[off + at..off + at + n], c[at..at + n];
    forall i | 0 <= i < n
      ensures x[i] == y[i]
    {
      assert c[at + i] == buf[off..off + |c|][at + i];
    }
    assert x == y;
  }

  /** (Locality, forwards) An entry that is complete in `c` reads the same in a
      buffer that contains `c`. */
  lemma DecodeLocal(buf: Bytes, off: nat, c: Bytes)
    requires off + |c| <= |buf| && buf[off..off + |c|] == c && ChunkOk(c)
    ensures EnclenAt(buf, off) == Some(Enclen(c)) && DecodeAt(buf, off) == DecodeAt(c, 0)
  {
    hide Pow128, Backlen;
    var n := Enclen(c);
    var b0 := c[0];
    assert buf[off] == c[0];
    if |c| > 1 {
      assert buf[off + 1] == c[1];
    }
    if b0 >= 0x80 && b0 < 0xC0 {
      CutLocal(buf, off, c, 1, b0 - 0x80);
    } else if b0 >= 0xE0 && b0 < 0xF0 {
      CutLocal(buf, off, c, 2, n - 2);
    } else if b0 == ENC_32BIT_STR {
      CutLocal(buf, off, c, 1, 4);
      CutLocal(buf, off, c, 5, n - 5);
    } else if b0 > ENC_32BIT_STR {
      CutLocal(buf, off, c, 1, n - 1);
    }
  }

  /** (Locality, backwards) Its backlen reads its length from the end. */
  lemma BacklenLocal(buf: Bytes, off: nat, c: Bytes)
    requires off + |c| <= |buf| && buf[off..off + |c|] == c && ChunkOk(c)
    ensures |c| > 0 && ReadBack(buf, off + |c| - 1, 5) == Some((Enclen(c), BacklenSize(Enclen(c))))
  {
    hide DecodeAt, Groups, Pow128, ReadBack;
    var n := Enclen(c);
    var pre := buf[..off + n];
    var rest := buf[off + |c|..];
    assert buf[off + n..off + |c|] == c[n..];
    assert buf == pre + Backlen(n) + rest;
    BacklenFits(n);
    ReadGroups(pre, n, BacklenSize(n), rest, 5);
  }

  // ------------------------------------------------------------------ layout

  function Flat(chunks: seq<Bytes>): Bytes {
    if |chunks| == 0 then [] else Flat(chunks[..|chunks| - 1]) + chunks[|chunks| - 1]
  }

  lemma {:induction false} FlatConcat(a: seq<Bytes>, b: seq<Bytes>)
    ensures Flat(a + b) == Flat(a) + Flat(b)
  {
    if |b| == 0 {
      assert a + b == a;
    } else {
      FlatConcat(a, b[..|b| - 1]);
      assert (a + b)[..|a + b| - 1] == a + b[..|b| - 1];
    }
  }

  lemma FlatOne(c: Bytes)
    ensures Flat([c]) == c && Flat([]) == []
  {
    assert [c][..0] == [];
  }

  ghost predicate ChunksOk(chunks: seq<Bytes>) {
    forall k :: 0 <= k < |chunks| ==> ChunkOk(chunks[k])
  }

  /** Six bytes of header, the chunks, the terminator. */
  ghost predicate Layout(buf: Bytes, chunks: seq<Bytes>) {
    && ChunksOk(chunks)
    && |buf| == LP_HDR_SIZE + |Flat(chunks)| + 1
    && buf[LP_HDR_SIZE..|buf| - 1] == Flat(chunks)
    && buf[|buf| - 1] == LP_EOF
  }

  function HeaderTotal(buf: Bytes): nat
    requires |buf| >= LP_HDR_SIZE
  {
    FromLe(buf[..4])
  }

  function HeaderCount(buf: Bytes): nat
    requires |buf| >= LP_HDR_SIZE
  {
    FromLe(buf[4..6])
  }

  /** ... with a header that tells the size, and the count unless it gave up. */
  ghost predicate WellFormed(buf: Bytes, chunks: seq<Bytes>) {
    && Layout(buf, chunks)
    && HeaderTotal(buf) == |buf|
    && (HeaderCount(buf) == LP_HDR_NUMELE_UNKNOWN || HeaderCount(buf) == |chunks|)
  }

  /** Where chunk `k` starts; past the last one comes the terminator. */
  function Offset(chunks: seq<Bytes>, k: nat): nat
    requires k <= |chunks|
  {
    LP_HDR_SIZE + |Flat(chunks[..k])|
  }

  lemma OffsetStep(chunks: seq<Bytes>, k: nat)
    requires k < |chunks|
    ensures Offset(chunks, k + 1) == Offset(chunks, k) + |chunks[k]|
  {
    assert chunks[..k + 1][..k] == chunks[..k];
  }

  lemma InBody(buf: Bytes, pre: Bytes, c: Bytes, post: Bytes)
    requires |buf| == LP_HDR_SIZE + |pre| + |c| + |post| + 1
    requires buf[LP_HDR_SIZE..|buf| - 1] == pre + (c + post)
    ensures buf[LP_HDR_SIZE + |pre|..LP_HDR_SIZE + |pre| + |c|] == c
  {
    var body := buf[LP_HDR_SIZE..|buf| - 1];
    assert body[|pre|..|pre| + |c|] == c;
    assert buf[LP_HDR_SIZE + |pre|..LP_HDR_SIZE + |pre| + |c|] == body[|pre|..|pre| + |c|];
  }

  /** What stands at chunk `k`. */
  lemma AtChunk(buf: Bytes, chunks: seq<Bytes>, k: nat)
    requires Layout(buf, chunks) && k < |chunks|
    ensures ChunkOk(chunks[k])
    ensures var off, next := Offset(chunks, k), Offset(chunks, k + 1);
      && off < next == off + |chunks[k]| <= |buf| - 1
      && buf[off..next] == chunks[k]
      && EnclenAt(buf, off) == Some(Enclen(chunks[k]))
      && DecodeAt(buf, off) == Some((Element(chunks[k]), Enclen(chunks[k])))
      && next == off + Enclen(chunks[k]) + BacklenSize(Enclen(chunks[k]))
      && ReadBack(buf, next - 1, 5) == Some((Enclen(chunks[k]), BacklenSize(Enclen(chunks[k]))))
  {
    hide DecodeAt, EnclenAt, ReadBack, Flat, Backlen;
    var off, next := Offset(chunks, k), Offset(chunks, k + 1);
    OffsetStep(chunks, k);
    var pre, post := chunks[..k], chunks[k + 1..];
    FlatConcat(pre, chunks[k..]);
    FlatConcat([chunks[k]], post);
    FlatOne(chunks[k]);
    assert chunks == pre + chunks[k..] && chunks[k..] == [chunks[k]] + post;
    InBody(buf, Flat(pre), chunks[k], Flat(post));
    DecodeLocal(buf, off, chunks[k]);
    BacklenLocal(buf, off, chunks[k]);
  }

  lemma AtEnds(buf: Bytes, chunks: seq<Bytes>)
    requires Layout(buf, chunks)
    ensures Offset(chunks, 0) == LP_HDR_SIZE && Offset(chunks, |chunks|) == |buf| - 1
  {
    assert chunks[..0] == [] && chunks[..|chunks|] == chunks;
  }

  lemma {:induction false} OffsetsGrow(chunks: seq<Bytes>, j: nat, k: nat)
    requires ChunksOk(chunks) && j <= k <= |chunks|
    ensures Offset(chunks, j) + (k - j) <= Offset(chunks, k)
    decreases k
  {
    hide Flat, ChunkOk;
    if j < k {
      OffsetsGrow(chunks, j, k - 1);
      OffsetStep(chunks, k - 1);
      ChunkNonempty(chunks[k - 1]);
    }
  }

  lemma ChunkNonempty(c: Bytes)
    requires ChunkOk(c)
    ensures |c| > 0
  {
  }

  /** Before the terminator exactly when a chunk stands there. */
  lemma BeforeEnd(buf: Bytes, chunks: seq<Bytes>, k: nat)
    requires Layout(buf, chunks) && k <= |chunks|
    ensures Offset(chunks, k) < |buf| - 1 <==> k < |chunks|
    ensures LP_HDR_SIZE <= Offset(chunks, k) <= |buf| - 1
    ensures Offset(chunks, k) == LP_HDR_SIZE <==> k == 0
  {
    hide Flat;
    AtEnds(buf, chunks);
    OffsetsGrow(chunks, k, |chunks|);
    OffsetsGrow(chunks, 0, k);
  }

  function Elements(chunks: seq<Bytes>): seq<Entry>
    requires ChunksOk(chunks)
  {
    seq(|chunks|, k requires 0 <= k < |chunks| => Element(chunks[k]))
  }

  /** Numbers read back as i64. */
  lemma ElementNumber(c: Bytes)
    requires ChunkOk(c) && Element(c).Int?
    ensures IsI64(Element(c).v)
  {
    hide Pow128, Backlen;
    Powers();
    var b0 := c[0];
    if b0 == ENC_16BIT_INT || b0 == ENC_24BIT_INT || b0 == ENC_32BIT_INT || b0 == ENC_64BIT_INT {
      ToFromSigned(c[1..Enclen(c)]);
    }
  }

  /** (Unique reading) A buffer has at most one list of chunks. */
  lemma {:induction false} SameChunks(buf: Bytes, a: seq<Bytes>, b: seq<Bytes>, k: nat)
    requires Layout(buf, a) && Layout(buf, b) && k <= |a|
    ensures k <= |b| && a[..k] == b[..k]
  {
    hide Flat, DecodeAt, EnclenAt, ReadBack, ChunkOk, Enclen, Element;
    if k > 0 {
      SameChunks(buf, a, b, k - 1);
      BeforeEnd(buf, a, k - 1);
      BeforeEnd(buf, b, k - 1);
      AtChunk(buf, a, k - 1);
      AtChunk(buf, b, k - 1);
      assert a[..k] == a[..k - 1] + [a[k - 1]] && b[..k] == b[..k - 1] + [b[k - 1]];
    }
  }

  /** Replacing chunks `k .. k + r` by others is a splice of the bytes. */
  lemma Spliced(buf: Bytes, chunks: seq<Bytes>, buf': Bytes, k: nat, r: nat, added: seq<Bytes>)
    requires Layout(buf, chunks) && k + r <= |chunks| && ChunksOk(added)
    requires Offset(chunks, k) <= Offset(chunks, k + r) <= |buf| && |buf'| >= LP_HDR_SIZE && |buf| >= LP_HDR_SIZE
    requires buf'[LP_HDR_SIZE..] == buf[LP_HDR_SIZE..Offset(chunks, k)] + Flat(added) + buf[Offset(chunks, k + r)..]
    ensures Layout(buf', chunks[..k] + added + chunks[k + r..])
  {
    hide Flat, ChunkOk;
    var pre, mid, post := chunks[..k], chunks[k..k + r], chunks[k + r..];
    assert chunks == chunks[..k + r] + post && chunks[..k + r] == pre + mid;
    FlatConcat(pre, mid);
    FlatConcat(pre + mid, post);
    FlatConcat(pre, added);
    FlatConcat(pre + added, post);
    var body := buf[LP_HDR_SIZE..|buf| - 1];
    assert body == Flat(pre) + Flat(mid) + Flat(post);
    assert buf[LP_HDR_SIZE..Offset(chunks, k)] == Flat(pre) by {
      assert buf[LP_HDR_SIZE..Offset(chunks, k)] == body[..|Flat(pre)|];
    }
    assert buf[Offset(chunks, k + r)..] == Flat(post) + [LP_EOF] by {
      assert buf[Offset(chunks, k + r)..|buf| - 1] == body[|Flat(pre)| + |Flat(mid)|..];
    }
    assert buf'[LP_HDR_SIZE..] == (Flat(pre) + Flat(added) + Flat(post)) + [LP_EOF];
    assert buf'[LP_HDR_SIZE..|buf'| - 1] == buf'[LP_HDR_SIZE..][..|buf'| - 1 - LP_HDR_SIZE];
    assert buf'[|buf'| - 1] == buf'[LP_HDR_SIZE..][|buf'| - 1 - LP_HDR_SIZE];
  }
}
