/** The listpack operations on one byte buffer. */
module Listpack {
  import opened ByteStrings
  import Arithmetic
  import Decimal
  import opened LittleEndian
  import opened ListpackCodec
  import opened ListpackLayout
  import opened ListpackText

  function Span(buf: Bytes, off: nat): Option<nat> {
    match EnclenAt(buf, off) case None => None case Some(n) => Some(n + BacklenSize(n))
  }

  /** What the header may say about `n` chunks. */
  ghost predicate CountFits(header: nat, n: nat) {
    header == LP_HDR_NUMELE_UNKNOWN || header == n
  }

  function Clamp(v: int): nat {
    if v < 0 then 0 else if v > LP_HDR_NUMELE_UNKNOWN then LP_HDR_NUMELE_UNKNOWN else v
  }

  /** The element count after `delta`; once unknown it stays unknown. */
  function Adjusted(header: nat, delta: int): nat {
    if header == LP_HDR_NUMELE_UNKNOWN then header else Clamp(header + delta)
  }

  /** Following the true count, a saturating counter is right, or knows it is not,
      which it does exactly once the count has passed what 16 bits hold. */
  lemma CountStaysRight(header: nat, n: nat, delta: int)
    requires CountFits(header, n) && 0 <= n + delta
    ensures CountFits(Adjusted(header, delta), n + delta)
    ensures Adjusted(header, delta) == if header == 65535 || n + delta >= 65535 then 65535 else n + delta
  {
  }

  lemma ChunkFacts(buf: Bytes, chunks: seq<Bytes>, k: nat)
    requires Layout(buf, chunks) && k < |chunks|
    ensures ChunkOk(chunks[k]) && |chunks[k]| > 0
    ensures var off, next := Offset(chunks, k), Offset(chunks, k + 1);
      && off < next == off + |chunks[k]| <= |buf| - 1
      && Span(buf, off) == Some(|chunks[k]|)
      && DecodeAt(buf, off) == Some((Element(chunks[k]), Enclen(chunks[k])))
      && next == off + Enclen(chunks[k]) + BacklenSize(Enclen(chunks[k]))
      && ReadBack(buf, next - 1, 5) == Some((Enclen(chunks[k]), BacklenSize(Enclen(chunks[k]))))
  {
    hide DecodeAt, EnclenAt, ReadBack, Layout, Element, Enclen, ChunkOk;
    AtChunk(buf, chunks, k);
  }

  class Listpack {
    var buf: Bytes
    ghost var chunks: seq<Bytes>

    ghost predicate Valid()
      reads this
    {
      WellFormed(buf, chunks)
    }

    /** The elements, first to last. */
    ghost function Contents(): seq<Entry>
      requires Valid()
      reads this
    {
      Elements(chunks)
    }

    constructor ()
      ensures Valid() && chunks == [] && |buf| == 7
    {
      buf := ToLe(7, 4) + ToLe(0, 2) + [LP_EOF];
      chunks := [];
      new;
      Powers();
      FromToLe(7, 4);
      FromToLe(0, 2);
      assert buf[..4] == ToLe(7, 4) && buf[4..6] == ToLe(0, 2);
    }

    /** Adopt serialized bytes: accepted exactly if they are a listpack. */
    constructor FromBytes(bytes: Bytes, ghost parsed: seq<Bytes>)
      requires WellFormed(bytes, parsed)
      ensures Valid() && buf == bytes && chunks == parsed
    {
      buf, chunks := bytes, parsed;
    }

    // -------------------------------------------------------------- offsets

    method EofOffset() returns (off: nat)
      requires Valid()
      ensures off == Offset(chunks, |chunks|) == |buf| - 1
    {
      AtEnds(buf, chunks);
      return |buf| - 1;
    }

    method NextOffset(off: nat, ghost k: nat) returns (r: Option<nat>)
      requires Valid() && k <= |chunks| && off == Offset(chunks, k)
      ensures r == if k < |chunks| then Some(Offset(chunks, k + 1)) else None
    {
      hide EnclenAt, DecodeAt, Flat, Offset;
      BeforeEnd(buf, chunks, k);
      if off >= |buf| - 1 {
        return None;
      }
      ChunkFacts(buf, chunks, k);
      var span := Span(buf, off);
      if span == None {
        return None;
      }
      var n := off + span.value;
      if n > |buf| - 1 {
        return None;
      }
      return Some(n);
    }

    method PrevOffset(off: nat, ghost k: nat) returns (r: Option<nat>)
      requires Valid() && k <= |chunks| && off == Offset(chunks, k)
      ensures r == if k > 0 then Some(Offset(chunks, k - 1)) else None
    {
      hide EnclenAt, DecodeAt, Flat, Offset, ReadBack;
      BeforeEnd(buf, chunks, k);
      if off <= LP_HDR_SIZE {
        return None;
      }
      ChunkFacts(buf, chunks, k - 1);
      BeforeEnd(buf, chunks, k - 1);
      var back := DecodeBacklen(buf, off - 1);
      if back == None {
        return None;
      }
      var len := back.value.0;
      if len + BacklenSize(len) > off {
        return None;
      }
      var start := off - (len + BacklenSize(len));
      if start < LP_HDR_SIZE {
        return None;
      }
      return Some(start);
    }

    /** Offset of element `n`, walking forwards. */
    method SeekFwd(n: nat) returns (r: Option<nat>)
      requires Valid()
      ensures r == if n < |chunks| then Some(Offset(chunks, n)) else None
    {
      hide EnclenAt, DecodeAt, Flat, Offset, ReadBack, WellFormed;
      var off, eof, left := LP_HDR_SIZE, |buf| - 1, n;
      ghost var k := 0;
      ValidParts(buf, chunks);
      AtEnds(buf, chunks);
      while left > 0
        invariant k <= |chunks| && k + left == n && off == Offset(chunks, k)
      {
        BeforeEnd(buf, chunks, k);
        if off >= eof {
          return None;
        }
        ChunkFacts(buf, chunks, k);
        var span := Span(buf, off);
        if span == None {
          return None;
        }
        off := off + span.value;
        left := left - 1;
        k := k + 1;
      }
      BeforeEnd(buf, chunks, k);
      return if off >= eof then None else Some(off);
    }

    /** Offset of element `n`, counting from the end: -1 is the last. */
    method SeekBack(n: int) returns (r: Option<nat>)
      requires Valid() && n < 0
      ensures r == if -n <= |chunks| then Some(Offset(chunks, |chunks| + n)) else None
    {
      hide Flat, Offset, WellFormed;
      ValidParts(buf, chunks);
      AtEnds(buf, chunks);
      var off, left := |buf| - 1, n;
      ghost var k := |chunks|;
      while left < 0
        invariant left <= 0 && 0 <= k <= |chunks| && k - |chunks| == n - left && off == Offset(chunks, k)
        decreases -left
      {
        var prev := PrevOffset(off, k);
        if prev == None {
          return None;
        }
        off := prev.value;
        left := left + 1;
        k := k - 1;
      }
      return Some(off);
    }

    /** The element an index means: negative ones count from the end. */
    ghost function Position(index: int): Option<nat>
      requires Valid()
      reads this
    {
      if 0 <= index < |chunks| then Some(index)
      else if index < 0 && -index <= |chunks| then Some(|chunks| + index)
      else None
    }

    ghost function OffsetOf(index: int): Option<nat>
      requires Valid()
      reads this
    {
      match Position(index) case None => None case Some(k) => Some(Offset(chunks, k))
    }

    /** Offset of an element, walking from the end the count says is closer. */
    method Seek(index: int) returns (r: Option<nat>)
      requires Valid()
      ensures r == OffsetOf(index)
    {
      hide Flat, Offset, Layout;
      ValidParts(buf, chunks);
      var count := FromLe(buf[4..6]);
      if count != LP_HDR_NUMELE_UNKNOWN {
        var i := if index < 0 then index + count else index;
        if i < 0 || i >= count {
          return None;
        }
        if i > count / 2 {
          r := SeekBack(i - count);
        } else {
          r := SeekFwd(i);
        }
        return;
      }
      if index < 0 {
        r := SeekBack(index);
      } else {
        r := SeekFwd(index);
      }
    }

    // ---------------------------------------------------------------- reads

    method EntryAt(off: nat, ghost k: nat) returns (e: Option<Entry>)
      requires Valid() && k <= |chunks| && off == Offset(chunks, k)
      ensures e == if k < |chunks| then Some(Contents()[k]) else None
    {
      hide EnclenAt, DecodeAt, Flat, Offset, ReadBack;
      BeforeEnd(buf, chunks, k);
      if off >= |buf| - 1 {
        return None;
      }
      ChunkFacts(buf, chunks, k);
      var d := DecodeAt(buf, off);
      return if d.Some? then Some(d.value.0) else None;
    }

    method Get(index: int) returns (e: Option<Entry>)
      requires Valid()
      ensures e == match Position(index) case None => None case Some(k) => Some(Contents()[k])
    {
      hide WellFormed, Offset, Element;
      var off := Seek(index);
      if off == None {
        return None;
      }
      e := EntryAt(off.value, Position(index).value);
    }

    /** The forward walk visits the elements in order. */
    method Forward() returns (out: seq<Entry>)
      requires Valid()
      ensures out == Contents()
    {
      hide Flat, Offset, WellFormed, Element, DecodeAt, EnclenAt, ReadBack;
      ValidParts(buf, chunks);
      AtEnds(buf, chunks);
      out := [];
      var off := LP_HDR_SIZE;
      ghost var k := 0;
      while off < |buf| - 1
        invariant k <= |chunks| && off == Offset(chunks, k) && out == Contents()[..k]
        decreases |chunks| - k
      {
        BeforeEnd(buf, chunks, k);
        ChunkFacts(buf, chunks, k);
        var d := DecodeAt(buf, off);
        out := out + [d.value.0];
        off := off + d.value.1 + BacklenSize(d.value.1);
        k := k + 1;
      }
      BeforeEnd(buf, chunks, k);
    }

    /** The backward walk, driven by the backlens, visits them in reverse. */
    method Backward() returns (out: seq<Entry>)
      requires Valid()
      ensures |out| == |Contents()| && forall i :: 0 <= i < |out| ==> out[i] == Contents()[|out| - 1 - i]
    {
      hide Flat, Offset, WellFormed, Element, DecodeAt, EnclenAt, ReadBack;
      out := [];
      var off := EofOffset();
      ghost var k := |chunks|;
      while true
        invariant 0 <= k <= |chunks| && off == Offset(chunks, k) && |out| == |chunks| - k
        invariant forall i :: 0 <= i < |out| ==> out[i] == Contents()[|chunks| - 1 - i]
        decreases k
      {
        var prev := PrevOffset(off, k);
        if prev == None {
          return;
        }
        k := k - 1;
        off := prev.value;
        var e := EntryAt(off, k);
        out := out + [e.value];
      }
    }

    /** The number of elements; a scan once the count is unknown. */
    method Len() returns (n: nat)
      requires Valid()
      ensures n == |chunks|
    {
      hide Layout, Offset, Element;
      ValidParts(buf, chunks);
      var header := FromLe(buf[4..6]);
      if header != LP_HDR_NUMELE_UNKNOWN {
        return header;
      }
      var all := Forward();
      return |all|;
    }

    /** Index of the first entry from `start` on, in steps of `skip + 1`, that is
        stored as the needle would be: the first with its text, unless a number is
        kept as a string. */
    method FindFrom(start: nat, needle: Bytes, skip: nat) returns (r: Option<nat>)
      requires Valid()
      ensures IsFirst(r, StoredHits(Contents(), start, needle, skip))
      ensures NoneDisguised(Contents()) ==> IsFirst(r, TextHits(Contents(), start, needle, skip))
    {
      hide Flat, Offset, WellFormed, Element, DecodeAt, EnclenAt, ReadBack, Canonicalize, NoneDisguised, TextHits;
      ValidParts(buf, chunks);
      ElementNumbers(chunks);
      FindIsText(Contents());
      ghost var hits := StoredHits(Contents(), start, needle, skip);
      var canon := Canonicalize(Str(needle));
      var found := SeekFwd(start);
      if found == None {
        return None;
      }
      var off, eof, idx := found.value, |buf| - 1, start;
      BeforeEnd(buf, chunks, start);
      while off < eof
        invariant start <= idx <= |chunks| && off == Offset(chunks, idx) && (off < eof <==> idx < |chunks|)
        invariant (idx - start) % (skip + 1) == 0 || idx == |chunks|
        invariant forall i :: i in hits ==> idx <= i < |chunks|
        decreases |chunks| - idx
      {
        ChunkFacts(buf, chunks, idx);
        var d := DecodeAt(buf, off);
        if d == None {
          return None;
        }
        if d.value.0 == canon {
          return Some(idx);
        }
        off := off + d.value.1 + BacklenSize(d.value.1);
        ghost var here := idx;
        idx := idx + 1;
        BeforeEnd(buf, chunks, idx);
        for s := 0 to skip
          invariant here < idx == here + 1 + s <= |chunks| && off == Offset(chunks, idx) && (off < eof <==> idx < |chunks|)
          invariant forall i :: i in hits ==> idx <= i < |chunks|
        {
          Stride(here - start, s + 1, skip + 1);
          if off >= eof {
            return None;
          }
          ChunkFacts(buf, chunks, idx);
          var span := Span(buf, off);
          if span == None {
            return None;
          }
          off := off + span.value;
          idx := idx + 1;
          BeforeEnd(buf, chunks, idx);
        }
        Stride(here - start, skip + 1, skip + 1);
      }
      return None;
    }

    // --------------------------------------------------------------- writes

    predicate SafeToAdd(add: nat)
      reads this
    {
      |buf| + add <= LP_MAX_SAFETY_SIZE
    }

    /** Replace `remove` bytes at `at` by room for `insert`; one move of the tail. */
    method Splice(at: nat, remove: nat, insert: nat)
      requires at + remove <= |buf|
      modifies `buf
      ensures |buf| == |old(buf)| - remove + insert
      ensures buf[..at] == old(buf[..at]) && buf[at + insert..] == old(buf[at + remove..])
    {
      var tail := at + remove;
      if insert > remove {
        var grown := buf + seq(insert - remove, _ => 0);
        buf := grown[..at + insert] + buf[tail..];
      } else if insert < remove {
        buf := buf[..at + insert] + buf[tail..];
      }
    }

    /** Write over the bytes at `off`. */
    method Overwrite(off: nat, bytes: Bytes)
      requires off + |bytes| <= |buf|
      modifies `buf
      ensures |buf| == |old(buf)|
      ensures buf[..off] == old(buf[..off]) && buf[off..off + |bytes|] == bytes && buf[off + |bytes|..] == old(buf[off + |bytes|..])
    {
      buf := buf[..off] + bytes + buf[off + |bytes|..];
    }

    /** Refresh the header after `delta` more elements. */
    method SyncHeader(delta: int)
      requires LP_HDR_SIZE <= |buf| < 0x1_0000_0000
      modifies `buf
      ensures |buf| == |old(buf)| && buf[LP_HDR_SIZE..] == old(buf[LP_HDR_SIZE..])
      ensures HeaderTotal(buf) == |buf| && HeaderCount(buf) == Adjusted(HeaderCount(old(buf)), delta)
    {
      hide ToLe, FromLe;
      Powers();
      FromToLe(|buf|, 4);
      ghost var before := buf;
      Overwrite(0, ToLe(|buf|, 4));
      assert buf[..4] == buf[0..4] == ToLe(|buf|, 4);
      assert buf[4..6] == before[4..6] by {
        assert buf[4..6] == buf[4..][..2] == before[4..][..2];
      }
      ToFromLe(buf[4..6]);
      var cur := FromLe(buf[4..6]);
      if cur == LP_HDR_NUMELE_UNKNOWN {
        assert buf[LP_HDR_SIZE..] == buf[4..][2..] == before[4..][2..];
        return;
      }
      var n := Clamp(cur + delta);
      FromToLe(n, 2);
      ghost var mid := buf;
      Overwrite(4, ToLe(n, 2));
      assert buf[..4] == mid[..4] && buf[4..6] == ToLe(n, 2);
      assert buf[LP_HDR_SIZE..] == mid[LP_HDR_SIZE..] == mid[4..][2..] == before[4..][2..];
    }

    /** Replace the chunks from `k` on, `r` of them, by chunks `put`: splice, write
        the bytes, refresh the header. */
    method ReplaceChunks(off: nat, ghost k: nat, ghost r: nat, remove: nat, bytes: Bytes, ghost put: seq<Bytes>, delta: int)
      requires Valid() && k + r <= |chunks| && off == Offset(chunks, k) && off + remove == Offset(chunks, k + r)
      requires ChunksOk(put) && bytes == Flat(put) && delta == |put| - r
      requires |buf| - remove + |bytes| < 0x1_0000_0000
      modifies this
      ensures Valid() && chunks == old(chunks[..k] + put + chunks[k + r..])
      ensures |buf| == |old(buf)| - remove + |bytes|
    {
      hide Flat, Offset, ChunkOk, WellFormed, FromLe;
      ValidParts(buf, chunks);
      BeforeEnd(buf, chunks, k);
      BeforeEnd(buf, chunks, k + r);
      ghost var before, was := buf, chunks;
      Splice(off, remove, |bytes|);
      ghost var spliced := buf;
      Overwrite(off, bytes);
      SplicedBytes(before, spliced, buf, off, remove, bytes);
      ghost var written := buf;
      SyncHeader(delta);
      Spliced(before, chunks, buf, k, r, put);
      CountStaysRight(HeaderCount(before), |chunks|, delta);
      chunks := chunks[..k] + put + chunks[k + r..];
      Assemble(buf, chunks);
    }

    /** Insert at an entry boundary. */
    method InsertAtOffset(off: nat, ghost k: nat, e: Entry) returns (ok: bool)
      requires Valid() && k <= |chunks| && off == Offset(chunks, k) && (e.Int? ==> Decimal.IsI64(e.v))
      modifies this
      ensures Valid() && ok == (|old(buf)| + PayloadEnclen(Canonicalize(e)) + BacklenSize(PayloadEnclen(Canonicalize(e))) <= LP_MAX_SAFETY_SIZE)
      ensures !ok ==> buf == old(buf) && chunks == old(chunks)
      ensures ok ==> Encodable(Canonicalize(e)) && chunks == old(chunks[..k] + [Chunk(Canonicalize(e))] + chunks[k..])
      ensures ok ==> |buf| == |old(buf)| + |Chunk(Canonicalize(e))|
    {
      hide Flat, Offset, ChunkOk, WellFormed, Canonical, Encode, Chunk;
      var p := Canonicalize(e);
      var enclen := PayloadEnclen(p);
      var total := enclen + BacklenSize(enclen);
      if !SafeToAdd(total) {
        return false;
      }
      CanonicalFits(e);
      ChunkWritten(p);
      FlatOne(Chunk(p));
      var bytes := WritePayload(p);
      ReplaceChunks(off, k, 0, 0, bytes, [Chunk(p)], 1);
      return true;
    }

    /** The size `e` would bring the buffer to. */
    ghost function SizeWith(e: Entry): nat
      reads this
    {
      |buf| + PayloadEnclen(Canonicalize(e)) + BacklenSize(PayloadEnclen(Canonicalize(e)))
    }

    method Append(e: Entry) returns (ok: bool)
      requires Valid() && (e.Int? ==> Decimal.IsI64(e.v))
      modifies this
      ensures Valid() && ok == (old(SizeWith(e)) <= LP_MAX_SAFETY_SIZE)
      ensures Contents() == if ok then old(Contents()) + [Canonicalize(e)] else old(Contents())
      ensures if ok then |buf| == old(SizeWith(e)) else buf == old(buf)
    {
      hide WellFormed, Flat, Offset, Chunk, ChunkOk, Element, Canonicalize;
      ValidParts(buf, chunks);
      var off := EofOffset();
      ok := InsertAtOffset(off, |chunks|, e);
      if ok {
        ElementsSpliced(old(chunks), |old(chunks)|, 0, Canonicalize(e));
        ChunkWritten(Canonicalize(e));
      }
    }

    method Prepend(e: Entry) returns (ok: bool)
      requires Valid() && (e.Int? ==> Decimal.IsI64(e.v))
      modifies this
      ensures Valid() && ok == (old(SizeWith(e)) <= LP_MAX_SAFETY_SIZE)
      ensures Contents() == if ok then [Canonicalize(e)] + old(Contents()) else old(Contents())
      ensures !ok ==> buf == old(buf)
    {
      hide WellFormed, Flat, Offset, Chunk, ChunkOk, Element, Canonicalize;
      ValidParts(buf, chunks);
      AtEnds(buf, chunks);
      ok := InsertAtOffset(LP_HDR_SIZE, 0, e);
      if ok {
        ElementsSpliced(old(chunks), 0, 0, Canonicalize(e));
      }
    }

    /** Insert before element `index`; past the end it appends. */
    method Insert(index: nat, e: Entry) returns (ok: bool)
      requires Valid() && (e.Int? ==> Decimal.IsI64(e.v))
      modifies this
      ensures Valid() && ok == (old(SizeWith(e)) <= LP_MAX_SAFETY_SIZE)
      ensures var c := old(Contents()); var k := if index < |c| then index else |c|;
        Contents() == if ok then c[..k] + [Canonicalize(e)] + c[k..] else c
      ensures !ok ==> buf == old(buf)
    {
      hide WellFormed, Flat, Offset, Chunk, ChunkOk, Element, Canonicalize;
      ValidParts(buf, chunks);
      var n := Len();
      var off: nat;
      ghost var k := if index < |chunks| then index else |chunks|;
      if index >= n {
        off := EofOffset();
      } else {
        var found := SeekFwd(index);
        if found == None {
          return false;
        }
        off := found.value;
      }
      ok := InsertAtOffset(off, k, e);
      if ok {
        ElementsSpliced(old(chunks), k, 0, Canonicalize(e));
      }
    }

    /** Overwriting element `k` does not grow it, or not past the limit. */
    ghost predicate ReplaceFits(k: nat, e: Entry)
      requires k < |chunks|
      reads this
    {
      || |buf| + |chunks[k]| >= SizeWith(e)
      || SizeWith(e) - |chunks[k]| <= LP_MAX_SAFETY_SIZE
    }

    /** Overwrite element `index`. */
    method Replace(index: int, e: Entry) returns (ok: bool)
      requires Valid() && (e.Int? ==> Decimal.IsI64(e.v))
      modifies this
      ensures Valid()
      ensures ok <==> old(Position(index).Some? && ReplaceFits(Position(index).value, e))
      ensures ok ==> var c, k := old(Contents()), old(Position(index)).value; Contents() == c[k := Canonicalize(e)]
      ensures ok ==> |buf| == old(SizeWith(e)) - |old(chunks)[old(Position(index)).value]|
      ensures !ok ==> buf == old(buf) && chunks == old(chunks)
    {
      hide WellFormed, Flat, Offset, Chunk, ChunkOk, Element, Canonicalize, Encodable;
      ValidParts(buf, chunks);
      var found := Seek(index);
      if found == None {
        return false;
      }
      ghost var k := Position(index).value;
      var off := found.value;
      ChunkFacts(buf, chunks, k);
      var oldSpan := Span(buf, off).value;
      var p := Canonicalize(e);
      var enclen := PayloadEnclen(p);
      var total := enclen + BacklenSize(enclen);
      if total > oldSpan && !SafeToAdd(total - oldSpan) {
        return false;
      }
      SizeBound(buf, chunks);
      CanonicalFits(e);
      ChunkWritten(p);
      FlatOne(Chunk(p));
      var bytes := WritePayload(p);
      ReplaceChunks(off, k, 1, oldSpan, bytes, [Chunk(p)], 0);
      ElementsSpliced(old(chunks), k, 1, p);
      return true;
    }

    /** Delete element `index`. */
    method Delete(index: int) returns (ok: bool)
      requires Valid()
      modifies this
      ensures Valid() && (ok <==> old(Position(index)).Some?)
      ensures ok ==> var c, k := old(Contents()), old(Position(index)).value; Contents() == c[..k] + c[k + 1..]
      ensures !ok ==> buf == old(buf) && chunks == old(chunks)
    {
      hide WellFormed, Flat, Offset, ChunkOk, Element;
      ValidParts(buf, chunks);
      var found := Seek(index);
      if found == None {
        return false;
      }
      ghost var k := Position(index).value;
      ChunkFacts(buf, chunks, k);
      var span := Span(buf, found.value).value;
      SizeBound(buf, chunks);
      FlatOne([]);
      ReplaceChunks(found.value, k, 1, span, [], [], -1);
      ElementsCut(old(chunks), k, 1);
      assert old(chunks)[..k] + [] + old(chunks)[k + 1..] == old(chunks)[..k] + old(chunks)[k + 1..];
      return true;
    }

    /** Delete up to `count` elements from `index` on. */
    method DeleteRange(index: nat, count: nat) returns (removed: nat)
      requires Valid()
      modifies this
      ensures Valid()
      ensures var n := |old(chunks)|;
        removed == if index >= n then 0 else if index + count <= n then count else n - index
      ensures removed > 0 ==> var c := old(Contents()); Contents() == c[..index] + c[index + removed..]
      ensures removed == 0 ==> buf == old(buf) && chunks == old(chunks)
    {
      hide WellFormed, Flat, Offset, ChunkOk, Element, EnclenAt, DecodeAt, ReadBack;
      ValidParts(buf, chunks);
      if count == 0 {
        return 0;
      }
      var found := SeekFwd(index);
      if found == None {
        return 0;
      }
      var start, eof := found.value, |buf| - 1;
      var end := start;
      removed := 0;
      BeforeEnd(buf, chunks, index);
      while removed < count && end < eof
        invariant buf == old(buf) && chunks == old(chunks)
        invariant removed <= count && index + removed <= |chunks| && end == Offset(chunks, index + removed)
        invariant removed == count || end < eof || index + removed == |chunks|
        decreases count - removed
      {
        BeforeEnd(buf, chunks, index + removed);
        ChunkFacts(buf, chunks, index + removed);
        var s := Span(buf, end);
        if s == None {
          break;
        }
        end := end + s.value;
        removed := removed + 1;
        BeforeEnd(buf, chunks, index + removed);
      }
      BeforeEnd(buf, chunks, index + removed);
      BeforeEnd(buf, chunks, index);
      SizeBound(buf, chunks);
      FlatOne([]);
      GrowsTo(chunks, index, removed);
      ReplaceChunks(start, index, removed, end - start, [], [], 0 - removed);
      ElementsCut(old(chunks), index, removed);
      assert old(chunks)[..index] + [] + old(chunks)[index + removed..] == old(chunks)[..index] + old(chunks)[index + removed..];
    }

    /** Append every entry of another listpack. */
    method AppendAll(other: Listpack) returns (ok: bool)
      requires Valid() && other.Valid() && other != this
      modifies this
      ensures Valid() && ok == (|old(buf)| + |other.buf| - 7 <= LP_MAX_SAFETY_SIZE)
      ensures ok ==> Contents() == old(Contents()) + other.Contents()
      ensures !ok ==> buf == old(buf) && chunks == old(chunks)
    {
      hide WellFormed, Flat, Offset, ChunkOk, Element;
      ValidParts(buf, chunks);
      ValidParts(other.buf, other.chunks);
      var extra := |other.buf| - (LP_HDR_SIZE + 1);
      if !SafeToAdd(extra) {
        return false;
      }
      var at := EofOffset();
      var n := other.Len();
      var bytes := other.buf[LP_HDR_SIZE..LP_HDR_SIZE + extra];
      ReplaceChunks(at, |chunks|, 0, 0, bytes, other.chunks, n);
      assert old(chunks)[..|old(chunks)|] + other.chunks + old(chunks)[|old(chunks)|..] == old(chunks) + other.chunks;
      ElementsJoined(old(chunks), other.chunks);
      return true;
    }

    /** Truncate to the terminator.  The count in the header is left as it was,
        so the result is well-formed exactly if that count was zero or unknown. */
    method Clear()
      requires Valid()
      modifies this
      ensures Layout(buf, []) && chunks == [] && |buf| == 7 && HeaderTotal(buf) == 7
      ensures HeaderCount(buf) == old(HeaderCount(buf))
      ensures Valid() <==> old(HeaderCount(buf)) == 0 || old(HeaderCount(buf)) == LP_HDR_NUMELE_UNKNOWN
    {
      hide FromLe;
      ghost var before := buf;
      buf := buf[..LP_HDR_SIZE] + [LP_EOF];
      assert buf[4..6] == before[4..6];
      ToFromLe(buf[4..6]);
      Powers();
      ghost var cut := buf;
      SyncHeader(0);
      assert buf[LP_HDR_SIZE..] == cut[LP_HDR_SIZE..] == [LP_EOF];
      assert buf[6] == buf[LP_HDR_SIZE..][0];
      FlatOne([]);
      chunks := [];
    }
  }

  lemma ValidParts(buf: Bytes, chunks: seq<Bytes>)
    requires WellFormed(buf, chunks)
    ensures Layout(buf, chunks) && |buf| >= 7 && CountFits(HeaderCount(buf), |chunks|)
  {
  }

  lemma ElementNumbers(chunks: seq<Bytes>)
    requires ChunksOk(chunks)
    ensures Numbers(Elements(chunks))
  {
    hide Element, ChunkOk;
    forall k | 0 <= k < |chunks| && Element(chunks[k]).Int?
      ensures Decimal.IsI64(Element(chunks[k]).v)
    {
      ElementNumber(chunks[k]);
    }
  }

  /** Serialized bytes that are a listpack of the string "12", which no search for
      "12" finds. */
  lemma FindMisses() returns (buf: Bytes, chunks: seq<Bytes>)
    ensures buf == [11, 0, 0, 0, 1, 0, 0x82, 49, 50, 3, 0xFF]
    ensures WellFormed(buf, chunks) && Elements(chunks) == [Str([49, 50])]
    ensures IsFirst(Some(0), TextHits(Elements(chunks), 0, [49, 50], 0))
    ensures StoredHits(Elements(chunks), 0, [49, 50], 0) == {}
  {
    hide FromLe, ChunkOk, Element, Flat, Canonical;
    buf := [11, 0, 0, 0, 1, 0, 0x82, 49, 50, 3, 0xFF];
    var c := buf[6..10];
    chunks := [c];
    StringTwelve(c);
    FlatOne(c);
    assert buf[..4] == [11, 0, 0, 0] && buf[4..6] == [1, 0];
    HeaderEleven();
  }

  lemma StringTwelve(c: Bytes)
    requires c == [0x82, 49, 50, 3]
    ensures ChunkOk(c) && Element(c) == Str([49, 50])
    ensures Canonical([49, 50]) == Some(12)
  {
    hide ChunkOk, Element, DecodeAt;
    var s: Bytes := [49, 50];
    ChunkWritten(Str(s));
    assert Backlen(3) == [3];
    assert c == Chunk(Str(s));
    assert s[..1] == [49] && s[..1][..0] == [];
    assert Decimal.Value(s[..1]) == 1;
  }

  lemma HeaderEleven()
    ensures FromLe([11, 0, 0, 0]) == 11 && FromLe([1, 0]) == 1
  {
    hide FromLe;
    Powers();
    FromToLe(11, 4);
    FromToLe(1, 2);
    assert ToLe(0, 1) == [0];
    assert ToLe(0, 2) == [0] + ToLe(0, 1);
    assert ToLe(0, 3) == [0] + ToLe(0, 2);
    assert ToLe(11, 4) == [11] + ToLe(0, 3) == [11, 0, 0, 0];
    assert ToLe(1, 2) == [1] + ToLe(0, 1) == [1, 0];
  }

  lemma CanonicalFits(e: Entry)
    requires e.Int? ==> Decimal.IsI64(e.v)
    requires e.Str? ==> PayloadEnclen(Canonicalize(e)) < 0x1_0000_0000
    ensures Encodable(Canonicalize(e))
  {
  }

  /** Encoding, data and backlen of an entry. */
  method WritePayload(e: Entry) returns (dst: Bytes)
    requires Encodable(e) && PayloadEnclen(e) < 0x1_0000_0000
    ensures dst == Chunk(e)
  {
    hide Encode;
    assert Pow128(5) == 34359738368 by {
      assert Pow128(3) == 2097152;
    }
    var back := WriteBacklen(PayloadEnclen(e));
    dst := Encode(e) + back;
  }

  lemma SplicedBytes(before: Bytes, spliced: Bytes, after: Bytes, off: nat, remove: nat, bytes: Bytes)
    requires LP_HDR_SIZE <= off && off + remove <= |before| && |spliced| == |before| - remove + |bytes| == |after|
    requires spliced[..off] == before[..off] && spliced[off + |bytes|..] == before[off + remove..]
    requires after[..off] == spliced[..off] && after[off..off + |bytes|] == bytes && after[off + |bytes|..] == spliced[off + |bytes|..]
    ensures after[LP_HDR_SIZE..] == before[LP_HDR_SIZE..off] + bytes + before[off + remove..]
    ensures HeaderCount(after) == HeaderCount(before)
  {
    assert after == after[..off] + after[off..off + |bytes|] + after[off + |bytes|..];
    assert after[4..6] == after[..off][4..6] == before[..off][4..6] == before[4..6];
    assert before[LP_HDR_SIZE..off] == before[..off][LP_HDR_SIZE..];
  }

  lemma Assemble(buf: Bytes, chunks: seq<Bytes>)
    requires Layout(buf, chunks) && HeaderTotal(buf) == |buf| && CountFits(HeaderCount(buf), |chunks|)
    ensures WellFormed(buf, chunks)
  {
  }

  lemma SizeBound(buf: Bytes, chunks: seq<Bytes>)
    requires WellFormed(buf, chunks)
    ensures |buf| < 0x1_0000_0000
  {
    ToFromLe(buf[..4]);
    Powers();
  }

  lemma GrowsTo(chunks: seq<Bytes>, k: nat, r: nat)
    requires ChunksOk(chunks) && k + r <= |chunks|
    ensures Offset(chunks, k) <= Offset(chunks, k + r)
  {
    OffsetsGrow(chunks, k, k + r);
  }

  lemma ElementsSpliced(chunks: seq<Bytes>, k: nat, r: nat, e: Entry)
    requires ChunksOk(chunks) && k + r <= |chunks| && Encodable(e)
    ensures ChunkOk(Chunk(e)) && ChunksOk(chunks[..k] + [Chunk(e)] + chunks[k + r..])
    ensures Elements(chunks[..k] + [Chunk(e)] + chunks[k + r..]) == Elements(chunks)[..k] + [e] + Elements(chunks)[k + r..]
  {
    hide ChunkOk, Element, Chunk;
    ChunkWritten(e);
  }

  lemma ElementsCut(chunks: seq<Bytes>, k: nat, r: nat)
    requires ChunksOk(chunks) && k + r <= |chunks|
    ensures ChunksOk(chunks[..k] + chunks[k + r..])
    ensures Elements(chunks[..k] + chunks[k + r..]) == Elements(chunks)[..k] + Elements(chunks)[k + r..]
  {
    hide ChunkOk, Element;
  }

  lemma ElementsJoined(a: seq<Bytes>, b: seq<Bytes>)
    requires ChunksOk(a) && ChunksOk(b)
    ensures ChunksOk(a + b) && Elements(a + b) == Elements(a) + Elements(b)
  {
    hide ChunkOk, Element;
  }

  // --------------------------------------------------------------- validation

  /** The chunk that `validate` has just checked at `off`. */
  lemma CheckedChunk(buf: Bytes, off: nat, next: nat, e: Entry, enclen: nat)
    requires |buf| < 0x1_0000_0000 && DecodeAt(buf, off) == Some((e, enclen))
    requires next == off + enclen + BacklenSize(enclen) <= |buf| - 1
    requires ReadBack(buf, next - 1, 5) == Some((enclen, BacklenSize(enclen)))
    ensures ChunkOk(buf[off..next])
  {
    var c := buf[off..next];
    DecodePrefix(buf, off, c, e, enclen);
    hide DecodeAt, EnclenAt;
    ReadBackSplit(buf, next - 1, 5);
    assert c[enclen..] == buf[next - BacklenSize(enclen)..next];
    assert Pow128(5) == 34359738368 by {
      assert Pow128(3) == 2097152;
    }
    BacklenFits(enclen);
  }

  /** An entry that is complete within `c` reads the same in `c` alone. */
  lemma DecodePrefix(buf: Bytes, off: nat, c: Bytes, e: Entry, enclen: nat)
    requires DecodeAt(buf, off) == Some((e, enclen)) && enclen <= |c| && off + |c| <= |buf| && c == buf[off..off + |c|]
    ensures DecodeAt(c, 0) == Some((e, enclen))
  {
    var b0 := buf[off];
    assert c[0] == b0;
    if |c| > 1 {
      assert buf[off + 1] == c[1];
    }
    if b0 >= 0x80 && b0 < 0xC0 {
      CutLocal(buf, off, c, 1, b0 - 0x80);
    } else if b0 >= 0xE0 && b0 < 0xF0 {
      CutLocal(buf, off, c, 2, enclen - 2);
    } else if b0 == ENC_32BIT_STR {
      CutLocal(buf, off, c, 1, 4);
      CutLocal(buf, off, c, 5, enclen - 5);
    } else if b0 > ENC_32BIT_STR {
      CutLocal(buf, off, c, 1, enclen - 1);
    }
  }

  /** Reading a backlen backwards determines the bytes that were read. */
  lemma {:induction false} ReadBackSplit(buf: Bytes, last: int, fuel: nat)
    requires ReadBack(buf, last, fuel).Some? && 0 <= last < |buf|
    ensures var (v, n) := ReadBack(buf, last, fuel).value;
      n <= last + 1 && v < Pow128(n) && buf[last + 1 - n..last + 1] == Groups(v, n)
  {
    hide Groups, Pow128, ReadBack;
    ReadBackStep(buf, last, fuel);
    if buf[last] >= 128 {
      ReadBackSplit(buf, last - 1, fuel - 1);
      var (v, n) := ReadBack(buf, last - 1, fuel - 1).value;
      assert buf[last - n..last + 1] == buf[last - n..last] + [buf[last]];
      GroupsOn(v, n, buf[last]);
    } else {
      OneGroup(buf[last]);
      assert buf[last..last + 1] == [buf[last]];
    }
  }

  lemma ReadBackStep(buf: Bytes, last: int, fuel: nat)
    requires ReadBack(buf, last, fuel).Some? && 0 <= last < |buf|
    ensures buf[last] < 128 ==> ReadBack(buf, last, fuel) == Some((buf[last] as nat, 1))
    ensures buf[last] >= 128 ==> fuel > 0 && last > 0 && ReadBack(buf, last - 1, fuel - 1).Some?
    ensures buf[last] >= 128 ==>
      var (v, n) := ReadBack(buf, last - 1, fuel - 1).value;
      ReadBack(buf, last, fuel) == Some((128 * v + (buf[last] - 128), n + 1))
  {
  }

  lemma GroupsOn(v: nat, n: nat, b: Byte)
    requires n > 0 && b >= 128 && v < Pow128(n)
    ensures Groups(128 * v + (b - 128), n + 1) == Groups(v, n) + [b]
    ensures 128 * v + (b - 128) < Pow128(n + 1)
  {
    var w: nat := 128 * v + (b - 128);
    assert Groups(w, n + 1) == Groups(w / 128, n) + [128 + w % 128];
    assert Pow128(n + 1) == 128 * Pow128(n);
  }

  lemma OneGroup(b: Byte)
    requires b < 128
    ensures Groups(b as int, 1) == [b] && b as int < Pow128(1)
  {
    assert Pow128(0) == 1;
  }

  /** The chunks read so far, as `validate` walks the buffer. */
  ghost predicate Walked(buf: Bytes, chunks: seq<Bytes>, off: nat) {
    && ChunksOk(chunks) && |buf| >= 7
    && LP_HDR_SIZE <= off == LP_HDR_SIZE + |Flat(chunks)| <= |buf| - 1
    && buf[LP_HDR_SIZE..off] == Flat(chunks)
  }

  lemma WalkOn(buf: Bytes, chunks: seq<Bytes>, off: nat, next: nat)
    requires Walked(buf, chunks, off) && off <= next <= |buf| - 1 && ChunkOk(buf[off..next])
    ensures Walked(buf, chunks + [buf[off..next]], next)
  {
    hide ChunkOk;
    var c := buf[off..next];
    assert (chunks + [c])[..|chunks|] == chunks;
    assert buf[LP_HDR_SIZE..next] == buf[LP_HDR_SIZE..off] + c;
  }

  /** Any reading of the buffer starts with what has been walked. */
  ghost predicate Agree(buf: Bytes, chunks: seq<Bytes>) {
    forall other: seq<Bytes> :: Layout(buf, other) ==> |chunks| <= |other| && other[..|chunks|] == chunks
  }

  lemma AgreeOn(buf: Bytes, chunks: seq<Bytes>, off: nat, next: nat)
    requires Walked(buf, chunks, off) && Agree(buf, chunks) && off < |buf| - 1
    requires forall other: seq<Bytes> :: Layout(buf, other) && |chunks| < |other| && Offset(other, |chunks|) == off ==> Offset(other, |chunks| + 1) == next
    requires off <= next <= |buf| - 1
    ensures Agree(buf, chunks + [buf[off..next]])
  {
    hide ChunkOk, Flat, Layout, Walked;
    forall other: seq<Bytes> | Layout(buf, other)
      ensures |chunks| + 1 <= |other| && other[..|chunks| + 1] == chunks + [buf[off..next]]
    {
      StandsAt(buf, chunks, off, other);
      AtChunk(buf, other, |chunks|);
      assert other[..|chunks| + 1] == other[..|chunks|] + [other[|chunks|]];
    }
  }

  lemma StandsAt(buf: Bytes, chunks: seq<Bytes>, off: nat, other: seq<Bytes>)
    requires Walked(buf, chunks, off) && Layout(buf, other) && |chunks| <= |other| && other[..|chunks|] == chunks
    ensures Offset(other, |chunks|) == off
    ensures off < |buf| - 1 ==> |chunks| < |other|
    ensures off == |buf| - 1 ==> |chunks| == |other|
  {
    hide ChunkOk;
    BeforeEnd(buf, other, |chunks|);
  }

  /** What a reading of the buffer forces at an entry start. */
  lemma Forced(buf: Bytes, chunks: seq<Bytes>, off: nat, other: seq<Bytes>)
    requires Walked(buf, chunks, off) && Agree(buf, chunks) && off < |buf| - 1 && Layout(buf, other)
    ensures |chunks| < |other| && Offset(other, |chunks|) == off
    ensures DecodeAt(buf, off).Some?
    ensures var n := DecodeAt(buf, off).value.1;
      && Offset(other, |chunks| + 1) == off + n + BacklenSize(n) <= |buf| - 1
      && ReadBack(buf, off + n + BacklenSize(n) - 1, 5) == Some((n, BacklenSize(n)))
  {
    hide ChunkOk, Flat, Layout, Walked, DecodeAt, EnclenAt, ReadBack;
    StandsAt(buf, chunks, off, other);
    AtChunk(buf, other, |chunks|);
  }

  lemma BareEnd(buf: Bytes, chunks: seq<Bytes>, off: nat)
    requires Walked(buf, chunks, off) && off == |buf| - 1 && buf[off] == LP_EOF
    ensures Layout(buf, chunks)
  {
  }

  /** Check serialized bytes end to end: true exactly if they read as chunks under
      a header that fits. */
  method Validate(buf: Bytes) returns (ok: bool, ghost chunks: seq<Bytes>)
    ensures ok ==> WellFormed(buf, chunks)
    ensures !ok ==> forall other: seq<Bytes> :: !WellFormed(buf, other)
  {
    hide DecodeAt, EnclenAt, ReadBack, Walked, Agree, Layout, Offset, FromLe;
    chunks := [];
    if |buf| < LP_HDR_SIZE + 1 {
      TooShort(buf);
      return false, chunks;
    }
    var total := FromLe(buf[..4]);
    if total != |buf| {
      return false, chunks;
    }
    SmallTotal(buf);
    if buf[|buf| - 1] != LP_EOF {
      NoTerminator(buf);
      return false, chunks;
    }
    var declared := FromLe(buf[4..6]);
    var end, off, count := |buf| - 1, LP_HDR_SIZE, 0;
    WalkStart(buf);
    while off < end
      invariant Walked(buf, chunks, off) && Agree(buf, chunks) && off <= end && count == |chunks|
      decreases end - off
    {
      forall other: seq<Bytes> | Layout(buf, other)
        ensures DecodeAt(buf, off).Some?
        ensures |chunks| < |other| && Offset(other, |chunks|) == off
        ensures var n := DecodeAt(buf, off).value.1;
          && Offset(other, |chunks| + 1) == off + n + BacklenSize(n) <= |buf| - 1
          && ReadBack(buf, off + n + BacklenSize(n) - 1, 5) == Some((n, BacklenSize(n)))
      {
        Forced(buf, chunks, off, other);
      }
      var d := DecodeAt(buf, off);
      if d == None {
        return false, chunks;
      }
      var enclen := d.value.1;
      var bl := BacklenSize(enclen);
      var next := off + enclen + bl;
      if next > end {
        return false, chunks;
      }
      var back := DecodeBacklen(buf, next - 1);
      if back != Some((enclen, bl)) {
        return false, chunks;
      }
      CheckedChunk(buf, off, next, d.value.0, enclen);
      WalkOn(buf, chunks, off, next);
      AgreeOn(buf, chunks, off, next);
      chunks := chunks + [buf[off..next]];
      off := next;
      count := count + 1;
    }
    BareEnd(buf, chunks, off);
    if declared != LP_HDR_NUMELE_UNKNOWN && declared != count {
      OnlyReading(buf, chunks);
      return false, chunks;
    }
    return true, chunks;
  }

  lemma TooShort(buf: Bytes)
    requires |buf| < 7
    ensures forall other: seq<Bytes> :: !Layout(buf, other)
  {
  }

  lemma NoTerminator(buf: Bytes)
    requires |buf| > 0 && buf[|buf| - 1] != LP_EOF
    ensures forall other: seq<Bytes> :: !Layout(buf, other)
  {
  }

  lemma SmallTotal(buf: Bytes)
    requires |buf| >= 7 && FromLe(buf[..4]) == |buf|
    ensures |buf| < 0x1_0000_0000
  {
    ToFromLe(buf[..4]);
    Powers();
  }

  lemma WalkStart(buf: Bytes)
    requires |buf| >= 7
    ensures Walked(buf, [], LP_HDR_SIZE) && Agree(buf, [])
  {
  }

  lemma OnlyReading(buf: Bytes, chunks: seq<Bytes>)
    requires Layout(buf, chunks)
    ensures forall other: seq<Bytes> :: Layout(buf, other) ==> |other| == |chunks|
  {
    hide Layout, Flat;
    forall other: seq<Bytes> | Layout(buf, other)
      ensures |other| == |chunks|
    {
      SameChunks(buf, chunks, other, |chunks|);
      SameChunks(buf, other, chunks, |other|);
    }
  }

  lemma Stride(x: nat, s: nat, d: nat)
    requires d > 0 && x % d == 0 && 0 < s <= d
    ensures (x + s) % d == 0 <==> s == d
  {
    var q: nat := x / d;
    Exact(x, q, d);
    if s < d {
      Arithmetic.Division(q, s, d);
    } else {
      Arithmetic.Division(q + 1, 0, d);
      Arithmetic.Distribute(q + 1, 1, d);
      assert x + s == (q + 1) * d + 0;
    }
  }

  lemma Exact(x: nat, q: nat, d: nat)
    requires d > 0 && x % d == 0 && q == x / d
    ensures x == q * d
  {
  }

  /** The only way from bytes to a listpack. */
  method FromBytes(bytes: Bytes) returns (lp: Option<Listpack>)
    ensures lp.Some? ==> fresh(lp.value) && lp.value.Valid() && lp.value.buf == bytes
    ensures lp == None <==> forall chunks: seq<Bytes> :: !WellFormed(bytes, chunks)
  {
    var ok; ghost var chunks;
    ok, chunks := Validate(bytes);
    if !ok {
      return None;
    }
    var adopted := new Listpack.FromBytes(bytes, chunks);
    return Some(adopted);
  }
}
