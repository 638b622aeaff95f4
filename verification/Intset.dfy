/** A sorted array of equally wide integers that stands for a set. */
module Intset {
  import opened ByteStrings
  import opened LittleEndian
  import Arithmetic

  const ENC_INT16: nat := 2
  const ENC_INT32: nat := 4
  const ENC_INT64: nat := 8
  const HDR: nat := 8

  predicate IsWidth(w: nat) {
    w == ENC_INT16 || w == ENC_INT32 || w == ENC_INT64
  }

  /** Least width that can hold `v`. */
  function ValueEncoding(v: int): nat {
    if v < -2147483648 || v > 2147483647 then ENC_INT64
    else if v < -32768 || v > 32767 then ENC_INT32
    else ENC_INT16
  }

  lemma EncodingIsLeast(v: int)
    requires Fits(v, 8)
    ensures IsWidth(ValueEncoding(v)) && Fits(v, ValueEncoding(v))
    ensures forall w :: IsWidth(w) ==> (Fits(v, w) <==> ValueEncoding(v) <= w)
  {
    Powers();
  }

  lemma WiderFits(v: int, w: nat, w': nat)
    requires IsWidth(w) && IsWidth(w') && w <= w' && Fits(v, w)
    ensures Fits(v, w')
  {
    Powers();
  }

  /** A value that needs a wider encoding lies beyond all narrower ones, on the
      side its sign tells. */
  lemma OutsideBySign(v: int, w: nat, x: int)
    requires IsWidth(w) && !Fits(v, w) && Fits(x, w)
    ensures if v < 0 then v < x else x < v
  {
  }

  // -------------------------------------------------------------------- layout

  ghost predicate AllFit(xs: seq<int>, w: nat)
    requires w > 0
  {
    forall i :: 0 <= i < |xs| ==> Fits(xs[i], w)
  }

  function Body(xs: seq<int>, w: nat): Bytes
    requires w > 0 && forall i :: 0 <= i < |xs| ==> Fits(xs[i], w)
  {
    if |xs| == 0 then [] else Body(xs[..|xs| - 1], w) + ToSigned(xs[|xs| - 1], w)
  }

  /** Where element `i` stands. */
  function At(i: nat, w: nat): nat {
    HDR + i * w
  }

  lemma AtStep(i: nat, w: nat)
    ensures At(0, w) == HDR && At(i + 1, w) == At(i, w) + w
  {
  }

  lemma AtGrows(i: nat, j: nat, w: nat)
    requires i <= j
    ensures At(i, w) <= At(j, w)
    ensures i < j ==> At(i, w) + w <= At(j, w)
  {
    Arithmetic.Distribute(j, i, w);
    if i < j {
      Arithmetic.AtLeast(j - i, w);
    }
  }

  lemma {:induction false} BodySize(xs: seq<int>, w: nat)
    requires w > 0 && AllFit(xs, w)
    ensures HDR + |Body(xs, w)| == At(|xs|, w)
  {
    hide At, Fits;
    if |xs| > 0 {
      BodySize(xs[..|xs| - 1], w);
      AtStep(|xs| - 1, w);
    } else {
      AtStep(0, w);
    }
  }

  lemma {:induction false} BodyConcat(a: seq<int>, b: seq<int>, w: nat)
    requires w > 0 && AllFit(a, w) && AllFit(b, w)
    ensures AllFit(a + b, w) && Body(a + b, w) == Body(a, w) + Body(b, w)
  {
    hide ToSigned, Fits;
    if |b| == 0 {
      assert a + b == a;
    } else {
      BodyConcat(a, b[..|b| - 1], w);
      assert (a + b)[..|a + b| - 1] == a + b[..|b| - 1];
    }
  }

  lemma BodyOne(v: int, w: nat)
    requires w > 0 && Fits(v, w)
    ensures AllFit([v], w) && Body([v], w) == ToSigned(v, w)
  {
    assert [v][..0] == [];
  }

  function Header(w: nat, n: nat): (h: Bytes)
    ensures |h| == HDR
  {
    ToLe(w, 4) + ToLe(n, 4)
  }

  /** The serialized form of an ascending sequence. */
  ghost predicate Serialized(buf: Bytes, xs: seq<int>, w: nat) {
    && IsWidth(w) && AllFit(xs, w) && StrictlyAscending(xs) && |xs| < 0x1_0000_0000
    && buf == Header(w, |xs|) + Body(xs, w)
  }

  lemma SerializedParts(buf: Bytes, xs: seq<int>, w: nat)
    requires Serialized(buf, xs, w)
    ensures w > 0 && AllFit(xs, w) && StrictlyAscending(xs) && |xs| < 0x1_0000_0000 && IsWidth(w)
    ensures buf == Header(w, |xs|) + Body(xs, w) && |buf| == At(|xs|, w) >= HDR
  {
    BodySize(xs, w);
  }

  /** The bytes before and from element `i` on. */
  lemma SplitBytes(buf: Bytes, xs: seq<int>, w: nat, i: nat)
    requires Serialized(buf, xs, w) && i <= |xs|
    ensures w > 0 && AllFit(xs[..i], w) && AllFit(xs[i..], w) && HDR <= At(i, w) <= |buf| == At(|xs|, w)
    ensures buf[..At(i, w)] == Header(w, |xs|) + Body(xs[..i], w) && buf[At(i, w)..] == Body(xs[i..], w)
  {
    hide ToSigned, Fits, Header, At, Serialized, Body;
    SerializedParts(buf, xs, w);
    var a, b := xs[..i], xs[i..];
    assert xs == a + b;
    BodyConcat(a, b, w);
    BodySize(a, w);
    AtGrows(i, |xs|, w);
    AtGrows(0, i, w);
    AtStep(0, w);
    Thirds(buf, Header(w, |xs|), Body(a, w), Body(b, w));
  }

  lemma Thirds(buf: Bytes, h: Bytes, a: Bytes, b: Bytes)
    requires buf == h + (a + b)
    ensures buf[..|h| + |a|] == h + a && buf[|h| + |a|..] == b
  {
  }

  /** Element `i` in the bytes. */
  lemma ElementAt(buf: Bytes, xs: seq<int>, w: nat, i: nat)
    requires Serialized(buf, xs, w) && i < |xs|
    ensures w > 0 && Fits(xs[i], w) && At(i, w) + w <= |buf| && buf[At(i, w)..At(i, w) + w] == ToSigned(xs[i], w)
  {
    hide ToSigned, Header, At, Serialized;
    SplitBytes(buf, xs, w, i);
    AtGrows(i, |xs|, w);
    FirstOfBody(xs[i..], w);
  }

  lemma FirstOfBody(xs: seq<int>, w: nat)
    requires w > 0 && AllFit(xs, w) && |xs| > 0
    ensures |Body(xs, w)| >= w && Body(xs, w)[..w] == ToSigned(xs[0], w)
  {
    hide ToSigned, Fits;
    BodyConcat([xs[0]], xs[1..], w);
    BodyOne(xs[0], w);
    assert xs == [xs[0]] + xs[1..];
  }

  lemma HeaderReads(buf: Bytes, xs: seq<int>, w: nat)
    requires Serialized(buf, xs, w)
    ensures |buf| >= HDR && FromLe(buf[..4]) == w && FromLe(buf[4..8]) == |xs|
  {
    Powers();
    FromToLe(w, 4);
    FromToLe(|xs|, 4);
    assert buf[..4] == ToLe(w, 4) && buf[4..8] == ToLe(|xs|, 4);
  }

  class Intset {
    var buf: Bytes
    ghost var elems: seq<int>
    ghost var width: nat

    ghost predicate Valid()
      reads this
    {
      Serialized(buf, elems, width)
    }

    /** The set it stands for. */
    ghost function Members(): set<int>
      reads this
    {
      set i | 0 <= i < |elems| :: elems[i]
    }

    constructor ()
      ensures Valid() && elems == [] && width == ENC_INT16
    {
      buf := ToLe(ENC_INT16, 4) + ToLe(0, 4);
      elems, width := [], ENC_INT16;
    }

    /** Adopt bytes that were checked. */
    constructor Adopt(bytes: Bytes, ghost xs: seq<int>, ghost w: nat)
      requires Serialized(bytes, xs, w)
      ensures Valid() && buf == bytes && elems == xs && width == w
    {
      buf, elems, width := bytes, xs, w;
    }

    method Encoding() returns (w: nat)
      requires Valid()
      ensures w == width
    {
      HeaderReads(buf, elems, width);
      return FromLe(buf[..4]);
    }

    method Len() returns (n: nat)
      requires Valid()
      ensures n == |elems|
    {
      HeaderReads(buf, elems, width);
      return FromLe(buf[4..8]);
    }

    /** The element at `index`, decoded from its bytes. */
    method Get(index: nat) returns (r: Option<int>)
      requires Valid()
      ensures r == if index < |elems| then Some(elems[index]) else None
    {
      hide ToSigned, Header, FromSigned, FromLe, Serialized, Body, AllFit;
      var w := Encoding();
      SerializedParts(buf, elems, width);
      var at := HDR + index * w;
      if index < |elems| {
        ElementAt(buf, elems, width, index);
        FromToSigned(elems[index], w);
      } else {
        AtGrows(|elems|, index, w);
      }
      if at + w > |buf| {
        return None;
      }
      return Some(FromSigned(buf[at..at + w]));
    }

    /** Binary search: where `v` is, or where it would go. */
    method Search(v: int) returns (found: bool, pos: nat)
      requires Valid()
      ensures pos <= |elems| && (found <==> v in elems)
      ensures found ==> pos < |elems| && elems[pos] == v
      ensures !found ==> (forall i :: 0 <= i < pos ==> elems[i] < v) && forall i :: pos <= i < |elems| ==> v < elems[i]
    {
      hide Header, Body, AllFit, Serialized;
      SerializedParts(buf, elems, width);
      var n := Len();
      if n == 0 {
        return false, 0;
      }
      var max := Get(n - 1);
      if max.Some? && v > max.value {
        return false, n;
      }
      var min := Get(0);
      if min.Some? && v < min.value {
        return false, 0;
      }
      var lo: nat, hi: nat := 0, n;
      while lo < hi
        invariant lo <= hi <= |elems|
        invariant forall i :: 0 <= i < lo ==> elems[i] < v
        invariant forall i :: hi <= i < |elems| ==> v < elems[i]
      {
        var mid := lo + (hi - lo) / 2;
        var cur := Get(mid);
        if cur == None {
          return false, lo;
        } else if cur.value < v {
          lo := mid + 1;
        } else if cur.value > v {
          hi := mid;
        } else {
          return true, mid;
        }
      }
      return false, lo;
    }

    method Contains(v: int) returns (r: bool)
      requires Valid()
      ensures r <==> v in Members()
    {
      hide Header, Body, AllFit, Serialized;
      var pos;
      r, pos := Search(v);
      if r {
        assert elems[pos] in Members();
      }
    }

    /** Write the count into the header. */
    method SetLen(n: nat)
      requires |buf| >= HDR
      modifies `buf
      ensures |buf| == |old(buf)|
      ensures buf[..4] == old(buf[..4]) && buf[4..8] == ToLe(n, 4) && buf[HDR..] == old(buf[HDR..])
    {
      buf := buf[..4] + ToLe(n, 4) + buf[HDR..];
    }

    /** Make room at `pos` and store `v`. */
    method InsertAt(pos: nat, v: int)
      requires Valid() && pos <= |elems| && width > 0 && Fits(v, width) && |elems| + 1 < 0x1_0000_0000
      requires (forall i :: 0 <= i < pos ==> elems[i] < v) && forall i :: pos <= i < |elems| ==> v < elems[i]
      modifies this
      ensures Valid() && width == old(width) && elems == old(elems)[..pos] + [v] + old(elems)[pos..]
    {
      hide ToSigned, ToLe, FromLe, Serialized, Body;
      var w := Encoding();
      var n := Len();
      SplitBytes(buf, elems, width, pos);
      var at := HDR + pos * w;
      ghost var before, xs := buf, elems;
      buf := buf[..at] + ToSigned(v, w) + buf[at..];
      SetLen(n + 1);
      elems := xs[..pos] + [v] + xs[pos..];
      InsertedBytes(before, buf, xs, w, pos, v);
    }

    /** Widen every element and put `v` at the end its sign selects. */
    method UpgradeAndAdd(v: int, w: nat)
      requires Valid() && IsWidth(w) && w > width && Fits(v, w) && !Fits(v, width) && |elems| + 1 < 0x1_0000_0000
      modifies this
      ensures Valid() && width == w
      ensures elems == if v < 0 then [v] + old(elems) else old(elems) + [v]
    {
      hide ToSigned, Fits, Body, Header;
      var n := Len();
      var out := Header(w, n + 1);
      ghost var done: seq<int> := [];
      NoBody(w);
      if v < 0 {
        out := out + ToSigned(v, w);
        done := [v];
        BodyOne(v, w);
      }
      ghost var lead := done;
      WidenAll(elems, width, w);
      for i := 0 to n
        invariant Valid() && unchanged(this)
        invariant done == lead + elems[..i] && AllFit(done, w) && out == Header(w, n + 1) + Body(done, w)
      {
        var x := Get(i);
        BodyConcat(done, [elems[i]], w);
        BodyOne(elems[i], w);
        out := out + ToSigned(x.value, w);
        done := done + [elems[i]];
      }
      assert elems[..n] == elems;
      if v >= 0 {
        BodyConcat(done, [v], w);
        BodyOne(v, w);
        out := out + ToSigned(v, w);
        done := done + [v];
      }
      StillAscending(elems, width, v);
      assert done == if v < 0 then [v] + elems else elems + [v];
      buf, elems, width := out, done, w;
    }

    /** Add; true when it was not there. */
    method Add(v: int) returns (added: bool)
      requires Valid() && Fits(v, 8) && |elems| + 1 < 0x1_0000_0000
      modifies this
      ensures Valid() && (added <==> v !in old(Members())) && Members() == old(Members()) + {v}
      ensures width == if ValueEncoding(v) > old(width) then ValueEncoding(v) else old(width)
    {
      hide Header, Body, Fits;
      EncodingIsLeast(v);
      var need := ValueEncoding(v);
      var w := Encoding();
      ghost var xs := elems;
      if need > w {
        UpgradeAndAdd(v, need);
        NotThere(xs, w, v);
        if v < 0 {
          MembersInserted(xs, 0, v);
          assert xs[..0] + [v] + xs[0..] == [v] + xs;
        } else {
          MembersInserted(xs, |xs|, v);
          assert xs[..|xs|] + [v] + xs[|xs|..] == xs + [v];
        }
        return true;
      }
      var found, pos := Search(v);
      if found {
        assert v == xs[pos];
        return false;
      }
      InsertAt(pos, v);
      MembersInserted(xs, pos, v);
      return true;
    }

    /** Remove; true when it was there.  The width never shrinks. */
    method Remove(v: int) returns (removed: bool)
      requires Valid() && Fits(v, 8)
      modifies this
      ensures Valid() && (removed <==> v in old(Members())) && Members() == old(Members()) - {v}
      ensures width == old(width)
    {
      hide ToSigned, ToLe, FromLe, Fits, Serialized, Body, AllFit;
      EncodingIsLeast(v);
      SerializedParts(buf, elems, width);
      var w := Encoding();
      ghost var xs := elems;
      if ValueEncoding(v) > w {
        NotThere(xs, w, v);
        return false;
      }
      var found, pos := Search(v);
      if !found {
        return false;
      }
      assert v == xs[pos];
      var n := Len();
      SplitBytes(buf, elems, width, pos);
      SplitBytes(buf, elems, width, pos + 1);
      AtStep(pos, w);
      ghost var before := buf;
      buf := buf[..HDR + pos * w] + buf[HDR + (pos + 1) * w..];
      SetLen(n - 1);
      elems := xs[..pos] + xs[pos + 1..];
      RemovedBytes(before, buf, xs, w, pos);
      MembersRemoved(xs, pos);
      return true;
    }
  }

  lemma NoBody(w: nat)
    requires w > 0
    ensures AllFit([], w) && Body([], w) == []
  {
  }

  lemma WidenAll(xs: seq<int>, w: nat, w': nat)
    requires IsWidth(w) && IsWidth(w') && w <= w' && AllFit(xs, w)
    ensures AllFit(xs, w')
  {
    hide Fits;
    forall i | 0 <= i < |xs|
      ensures Fits(xs[i], w')
    {
      WiderFits(xs[i], w, w');
    }
  }

  lemma StillAscending(xs: seq<int>, w: nat, v: int)
    requires IsWidth(w) && StrictlyAscending(xs) && AllFit(xs, w) && !Fits(v, w)
    ensures if v < 0 then StrictlyAscending([v] + xs) else StrictlyAscending(xs + [v])
  {
    hide Fits;
    forall i | 0 <= i < |xs|
      ensures if v < 0 then v < xs[i] else xs[i] < v
    {
      OutsideBySign(v, w, xs[i]);
    }
  }

  lemma NotThere(xs: seq<int>, w: nat, v: int)
    requires w > 0 && AllFit(xs, w) && !Fits(v, w)
    ensures v !in (set i | 0 <= i < |xs| :: xs[i])
  {
  }

  lemma MembersInserted(xs: seq<int>, pos: nat, v: int)
    requires pos <= |xs|
    ensures var ys := xs[..pos] + [v] + xs[pos..];
      (set i | 0 <= i < |ys| :: ys[i]) == (set i | 0 <= i < |xs| :: xs[i]) + {v}
  {
    var ys := xs[..pos] + [v] + xs[pos..];
    assert ys[pos] == v;
    assert forall i :: 0 <= i < |xs| ==> xs[i] == ys[if i < pos then i else i + 1];
    assert forall i :: 0 <= i < |ys| && i != pos ==> ys[i] == xs[if i < pos then i else i - 1];
  }

  lemma MembersRemoved(xs: seq<int>, pos: nat)
    requires pos < |xs| && StrictlyAscending(xs)
    ensures var ys := xs[..pos] + xs[pos + 1..];
      (set i | 0 <= i < |ys| :: ys[i]) == (set i | 0 <= i < |xs| :: xs[i]) - {xs[pos]}
  {
    var ys := xs[..pos] + xs[pos + 1..];
    assert forall i :: 0 <= i < |ys| ==> ys[i] == xs[if i < pos then i else i + 1];
    assert forall i :: 0 <= i < |xs| && i != pos ==> xs[i] == ys[if i < pos then i else i - 1];
  }

  lemma InsertedBytes(before: Bytes, after: Bytes, xs: seq<int>, w: nat, pos: nat, v: int)
    requires Serialized(before, xs, w) && pos <= |xs| && w > 0 && Fits(v, w) && |xs| + 1 < 0x1_0000_0000
    requires HDR <= At(pos, w) <= |before|
    requires (forall i :: 0 <= i < pos ==> xs[i] < v) && forall i :: pos <= i < |xs| ==> v < xs[i]
    requires |after| >= HDR && after[..4] == before[..4] && after[4..8] == ToLe(|xs| + 1, 4)
    requires after[HDR..] == (before[..At(pos, w)] + ToSigned(v, w) + before[At(pos, w)..])[HDR..]
    ensures Serialized(after, xs[..pos] + [v] + xs[pos..], w)
  {
    hide ToSigned, ToLe, Fits, At, Body, AllFit, Serialized;
    var a, b := xs[..pos], xs[pos..];
    SerializedParts(before, xs, w);
    SplitBytes(before, xs, w, pos);
    BodyOne(v, w);
    BodyConcat(a, [v], w);
    BodyConcat(a + [v], b, w);
    assert before[..4] == ToLe(w, 4) by {
      assert before[..4] == before[..At(pos, w)][..4] == Header(w, |xs|)[..4];
    }
    BytesPut(Header(w, |xs|), Body(a, w), ToSigned(v, w), Body(b, w), after[HDR..]);
    Sorted3(a, v, b);
    FromParts(after, a + [v] + b, w);
  }

  lemma BytesPut(h: Bytes, a: Bytes, m: Bytes, b: Bytes, tail: Bytes)
    requires |h| == HDR && tail == ((h + a) + m + b)[HDR..]
    ensures tail == a + m + b
  {
  }

  lemma FromParts(buf: Bytes, xs: seq<int>, w: nat)
    requires IsWidth(w) && AllFit(xs, w) && StrictlyAscending(xs) && |xs| < 0x1_0000_0000
    requires |buf| >= HDR && buf[..4] == ToLe(w, 4) && buf[4..8] == ToLe(|xs|, 4) && buf[HDR..] == Body(xs, w)
    ensures Serialized(buf, xs, w)
  {
    hide ToLe, Body, Fits;
    assert buf == buf[..4] + buf[4..8] + buf[HDR..];
  }

  lemma Sorted3(a: seq<int>, v: int, b: seq<int>)
    requires StrictlyAscending(a) && StrictlyAscending(b)
    requires (forall i :: 0 <= i < |a| ==> a[i] < v) && forall i :: 0 <= i < |b| ==> v < b[i]
    ensures StrictlyAscending(a + [v] + b)
  {
  }

  lemma RemovedBytes(before: Bytes, after: Bytes, xs: seq<int>, w: nat, pos: nat)
    requires Serialized(before, xs, w) && pos < |xs| && HDR <= At(pos, w) <= At(pos + 1, w) <= |before|
    requires |after| >= HDR && after[..4] == before[..4] && after[4..8] == ToLe(|xs| - 1, 4)
    requires after[HDR..] == (before[..At(pos, w)] + before[At(pos + 1, w)..])[HDR..]
    ensures Serialized(after, xs[..pos] + xs[pos + 1..], w)
  {
    hide ToSigned, ToLe, Fits, At, Body, AllFit, Serialized;
    var a, b := xs[..pos], xs[pos + 1..];
    SerializedParts(before, xs, w);
    SplitBytes(before, xs, w, pos);
    SplitBytes(before, xs, w, pos + 1);
    BodyConcat(a, b, w);
    assert before[..4] == ToLe(w, 4) by {
      assert before[..4] == before[..At(pos, w)][..4] == Header(w, |xs|)[..4];
    }
    BytesPut(Header(w, |xs|), Body(a, w), [], Body(b, w), after[HDR..]);
    FromParts(after, a + b, w);
  }

  // ---------------------------------------------------------------- validation

  lemma TooShort(buf: Bytes)
    requires |buf| < HDR
    ensures forall xs: seq<int>, w: nat :: !Serialized(buf, xs, w)
  {
  }

  /** What the header leaves open: nothing. */
  lemma HeaderForces(buf: Bytes)
    requires |buf| >= HDR
    ensures FromLe(buf[4..8]) < 0x1_0000_0000
    ensures forall xs: seq<int>, w: nat :: Serialized(buf, xs, w) ==>
      IsWidth(w) && w == FromLe(buf[..4]) && |xs| == FromLe(buf[4..8]) && |buf| == HDR + |xs| * w
  {
    hide FromLe, Serialized;
    ToFromLe(buf[4..8]);
    Powers();
    forall xs: seq<int>, w: nat | Serialized(buf, xs, w)
      ensures IsWidth(w) && w == FromLe(buf[..4]) && |xs| == FromLe(buf[4..8]) && |buf| == HDR + |xs| * w
    {
      HeaderReads(buf, xs, w);
      SerializedParts(buf, xs, w);
    }
  }

  lemma Forced(buf: Bytes, ys: seq<int>, w: nat, i: nat, v: int)
    requires Serialized(buf, ys, w) && w > 0 && i < |ys| && At(i, w) + w <= |buf| && v == FromSigned(buf[At(i, w)..At(i, w) + w])
    ensures ys[i] == v && StrictlyAscending(ys[..i] + [v])
  {
    hide ToSigned, FromSigned, Body, Fits, At;
    ElementAt(buf, ys, w, i);
    FromToSigned(ys[i], w);
    assert ys[..i] + [v] == ys[..i + 1];
  }

  lemma StillAscends(xs: seq<int>, v: int)
    requires StrictlyAscending(xs)
    ensures StrictlyAscending(xs + [v]) <==> |xs| == 0 || xs[|xs| - 1] < v
  {
    var ys := xs + [v];
    if |xs| > 0 && StrictlyAscending(ys) {
      assert ys[|xs| - 1] < ys[|xs|];
    }
  }

  /** What has been read so far. */
  ghost predicate ReadSoFar(buf: Bytes, xs: seq<int>, w: nat) {
    && w > 0 && AllFit(xs, w) && StrictlyAscending(xs)
    && HDR <= At(|xs|, w) <= |buf| && buf[HDR..At(|xs|, w)] == Body(xs, w)
  }

  lemma ReadOn(buf: Bytes, xs: seq<int>, w: nat, v: int)
    requires ReadSoFar(buf, xs, w) && StrictlyAscending(xs + [v]) && At(|xs|, w) + w <= |buf|
    requires v == FromSigned(buf[At(|xs|, w)..At(|xs|, w) + w])
    ensures ReadSoFar(buf, xs + [v], w)
  {
    hide ToSigned, FromSigned, Fits, At, StrictlyAscending;
    var from := At(|xs|, w);
    var bytes := buf[from..from + w];
    ToFromSigned(bytes);
    AtStep(|xs|, w);
    BodyOne(v, w);
    BodyConcat(xs, [v], w);
    assert buf[HDR..from + w] == buf[HDR..from] + bytes;
  }

  lemma ReadAll(buf: Bytes, xs: seq<int>, w: nat)
    requires IsWidth(w) && ReadSoFar(buf, xs, w) && |buf| == At(|xs|, w)
    requires FromLe(buf[..4]) == w && FromLe(buf[4..8]) == |xs| < 0x1_0000_0000
    ensures Serialized(buf, xs, w)
  {
    hide ToLe, FromLe, Body, Fits;
    ToFromLe(buf[..4]);
    ToFromLe(buf[4..8]);
    assert buf[HDR..] == buf[HDR..|buf|];
    FromParts(buf, xs, w);
  }

  /** Check serialized bytes: accepted exactly if they are the serialization of
      some ascending sequence. */
  method FromBytes(buf: Bytes) returns (r: Option<Intset>)
    ensures r.Some? ==> fresh(r.value) && r.value.Valid() && r.value.buf == buf
    ensures r == None ==> forall xs: seq<int>, w: nat :: !Serialized(buf, xs, w)
  {
    hide FromSigned, FromLe, Serialized, StrictlyAscending, ReadSoFar;
    if |buf| < HDR {
      TooShort(buf);
      return None;
    }
    var enc, len := FromLe(buf[..4]), FromLe(buf[4..8]);
    HeaderForces(buf);
    if !IsWidth(enc) || len * enc + HDR != |buf| {
      return None;
    }
    ghost var xs: seq<int> := [];
    var prev: Option<int> := None;
    NothingRead(buf, enc);
    for i := 0 to len
      invariant |xs| == i && ReadSoFar(buf, xs, enc)
      invariant if i == 0 then prev == None else prev == Some(xs[i - 1])
      invariant forall ys: seq<int>, w: nat :: Serialized(buf, ys, w) ==> w == enc && |ys| == len && ys[..i] == xs
    {
      AtStep(i, enc);
      AtGrows(i + 1, len, enc);
      var at := HDR + i * enc;
      var v := FromSigned(buf[at..at + enc]);
      forall ys: seq<int>, w: nat | Serialized(buf, ys, w)
        ensures ys[..i + 1] == xs + [v] && StrictlyAscending(xs + [v])
      {
        Forced(buf, ys, w, i, v);
        assert ys[..i + 1] == ys[..i] + [ys[i]];
      }
      SoFarAscends(buf, xs, enc);
      StillAscends(xs, v);
      if prev.Some? && v <= prev.value {
        return None;
      }
      ReadOn(buf, xs, enc, v);
      prev := Some(v);
      xs := xs + [v];
    }
    ReadAll(buf, xs, enc);
    var adopted := new Intset.Adopt(buf, xs, enc);
    return Some(adopted);
  }

  lemma NothingRead(buf: Bytes, w: nat)
    requires |buf| >= HDR && w > 0
    ensures ReadSoFar(buf, [], w)
  {
    AtStep(0, w);
  }

  lemma SoFarAscends(buf: Bytes, xs: seq<int>, w: nat)
    requires ReadSoFar(buf, xs, w)
    ensures StrictlyAscending(xs)
  {
  }
}
