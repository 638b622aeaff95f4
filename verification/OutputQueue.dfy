/** The connection's output: nothing is lost, repeated or reordered on its way out. */
module OutputQueue {
  import opened ByteStrings

  const MAX_IOVECS: nat := 64

  function Flat(frames: seq<Bytes>): Bytes {
    if |frames| == 0 then [] else frames[0] + Flat(frames[1..])
  }

  lemma {:induction false} FlatConcat(a: seq<Bytes>, b: seq<Bytes>)
    ensures Flat(a + b) == Flat(a) + Flat(b)
  {
    if |a| == 0 {
      assert a + b == b;
    } else {
      FlatConcat(a[1..], b);
      assert (a + b)[1..] == a[1..] + b && (a + b)[0] == a[0];
      Associate(a[0], Flat(a[1..]), Flat(b));
    }
  }

  lemma Associate(a: Bytes, b: Bytes, c: Bytes)
    ensures a + (b + c) == (a + b) + c
  {
  }

  lemma FlatHead(frames: seq<Bytes>, off: nat)
    requires |frames| > 0 && off <= |frames[0]|
    ensures Flat(frames) == frames[0] + Flat(frames[1..])
    ensures Flat(frames)[off..] == frames[0][off..] + Flat(frames[1..])
  {
  }

  lemma FlatOne(f: Bytes)
    ensures Flat([f]) == f && Flat([]) == []
  {
    assert [f][1..] == [];
  }

  /** One write: what was offered, and how much of it was taken, if it did not fail. */
  datatype Offer = Offer(bytes: Bytes, taken: Option<nat>)

  predicate Took(o: Offer) {
    o.taken.Some? && o.taken.value > 0
  }

  /** The writes of a flush: each offers something, each but perhaps the last takes
      at least a byte, and the last one does not exactly if the flush fails. */
  ghost predicate Attempts(was: seq<Offer>, now: seq<Offer>, failed: bool) {
    && |was| <= |now| && now[..|was|] == was
    && (forall i :: |was| <= i < |now| ==> now[i].bytes != [])
    && (forall i :: |was| <= i < |now| - 1 ==> Took(now[i]))
    && if failed then |was| < |now| && !Took(now[|now| - 1]) else |was| < |now| ==> Took(now[|now| - 1])
  }

  lemma OneAttempt(was: seq<Offer>, now: seq<Offer>, o: Offer)
    requires Attempts(was, now, false) && o.bytes != []
    ensures Attempts(was, now + [o], !Took(o))
  {
  }

  lemma NoAttempt(was: seq<Offer>)
    ensures Attempts(was, was, false)
  {
  }

  /** Whoever is at the other end: it takes any prefix of what it is offered,
      nothing at all, or fails. */
  class Writer {
    const vectored: bool
    var got: Bytes
    /** All writes so far. */
    ghost var log: seq<Offer>

    constructor (vectored: bool)
      ensures got == [] && log == [] && this.vectored == vectored
    {
      this.vectored := vectored;
      got := [];
      log := [];
    }

    method Write(offered: Bytes) returns (n: Option<nat>)
      modifies this
      ensures n.Some? ==> n.value <= |offered| && got == old(got) + offered[..n.value]
      ensures n == None ==> got == old(got)
      ensures log == old(log) + [Offer(offered, n)]
    {
      if * {
        log := log + [Offer(offered, None)];
        return None;
      }
      var k: nat :| k <= |offered|;
      got := got + offered[..k];
      log := log + [Offer(offered, Some(k))];
      return Some(k);
    }
  }

  /** The frames one write can offer: the head alone, or up to 64 of them. */
  function Reach(frames: nat, vectored: bool): nat {
    if !vectored then 1 else if frames < 64 then frames else 64
  }

  class OutputBuffer {
    var staging: Bytes
    var queued: seq<Bytes>
    var queuedBytes: nat
    var headOff: nat
    var peakPending: nat
    /** Everything ever staged or pushed, and what has been delivered of it. */
    ghost var written: Bytes
    ghost var delivered: Bytes

    /** No frame is empty, the byte count is exact, and the head is not used up. */
    ghost predicate Framed()
      reads this
    {
      && (forall i :: 0 <= i < |queued| ==> queued[i] != [])
      && queuedBytes == |Flat(queued)|
      && (if |queued| == 0 then headOff == 0 else headOff < |queued[0]|)
      && headOff <= |Flat(queued)|
    }

    /** (Conservation) Delivered, then outstanding, is everything written. */
    ghost predicate Valid()
      reads this
    {
      Framed() && delivered + Outstanding() == written
    }

    /** What the socket has yet to see. */
    ghost function Outstanding(): Bytes
      requires headOff <= |Flat(queued)|
      reads this
    {
      Flat(queued)[headOff..] + staging
    }

    constructor ()
      ensures Valid() && written == [] && delivered == []
    {
      staging, queued, queuedBytes, headOff, peakPending := [], [], 0, 0, 0;
      written, delivered := [], [];
    }

    /** The exact number of bytes still to go. */
    method Pending() returns (n: nat)
      requires Valid()
      ensures n == |Outstanding()| == |written| - |delivered|
    {
      n := |staging| + queuedBytes - headOff;
    }

    /** A reply writer appends to the staging buffer. */
    method Stage(b: Bytes)
      requires Valid()
      modifies `staging, `written
      ensures Valid() && written == old(written) + b && Outstanding() == old(Outstanding()) + b
    {
      staging := staging + b;
      written := written + b;
    }

    /** Move what is staged into the queue. */
    method Seal()
      requires Valid()
      modifies `staging, `queued, `queuedBytes
      ensures Valid() && staging == [] && Outstanding() == old(Outstanding())
    {
      if |staging| > 0 {
        FlatConcat(queued, [staging]);
        FlatOne(staging);
        queuedBytes := queuedBytes + |staging|;
        queued := queued + [staging];
        staging := [];
      }
    }

    /** Queue an encoded frame behind everything staged so far. */
    method PushBytes(b: Bytes)
      requires Valid()
      modifies this
      ensures Valid() && written == old(written) + b && delivered == old(delivered)
      ensures Outstanding() == old(Outstanding()) + b
    {
      if |b| == 0 {
        return;
      }
      Seal();
      FlatConcat(queued, [b]);
      FlatOne(b);
      queuedBytes := queuedBytes + |b|;
      queued := queued + [b];
      written := written + b;
      NotePending();
    }

    method NotePending()
      requires Valid()
      modifies `peakPending
      ensures Valid() && peakPending >= |Outstanding()| && peakPending >= old(peakPending)
      ensures peakPending == old(peakPending) || peakPending == |Outstanding()|
    {
      var p := Pending();
      if p > peakPending {
        peakPending := p;
      }
    }

    /** One write: the head frame alone, or up to 64 frames vectored. */
    method WriteSome(w: Writer) returns (n: Option<nat>)
      requires Valid() && |queued| > 0
      modifies w
      ensures old(w.got) <= w.got
      ensures n.Some? ==> n.value <= |Flat(queued)| - headOff && w.got == old(w.got) + Flat(queued)[headOff..][..n.value]
      ensures n == None ==> w.got == old(w.got)
      ensures headOff < |Flat(queued[..Reach(|queued|, w.vectored)])|
      ensures w.log == old(w.log) + [Offer(Flat(queued[..Reach(|queued|, w.vectored)])[headOff..], n)]
    {
      hide Flat;
      var head := queued[0][headOff..];
      var slices := [head];
      FlatOne(head);
      assert queued[1..1] == [];
      FlatOne([]);
      if |queued| > 1 && w.vectored {
        var i := 1;
        while i < |queued| && |slices| < MAX_IOVECS
          invariant w.got == old(w.got) && w.log == old(w.log)
          invariant 1 <= i <= |queued| && |slices| == i <= MAX_IOVECS && Flat(slices) == head + Flat(queued[1..i])
        {
          FlatConcat(slices, [queued[i]]);
          FlatConcat(queued[1..i], [queued[i]]);
          FlatOne(queued[i]);
          Associate(head, Flat(queued[1..i]), queued[i]);
          assert queued[1..i + 1] == queued[1..i] + [queued[i]];
          slices := slices + [queued[i]];
          i := i + 1;
        }
        TakesPrefix(queued, headOff, i, slices);
      } else {
        TakesPrefix(queued, headOff, 1, slices);
      }
      n := w.Write(Flat(slices));
      Reached(queued, headOff, |slices|, Flat(slices));
    }

    /** Account for `n` accepted bytes, dropping the frames they finish. */
    method Advance(n: nat)
      requires Framed() && n <= |Flat(queued)| - headOff
      modifies `queued, `queuedBytes, `headOff
      ensures Framed() && |Flat(queued)| - headOff == old(|Flat(queued)| - headOff) - n
      ensures Flat(queued)[headOff..] == old(Flat(queued)[headOff..])[n..]
    {
      hide Flat;
      ghost var all := Flat(queued)[headOff..];
      ghost var gone: nat := 0;
      var left: nat := n;
      while left > 0
        invariant Framed() && gone + left == n <= |all| && Flat(queued)[headOff..] == all[gone..]
        decreases left
      {
        FlatNothing(queued);
        var front := queued[0];
        FlatHead(queued, headOff);
        var rest: nat := |front| - headOff;
        DropMore(all, gone, Flat(queued), headOff, if left < rest then left else rest);
        if left < rest {
          headOff := headOff + left;
          return;
        }
        left := left - rest;
        gone := gone + rest;
        queuedBytes := queuedBytes - |front|;
        assert Flat(queued)[|front|..] == Flat(queued[1..]);
        queued := queued[1..];
        headOff := 0;
      }
    }

    lemma Handed(d: Bytes, all: Bytes, n: nat, rest: Bytes)
      requires n <= |all|
      ensures (d + all[..n]) + (all[n..] + rest) == d + (all + rest)
    {
      assert all == all[..n] + all[n..];
    }

    /** Write everything pending.  However much the writer takes at a time, and
        wherever it fails, what it got and what is left make up what was written. */
    method Flush(w: Writer) returns (total: Option<nat>)
      requires Valid()
      modifies this, w
      ensures Valid() && written == old(written)
      ensures old(w.got) <= w.got && delivered == old(delivered) + w.got[|old(w.got)|..]
      ensures total.Some? ==> Outstanding() == [] && delivered == written && total.value == |old(Outstanding())|
      ensures Attempts(old(w.log), w.log, total == None)
      ensures peakPending >= |old(Outstanding())|
    {
      hide Flat, Attempts;
      NoAttempt(w.log);
      NotePending();
      Seal();
      ghost var before := delivered;
      var sum := 0;
      while |queued| > 0
        invariant Valid() && written == old(written) && staging == []
        invariant old(w.got) <= w.got && delivered == before + w.got[|old(w.got)|..]
        invariant sum == |w.got| - |old(w.got)|
        invariant Attempts(old(w.log), w.log, false) && peakPending >= |old(Outstanding())|
        decreases |Flat(queued)| - headOff
      {
        ghost var sent, log := w.got, w.log;
        var n := WriteSome(w);
        OneAttempt(old(w.log), log, w.log[|log|]);
        if n == None {
          return None;
        }
        if n.value == 0 {
          assert w.got == sent;
          return None;
        }
        sum := sum + n.value;
        ghost var chunk := Flat(queued)[headOff..][..n.value];
        assert w.got[|old(w.got)|..] == sent[|old(w.got)|..] + chunk;
        Associate(before, sent[|old(w.got)|..], chunk);
        Handed(delivered, Flat(queued)[headOff..], n.value, staging);
        Advance(n.value);
        delivered := delivered + chunk;
      }
      FlatOne([]);
      headOff, queuedBytes := 0, 0;
      return Some(sum);
    }

    /** Drop everything pending. */
    method Discard()
      requires Valid()
      modifies this
      ensures Valid() && Outstanding() == [] && delivered == old(delivered) && written == delivered
    {
      staging, queued, queuedBytes, headOff := [], [], 0, 0;
      written := delivered;
    }
  }

  lemma Reached(queued: seq<Bytes>, headOff: nat, k: nat, offered: Bytes)
    requires 0 < k <= |queued| && headOff < |queued[0]| && offered == queued[0][headOff..] + Flat(queued[1..k])
    ensures headOff < |Flat(queued[..k])| && Flat(queued[..k])[headOff..] == offered
  {
    hide Flat;
    FlatHead(queued[..k], headOff);
    assert queued[..k][1..] == queued[1..k];
  }

  /** A write offers a prefix of what is queued. */
  lemma TakesPrefix(queued: seq<Bytes>, headOff: nat, i: nat, slices: seq<Bytes>)
    requires 0 < i <= |queued| && headOff <= |queued[0]| && Flat(slices) == queued[0][headOff..] + Flat(queued[1..i])
    ensures headOff <= |Flat(queued)| && |Flat(slices)| <= |Flat(queued)| - headOff
    ensures forall n :: 0 <= n <= |Flat(slices)| ==> Flat(slices)[..n] == Flat(queued)[headOff..][..n]
  {
    hide Flat;
    FlatHead(queued, headOff);
    FlatConcat(queued[1..i], queued[i..]);
    assert queued[1..] == queued[1..i] + queued[i..];
    Associate(queued[0][headOff..], Flat(queued[1..i]), Flat(queued[i..]));
    PrefixOf(Flat(queued)[headOff..], Flat(slices), Flat(queued[i..]));
  }

  lemma PrefixOf(all: Bytes, a: Bytes, b: Bytes)
    requires all == a + b
    ensures forall n :: 0 <= n <= |a| ==> a[..n] == all[..n]
  {
  }

  lemma FlatNothing(frames: seq<Bytes>)
    ensures |frames| == 0 ==> |Flat(frames)| == 0
  {
  }

  lemma DropMore(all: Bytes, gone: nat, flat: Bytes, off: nat, more: nat)
    requires gone <= |all| && off <= |flat| && flat[off..] == all[gone..] && off + more <= |flat|
    ensures gone + more <= |all| && flat[off + more..] == all[gone + more..]
  {
    assert flat[off + more..] == flat[off..][more..] == all[gone..][more..] == all[gone + more..];
  }

  // ---------------------------------------------------------------- whole runs

  datatype Step = StageStep(b: Bytes) | PushStep(b: Bytes) | FlushStep

  function WrittenBy(steps: seq<Step>): Bytes {
    if |steps| == 0 then []
    else
      WrittenBy(steps[..|steps| - 1]) + match steps[|steps| - 1] case StageStep(b) => b case PushStep(b) => b case FlushStep => []
  }

  /** (Conservation) Over any interleaving of writes and flushes, what reached the
      other end followed by what is pending is everything written, in order; after
      a flush to an end that always takes something, all of it has. */
  method RunOutput(steps: seq<Step>, w: Writer) returns (out: OutputBuffer)
    requires w.got == [] && w.log == []
    modifies w
    ensures out.Valid() && w.got + out.Outstanding() == WrittenBy(steps)
    ensures |steps| > 0 && steps[|steps| - 1].FlushStep? && (forall i :: 0 <= i < |w.log| ==> Took(w.log[i])) ==>
      w.got == WrittenBy(steps)
  {
    out := new OutputBuffer();
    for i := 0 to |steps|
      invariant out.Valid() && fresh(out) && out.written == WrittenBy(steps[..i]) && out.delivered == w.got
      invariant i > 0 && steps[i - 1].FlushStep? && (forall k :: 0 <= k < |w.log| ==> Took(w.log[k])) ==> w.got == out.written
    {
      assert steps[..i + 1][..i] == steps[..i];
      match steps[i] {
        case StageStep(b) => out.Stage(b);
        case PushStep(b) => out.PushBytes(b);
        case FlushStep => var _ := out.Flush(w);
      }
    }
    assert steps[..|steps|] == steps;
  }
}
