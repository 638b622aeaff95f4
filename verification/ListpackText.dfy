/** Listpack entries as text: how a string is stored and how it is found again. */
module ListpackText {
  import opened ByteStrings
  import opened Decimal
  import opened ListpackCodec

  /** How a pushed string reads back from a listpack. */
  function Stored(s: Bytes): Entry {
    Canonicalize(Str(s))
  }

  /** Comparing an entry with a raw needle. */
  predicate EqBytes(e: Entry, needle: Bytes) {
    match e
    case Str(s) => s == needle
    case Int(v) => Canonical(needle) == Some(v)
  }

  lemma {:induction false} TextOfValue(s: Bytes)
    requires AllDigits(s) && |s| > 0 && (s[0] != ZERO || |s| == 1)
    ensures Text(Value(s)) == s
    ensures s[0] != ZERO ==> Value(s) > 0
  {
    var init := s[..|s| - 1];
    if |s| == 1 {
      assert init == [];
      assert s == [s[0]];
    } else {
      TextOfValue(init);
      assert s == init + [s[|s| - 1]];
    }
  }

  /** Different strings never denote the same number. */
  lemma CanonicalInjective(a: Bytes, b: Bytes)
    requires Canonical(a).Some? && Canonical(a) == Canonical(b)
    ensures a == b
  {
    CanonicalText(a);
    CanonicalText(b);
  }

  /** The one text of a number. */
  function SignedText(v: int): Bytes {
    if v < 0 then [MINUS] + Text(-v) else Text(v)
  }

  lemma CanonicalText(s: Bytes)
    requires Canonical(s).Some?
    ensures SignedText(Canonical(s).value) == s
  {
    if s == [ZERO] {
      assert Text(0) == [ZERO];
    } else if s[0] == MINUS {
      TextOfValue(s[1..]);
      assert s == [MINUS] + s[1..];
    } else {
      TextOfValue(s);
    }
  }

  /** Storing a string as a number loses nothing: needles match as text. */
  lemma EqBytesIsEqual(s: Bytes, needle: Bytes)
    ensures EqBytes(Stored(s), needle) <==> s == needle
  {
    if Canonical(s).Some? && Canonical(needle) == Canonical(s) {
      CanonicalInjective(s, needle);
    }
  }

  /** The textual form of an entry. */
  function TextOf(e: Entry): Bytes {
    match e case Int(v) => SignedText(v) case Str(s) => s
  }

  /** `e` is how the string `s` reads back, packed or plain. */
  ghost predicate Shows(e: Entry, s: Bytes) {
    e == Stored(s) || e == Str(s)
  }

  lemma ShowsText(e: Entry, s: Bytes)
    requires Shows(e, s)
    ensures TextOf(e) == s
    ensures forall needle: Bytes :: EqBytes(e, needle) <==> s == needle
  {
    if Canonical(s).Some? {
      CanonicalText(s);
    }
    forall needle: Bytes
      ensures EqBytes(e, needle) <==> s == needle
    {
      EqBytesIsEqual(s, needle);
    }
  }

  // ------------------------------------------------- numbers kept as strings

  /** Number text that is stored as a string. */
  predicate Disguised(e: Entry) {
    e.Str? && Canonical(e.s).Some?
  }

  lemma {:induction false} TextLeads(n: nat)
    requires n > 0
    ensures Text(n)[0] != ZERO
  {
    if n >= 10 {
      TextLeads(n / 10);
    }
  }

  /** A number is found under its own text. */
  lemma TextCanonical(v: int)
    requires IsI64(v)
    ensures Canonical(SignedText(v)) == Some(v)
  {
    var n: nat := if v < 0 then -v else v;
    TextValue(n);
    if n > 0 {
      TextLeads(n);
      assert v < 0 ==> SignedText(v)[1..] == Text(n);
    }
  }

  /** An entry is the stored form of its text and of no other, exactly unless it
      is a number kept as a string. */
  lemma StoredIsText(e: Entry)
    requires e.Int? ==> IsI64(e.v)
    ensures (forall needle :: e == Stored(needle) <==> TextOf(e) == needle) <==> !Disguised(e)
  {
    if Disguised(e) {
      assert e != Stored(TextOf(e));
    } else {
      forall needle
        ensures e == Stored(needle) <==> TextOf(e) == needle
      {
        if e.Int? {
          TextCanonical(e.v);
          if Canonical(needle) == Some(e.v) {
            CanonicalText(needle);
          }
        }
      }
    }
  }

  // ------------------------------------------------------------------- search

  /** The entry `i` lies a whole number of strides after `start`. */
  ghost predicate OnStride(i: nat, start: nat, skip: nat) {
    start <= i && (i - start) % (skip + 1) == 0
  }

  /** Where a search for the stored form of the needle hits. */
  ghost function StoredHits(es: seq<Entry>, start: nat, needle: Bytes, skip: nat): set<nat> {
    set i: nat | i < |es| && OnStride(i, start, skip) && es[i] == Stored(needle)
  }

  /** Where a search for its text would. */
  ghost function TextHits(es: seq<Entry>, start: nat, needle: Bytes, skip: nat): set<nat> {
    set i: nat | i < |es| && OnStride(i, start, skip) && TextOf(es[i]) == needle
  }

  ghost predicate IsFirst(r: Option<nat>, hits: set<nat>) {
    match r
    case None => hits == {}
    case Some(i) => i in hits && forall j :: j in hits ==> i <= j
  }

  ghost predicate NoneDisguised(es: seq<Entry>) {
    forall k :: 0 <= k < |es| ==> !Disguised(es[k])
  }

  ghost predicate Numbers(es: seq<Entry>) {
    forall k :: 0 <= k < |es| && es[k].Int? ==> IsI64(es[k].v)
  }

  /** Every search finds by text, exactly if no number is kept as a string. */
  lemma FindIsText(es: seq<Entry>)
    requires Numbers(es)
    ensures NoneDisguised(es) <==> forall r, start, needle, skip ::
      IsFirst(r, StoredHits(es, start, needle, skip)) <==> IsFirst(r, TextHits(es, start, needle, skip))
  {
    hide Stored, TextOf, IsFirst, OnStride, Disguised;
    if NoneDisguised(es) {
      forall start, needle, skip
        ensures StoredHits(es, start, needle, skip) == TextHits(es, start, needle, skip)
      {
        SameHits(es, start, needle, skip);
      }
    } else {
      var k :| 0 <= k < |es| && Disguised(es[k]);
      DisguisedMissed(es, k);
      assert !IsFirst(Some(k), StoredHits(es, k, TextOf(es[k]), 0));
    }
  }

  lemma SameHits(es: seq<Entry>, start: nat, needle: Bytes, skip: nat)
    requires Numbers(es) && NoneDisguised(es)
    ensures StoredHits(es, start, needle, skip) == TextHits(es, start, needle, skip)
  {
    hide Stored, TextOf, OnStride, Disguised;
    forall i | 0 <= i < |es|
      ensures es[i] == Stored(needle) <==> TextOf(es[i]) == needle
    {
      StoredIsText(es[i]);
    }
  }

  /** A search that starts at such a number does not see it. */
  lemma DisguisedMissed(es: seq<Entry>, k: nat)
    requires k < |es| && Disguised(es[k])
    ensures IsFirst(Some(k), TextHits(es, k, TextOf(es[k]), 0))
    ensures !IsFirst(Some(k), StoredHits(es, k, TextOf(es[k]), 0))
  {
  }
}
