/** The reverse-binary cursor of SCAN. */
module ScanCursor {
  import opened Words

  const MAX_SCAN_BITS: nat := 4

  function Shifted(v: nat, bits: nat): nat {
    if bits == 0 then v else Shifted(v / 2, bits - 1)
  }

  /** The least number of bits, up to the maximum, that brings a slice of `len`
      keys down to COUNT keys a bucket. */
  ghost predicate BitsFit(bits: nat, len: nat, count: nat) {
    var budget := if count == 0 then 1 else count;
    && bits <= MAX_SCAN_BITS
    && (bits < MAX_SCAN_BITS ==> Shifted(len, bits) <= budget)
    && (forall b :: 0 <= b < bits ==> Shifted(len, b) > budget)
  }

  method ScanBits(len: nat, count: nat) returns (bits: nat)
    ensures BitsFit(bits, len, count)
  {
    var budget := if count == 0 then 1 else count;
    bits := 0;
    while bits < MAX_SCAN_BITS && Shifted(len, bits) > budget
      invariant bits <= MAX_SCAN_BITS
      invariant forall b :: 0 <= b < bits ==> Shifted(len, b) > budget
    {
      bits := bits + 1;
    }
  }

  const MASKS: seq<bv64> := [0, 1, 3, 7, 15]

  /** The mask of a table of `1 << bits` buckets. */
  function Mask(bits: nat): bv64
    requires bits <= MAX_SCAN_BITS
  {
    MASKS[bits]
  }

  lemma MaskIsShift(bits: nat)
    requires bits <= MAX_SCAN_BITS
    ensures Mask(bits) == ((1 as bv64) << bits) - 1
  {
    match bits
    case 0 =>
    case 1 =>
    case 2 =>
    case 3 =>
    case _ =>
      assert bits == 4;
  }

  function ScanAdvance(cursor: bv64, mask: bv64): bv64 {
    ReverseBits(ReverseBits(cursor | !mask) + 1)
  }

  function Bit(c: bv64, i: bv64): (b: nat)
    requires i < 64
    ensures b <= 1
  {
    if (c >> i) & 1 == 1 then 1 else 0
  }

  /** Reverse-binary rank of the low four bits. */
  function Rank(c: bv64): (r: nat)
    ensures r < 16
  {
    8 * Bit(c, 0) + 4 * Bit(c, 1) + 2 * Bit(c, 2) + Bit(c, 3)
  }

  /** Ranks covered by one bucket under a mask of that many bits. */
  function Span(bits: nat): nat
    requires bits <= MAX_SCAN_BITS
  {
    if bits == 0 then 16 else if bits == 1 then 8 else if bits == 2 then 4 else if bits == 3 then 2 else 1
  }

  lemma Masks()
    ensures Mask(0) == 0 && Mask(1) == 1 && Mask(2) == 3 && Mask(3) == 7 && Mask(4) == 15
  {
  }

  lemma MaskedEqual(h: bv64, c: bv64)
    ensures h & 1 == c & 1 <==> Bit(h, 0) == Bit(c, 0)
    ensures h & 3 == c & 3 <==> Bit(h, 0) == Bit(c, 0) && Bit(h, 1) == Bit(c, 1)
    ensures h & 7 == c & 7 <==> Bit(h, 0) == Bit(c, 0) && Bit(h, 1) == Bit(c, 1) && Bit(h, 2) == Bit(c, 2)
    ensures h & 15 == c & 15 <==>
      Bit(h, 0) == Bit(c, 0) && Bit(h, 1) == Bit(c, 1) && Bit(h, 2) == Bit(c, 2) && Bit(h, 3) == Bit(c, 3)
  {
  }

  /** The least rank in the bucket of `c`. */
  function BucketStart(c: bv64, bits: nat): nat {
    (if bits >= 1 then 8 * Bit(c, 0) else 0) + (if bits >= 2 then 4 * Bit(c, 1) else 0)
    + (if bits >= 3 then 2 * Bit(c, 2) else 0) + (if bits >= 4 then Bit(c, 3) else 0)
  }

  predicate SameBucket(h: bv64, c: bv64, bits: nat)
    requires bits <= MAX_SCAN_BITS
  {
    h & Mask(bits) == c & Mask(bits)
  }

  /** A bucket is a contiguous stretch of ranks. */
  lemma BucketRanks(h: bv64, c: bv64, bits: nat)
    requires bits <= MAX_SCAN_BITS
    ensures SameBucket(h, c, bits) <==> BucketStart(c, bits) <= Rank(h) < BucketStart(c, bits) + Span(bits)
  {
    hide Bit, Mask;
    Masks();
    MaskedEqual(h, c);
  }

  lemma RankInBucket(c: bv64, bits: nat)
    requires bits <= MAX_SCAN_BITS
    ensures BucketStart(c, bits) <= Rank(c) < BucketStart(c, bits) + Span(bits) <= 16
  {
    hide Bit;
  }

  /** Advancing moves to the first rank after the bucket, or wraps to 0. */
  lemma AdvanceRank(c: bv64, bits: nat)
    requires bits <= MAX_SCAN_BITS
    ensures var next := ScanAdvance(c, Mask(bits));
      && next < 16
      && BucketStart(c, bits) + Span(bits) == (if next == 0 then 16 else Rank(next))
      && BucketStart(next, bits) == Rank(next)
  {
  }

  /** More bits refine the buckets: a bucket start stays one. */
  lemma BucketStartStays(c: bv64, bits: nat, bits': nat)
    requires bits <= bits' <= MAX_SCAN_BITS && BucketStart(c, bits) == Rank(c)
    ensures BucketStart(c, bits') == Rank(c)
  {
    hide Bit;
  }
}
