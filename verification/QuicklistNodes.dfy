/** Quicklist nodes: what they hold, how big they are, and when they may grow. */
module QuicklistNodes {
  import opened ByteStrings
  import opened Decimal
  import opened ListpackCodec
  import ListpackLayout
  import opened ListpackText

  const SIZE_SAFETY_LIMIT: nat := 8192
  const SIZE_ESTIMATE_OVERHEAD: nat := 11
  const OPTIMIZATION_LEVEL: seq<nat> := [4096, 8192, 16384, 32768, 65536]

  /** A packed node is a listpack of byte strings, each stored as the listpack
      stores it; a plain node is one raw value. */
  datatype Node = Packed(items: seq<Bytes>) | Plain(b: Bytes)

  // ------------------------------------------------------------------- sizes

  /** Bytes one string takes in a listpack. */
  function SpanOf(s: Bytes): nat {
    PayloadEnclen(Stored(s)) + BacklenSize(PayloadEnclen(Stored(s)))
  }

  function PackedBytes(items: seq<Bytes>): nat {
    if |items| == 0 then 7 else PackedBytes(items[..|items| - 1]) + SpanOf(items[|items| - 1])
  }

  lemma {:induction false} PackedConcat(a: seq<Bytes>, b: seq<Bytes>)
    ensures PackedBytes(a + b) == PackedBytes(a) + PackedBytes(b) - 7
    ensures PackedBytes(b) >= 7
  {
    hide SpanOf;
    if |b| == 0 {
      assert a + b == a;
    } else {
      PackedConcat(a, b[..|b| - 1]);
      assert (a + b)[..|a + b| - 1] == a + b[..|b| - 1];
    }
  }

  lemma PackedOne(s: Bytes)
    ensures PackedBytes([s]) == 7 + SpanOf(s)
  {
    assert [s][..0] == [];
  }

  function CountOf(n: Node): nat {
    match n case Packed(items) => |items| case Plain(_) => 1
  }

  function BytesOf(n: Node): nat {
    match n case Packed(items) => PackedBytes(items) case Plain(b) => |b|
  }

  function ItemsOf(n: Node): seq<Bytes> {
    match n case Packed(items) => items case Plain(b) => [b]
  }

  lemma {:induction false} ValueBelow(s: Bytes, bound: nat)
    requires AllDigits(s) && bound == Power10(|s|)
    ensures Value(s) < bound
  {
    if |s| > 0 {
      ValueBelow(s[..|s| - 1], Power10(|s| - 1));
    }
  }

  /** The overhead a string really has, for strings that share a node. */
  lemma SpanBound(s: Bytes)
    requires |s| <= 65536
    ensures SpanOf(s) <= |s| + 8
  {
    if Canonical(s).Some? && |s| <= 3 {
      ShortNumber(s);
    }
  }

  lemma ShortNumber(s: Bytes)
    requires Canonical(s).Some? && |s| <= 3
    ensures -1000 < Canonical(s).value < 1000
  {
    var digits := if |s| > 0 && s[0] == MINUS then s[1..] else s;
    if s != [ZERO] {
      ValueBelow(digits, Power10(|digits|));
      assert Power10(1) == 10 && Power10(2) == 100 && Power10(3) == 1000;
    }
  }

  // ------------------------------------------------------------------ limits

  /** Size limit and count limit; zero means there is none. */
  function NodeLimit(fill: int): (nat, nat) {
    if fill >= 0 then (0, if fill == 0 then 1 else fill)
    else (OPTIMIZATION_LEVEL[(if -fill > 5 then 5 else -fill) - 1], 0)
  }

  predicate ExceedsLimit(fill: int, newSize: nat, newCount: nat) {
    var (sizeLimit, countLimit) := NodeLimit(fill);
    if sizeLimit != 0 then newSize > sizeLimit
    else if countLimit != 0 then newSize > SIZE_SAFETY_LIMIT || newCount > countLimit
    else false
  }

  predicate IsLarge(size: nat, fill: int) {
    if fill >= 0 then size > SIZE_SAFETY_LIMIT else size > NodeLimit(fill).0
  }

  predicate AllowsInsert(n: Node, fill: int, size: nat) {
    && n.Packed? && !IsLarge(size, fill)
    && !ExceedsLimit(fill, BytesOf(n) + size + SIZE_ESTIMATE_OVERHEAD, CountOf(n) + 1)
  }

  predicate AllowsMerge(a: Node, b: Node, fill: int) {
    && a.Packed? && b.Packed?
    && !ExceedsLimit(fill, if BytesOf(a) + BytesOf(b) >= 11 then BytesOf(a) + BytesOf(b) - 11 else 0, CountOf(a) + CountOf(b))
  }

  /** The most bytes a node is meant to hold. */
  function SizeCap(fill: int): nat {
    if fill >= 0 || fill == -2 then 8192
    else if fill == -1 then 4096
    else if fill == -3 then 16384
    else if fill == -4 then 32768
    else 65536
  }

  function CountCap(fill: int): nat
    requires fill >= 0
  {
    if fill == 0 then 1 else fill
  }

  ghost predicate CountBounded(n: Node, fill: int) {
    n.Packed? && fill >= 0 ==> |n.items| <= CountCap(fill)
  }

  /** Estimates and the first element of a node may overshoot by 15 bytes. */
  ghost predicate SizeBounded(n: Node, fill: int) {
    n.Packed? ==> PackedBytes(n.items) <= SizeCap(fill) + 15
  }

  lemma CapSmall(fill: int)
    ensures 4096 <= SizeCap(fill) <= 65536
  {
  }

  /** When a node takes one more element: it is packed, the element is no larger
      than a node may be, and with 11 bytes of overhead it stays within both limits. */
  lemma InsertRule(n: Node, fill: int, size: nat)
    ensures IsLarge(size, fill) <==> size > SizeCap(fill)
    ensures AllowsInsert(n, fill, size) <==>
      && n.Packed? && size <= SizeCap(fill) && PackedBytes(n.items) + size + 11 <= SizeCap(fill)
      && (fill >= 0 ==> |n.items| + 1 <= CountCap(fill))
  {
  }

  /** When two nodes may be one: both are packed and fit, less 11 bytes. */
  lemma MergeRule(a: Node, b: Node, fill: int)
    ensures AllowsMerge(a, b, fill) <==>
      && a.Packed? && b.Packed? && PackedBytes(a.items) + PackedBytes(b.items) <= SizeCap(fill) + 11
      && (fill >= 0 ==> |a.items| + |b.items| <= CountCap(fill))
  {
    PackedConcat([], ItemsOf(a));
    PackedConcat([], ItemsOf(b));
  }

  /** A new element starts a packed node unless it is larger than a node may be. */
  lemma NewRule(v: Bytes, fill: int)
    ensures NewNode(v, fill) == if |v| > SizeCap(fill) then Plain(v) else Packed([v])
  {
  }

  /** An allowed insert keeps the bounds, and the listpack has room for it. */
  lemma InsertBounded(n: Node, fill: int, v: Bytes, k: nat)
    requires AllowsInsert(n, fill, |v|) && k <= |n.items|
    ensures var n' := Packed(n.items[..k] + [v] + n.items[k..]);
      && CountBounded(n', fill) && PackedBytes(n'.items) == BytesOf(n) + SpanOf(v) <= SizeCap(fill)
    ensures BytesOf(n) + SpanOf(v) <= ListpackLayout.LP_MAX_SAFETY_SIZE
  {
    hide SpanOf, PackedBytes;
    CapSmall(fill);
    SpanBound(v);
    PackedConcat(n.items[..k], [v]);
    PackedConcat(n.items[..k] + [v], n.items[k..]);
    PackedConcat(n.items[..k], n.items[k..]);
    PackedOne(v);
    assert n.items == n.items[..k] + n.items[k..];
  }

  /** So does a node of its own. */
  lemma NewBounded(fill: int, v: Bytes)
    requires !IsLarge(|v|, fill)
    ensures CountBounded(Packed([v]), fill) && SizeBounded(Packed([v]), fill)
    ensures 7 + SpanOf(v) <= ListpackLayout.LP_MAX_SAFETY_SIZE
  {
    hide SpanOf, PackedBytes;
    CapSmall(fill);
    SpanBound(v);
    PackedOne(v);
  }

  /** So does an allowed merge, which the listpack therefore cannot refuse. */
  lemma MergeBounded(a: Node, b: Node, fill: int)
    requires AllowsMerge(a, b, fill)
    ensures CountBounded(Packed(a.items + b.items), fill) && SizeBounded(Packed(a.items + b.items), fill)
    ensures BytesOf(a) + BytesOf(b) - 7 <= ListpackLayout.LP_MAX_SAFETY_SIZE
  {
    hide SpanOf, PackedBytes;
    CapSmall(fill);
    PackedConcat(a.items, b.items);
  }

  /** And any part of a node. */
  lemma PartBounded(items: seq<Bytes>, i: nat, j: nat, fill: int)
    requires i <= j <= |items|
    ensures CountBounded(Packed(items), fill) ==> CountBounded(Packed(items[..i] + items[j..]), fill)
    ensures SizeBounded(Packed(items), fill) ==> SizeBounded(Packed(items[..i] + items[j..]), fill)
    ensures PackedBytes(items[..i] + items[j..]) <= PackedBytes(items)
  {
    hide SpanOf, PackedBytes;
    PackedConcat(items[..i], items[i..]);
    PackedConcat(items[i..j], items[j..]);
    PackedConcat(items[..i], items[j..]);
    assert items == items[..i] + items[i..] && items[i..] == items[i..j] + items[j..];
    PackedConcat([], items[i..j]);
  }

  /** The node holds no listpack, or one that keeps its size with `v` in the place
      of element `off`. */
  predicate FitsAt(n: Node, off: nat, v: Bytes, fill: int)
    requires off < CountOf(n)
  {
    n.Packed? ==> PackedBytes(n.items) + SpanOf(v) - SpanOf(n.items[off]) <= SizeCap(fill) + 15
  }

  /** One entry overwritten in place. */
  lemma OverwriteBounded(items: seq<Bytes>, off: nat, v: Bytes, fill: int)
    requires off < |items|
    ensures PackedBytes(items[off := v]) + SpanOf(items[off]) == PackedBytes(items) + SpanOf(v)
    ensures SizeBounded(Packed(items[off := v]), fill) <==> FitsAt(Packed(items), off, v, fill)
  {
    hide SpanOf, PackedBytes, SizeCap;
    var pre, post := items[..off], items[off + 1..];
    assert items == pre + ([items[off]] + post) && items[off := v] == pre + ([v] + post);
    PackedConcat(pre, [items[off]] + post);
    PackedConcat([items[off]], post);
    PackedConcat(pre, [v] + post);
    PackedConcat([v], post);
    PackedOne(items[off]);
    PackedOne(v);
  }

  /** Entry `k` of a node. */
  function EntryOf(n: Node, k: nat): (e: Entry)
    requires k < CountOf(n)
    ensures Shows(e, ItemsOf(n)[k])
  {
    match n case Packed(items) => Stored(items[k]) case Plain(b) => Str(b)
  }

  /** The node for one new value. */
  function NewNode(v: Bytes, fill: int): Node {
    if IsLarge(|v|, fill) then Plain(v) else Packed([v])
  }
}
