/** The quicklist: one sequence of byte strings kept in bounded nodes. */
module Quicklist {
  import opened ByteStrings
  import opened ListpackCodec
  import opened ListpackText
  import opened QuicklistNodes
  import Listpack
  import ListpackLayout

  /** A node between the two halves of another. */
  ghost function Split3(items: seq<Bytes>, off: nat, mid: Node): seq<Node>
    requires off <= |items|
  {
    [Packed(items[..off]), mid, Packed(items[off..])]
  }

  function InsertedAt(items: seq<Bytes>, at: nat, v: Bytes): (r: seq<Bytes>)
    requires at <= |items|
    ensures |r| == |items| + 1
  {
    items[..at] + [v] + items[at..]
  }

  // ---------------------------------------------------------- flattened nodes

  /** All the elements, first to last. */
  function Flatten(nodes: seq<Node>): seq<Bytes> {
    if |nodes| == 0 then [] else Flatten(nodes[..|nodes| - 1]) + ItemsOf(nodes[|nodes| - 1])
  }

  lemma {:induction false} FlattenConcat(a: seq<Node>, b: seq<Node>)
    ensures Flatten(a + b) == Flatten(a) + Flatten(b)
  {
    if |b| == 0 {
      assert a + b == a;
    } else {
      FlattenConcat(a, b[..|b| - 1]);
      assert (a + b)[..|a + b| - 1] == a + b[..|b| - 1];
    }
  }

  lemma FlattenOne(n: Node)
    ensures Flatten([n]) == ItemsOf(n) && Flatten([]) == []
  {
    assert [n][..0] == [];
  }

  /** Elements before node `k`. */
  function Start(nodes: seq<Node>, k: nat): nat
    requires k <= |nodes|
  {
    |Flatten(nodes[..k])|
  }

  lemma StartStep(nodes: seq<Node>, k: nat)
    requires k < |nodes|
    ensures Start(nodes, k + 1) == Start(nodes, k) + CountOf(nodes[k]) <= |Flatten(nodes)|
  {
    assert nodes[..k + 1][..k] == nodes[..k];
    FlattenConcat(nodes[..k + 1], nodes[k + 1..]);
    assert nodes == nodes[..k + 1] + nodes[k + 1..];
  }

  lemma {:induction false} StartsGrow(nodes: seq<Node>, j: nat, k: nat)
    requires j <= k <= |nodes|
    ensures Start(nodes, j) <= Start(nodes, k)
    decreases k
  {
    if j < k {
      StartsGrow(nodes, j, k - 1);
      StartStep(nodes, k - 1);
    }
  }

  /** An element stands in one node only. */
  lemma SameNode(nodes: seq<Node>, j: nat, k: nat, i: nat)
    requires j < |nodes| && k < |nodes|
    requires Start(nodes, j) <= i < Start(nodes, j) + CountOf(nodes[j])
    requires Start(nodes, k) <= i < Start(nodes, k) + CountOf(nodes[k])
    ensures j == k
  {
    hide Start;
    StartStep(nodes, j);
    StartStep(nodes, k);
    if j < k {
      StartsGrow(nodes, j + 1, k);
    } else if k < j {
      StartsGrow(nodes, k + 1, j);
    }
  }

  lemma StartEnds(nodes: seq<Node>)
    ensures Start(nodes, 0) == 0 && Start(nodes, |nodes|) == |Flatten(nodes)|
  {
    assert nodes[..|nodes|] == nodes;
  }

  /** What node `k` contributes. */
  lemma NodeElements(nodes: seq<Node>, k: nat)
    requires k < |nodes|
    ensures Start(nodes, k) + CountOf(nodes[k]) <= |Flatten(nodes)|
    ensures Flatten(nodes)[Start(nodes, k)..Start(nodes, k) + CountOf(nodes[k])] == ItemsOf(nodes[k])
  {
    hide Flatten;
    var pre, post := nodes[..k], nodes[k + 1..];
    assert nodes == pre + ([nodes[k]] + post);
    FlattenConcat(pre, [nodes[k]] + post);
    FlattenConcat([nodes[k]], post);
    FlattenOne(nodes[k]);
    Thirds(Flatten(nodes), Flatten(pre), ItemsOf(nodes[k]), Flatten(post));
  }

  lemma NodeElement(nodes: seq<Node>, k: nat, off: nat)
    requires k < |nodes| && off < CountOf(nodes[k])
    ensures Start(nodes, k) + off < |Flatten(nodes)|
    ensures Flatten(nodes)[Start(nodes, k) + off] == ItemsOf(nodes[k])[off]
  {
    hide Flatten, Start;
    NodeElements(nodes, k);
    var s := Start(nodes, k);
    assert Flatten(nodes)[s..s + CountOf(nodes[k])][off] == Flatten(nodes)[s + off];
  }

  lemma Thirds(all: seq<Bytes>, a: seq<Bytes>, b: seq<Bytes>, c: seq<Bytes>)
    requires all == a + (b + c)
    ensures |a| + |b| <= |all| && all[..|a|] == a && all[|a|..|a| + |b|] == b && all[|a| + |b|..] == c
  {
  }

  /** Replacing nodes `k .. k + r`. */
  lemma FlattenSplice(nodes: seq<Node>, k: nat, r: nat, put: seq<Node>)
    requires k + r <= |nodes|
    ensures Start(nodes, k) <= Start(nodes, k + r) <= |Flatten(nodes)|
    ensures Flatten(nodes[..k] + put + nodes[k + r..]) == Flatten(nodes)[..Start(nodes, k)] + Flatten(put) + Flatten(nodes)[Start(nodes, k + r)..]
    ensures Start(nodes, k + r) == Start(nodes, k) + |Flatten(nodes[k..k + r])|
  {
    hide Flatten;
    var pre, mid, post := nodes[..k], nodes[k..k + r], nodes[k + r..];
    assert nodes[..k + r] == pre + mid && nodes == pre + (mid + post);
    FlattenConcat(pre, mid);
    FlattenConcat(pre, mid + post);
    FlattenConcat(mid, post);
    FlattenConcat(pre, put);
    FlattenConcat(pre + put, post);
    Thirds(Flatten(nodes), Flatten(pre), Flatten(mid), Flatten(post));
  }

  /** No node is empty. */
  ghost predicate NoEmpty(nodes: seq<Node>) {
    forall k :: 0 <= k < |nodes| ==> CountOf(nodes[k]) > 0
  }

  ghost predicate AllCounts(nodes: seq<Node>, fill: int) {
    forall k :: 0 <= k < |nodes| ==> CountBounded(nodes[k], fill)
  }

  ghost predicate AllSizes(nodes: seq<Node>, fill: int) {
    forall k :: 0 <= k < |nodes| ==> SizeBounded(nodes[k], fill)
  }

  /** Both bounds hold after if they held before. */
  ghost predicate KeepsBounds(before: seq<Node>, after: seq<Node>, fill: int) {
    && (AllCounts(before, fill) ==> AllCounts(after, fill))
    && (AllSizes(before, fill) ==> AllSizes(after, fill))
  }

  /** One node replaced by bounded ones. */
  lemma BoundsSplice(nodes: seq<Node>, k: nat, r: nat, put: seq<Node>, fill: int)
    requires k + r <= |nodes|
    requires forall i :: 0 <= i < |put| ==> CountOf(put[i]) > 0
    requires AllCounts(nodes, fill) ==> AllCounts(put, fill)
    requires AllSizes(nodes, fill) ==> AllSizes(put, fill)
    ensures NoEmpty(nodes) ==> NoEmpty(nodes[..k] + put + nodes[k + r..])
    ensures KeepsBounds(nodes, nodes[..k] + put + nodes[k + r..], fill)
  {
    hide CountBounded, SizeBounded, CountOf;
  }

  /** The node of element `i` may take another, or the one before it if `i` is the
      first of its node. */
  ghost predicate Welcome(nodes: seq<Node>, i: nat, size: nat, fill: int) {
    exists k :: 0 <= k < |nodes| && Start(nodes, k) <= i < Start(nodes, k) + CountOf(nodes[k]) && WelcomeAt(nodes, k, i, size, fill)
  }

  ghost predicate WelcomeAt(nodes: seq<Node>, k: nat, i: nat, size: nat, fill: int)
    requires k < |nodes|
  {
    AllowsInsert(nodes[k], fill, size) || (Start(nodes, k) == i && k > 0 && AllowsInsert(nodes[k - 1], fill, size))
  }

  lemma WelcomeHere(nodes: seq<Node>, k: nat, i: nat, size: nat, fill: int)
    requires k < |nodes| && Start(nodes, k) <= i < Start(nodes, k) + CountOf(nodes[k])
    ensures Welcome(nodes, i, size, fill) <==> WelcomeAt(nodes, k, i, size, fill)
  {
    hide Start, AllowsInsert;
    if Welcome(nodes, i, size, fill) {
      var j :| 0 <= j < |nodes| && Start(nodes, j) <= i < Start(nodes, j) + CountOf(nodes[j]) && WelcomeAt(nodes, j, i, size, fill);
      SameNode(nodes, j, k, i);
    }
  }

  /** Nodes `i` and `i + 1` are there and fit into one. */
  predicate Mergeable(nodes: seq<Node>, i: nat, fill: int) {
    i + 1 < |nodes| && AllowsMerge(nodes[i], nodes[i + 1], fill)
  }

  ghost function MergedAt(nodes: seq<Node>, i: nat, fill: int): seq<Node> {
    if Mergeable(nodes, i, fill) then nodes[..i] + [Packed(ItemsOf(nodes[i]) + ItemsOf(nodes[i + 1]))] + nodes[i + 2..]
    else nodes
  }

  /** Merges around a node only ever lose nodes. */
  lemma MergesShrink(nodes: seq<Node>, k: nat, fill: int)
    ensures |MergedAt(nodes, k, fill)| <= |nodes|
    ensures k > 0 ==> |MergedAt(MergedAt(nodes, k - 1, fill), k - 1, fill)| <= |nodes|
  {
    hide MergedAt;
    MergeShrinks(nodes, k, fill);
    if k > 0 {
      MergeShrinks(nodes, k - 1, fill);
      MergeShrinks(MergedAt(nodes, k - 1, fill), k - 1, fill);
    }
  }

  lemma MergeShrinks(nodes: seq<Node>, i: nat, fill: int)
    ensures |MergedAt(nodes, i, fill)| <= |nodes|
  {
  }

  class Quicklist {
    var nodes: seq<Node>
    var count: nat
    var fill: int

    ghost predicate Valid()
      reads this
    {
      NoEmpty(nodes) && count == |Flatten(nodes)|
    }

    ghost function Contents(): seq<Bytes>
      reads this
    {
      Flatten(nodes)
    }

    constructor (fill: int)
      ensures Valid() && Contents() == [] && this.fill == fill && AllCounts(nodes, fill) && AllSizes(nodes, fill)
    {
      nodes, count, this.fill := [], 0, fill;
    }

    /** Put nodes in the place of `r` nodes from `k` on. */
    method SpliceNodes(k: nat, r: nat, put: seq<Node>)
      requires k + r <= |nodes| && NoEmpty(nodes)
      requires forall i :: 0 <= i < |put| ==> CountOf(put[i]) > 0
      requires AllCounts(nodes, fill) ==> AllCounts(put, fill)
      requires AllSizes(nodes, fill) ==> AllSizes(put, fill)
      modifies `nodes
      ensures nodes == old(nodes)[..k] + put + old(nodes)[k + r..]
      ensures NoEmpty(nodes) && KeepsBounds(old(nodes), nodes, fill)
      ensures Start(old(nodes), k + r) == Start(old(nodes), k) + |Flatten(old(nodes)[k..k + r])| <= |old(Contents())|
      ensures Contents() == old(Contents())[..Start(old(nodes), k)] + Flatten(put) + old(Contents())[Start(old(nodes), k + r)..]
    {
      hide Flatten, CountBounded, SizeBounded, NoEmpty, AllCounts, AllSizes;
      FlattenSplice(nodes, k, r, put);
      BoundsSplice(nodes, k, r, put, fill);
      nodes := nodes[..k] + put + nodes[k + r..];
    }

    // -------------------------------------------------------------- push, pop

    /** A single node in place of node `k`, or a new one before it. */
    method PutNode(k: nat, r: nat, n: Node)
      requires k + r <= |nodes| && r <= 1 && NoEmpty(nodes) && CountOf(n) > 0
      requires AllCounts(nodes, fill) ==> CountBounded(n, fill)
      requires AllSizes(nodes, fill) ==> SizeBounded(n, fill)
      modifies `nodes
      ensures nodes == old(nodes)[..k] + [n] + old(nodes)[k + r..]
      ensures NoEmpty(nodes) && KeepsBounds(old(nodes), nodes, fill)
      ensures var s := Start(old(nodes), k);
        s + (if r == 1 then CountOf(old(nodes)[k]) else 0) <= |old(Contents())|
      ensures var s := Start(old(nodes), k);
        Contents() == old(Contents())[..s] + ItemsOf(n) + old(Contents())[s + (if r == 1 then CountOf(old(nodes)[k]) else 0)..]
    {
      hide Flatten, CountBounded, SizeBounded;
      FlattenOne(n);
      if r == 1 {
        StartStep(nodes, k);
      }
      SpliceNodes(k, r, [n]);
    }

    /** Insert into a packed node; its listpack takes it if it is allowed to. */
    method TryInsertInto(k: nat, at: nat, v: Bytes) returns (ok: bool)
      requires k < |nodes| && NoEmpty(nodes) && at <= CountOf(nodes[k])
      modifies `nodes
      ensures ok <==> AllowsInsert(old(nodes)[k], fill, |v|)
      ensures nodes == if ok then old(nodes)[k := Packed(InsertedAt(ItemsOf(old(nodes)[k]), at, v))] else old(nodes)
      ensures NoEmpty(nodes) && KeepsBounds(old(nodes), nodes, fill)
      ensures Start(old(nodes), k) + at <= |old(Contents())|
      ensures ok ==> var p := Start(old(nodes), k) + at; Contents() == old(Contents())[..p] + [v] + old(Contents())[p..]
    {
      hide Flatten, CountBounded, SizeBounded, AllowsInsert, PackedBytes, SpanOf;
      NodeElements(nodes, k);
      if !AllowsInsert(nodes[k], fill, |v|) {
        return false;
      }
      AllowsMeans(nodes[k], fill, |v|);
      InsertBounded(nodes[k], fill, v, at);
      SizedWithin(nodes[k], fill, v, at);
      var items := nodes[k].items;
      if PackedBytes(items) + SpanOf(v) > ListpackLayout.LP_MAX_SAFETY_SIZE {
        return false;
      }
      ghost var before := Flatten(nodes);
      ghost var s := Start(nodes, k);
      PutNode(k, 1, Packed(InsertedAt(items, at, v)));
      assert nodes == old(nodes)[k := Packed(InsertedAt(items, at, v))];
      Around(before, s, items, at, [v]);
      return true;
    }

    method PushHead(v: Bytes) returns (created: bool)
      requires Valid()
      modifies `nodes, `count
      ensures Valid() && Contents() == [v] + old(Contents())
      ensures created <==> |old(nodes)| == 0 || !AllowsInsert(old(nodes)[0], fill, |v|)
      ensures nodes == if created then [NewNode(v, fill)] + old(nodes)
                       else [Packed([v] + ItemsOf(old(nodes)[0]))] + old(nodes)[1..]
      ensures KeepsBounds(old(nodes), nodes, fill)
    {
      hide Flatten, CountBounded, SizeBounded, AllowsInsert, IsLarge, NodeLimit;
      StartEnds(nodes);
      count := count + 1;
      if |nodes| > 0 {
        var ok := TryInsertInto(0, 0, v);
        assert InsertedAt(ItemsOf(old(nodes)[0]), 0, v) == [v] + ItemsOf(old(nodes)[0]);
        if ok {
          return false;
        }
      }
      NewNodeBounds(v, fill);
      PutNode(0, 0, NewNode(v, fill));
      return true;
    }

    method PushTail(v: Bytes) returns (created: bool)
      requires Valid()
      modifies `nodes, `count
      ensures Valid() && Contents() == old(Contents()) + [v]
      ensures created <==> |old(nodes)| == 0 || !AllowsInsert(old(nodes)[|old(nodes)| - 1], fill, |v|)
      ensures nodes == if created then old(nodes) + [NewNode(v, fill)]
                       else old(nodes)[..|old(nodes)| - 1] + [Packed(ItemsOf(old(nodes)[|old(nodes)| - 1]) + [v])]
      ensures KeepsBounds(old(nodes), nodes, fill)
    {
      hide Flatten, CountBounded, SizeBounded, AllowsInsert, IsLarge, NodeLimit;
      StartEnds(nodes);
      count := count + 1;
      if |nodes| > 0 {
        StartStep(nodes, |nodes| - 1);
        var ok := TryInsertInto(|nodes| - 1, CountOf(nodes[|nodes| - 1]), v);
        ghost var last := ItemsOf(old(nodes)[|old(nodes)| - 1]);
        assert InsertedAt(last, |last|, v) == last + [v];
        if ok {
          return false;
        }
      }
      NewNodeBounds(v, fill);
      PutNode(|nodes|, 0, NewNode(v, fill));
      return true;
    }

    /** The first element. */
    method Head() returns (r: Option<Entry>)
      requires Valid()
      ensures if |Contents()| == 0 then r == None else r.Some? && Shows(r.value, Contents()[0])
    {
      hide Shows, Flatten;
      StartEnds(nodes);
      if |nodes| == 0 {
        return None;
      }
      NodeElements(nodes, 0);
      return Some(EntryOf(nodes[0], 0));
    }

    /** The last element. */
    method Tail() returns (r: Option<Entry>)
      requires Valid()
      ensures if |Contents()| == 0 then r == None else r.Some? && Shows(r.value, Contents()[|Contents()| - 1])
    {
      hide Shows, Flatten;
      StartEnds(nodes);
      if |nodes| == 0 {
        return None;
      }
      var n := nodes[|nodes| - 1];
      NodeElements(nodes, |nodes| - 1);
      StartStep(nodes, |nodes| - 1);
      return Some(EntryOf(n, CountOf(n) - 1));
    }

    /** Drop node `k`. */
    method DropNode(k: nat)
      requires k < |nodes| && NoEmpty(nodes)
      modifies `nodes
      ensures NoEmpty(nodes) && KeepsBounds(old(nodes), nodes, fill)
      ensures Start(old(nodes), k) + CountOf(old(nodes)[k]) <= |old(Contents())|
      ensures var s := Start(old(nodes), k); Contents() == old(Contents())[..s] + old(Contents())[s + CountOf(old(nodes)[k])..]
    {
      hide Flatten, CountBounded, SizeBounded;
      StartStep(nodes, k);
      FlattenOne(nodes[k]);
      SpliceNodes(k, 1, []);
    }

    /** Cut `c` elements from `off` on out of node `k`; an emptied node goes. */
    method CutFrom(k: nat, off: nat, c: nat)
      requires k < |nodes| && NoEmpty(nodes) && 0 < c && off + c <= CountOf(nodes[k])
      modifies `nodes
      ensures NoEmpty(nodes) && KeepsBounds(old(nodes), nodes, fill)
      ensures Start(old(nodes), k) + off + c <= |old(Contents())|
      ensures var p := Start(old(nodes), k) + off; Contents() == old(Contents())[..p] + old(Contents())[p + c..]
    {
      hide Flatten, CountBounded, SizeBounded, KeepsBounds, NoEmpty, Start;
      NodeElements(nodes, k);
      ghost var before := Flatten(nodes);
      ghost var s := Start(nodes, k);
      match nodes[k] {
        case Plain(_) =>
          DropNode(k);
        case Packed(items) =>
          var left := items[..off] + items[off + c..];
          Around2(before, s, items, off, c);
          if |left| == 0 {
            EmptyMiddle(before[..s], left, before[s + |items|..]);
            DropNode(k);
          } else {
            PartBoundedIn(nodes, k, off, off + c, fill);
            PutNode(k, 1, Packed(left));
          }
      }
    }

    method DropHead() returns (ok: bool)
      requires Valid()
      modifies `nodes, `count
      ensures Valid() && (ok <==> |old(Contents())| > 0) && KeepsBounds(old(nodes), nodes, fill)
      ensures Contents() == if ok then old(Contents())[1..] else old(Contents())
    {
      hide Flatten, CountBounded, SizeBounded;
      StartEnds(nodes);
      if |nodes| == 0 {
        return false;
      }
      StartStep(nodes, 0);
      CutFrom(0, 0, 1);
      count := count - 1;
      return true;
    }

    method DropTail() returns (ok: bool)
      requires Valid()
      modifies `nodes, `count
      ensures Valid() && (ok <==> |old(Contents())| > 0) && KeepsBounds(old(nodes), nodes, fill)
      ensures Contents() == if ok then old(Contents())[..|old(Contents())| - 1] else old(Contents())
    {
      hide Flatten, CountBounded, SizeBounded;
      StartEnds(nodes);
      if |nodes| == 0 {
        return false;
      }
      StartStep(nodes, |nodes| - 1);
      var last := CountOf(nodes[|nodes| - 1]) - 1;
      CutFrom(|nodes| - 1, last, 1);
      count := count - 1;
      return true;
    }

    method PopHead() returns (r: Option<Bytes>)
      requires Valid()
      modifies `nodes, `count
      ensures Valid() && KeepsBounds(old(nodes), nodes, fill)
      ensures var c := old(Contents()); if |c| == 0 then r == None && Contents() == c else r == Some(c[0]) && Contents() == c[1..]
    {
      hide Shows, Flatten, KeepsBounds, TextOf;
      var e := Head();
      if e == None {
        SameBounds(nodes, fill);
        return None;
      }
      ShowsText(e.value, Contents()[0]);
      var _ := DropHead();
      return Some(TextOf(e.value));
    }

    method PopTail() returns (r: Option<Bytes>)
      requires Valid()
      modifies `nodes, `count
      ensures Valid() && KeepsBounds(old(nodes), nodes, fill)
      ensures var c := old(Contents());
        if |c| == 0 then r == None && Contents() == c else r == Some(c[|c| - 1]) && Contents() == c[..|c| - 1]
    {
      hide Shows, Flatten, KeepsBounds, TextOf;
      var e := Tail();
      if e == None {
        SameBounds(nodes, fill);
        return None;
      }
      ShowsText(e.value, Contents()[|Contents()| - 1]);
      var _ := DropTail();
      return Some(TextOf(e.value));
    }

    // --------------------------------------------------------------- indexing

    /** A possibly negative index as a position. */
    function Normalize(index: int): (r: Option<nat>)
      reads this
      ensures r.Some? <==> 0 <= index < count || 0 < -index <= count
      ensures r.Some? ==> r.value == if index >= 0 then index else count + index
    {
      var i := if index < 0 then index + count else index;
      if i < 0 || i >= count then None else Some(i)
    }

    /** The node of element `i` and its place there, from whichever end is closer. */
    method Locate(i: nat) returns (r: Option<(nat, nat)>)
      requires Valid()
      ensures r.Some? <==> i < count
      ensures r.Some? ==> var (k, off) := r.value;
        k < |nodes| && off < CountOf(nodes[k]) && Start(nodes, k) + off == i
    {
      hide Flatten, Start;
      if i >= count {
        return None;
      }
      StartEnds(nodes);
      if i <= count / 2 {
        var acc: nat := 0;
        for k := 0 to |nodes|
          invariant acc == Start(nodes, k) <= i
        {
          var c := CountOf(nodes[k]);
          StartStep(nodes, k);
          if i < acc + c {
            return Some((k, i - acc));
          }
          acc := acc + c;
        }
      } else {
        var acc: nat := count;
        for k := |nodes| downto 0
          invariant acc == Start(nodes, k) > i
        {
          StartStep(nodes, k);
          acc := acc - CountOf(nodes[k]);
          if i >= acc {
            return Some((k, i - acc));
          }
        }
      }
      assert false;
    }

    method Index(index: int) returns (r: Option<Entry>)
      requires Valid()
      ensures match Normalize(index) case None => r == None case Some(i) => r.Some? && Shows(r.value, Contents()[i])
    {
      hide Flatten, Shows;
      var i := Normalize(index);
      if i == None {
        return None;
      }
      var found := Locate(i.value);
      var (k, off) := found.value;
      NodeElements(nodes, k);
      return Some(EntryOf(nodes[k], off));
    }

    // ----------------------------------------------------------------- merging

    /** Merge node `i` with the next when the result still fits.  Whether the
        listpack took the other's entries is not asked. */
    method TryMerge(i: nat) returns (merged: bool)
      requires NoEmpty(nodes)
      modifies `nodes
      ensures NoEmpty(nodes) && Contents() == old(Contents()) && KeepsBounds(old(nodes), nodes, fill)
      ensures merged <==> Mergeable(old(nodes), i, fill)
      ensures nodes == MergedAt(old(nodes), i, fill)
    {
      hide Flatten, CountBounded, SizeBounded, AllowsMerge, PackedBytes, KeepsBounds;
      SameBounds(nodes, fill);
      if i + 1 >= |nodes| || !AllowsMerge(nodes[i], nodes[i + 1], fill) {
        return false;
      }
      var a, b := nodes[i], nodes[i + 1];
      MergeMeans(a, b, fill);
      MergeBounded(a, b, fill);
      var fits := PackedBytes(a.items) + PackedBytes(b.items) - 7 <= ListpackLayout.LP_MAX_SAFETY_SIZE;
      var dst := if fits then Packed(a.items + b.items) else a;
      ghost var before, s := Flatten(nodes), Start(nodes, i);
      TwoNodes(nodes, i);
      FlattenOne(dst);
      SpliceNodes(i, 2, [dst]);
      return true;
    }

    /** Fold node `k` into its neighbours. */
    method MergeAround(k: nat)
      requires NoEmpty(nodes)
      modifies `nodes
      ensures NoEmpty(nodes) && Contents() == old(Contents()) && KeepsBounds(old(nodes), nodes, fill)
      ensures nodes == if k == 0 then MergedAt(old(nodes), 0, fill)
                       else if Mergeable(old(nodes), k - 1, fill) then MergedAt(MergedAt(old(nodes), k - 1, fill), k - 1, fill)
                       else MergedAt(old(nodes), k, fill)
    {
      hide Flatten, CountBounded, SizeBounded, Mergeable, AllowsMerge;
      var at := k;
      if at > 0 {
        var merged := TryMerge(at - 1);
        if merged {
          at := at - 1;
        }
      }
      var _ := TryMerge(at);
    }

    // ----------------------------------------------------------------- insert

    /** Insert so that `v` ends up at position `i`; past the end it appends. */
    method InsertAt(i: nat, v: Bytes)
      requires Valid()
      modifies `nodes, `count
      ensures Valid() && KeepsBounds(old(nodes), nodes, fill)
      ensures |nodes| <= |old(nodes)| + if 0 < i < old(count) && Welcome(old(nodes), i, |v|, fill) then 0 else 2
      ensures var c := old(Contents()); var p := if i < |c| then i else |c|; Contents() == c[..p] + [v] + c[p..]
    {
      hide Flatten, CountBounded, SizeBounded, AllowsInsert, KeepsBounds, Welcome, MergedAt, Mergeable;
      if i == 0 {
        var _ := PushHead(v);
        return;
      }
      if i >= count {
        var _ := PushTail(v);
        return;
      }
      var found := Locate(i);
      var (k, off) := found.value;
      WelcomeHere(nodes, k, i, |v|, fill);
      var ok := TryInsertInto(k, off, v);
      if ok {
        count := count + 1;
        return;
      }
      if off == 0 && k > 0 {
        StartStep(nodes, k - 1);
        ok := TryInsertInto(k - 1, CountOf(nodes[k - 1]), v);
        if ok {
          count := count + 1;
          return;
        }
      }
      MakeRoom(k, off, v);
      count := count + 1;
    }

    /** A node of its own for `v`, before node `k` or between its halves, and the
        pieces folded together again where they fit. */
    method MakeRoom(k: nat, off: nat, v: Bytes)
      requires k < |nodes| && NoEmpty(nodes) && off < CountOf(nodes[k]) && (nodes[k].Plain? ==> off == 0)
      modifies `nodes
      ensures NoEmpty(nodes) && KeepsBounds(old(nodes), nodes, fill) && |nodes| <= |old(nodes)| + 2
      ensures Start(old(nodes), k) + off <= |old(Contents())|
      ensures var p := Start(old(nodes), k) + off; Contents() == old(Contents())[..p] + [v] + old(Contents())[p..]
    {
      hide Flatten, CountBounded, SizeBounded, KeepsBounds, MergedAt, Mergeable, Start, NoEmpty;
      ghost var before := nodes;
      if off == 0 || nodes[k].Plain? {
        NewNodeBounds(v, fill);
        PutNode(k, 0, NewNode(v, fill));
        ghost var middle := nodes;
        MergeAround(k);
        MergesShrink(middle, k, fill);
        BoundsTrans(before, middle, nodes, fill);
      } else {
        SplitAt(k, off, v);
        ghost var middle := nodes;
        MergeAround(k + 1);
        MergesShrink(middle, k + 1, fill);
        BoundsTrans(before, middle, nodes, fill);
      }
    }

    /** Split packed node `k` at `off` and put `v` between the halves, as a node
        of its own; the back half is rebuilt entry by entry. */
    method SplitAt(k: nat, off: nat, v: Bytes)
      requires k < |nodes| && NoEmpty(nodes) && nodes[k].Packed? && 0 < off < CountOf(nodes[k])
      modifies `nodes
      ensures NoEmpty(nodes) && KeepsBounds(old(nodes), nodes, fill)
      ensures nodes == old(nodes)[..k] + Split3(ItemsOf(old(nodes)[k]), off, NewNode(v, fill)) + old(nodes)[k + 1..]
      ensures Start(old(nodes), k) + off <= |old(Contents())|
      ensures var p := Start(old(nodes), k) + off; Contents() == old(Contents())[..p] + [v] + old(Contents())[p..]
    {
      hide Flatten, CountBounded, SizeBounded, IsLarge;
      var items := nodes[k].items;
      NodeElements(nodes, k);
      StartStep(nodes, k);
      ghost var before, s := Flatten(nodes), Start(nodes, k);
      var front, mid, back := Packed(items[..off]), NewNode(v, fill), Packed(items[off..]);
      NewNodeBounds(v, fill);
      HalvesBounded(nodes, k, off, fill);
      ThreeNodes(front, mid, back);
      FlattenOne(nodes[k]);
      Around(before, s, items, off, [v]);
      assert nodes[k..k + 1] == [nodes[k]];
      SpliceNodes(k, 1, [front, mid, back]);
    }

    method InsertBefore(index: int, v: Bytes) returns (ok: bool)
      requires Valid()
      modifies `nodes, `count
      ensures Valid() && KeepsBounds(old(nodes), nodes, fill)
      ensures ok <==> old(Normalize(index)).Some?
      ensures var c := old(Contents());
        Contents() == if ok then (var i := old(Normalize(index)).value; c[..i] + [v] + c[i..]) else c
    {
      hide Flatten, KeepsBounds;
      var i := Normalize(index);
      if i == None {
        SameBounds(nodes, fill);
        return false;
      }
      InsertAt(i.value, v);
      return true;
    }

    method InsertAfter(index: int, v: Bytes) returns (ok: bool)
      requires Valid()
      modifies `nodes, `count
      ensures Valid() && KeepsBounds(old(nodes), nodes, fill)
      ensures ok <==> old(Normalize(index)).Some?
      ensures var c := old(Contents());
        Contents() == if ok then (var i := old(Normalize(index)).value; c[..i + 1] + [v] + c[i + 1..]) else c
    {
      hide Flatten, KeepsBounds;
      var i := Normalize(index);
      if i == None {
        SameBounds(nodes, fill);
        return false;
      }
      InsertAt(i.value + 1, v);
      return true;
    }

    // ----------------------------------------------------------------- delete

    /** Node by node, remove `want` elements from position `i` on. */
    method DeleteFrom(i: nat, want: nat)
      requires Valid() && i + want <= count
      modifies `nodes, `count
      ensures Valid() && KeepsBounds(old(nodes), nodes, fill)
      ensures Contents() == old(Contents())[..i] + old(Contents())[i + want..]
    {
      hide Flatten, KeepsBounds, NoEmpty, Start;
      SameBounds(nodes, fill);
      var left: nat := want;
      ghost var c := Contents();
      Nothing(c, i);
      while left > 0
        invariant Valid() && KeepsBounds(old(nodes), nodes, fill)
        invariant left <= want && count == |c| - (want - left)
        invariant Contents() == c[..i] + c[i + (want - left)..]
      {
        var found := Locate(i);
        var (k, off) := found.value;
        var here: nat := CountOf(nodes[k]) - off;
        var got: nat := if here < left then here else left;
        ghost var before := nodes;
        CutFrom(k, off, got);
        BoundsTrans(old(nodes), before, nodes, fill);
        CutMore(c, i, want - left, got);
        count := count - got;
        left := left - got;
      }
    }

    /** Remove up to `n` elements from `start` on. */
    method DeleteRange(start: int, n: nat) returns (removed: nat)
      requires Valid()
      modifies `nodes, `count
      ensures Valid() && KeepsBounds(old(nodes), nodes, fill)
      ensures removed == match old(Normalize(start)) case None => 0 case Some(i) => if n < old(count) - i then n else old(count) - i
      ensures var c := old(Contents());
        Contents() == match old(Normalize(start)) case None => c case Some(i) => c[..i] + c[i + removed..]
    {
      hide Flatten, KeepsBounds, Start;
      SameBounds(nodes, fill);
      var at := Normalize(start);
      if at == None {
        return 0;
      }
      var i: nat := at.value;
      removed := if n < count - i then n else count - i;
      if removed == 0 {
        Nothing(Contents(), i);
        return;
      }
      DeleteFrom(i, removed);
      if |nodes| > 0 {
        NonEmptyNodes(nodes);
        var found := Locate(if i < count - 1 then i else count - 1);
        ghost var before := nodes;
        MergeAround(found.value.0);
        BoundsTrans(old(nodes), before, nodes, fill);
      }
    }

    /** LSET.  Crossing between plain and packed deletes and inserts; within a node
        the entry is overwritten unchecked, and the bounds are kept exactly if the
        node had room for it. */
    method Set(index: int, v: Bytes) returns (ok: bool)
      requires Valid()
      modifies `nodes, `count
      ensures Valid() && (old(AllCounts(nodes, fill)) ==> AllCounts(nodes, fill))
      ensures ok <==> old(Normalize(index)).Some? && !(!IsLarge(|v|, fill) && Overfills(old(nodes), old(Normalize(index)).value, v))
      ensures ok ==> Contents() == old(Contents())[old(Normalize(index)).value := v]
      ensures !ok ==> nodes == old(nodes)
      ensures old(AllSizes(nodes, fill)) ==>
        (AllSizes(nodes, fill) <==>
          !ok || IsLarge(|v|, fill) || HasRoom(old(nodes), old(Normalize(index)).value, v, fill))
    {
      hide Flatten, CountBounded, SizeBounded, IsLarge, PackedBytes, SpanOf, Start, AllSizes, AllCounts, NoEmpty;
      hide Overfills, OverfillsAt, HasRoom, FitsAt;
      var at := Normalize(index);
      if at == None {
        return false;
      }
      var i := at.value;
      ghost var c := Contents();
      var found := Locate(i);
      var (k, off) := found.value;
      var large := IsLarge(|v|, fill);
      NodeElements(nodes, k);
      OverfillsHere(nodes, k, off, v);
      RoomHere(nodes, k, off, v, fill);
      if nodes[k].Plain? && large {
        OverwriteIn(c, Start(nodes, k), ItemsOf(nodes[k]), off, v);
        PutPlain(k, v);
        return true;
      } else if nodes[k].Packed? && !large {
        var items := nodes[k].items;
        if OverfillsAt(nodes[k], off, v) {
          return false;
        }
        OverwriteIn(c, Start(nodes, k), items, off, v);
        OverwriteBounded(items, off, v, fill);
        Replaced(k, items[off := v]);
        return true;
      } else {
        Rebuild(i, v);
        return true;
      }
    }

    /** Delete and insert: the way between plain and packed nodes. */
    method Rebuild(i: nat, v: Bytes)
      requires Valid() && i < count
      modifies `nodes, `count
      ensures Valid() && KeepsBounds(old(nodes), nodes, fill)
      ensures i < |old(Contents())| && Contents() == old(Contents())[i := v]
    {
      hide Flatten, AllCounts, AllSizes, NoEmpty, KeepsBounds, Welcome, AllowsInsert, Normalize;
      ghost var c := Contents();
      var _ := DeleteRange(i, 1);
      ghost var middle := nodes;
      InsertAt(i, v);
      BoundsTrans(old(nodes), middle, nodes, fill);
      CutAndPut(c, i, v);
    }

    method PutPlain(k: nat, v: Bytes)
      requires k < |nodes| && NoEmpty(nodes) && nodes[k].Plain?
      modifies `nodes
      ensures NoEmpty(nodes) && KeepsBounds(old(nodes), nodes, fill)
      ensures Start(old(nodes), k) + 1 <= |old(Contents())|
      ensures var s := Start(old(nodes), k); Contents() == old(Contents())[..s] + [v] + old(Contents())[s + 1..]
    {
      hide Flatten;
      PutNode(k, 1, Plain(v));
    }

    /** A packed node with one entry overwritten: its count stays. */
    method Replaced(k: nat, items: seq<Bytes>)
      requires k < |nodes| && NoEmpty(nodes) && nodes[k].Packed? && |items| == CountOf(nodes[k])
      modifies `nodes
      ensures NoEmpty(nodes) && (AllCounts(old(nodes), fill) ==> AllCounts(nodes, fill))
      ensures AllSizes(old(nodes), fill) ==> (AllSizes(nodes, fill) <==> SizeBounded(Packed(items), fill))
      ensures Start(old(nodes), k) + |items| <= |old(Contents())|
      ensures var s := Start(old(nodes), k); Contents() == old(Contents())[..s] + items + old(Contents())[s + |items|..]
    {
      hide Flatten;
      StartStep(nodes, k);
      FlattenOne(Packed(items));
      FlattenSplice(nodes, k, 1, [Packed(items)]);
      nodes := nodes[..k] + [Packed(items)] + nodes[k + 1..];
      assert nodes[k] == Packed(items);
    }

    // --------------------------------------------------------------- searching

    /** Position of the first element equal to `v`. */
    method Position(v: Bytes) returns (r: Option<nat>)
      requires Valid()
      ensures r.Some? ==> r.value < count && Contents()[r.value] == v && v !in Contents()[..r.value]
      ensures r == None ==> v !in Contents()
    {
      hide Flatten, Shows, EqBytes, Start;
      var it := new QuicklistIter(this);
      var i := 0;
      while true
        invariant it.Valid() && it.nodes == nodes && it.pos == i <= count && fresh(it)
        invariant v !in Contents()[..i]
        decreases count - i
      {
        var e := it.Next();
        if e == None {
          assert Contents()[..i] == Contents();
          return None;
        }
        ShowsText(e.value, Contents()[i]);
        if EqBytes(e.value, v) {
          return Some(i);
        }
        assert Contents()[..i + 1] == Contents()[..i] + [Contents()[i]];
        i := i + 1;
      }
    }

    /** Position of the last element equal to `v`. */
    method RPosition(v: Bytes) returns (r: Option<nat>)
      requires Valid()
      ensures r.Some? ==> r.value < count && Contents()[r.value] == v && v !in Contents()[r.value + 1..]
      ensures r == None ==> v !in Contents()
    {
      hide Flatten, Shows, EqBytes, Start;
      var it := new QuicklistRevIter(this);
      var k := 0;
      while true
        invariant it.Valid() && it.nodes == nodes && it.left == count - k && 0 <= k <= count && fresh(it)
        invariant v !in Contents()[count - k..]
        decreases count - k
      {
        var e := it.Next();
        if e == None {
          assert Contents()[0..] == Contents();
          return None;
        }
        ShowsText(e.value, Contents()[count - 1 - k]);
        if EqBytes(e.value, v) {
          return Some(count - 1 - k);
        }
        assert Contents()[count - (k + 1)..] == [Contents()[count - 1 - k]] + Contents()[count - k..];
        k := k + 1;
      }
    }

    /** Remove occurrences of `v`: the first `n` for n > 0, the last |n| for
        n < 0, all for 0. */
    method RemoveValue(v: Bytes, n: int) returns (removed: nat)
      requires Valid()
      modifies `nodes, `count
      ensures Valid() && KeepsBounds(old(nodes), nodes, fill)
      ensures Contents() == if n >= 0 then WithoutFirst(old(Contents()), v, if n == 0 then old(count) else n)
                            else WithoutLast(old(Contents()), v, -n)
      ensures removed == old(count) - count
    {
      hide Flatten, KeepsBounds, NoEmpty, WithoutFirst, WithoutLast;
      SameBounds(nodes, fill);
      removed := 0;
      ghost var c := Contents();
      ghost var limit: nat := if n == 0 then count else if n > 0 then n else -n;
      while n == 0 || removed < (if n > 0 then n else -n)
        invariant Valid() && KeepsBounds(old(nodes), nodes, fill)
        invariant removed == old(count) - count && removed <= limit
        invariant n >= 0 ==> WithoutFirst(c, v, limit) == WithoutFirst(Contents(), v, limit - removed)
        invariant n < 0 ==> WithoutLast(c, v, limit) == WithoutLast(Contents(), v, limit - removed)
        decreases count
      {
        var found;
        if n < 0 {
          found := RPosition(v);
        } else {
          found := Position(v);
        }
        if found == None {
          NoneToDrop(Contents(), v, limit - removed);
          return;
        }
        if n >= 0 {
          DropFirst(Contents(), v, limit - removed, found.value);
        } else {
          DropLast(Contents(), v, limit - removed, found.value);
        }
        ghost var before := nodes;
        var gone := DeleteRange(found.value, 1);
        BoundsTrans(old(nodes), before, nodes, fill);
        removed := removed + 1;
      }
      NothingToDrop(Contents(), v);
    }
  }

  // ----------------------------------------------------------------- iterators

  /** Forward iteration: the open node and the place in it. */
  class QuicklistIter {
    const nodes: seq<Node>
    var node: nat
    var cur: Option<(Node, nat)>
    var remaining: nat
    ghost var pos: nat

    ghost predicate Valid()
      reads this
    {
      && NoEmpty(nodes) && pos <= |Flatten(nodes)| && remaining == |Flatten(nodes)| - pos
      && node <= |nodes|
      && (if cur == None then pos == Start(nodes, node)
          else node > 0 && cur.value.0 == nodes[node - 1] && cur.value.1 <= CountOf(nodes[node - 1])
               && pos == Start(nodes, node - 1) + cur.value.1)
    }

    constructor (ql: Quicklist)
      requires ql.Valid()
      ensures Valid() && nodes == ql.nodes && pos == 0
    {
      nodes := ql.nodes;
      node, cur, remaining := 0, None, ql.count;
      pos := 0;
      new;
      StartEnds(nodes);
    }

    /** Start at an element; out of range there is nothing to yield. */
    constructor From(ql: Quicklist, index: int)
      requires ql.Valid()
      ensures Valid() && nodes == ql.nodes
      ensures pos == match ql.Normalize(index) case None => ql.count case Some(i) => i
    {
      nodes := ql.nodes;
      var i := ql.Normalize(index);
      new;
      StartEnds(nodes);
      if i == None {
        node, cur, remaining, pos := |nodes|, None, 0, ql.count;
      } else {
        var found := ql.Locate(i.value);
        var (k, off) := found.value;
        node, cur, remaining, pos := k + 1, Some((nodes[k], off)), ql.count - i.value, i.value;
      }
    }

    method Next() returns (r: Option<Entry>)
      requires Valid()
      modifies `node, `cur, `remaining, `pos
      ensures Valid()
      ensures var c := Flatten(nodes);
        if old(pos) == |c| then r == None && pos == old(pos)
        else r.Some? && Shows(r.value, c[old(pos)]) && pos == old(pos) + 1
    {
      hide Flatten, Shows, Start, NoEmpty;
      if remaining == 0 {
        return None;
      }
      while true
        invariant Valid() && pos == old(pos) < |Flatten(nodes)|
        decreases |nodes| - node
      {
        if cur.Some? {
          var (n, off) := cur.value;
          StartStep(nodes, node - 1);
          if off < CountOf(n) {
            NodeElement(nodes, node - 1, off);
            r := Some(EntryOf(n, off));
            cur := Some((n, off + 1));
            remaining := remaining - 1;
            pos := pos + 1;
            return;
          }
        }
        StartEnds(nodes);
        if node >= |nodes| {
          return None;
        }
        cur := Some((nodes[node], 0));
        node := node + 1;
      }
    }
  }

  /** Reverse iteration: the places of the open node not yet yielded. */
  class QuicklistRevIter {
    const nodes: seq<Node>
    var node: nat
    var place: nat
    var remaining: nat
    ghost var left: nat

    ghost predicate Valid()
      reads this
    {
      && NoEmpty(nodes) && left == remaining
      && node <= |nodes| && (node == |nodes| ==> place == 0)
      && (node < |nodes| ==> place <= CountOf(nodes[node]))
      && left == Start(nodes, node) + place
    }

    constructor (ql: Quicklist)
      requires ql.Valid()
      ensures Valid() && nodes == ql.nodes && left == ql.count
    {
      nodes := ql.nodes;
      node, place, remaining := |ql.nodes|, 0, ql.count;
      left := ql.count;
      new;
      StartEnds(nodes);
    }

    method Next() returns (r: Option<Entry>)
      requires Valid()
      modifies `node, `place, `remaining, `left
      ensures Valid()
      ensures if old(left) == 0 then r == None && left == 0
        else old(left) <= |Flatten(nodes)| && r.Some? && Shows(r.value, Flatten(nodes)[old(left) - 1]) && left == old(left) - 1
    {
      hide Flatten, Shows;
      StartEnds(nodes);
      if remaining == 0 {
        return None;
      }
      while true
        invariant Valid() && left == old(left) > 0
        decreases node
      {
        if place > 0 {
          place := place - 1;
          NodeElements(nodes, node);
          remaining := remaining - 1;
          left := left - 1;
          return Some(EntryOf(nodes[node], place));
        }
        if node == 0 {
          return None;
        }
        node := node - 1;
        StartStep(nodes, node);
        place := CountOf(nodes[node]);
      }
    }
  }

  // ------------------------------------------------- what a packed node stands for

  ghost function StoredAll(items: seq<Bytes>): seq<Entry> {
    seq(|items|, k requires 0 <= k < |items| => Stored(items[k]))
  }

  /** A packed node is a listpack that holds its items in stored form, and the
      size it is taken to have is the size of that buffer. */
  method Pack(items: seq<Bytes>) returns (lp: Listpack.Listpack)
    requires PackedBytes(items) <= ListpackLayout.LP_MAX_SAFETY_SIZE
    ensures fresh(lp) && lp.Valid() && lp.Contents() == StoredAll(items) && |lp.buf| == PackedBytes(items)
  {
    hide ListpackLayout.WellFormed, ListpackLayout.Element, Stored, PackedBytes;
    lp := new Listpack.Listpack();
    PackedNothing();
    for k := 0 to |items|
      invariant fresh(lp) && lp.Valid() && lp.Contents() == StoredAll(items[..k]) && |lp.buf| == PackedBytes(items[..k])
    {
      PackedNext(items, k);
      var ok := lp.Append(Str(items[k]));
    }
    assert items[..|items|] == items;
  }

  lemma PackedNothing()
    ensures PackedBytes([]) == 7
  {
  }

  lemma PackedNext(items: seq<Bytes>, k: nat)
    requires k < |items|
    ensures PackedBytes(items[..k + 1]) == PackedBytes(items[..k]) + SpanOf(items[k]) <= PackedBytes(items)
    ensures StoredAll(items[..k + 1]) == StoredAll(items[..k]) + [Canonicalize(Str(items[k]))]
    ensures SpanOf(items[k]) == PayloadEnclen(Canonicalize(Str(items[k]))) + BacklenSize(PayloadEnclen(Canonicalize(Str(items[k]))))
  {
    hide PackedBytes, Canonicalize, PayloadEnclen, BacklenSize, StoredAll;
    PackedLast(items[..k + 1]);
    StoredNext(items, k);
    assert items[..k + 1][..k] == items[..k];
    PackedConcat(items[..k + 1], items[k + 1..]);
    assert items == items[..k + 1] + items[k + 1..];
  }

  lemma StoredNext(items: seq<Bytes>, k: nat)
    requires k < |items|
    ensures StoredAll(items[..k + 1]) == StoredAll(items[..k]) + [Stored(items[k])]
  {
    hide Stored;
    var a, b := StoredAll(items[..k + 1]), StoredAll(items[..k]) + [Stored(items[k])];
    assert |a| == |b|;
    forall i | 0 <= i < |a|
      ensures a[i] == b[i]
    {
      assert a[i] == Stored(items[i]);
    }
  }

  lemma PackedLast(items: seq<Bytes>)
    requires |items| > 0
    ensures PackedBytes(items) == PackedBytes(items[..|items| - 1]) + SpanOf(items[|items| - 1])
  {
  }

  // ------------------------------------------------------------ LREM's meaning

  /** Without the first `n` occurrences of `v`. */
  function WithoutFirst(s: seq<Bytes>, v: Bytes, n: nat): seq<Bytes> {
    if |s| == 0 || n == 0 then s
    else if s[0] == v then WithoutFirst(s[1..], v, n - 1)
    else [s[0]] + WithoutFirst(s[1..], v, n)
  }

  /** Without the last `n` occurrences of `v`. */
  function WithoutLast(s: seq<Bytes>, v: Bytes, n: nat): seq<Bytes> {
    if |s| == 0 || n == 0 then s
    else if s[|s| - 1] == v then WithoutLast(s[..|s| - 1], v, n - 1)
    else WithoutLast(s[..|s| - 1], v, n) + [s[|s| - 1]]
  }

  lemma {:induction false} DropFirst(s: seq<Bytes>, v: Bytes, n: nat, i: nat)
    requires i < |s| && s[i] == v && v !in s[..i] && n > 0
    ensures WithoutFirst(s, v, n) == WithoutFirst(s[..i] + s[i + 1..], v, n - 1)
    decreases |s|
  {
    if i == 0 {
      assert s[..0] + s[1..] == s[1..];
    } else {
      assert s[0] in s[..i];
      var t := s[1..];
      assert t[..i - 1] == s[..i][1..];
      DropFirst(t, v, n, i - 1);
      assert (s[..i] + s[i + 1..])[1..] == t[..i - 1] + t[i..];
      if n == 1 {
        assert [s[0]] + (t[..i - 1] + t[i..]) == s[..i] + s[i + 1..];
      }
    }
  }

  lemma {:induction false} DropLast(s: seq<Bytes>, v: Bytes, n: nat, i: nat)
    requires i < |s| && s[i] == v && v !in s[i + 1..] && n > 0
    ensures WithoutLast(s, v, n) == WithoutLast(s[..i] + s[i + 1..], v, n - 1)
    decreases |s|
  {
    var l := |s| - 1;
    if i == l {
      assert s[..i] + s[i + 1..] == s[..l];
    } else {
      assert s[l] == s[i + 1..][l - i - 1] != v;
      var t := s[..l];
      assert t[i + 1..] == s[i + 1..][..l - i - 1];
      DropLast(t, v, n, i);
      var d := s[..i] + s[i + 1..];
      assert d[..|d| - 1] == t[..i] + t[i + 1..];
      if n == 1 {
        assert (t[..i] + t[i + 1..]) + [s[l]] == d;
      }
    }
  }

  lemma {:induction false} NoneToDrop(s: seq<Bytes>, v: Bytes, n: nat)
    requires v !in s
    ensures WithoutFirst(s, v, n) == s && WithoutLast(s, v, n) == s
    decreases |s|
  {
    if |s| > 0 {
      NoneToDrop(s[1..], v, n);
      NoneToDrop(s[..|s| - 1], v, n);
      assert s == [s[0]] + s[1..];
    }
  }

  lemma NothingToDrop(s: seq<Bytes>, v: Bytes)
    ensures WithoutFirst(s, v, 0) == s && WithoutLast(s, v, 0) == s
  {
  }

  lemma CutAndPut(c: seq<Bytes>, i: nat, v: Bytes)
    requires i < |c|
    ensures var d := c[..i] + c[i + 1..];
      |d| == |c| - 1 && d[..i] + [v] + d[i..] == c[i := v]
  {
  }

  /** Element `i` stands in a listpack that would pass its hard size limit if `v`
      took its place. */
  ghost predicate Overfills(nodes: seq<Node>, i: nat, v: Bytes) {
    exists k :: 0 <= k < |nodes| && Start(nodes, k) <= i < Start(nodes, k) + CountOf(nodes[k]) && OverfillsAt(nodes[k], i - Start(nodes, k), v)
  }

  predicate OverfillsAt(n: Node, off: nat, v: Bytes)
    requires off < CountOf(n)
  {
    && n.Packed? && SpanOf(v) > SpanOf(n.items[off])
    && PackedBytes(n.items) + (SpanOf(v) - SpanOf(n.items[off])) > ListpackLayout.LP_MAX_SAFETY_SIZE
  }

  /** What would pass 1 GB is the node with the entry exchanged for a longer one. */
  lemma OverfillsMeans(items: seq<Bytes>, off: nat, v: Bytes)
    requires off < |items|
    ensures OverfillsAt(Packed(items), off, v) <==>
      PackedBytes(items[off := v]) > 0x4000_0000 && PackedBytes(items[off := v]) > PackedBytes(items)
  {
    hide SpanOf, PackedBytes;
    OverwriteBounded(items, off, v, 0);
  }

  lemma OverfillsHere(nodes: seq<Node>, k: nat, off: nat, v: Bytes)
    requires k < |nodes| && off < CountOf(nodes[k])
    ensures Overfills(nodes, Start(nodes, k) + off, v) <==> OverfillsAt(nodes[k], off, v)
    ensures nodes[k].Plain? ==> !OverfillsAt(nodes[k], off, v)
  {
    hide Start, SpanOf, PackedBytes, Flatten;
    var i := Start(nodes, k) + off;
    if Overfills(nodes, i, v) {
      var j :| 0 <= j < |nodes| && Start(nodes, j) <= i < Start(nodes, j) + CountOf(nodes[j]) && OverfillsAt(nodes[j], i - Start(nodes, j), v);
      SameNode(nodes, j, k, i);
    }
  }

  /** Element `i` stands in a node that keeps its size with `v` in its place. */
  ghost predicate HasRoom(nodes: seq<Node>, i: nat, v: Bytes, fill: int) {
    exists k :: 0 <= k < |nodes| && Start(nodes, k) <= i < Start(nodes, k) + CountOf(nodes[k])
      && FitsAt(nodes[k], i - Start(nodes, k), v, fill)
  }

  lemma RoomHere(nodes: seq<Node>, k: nat, off: nat, v: Bytes, fill: int)
    requires k < |nodes| && off < CountOf(nodes[k])
    ensures HasRoom(nodes, Start(nodes, k) + off, v, fill) <==> FitsAt(nodes[k], off, v, fill)
    ensures nodes[k].Plain? ==> FitsAt(nodes[k], off, v, fill)
  {
    hide Start, SpanOf, PackedBytes, Flatten;
    var i := Start(nodes, k) + off;
    if HasRoom(nodes, i, v, fill) {
      var j :| 0 <= j < |nodes| && Start(nodes, j) <= i < Start(nodes, j) + CountOf(nodes[j])
        && FitsAt(nodes[j], i - Start(nodes, j), v, fill);
      SameNode(nodes, j, k, i);
    }
  }

  /** An overwrite that outgrows its node: 3000 letters beside 3000 letters, in a
      node of 4 KB that held one letter in the place of the second. */
  lemma SetOutgrows(v: Bytes) returns (nodes: seq<Node>)
    requires |v| == 3000 && v[0] == 97
    ensures nodes == [Packed([v, [97]])] && Flatten(nodes) == [v, [97]]
    ensures NoEmpty(nodes) && AllSizes(nodes, -1) && AllCounts(nodes, -1)
    ensures !IsLarge(|v|, -1) && !Overfills(nodes, 1, v) && !HasRoom(nodes, 1, v, -1)
    ensures !AllSizes([Packed([v, v])], -1)
  {
    hide Overfills, HasRoom, Start, Flatten;
    nodes := [Packed([v, [97]])];
    assert Canonical(v) == None && Canonical([97]) == None;
    FlattenOne(nodes[0]);
    StartEnds(nodes);
    PackedConcat([v], [[97]]);
    PackedOne(v);
    PackedOne([97]);
    OverwriteBounded([v, [97]], 1, v, -1);
    assert [v, [97]][1 := v] == [v, v] && [Packed([v, v])][0] == Packed([v, v]);
    assert Start(nodes, 0) == 0;
    OverfillsHere(nodes, 0, 1, v);
    RoomHere(nodes, 0, 1, v, -1);
  }

  lemma OverwriteIn(all: seq<Bytes>, s: nat, items: seq<Bytes>, off: nat, v: Bytes)
    requires s + |items| <= |all| && all[s..s + |items|] == items && off < |items|
    ensures all[..s] + items[off := v] + all[s + |items|..] == all[s + off := v]
  {
  }

  lemma Nothing(c: seq<Bytes>, i: nat)
    requires i <= |c|
    ensures c[..i] + c[i + 0..] == c
  {
  }

  lemma CutMore(c: seq<Bytes>, i: nat, gone: nat, got: nat)
    requires i + gone + got <= |c|
    ensures var d := c[..i] + c[i + gone..]; i + got <= |d| && d[..i] + d[i + got..] == c[..i] + c[i + (gone + got)..]
  {
  }

  lemma NonEmptyNodes(nodes: seq<Node>)
    requires NoEmpty(nodes) && |nodes| > 0
    ensures |Flatten(nodes)| > 0
  {
    StartStep(nodes, 0);
  }

  lemma BoundsTrans(a: seq<Node>, b: seq<Node>, c: seq<Node>, fill: int)
    requires KeepsBounds(a, b, fill) && KeepsBounds(b, c, fill)
    ensures KeepsBounds(a, c, fill)
  {
  }

  lemma HalvesBounded(nodes: seq<Node>, k: nat, off: nat, fill: int)
    requires k < |nodes| && nodes[k].Packed? && off <= |nodes[k].items|
    ensures var f, b := Packed(nodes[k].items[..off]), Packed(nodes[k].items[off..]);
      && (AllCounts(nodes, fill) ==> CountBounded(f, fill) && CountBounded(b, fill))
      && (AllSizes(nodes, fill) ==> SizeBounded(f, fill) && SizeBounded(b, fill))
  {
    hide CountBounded, SizeBounded;
    var items := nodes[k].items;
    PartBoundedIn(nodes, k, off, |items|, fill);
    PartBoundedIn(nodes, k, 0, off, fill);
    assert items[..off] + items[|items|..] == items[..off] && items[..0] + items[off..] == items[off..];
  }

  lemma ThreeNodes(a: Node, b: Node, c: Node)
    ensures Flatten([a, b, c]) == ItemsOf(a) + ItemsOf(b) + ItemsOf(c)
  {
    hide Flatten;
    FlattenOne(a);
    FlattenOne(b);
    FlattenOne(c);
    FlattenConcat([a], [b]);
    FlattenConcat([a] + [b], [c]);
    assert [a, b, c] == ([a] + [b]) + [c];
  }

  lemma SameBounds(nodes: seq<Node>, fill: int)
    ensures KeepsBounds(nodes, nodes, fill)
  {
  }

  lemma MergeMeans(a: Node, b: Node, fill: int)
    requires AllowsMerge(a, b, fill)
    ensures a.Packed? && b.Packed?
  {
  }

  /** Two neighbours hold a contiguous stretch. */
  lemma TwoNodes(nodes: seq<Node>, i: nat)
    requires i + 1 < |nodes|
    ensures Flatten(nodes[i..i + 2]) == ItemsOf(nodes[i]) + ItemsOf(nodes[i + 1])
    ensures var s, n := Start(nodes, i), CountOf(nodes[i]) + CountOf(nodes[i + 1]);
      s + n <= |Flatten(nodes)| && Flatten(nodes)[s..s + n] == ItemsOf(nodes[i]) + ItemsOf(nodes[i + 1])
    ensures Start(nodes, i + 2) == Start(nodes, i) + CountOf(nodes[i]) + CountOf(nodes[i + 1])
    ensures var all, s, e := Flatten(nodes), Start(nodes, i), Start(nodes, i + 2);
      s <= e <= |all| && all == all[..s] + (ItemsOf(nodes[i]) + ItemsOf(nodes[i + 1])) + all[e..]
  {
    hide Flatten;
    assert nodes[i..i + 2] == [nodes[i]] + [nodes[i + 1]];
    FlattenConcat([nodes[i]], [nodes[i + 1]]);
    FlattenOne(nodes[i]);
    FlattenOne(nodes[i + 1]);
    NodeElements(nodes, i);
    NodeElements(nodes, i + 1);
    StartStep(nodes, i);
    StartStep(nodes, i + 1);
  }

  lemma AllowsMeans(n: Node, fill: int, size: nat)
    requires AllowsInsert(n, fill, size)
    ensures n.Packed?
  {
  }

  lemma PartBoundedIn(nodes: seq<Node>, k: nat, i: nat, j: nat, fill: int)
    requires k < |nodes| && nodes[k].Packed? && i <= j <= |nodes[k].items|
    ensures var n := Packed(nodes[k].items[..i] + nodes[k].items[j..]);
      && (AllCounts(nodes, fill) ==> CountBounded(n, fill))
      && (AllSizes(nodes, fill) ==> SizeBounded(n, fill))
  {
    hide CountBounded, SizeBounded;
    PartBounded(nodes[k].items, i, j, fill);
    assert nodes[k] == Packed(nodes[k].items);
  }

  lemma SizedWithin(n: Node, fill: int, v: Bytes, at: nat)
    requires AllowsInsert(n, fill, |v|) && at <= |n.items|
    ensures SizeBounded(Packed(n.items[..at] + [v] + n.items[at..]), fill)
  {
    hide SpanOf, PackedBytes, AllowsInsert;
    InsertBounded(n, fill, v, at);
  }

  lemma NewNodeBounds(v: Bytes, fill: int)
    ensures ItemsOf(NewNode(v, fill)) == [v] && CountOf(NewNode(v, fill)) == 1
    ensures CountBounded(NewNode(v, fill), fill) && SizeBounded(NewNode(v, fill), fill)
  {
    hide SpanOf, PackedBytes;
    if !IsLarge(|v|, fill) {
      NewBounded(fill, v);
    }
  }

  /** A node's items within all the elements. */
  lemma Around(all: seq<Bytes>, s: nat, items: seq<Bytes>, at: nat, put: seq<Bytes>)
    requires s + |items| <= |all| && all[s..s + |items|] == items && at <= |items|
    ensures all[..s] + (items[..at] + put + items[at..]) + all[s + |items|..] == all[..s + at] + put + all[s + at..]
  {
    assert all[..s + at] == all[..s] + items[..at];
    assert all[s + at..] == items[at..] + all[s + |items|..];
  }

  lemma EmptyMiddle(a: seq<Bytes>, b: seq<Bytes>, c: seq<Bytes>)
    requires |b| == 0
    ensures a + b + c == a + c
  {
    assert a + b == a;
  }

  lemma Around2(all: seq<Bytes>, s: nat, items: seq<Bytes>, off: nat, c: nat)
    requires s + |items| <= |all| && all[s..s + |items|] == items && off + c <= |items|
    ensures all[..s] + (items[..off] + items[off + c..]) + all[s + |items|..] == all[..s + off] + all[s + off + c..]
  {
    assert all[..s + off] == all[..s] + items[..off];
    assert all[s + off + c..] == items[off + c..] + all[s + |items|..];
  }
}
