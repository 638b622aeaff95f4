/**
  The arena of the skiplist: towers of span-carrying links over the slots of a
  node vector, what makes them right for a given rank order, and how linking a
  slot in or taking it out keeps them right.
  */
module SkiplistArena {
  import opened ByteStrings
  import opened SkiplistKeys

  const MAX_LEVEL: nat := 32
  const HEAD: nat := 0
  /** "No node": the largest u32, so the arena stays below it. */
  const NIL: nat := 0xFFFF_FFFF

  datatype Level = Level(forward: nat, span: nat)
  datatype Node = Node(key: Key, backward: nat, levels: seq<Level>)

  const NIL_LEVEL := Level(NIL, 0)

  // --------------------------------------------------------- towers and links

  /** First position at or after `q` whose tower is taller than `l`, or the end. */
  function NextFrom(hs: seq<nat>, q: nat, l: nat): (r: nat)
    requires q <= |hs|
    ensures q <= r <= |hs|
    ensures forall k :: q <= k < r ==> hs[k] <= l
    ensures r < |hs| ==> hs[r] > l
    decreases |hs| - q
  {
    if q == |hs| || hs[q] > l then q else NextFrom(hs, q + 1, l)
  }

  lemma {:induction false} NextIs(hs: seq<nat>, q: nat, l: nat, r: nat)
    requires q <= r <= |hs|
    requires forall k :: q <= k < r ==> hs[k] <= l
    requires r < |hs| ==> hs[r] > l
    ensures NextFrom(hs, q, l) == r
    decreases r - q
  {
    if q < r {
      NextIs(hs, q + 1, l, r);
    }
  }

  /** The link a tower at position `p` must hold at level `l`: the nearest taller
      tower to its right with the distance to it, or the distance to the end. */
  function LinkAt(order: seq<nat>, hs: seq<nat>, p: nat, l: nat): Level
    requires |order| == |hs| && p < |hs|
  {
    var q := NextFrom(hs, p + 1, l);
    if q < |hs| then Level(order[q], q - p) else Level(NIL, |hs| - 1 - p)
  }

  ghost predicate Distinct(order: seq<nat>) {
    forall p, q :: 0 <= p < q < |order| ==> order[p] != order[q]
  }

  ghost predicate InArena(order: seq<nat>, n: nat) {
    forall p :: 0 <= p < |order| ==> order[p] < n
  }

  /** Towers stand at distinct arena slots, the header first. */
  ghost predicate Shape(nodes: seq<Node>, order: seq<nat>, hs: seq<nat>, level: nat) {
    && |order| == |hs| >= 1
    && order[0] == HEAD && hs[0] == level
    && 1 <= level <= MAX_LEVEL
    && |nodes| <= NIL
    && InArena(order, |nodes|)
    && Distinct(order)
    && |nodes[HEAD].levels| == MAX_LEVEL
    && (forall p :: 1 <= p < |order| ==> 1 <= hs[p] <= level && |nodes[order[p]].levels| == hs[p])
  }

  ghost predicate Fits(nodes: seq<Node>, order: seq<nat>, hs: seq<nat>) {
    && |order| == |hs|
    && (forall p :: 0 <= p < |order| ==> order[p] < |nodes| && hs[p] <= |nodes[order[p]].levels|)
  }

  /** Level `l` is one list through exactly the towers taller than `l`, with
      exact spans. */
  ghost predicate LevelOk(nodes: seq<Node>, order: seq<nat>, hs: seq<nat>, l: nat)
    requires Fits(nodes, order, hs)
  {
    forall p :: 0 <= p < |order| && hs[p] > l ==> nodes[order[p]].levels[l] == LinkAt(order, hs, p, l)
  }

  ghost predicate Linked(nodes: seq<Node>, order: seq<nat>, hs: seq<nat>, level: nat)
    requires Fits(nodes, order, hs)
  {
    forall l :: 0 <= l < level ==> LevelOk(nodes, order, hs, l)
  }

  ghost predicate LinkedFrom(nodes: seq<Node>, order: seq<nat>, hs: seq<nat>, n: nat, level: nat)
    requires Fits(nodes, order, hs)
  {
    forall l :: n <= l < level ==> LevelOk(nodes, order, hs, l)
  }

  /** The position left of `p`, with nothing left of the first element. */
  function BackAt(order: seq<nat>, p: nat): nat
    requires 1 <= p <= |order|
  {
    if p == 1 then NIL else order[p - 1]
  }

  ghost predicate BackLinked(nodes: seq<Node>, order: seq<nat>, tail: nat)
    requires |order| >= 1 && InArena(order, |nodes|)
  {
    && (forall p :: 1 <= p < |order| ==> nodes[order[p]].backward == BackAt(order, p))
    && tail == BackAt(order, |order|)
  }

  /** The keys in rank order: the abstract value. */
  ghost function Keys(nodes: seq<Node>, order: seq<nat>): (ks: seq<Key>)
    requires |order| >= 1 && InArena(order, |nodes|)
    ensures |ks| == |order| - 1
  {
    seq(|order| - 1, i requires 0 <= i < |order| - 1 => nodes[order[i + 1]].key)
  }

  /** Every slot is either live or free, never both, and freed once. */
  ghost predicate Partitioned(n: nat, order: seq<nat>, free: seq<nat>) {
    && (forall i :: 0 <= i < |free| ==> free[i] < n && free[i] !in order)
    && (forall i, j :: 0 <= i < j < |free| ==> free[i] != free[j])
    && (forall a :: 0 <= a < n ==> a in order || a in free)
  }

  /** The structural half of the invariant. */
  ghost predicate Core(nodes: seq<Node>, tail: nat, level: nat, length: nat, order: seq<nat>, hs: seq<nat>) {
    && Shape(nodes, order, hs, level)
    && Linked(nodes, order, hs, level)
    && BackLinked(nodes, order, tail)
    && length == |order| - 1
  }

  /** The top level in use is not empty (except level 1 of an empty list). */
  ghost predicate TopUsed(hs: seq<nat>, level: nat)
    requires |hs| >= 1
  {
    level > 1 ==> NextFrom(hs, 1, level - 1) < |hs|
  }

  ghost predicate Inv(nodes: seq<Node>, free: seq<nat>, tail: nat, level: nat, length: nat, order: seq<nat>, hs: seq<nat>) {
    && Core(nodes, tail, level, length, order, hs)
    && Partitioned(|nodes|, order, free)
    && Sorted(Keys(nodes, order)) && DistinctMembers(Keys(nodes, order))
    && TopUsed(hs, level)
  }

  lemma CoreParts(nodes: seq<Node>, tail: nat, level: nat, length: nat, order: seq<nat>, hs: seq<nat>)
    requires Core(nodes, tail, level, length, order, hs)
    ensures |order| == |hs| == length + 1 && |nodes| <= NIL && level <= MAX_LEVEL && hs[0] == level >= 1
    ensures |nodes| > 0 && |nodes[HEAD].levels| == MAX_LEVEL && order[0] == HEAD && forall p :: 1 <= p < |hs| ==> hs[p] <= level
    ensures InArena(order, |nodes|) && |Keys(nodes, order)| == length
    ensures Shape(nodes, order, hs, level) && Fits(nodes, order, hs) && Linked(nodes, order, hs, level)
    ensures BackLinked(nodes, order, tail) && Distinct(order)
  {
  }

  lemma InvParts(nodes: seq<Node>, free: seq<nat>, tail: nat, level: nat, length: nat, order: seq<nat>, hs: seq<nat>)
    requires Inv(nodes, free, tail, level, length, order, hs)
    ensures Core(nodes, tail, level, length, order, hs)
    ensures |order| == |hs| == length + 1 && |nodes| <= NIL && level <= MAX_LEVEL && hs[0] == level >= 1
    ensures |nodes| > 0 && |nodes[HEAD].levels| == MAX_LEVEL && order[0] == HEAD && forall p :: 1 <= p < |hs| ==> hs[p] <= level
    ensures InArena(order, |nodes|) && |Keys(nodes, order)| == length
    ensures Shape(nodes, order, hs, level) && Fits(nodes, order, hs) && Linked(nodes, order, hs, level)
    ensures BackLinked(nodes, order, tail) && Distinct(order)
    ensures Sorted(Keys(nodes, order)) && DistinctMembers(Keys(nodes, order))
    ensures Partitioned(|nodes|, order, free) && TopUsed(hs, level)
    ensures forall i :: 0 <= i < |free| ==> free[i] < |nodes|
  {
  }

  lemma CoreIs(nodes: seq<Node>, tail: nat, level: nat, length: nat, order: seq<nat>, hs: seq<nat>)
    requires Shape(nodes, order, hs, level) && Fits(nodes, order, hs) && Linked(nodes, order, hs, level)
    requires |order| >= 1 && InArena(order, |nodes|) && BackLinked(nodes, order, tail) && length == |order| - 1
    ensures Core(nodes, tail, level, length, order, hs)
  {
  }

  lemma EmptyInv(nodes: seq<Node>)
    requires |nodes| == 1 && nodes[HEAD].levels == seq(MAX_LEVEL, _ => NIL_LEVEL)
    ensures Inv(nodes, [], NIL, 1, 0, [HEAD], [1]) && InArena([HEAD], |nodes|) && Keys(nodes, [HEAD]) == []
  {
  }

  lemma LinkHolds(nodes: seq<Node>, level: nat, order: seq<nat>, hs: seq<nat>, p: nat, l: nat)
    requires Shape(nodes, order, hs, level) && Linked(nodes, order, hs, level)
    requires p < |order| && l < hs[p]
    ensures |hs| == |order| == |Keys(nodes, order)| + 1
    ensures order[p] < |nodes| && l < |nodes[order[p]].levels|
    ensures nodes[order[p]].levels[l] == LinkAt(order, hs, p, l)
    ensures var q := NextFrom(hs, p + 1, l); q < |order| ==>
      order[q] < |nodes| <= NIL && nodes[order[q]].key == Keys(nodes, order)[q - 1]
  {
    assert LevelOk(nodes, order, hs, l);
  }

  lemma KeyOfSlot(nodes: seq<Node>, order: seq<nat>, p: nat, hs: seq<nat>, level: nat)
    requires Shape(nodes, order, hs, level) && p < |order|
    ensures order[p] < |nodes| && (order[p] == HEAD <==> p == 0)
    ensures p > 0 ==> nodes[order[p]].key == Keys(nodes, order)[p - 1]
  {
  }

  /** The first link of a linked slot, and of its tower. */
  lemma FirstLink(nodes: seq<Node>, tail: nat, level: nat, length: nat, order: seq<nat>, hs: seq<nat>, p: nat)
    requires Core(nodes, tail, level, length, order, hs) && p <= length
    ensures order[p] < |nodes| && 0 < |nodes[order[p]].levels|
    ensures nodes[order[p]].levels[0].forward == if p < length then order[p + 1] else NIL
    ensures p < length ==> order[p + 1] < |nodes| && order[p + 1] < NIL && nodes[order[p + 1]].key == Keys(nodes, order)[p]
  {
    hide Distinct, BackLinked;
    assert LevelOk(nodes, order, hs, 0);
    assert p == 0 || hs[p] >= 1;
    assert p + 1 == |hs| || hs[p + 1] >= 1;
    assert nodes[order[p]].levels[0] == LinkAt(order, hs, p, 0);
  }

  lemma SlotIsHead(order: seq<nat>, p: nat)
    requires Distinct(order) && p < |order| && order[0] == HEAD
    ensures order[p] == HEAD <==> p == 0
  {
  }

  lemma OnceIn(order: seq<nat>, q: nat)
    requires Distinct(order) && q < |order|
    ensures forall p :: 0 <= p < |order| && p != q ==> order[p] != order[q]
  {
  }

  lemma SlotInArena(order: seq<nat>, p: nat, n: nat)
    requires InArena(order, n) && p < |order|
    ensures order[p] < n
  {
  }

  lemma LevelFrame(ns: seq<Node>, ns': seq<Node>, order: seq<nat>, hs: seq<nat>, l: nat)
    requires Fits(ns, order, hs) && Fits(ns', order, hs) && LevelOk(ns, order, hs, l)
    requires forall p :: 0 <= p < |order| && hs[p] > l ==> ns'[order[p]].levels[l] == ns[order[p]].levels[l]
    ensures LevelOk(ns', order, hs, l)
  {
  }

  lemma SameLevelsSameLinks(before: seq<Node>, after: seq<Node>, order: seq<nat>, hs: seq<nat>, level: nat)
    requires |after| == |before| && forall a :: 0 <= a < |before| ==> after[a].levels == before[a].levels
    requires Fits(before, order, hs) && Linked(before, order, hs, level)
    ensures Fits(after, order, hs) && Linked(after, order, hs, level)
  {
    forall l | 0 <= l < level
      ensures LevelOk(after, order, hs, l)
    {
      assert LevelOk(before, order, hs, l);
      LevelFrame(before, after, order, hs, l);
    }
  }

  /** Slots outside the list do not matter to it. */
  lemma OtherSlots(before: seq<Node>, after: seq<Node>, tail: nat, level: nat, length: nat, order: seq<nat>, hs: seq<nat>)
    requires Core(before, tail, level, length, order, hs)
    requires |before| <= |after| <= NIL
    requires forall a :: 0 <= a < |before| && a in order ==> after[a] == before[a]
    ensures Core(after, tail, level, length, order, hs)
    ensures Keys(after, order) == Keys(before, order)
  {
    assert forall p :: 0 <= p < |order| ==> order[p] in order;
    forall l | 0 <= l < level
      ensures LevelOk(after, order, hs, l)
    {
      assert LevelOk(before, order, hs, l);
    }
  }

  // ---------------------------------------------------------------- searching

  /** `p` is the last position at or before `r` whose tower is taller than `l`. */
  ghost predicate IsPred(hs: seq<nat>, p: nat, r: nat, l: nat) {
    && p <= r < |hs|
    && hs[p] > l
    && forall k :: p < k <= r ==> hs[k] <= l
  }

  /** Every level has its predecessor of position `r` on record. */
  ghost predicate Preds(order: seq<nat>, hs: seq<nat>, level: nat, r: nat, update: seq<nat>, rank: seq<nat>) {
    && |order| == |hs| && r < |hs|
    && level <= MAX_LEVEL == |update| == |rank|
    && forall l :: 0 <= l < level ==> IsPred(hs, rank[l], r, l) && update[l] == order[rank[l]]
  }

  lemma PredsAtZero(order: seq<nat>, hs: seq<nat>, level: nat, r: nat, update: seq<nat>, rank: seq<nat>)
    requires Preds(order, hs, level, r, update, rank) && level >= 1 && rank[0] == r
    ensures update[0] == order[r]
  {
    assert IsPred(hs, rank[0], r, 0);
  }

  /** The search has to leave level `l` at position `p`: the next tower there is
      not below the target. */
  ghost predicate Stopped(ks: seq<Key>, hs: seq<nat>, below: Key -> bool, p: nat, l: nat)
    requires |hs| == |ks| + 1
  {
    && p < |hs|
    && hs[p] > l
    && var q := NextFrom(hs, p + 1, l); q == |hs| || !below(ks[q - 1])
  }

  lemma StoppedTower(ks: seq<Key>, hs: seq<nat>, below: Key -> bool, p: nat, i: nat)
    requires |hs| == |ks| + 1 && Stopped(ks, hs, below, p, i)
    ensures p < |hs| && hs[p] > i
  {
  }

  lemma StoppedAtBottom(ks: seq<Key>, hs: seq<nat>, below: Key -> bool, p: nat)
    requires |hs| == |ks| + 1 && DownClosed(ks, below)
    requires forall k :: 0 <= k < |hs| ==> hs[k] >= 1
    requires Stopped(ks, hs, below, p, 0) && (p > 0 ==> below(ks[p - 1]))
    ensures Cut(ks, below, p)
  {
  }

  lemma StoppedIsPred(ks: seq<Key>, hs: seq<nat>, below: Key -> bool, p: nat, l: nat, r: nat)
    requires |hs| == |ks| + 1 && DownClosed(ks, below)
    requires Stopped(ks, hs, below, p, l) && Cut(ks, below, r) && p <= r
    ensures IsPred(hs, p, r, l)
  {
  }

  /** The walk ended just left of everything greater; the key would be here. */
  lemma AbsentAtBottom(ks: seq<Key>, hs: seq<nat>, key: Key, p: nat)
    requires |hs| == |ks| + 1 && Sorted(ks) && forall k :: 0 <= k < |hs| ==> hs[k] >= 1
    requires Stopped(ks, hs, k => !Less(key, k), p, 0)
    requires p > 0 ==> !Less(key, ks[p - 1]) && ks[p - 1] != key
    ensures key !in ks
  {
    NotAboveIsDownClosed(ks, key);
    StoppedAtBottom(ks, hs, k => !Less(key, k), p);
    LessIrreflexive(key);
    forall i | 0 <= i < |ks|
      ensures ks[i] != key
    {
      assert i < p - 1 ==> Less(ks[i], ks[p - 1]);
    }
  }

  /** One level of the walk: go right while the next key is below the target. */
  method DescendLevel(nodes: seq<Node>, level: nat, below: Key -> bool, i: nat, from: nat, fromRank: nat,
                      ghost order: seq<nat>, ghost hs: seq<nat>)
    returns (x: nat, rank: nat)
    requires Shape(nodes, order, hs, level) && Linked(nodes, order, hs, level)
    requires fromRank < |order| && from == order[fromRank] && hs[fromRank] > i
    requires fromRank > 0 ==> below(Keys(nodes, order)[fromRank - 1])
    ensures fromRank <= rank < |order| && x == order[rank]
    ensures rank > 0 ==> below(Keys(nodes, order)[rank - 1])
    ensures Stopped(Keys(nodes, order), hs, below, rank, i)
  {
    hide Linked, Keys, Fits, LevelOk, InArena, Distinct;
    LinkHolds(nodes, level, order, hs, fromRank, i);
    ghost var ks := Keys(nodes, order);
    x, rank := from, fromRank;
    while true
      invariant fromRank <= rank < |order| && x == order[rank] && hs[rank] > i
      invariant rank > 0 ==> below(ks[rank - 1])
      decreases |order| - rank
    {
      LinkHolds(nodes, level, order, hs, rank, i);
      var f := nodes[x].levels[i].forward;
      if f == NIL || !below(nodes[f].key) {
        return;
      }
      rank := rank + nodes[x].levels[i].span;
      x := f;
    }
  }

  /** The walk every operation starts with: from the header, at each level go
      right while the next key is below the target, then drop a level. */
  method Descend(nodes: seq<Node>, level: nat, below: Key -> bool, ghost order: seq<nat>, ghost hs: seq<nat>)
    returns (update: seq<nat>, rank: seq<nat>)
    requires Shape(nodes, order, hs, level) && Linked(nodes, order, hs, level)
    requires DownClosed(Keys(nodes, order), below)
    ensures |update| == |rank| == MAX_LEVEL
    ensures Cut(Keys(nodes, order), below, rank[0])
    ensures Preds(order, hs, level, rank[0], update, rank)
  {
    hide Linked, Fits, LevelOk, Keys, InArena, Distinct, NextFrom;
    update := seq(MAX_LEVEL, _ => HEAD);
    rank := seq(MAX_LEVEL, _ => 0);
    ghost var ks := Keys(nodes, order);
    var x := HEAD;
    var i := level;
    ghost var p: nat := 0;
    while i > 0
      invariant 0 <= i <= level
      invariant |update| == |rank| == MAX_LEVEL
      invariant p < |order| && x == order[p] && (p > 0 ==> below(ks[p - 1]))
      invariant if i == level then p == 0 else p == rank[i] && hs[p] > i
      invariant forall l :: i <= l < level ==>
        rank[l] <= p && update[l] == order[rank[l]] && Stopped(ks, hs, below, rank[l], l)
    {
      i := i - 1;
      var r;
      x, r := DescendLevel(nodes, level, below, i, x, if i + 1 == level then 0 else rank[i + 1], order, hs);
      p := r;
      rank := rank[i := r];
      update := update[i := x];
    }
    StoppedAtBottom(ks, hs, below, p);
    forall l | 0 <= l < level
      ensures IsPred(hs, rank[l], rank[0], l)
    {
      StoppedIsPred(ks, hs, below, rank[l], l, p);
    }
  }

  // ---------------------------------------------------------------- positions

  function Inserted(s: seq<nat>, r: nat, x: nat): seq<nat>
    requires r <= |s|
  {
    s[..r] + [x] + s[r..]
  }

  lemma InsertedAt(s: seq<nat>, r: nat, x: nat, k: nat)
    requires r <= |s| && k <= |s|
    ensures |Inserted(s, r, x)| == |s| + 1
    ensures Inserted(s, r, x)[k] == if k < r then s[k] else if k == r then x else s[k - 1]
  {
  }

  lemma InsertedInArena(order: seq<nat>, r: nat, x: nat, n: nat)
    requires InArena(order, n) && r < |order| && x < n
    ensures |Inserted(order, r + 1, x)| == |order| + 1 && InArena(Inserted(order, r + 1, x), n)
  {
  }

  lemma InsertedDistinct(order: seq<nat>, r: nat, x: nat)
    requires r < |order| && Distinct(order) && x !in order
    ensures Distinct(Inserted(order, r + 1, x))
  {
  }

  function Without(s: seq<nat>, r: nat): seq<nat>
    requires r < |s|
  {
    s[..r] + s[r + 1..]
  }

  lemma WithoutAt(s: seq<nat>, r: nat, k: nat)
    requires r < |s| && k < |s| - 1
    ensures |Without(s, r)| == |s| - 1
    ensures Without(s, r)[k] == s[if k < r then k else k + 1]
  {
  }

  lemma InsertedWithout(s: seq<nat>, r: nat)
    requires r < |s|
    ensures |Without(s, r)| == |s| - 1 && Inserted(Without(s, r), r, s[r]) == s
  {
  }

  lemma WithoutDistinct(order: seq<nat>, r: nat)
    requires r < |order| && Distinct(order)
    ensures Distinct(Without(order, r)) && order[r] !in Without(order, r)
  {
  }

  lemma NotIn(order: seq<nat>, p: nat)
    requires Distinct(order) && p < |order|
    ensures order[p] !in Without(order, p)
  {
    WithoutDistinct(order, p);
  }

  /** Raising a tower of height `h` just after position `r` moves the next taller
      tower seen from the left of the gap ... */
  lemma NextLeftOfInsert(hs: seq<nat>, r: nat, h: nat, p: nat, l: nat)
    requires p <= r < |hs|
    ensures var q := NextFrom(hs, p + 1, l);
      NextFrom(Inserted(hs, r + 1, h), p + 1, l) == if q <= r then q else if h > l then r + 1 else q + 1
  {
    var hs' := Inserted(hs, r + 1, h);
    var q := NextFrom(hs, p + 1, l);
    var q' := if q <= r then q else if h > l then r + 1 else q + 1;
    forall k | p + 1 <= k < q'
      ensures hs'[k] <= l
    {
      assert hs'[k] == if k <= r then hs[k] else if k == r + 1 then h else hs[k - 1];
    }
    NextIs(hs', p + 1, l, q');
  }

  /** ... and shifts the one seen from the right of it. */
  lemma NextRightOfInsert(hs: seq<nat>, r: nat, h: nat, p: nat, l: nat)
    requires r <= p < |hs|
    ensures NextFrom(Inserted(hs, r + 1, h), p + 2, l) == NextFrom(hs, p + 1, l) + 1
  {
    var hs' := Inserted(hs, r + 1, h);
    var q := NextFrom(hs, p + 1, l);
    forall k | p + 2 <= k < q + 1
      ensures hs'[k] <= l
    {
      assert hs'[k] == hs[k - 1];
    }
    NextIs(hs', p + 2, l, q + 1);
  }

  /** The links of the grown list in terms of the old ones: the new tower takes
      over the rest of its predecessor's link, the predecessor reaches the new
      tower or one further over it, every other link is kept. */
  function GrownLink(order: seq<nat>, hs: seq<nat>, r: nat, x: nat, h: nat, pred: nat, p: nat, l: nat): Level
    requires |order| == |hs| && pred <= r < |hs| && p <= |hs|
    requires LinkAt(order, hs, pred, l).span >= r - pred
  {
    if p == r + 1 then var was := LinkAt(order, hs, pred, l); was.(span := was.span - (r - pred))
    else if p > r then LinkAt(order, hs, p - 1, l)
    else var was := LinkAt(order, hs, p, l);
      if p != pred then was else if l < h then Level(x, r + 1 - p) else was.(span := was.span + 1)
  }

  lemma LinkAfterInsert(order: seq<nat>, hs: seq<nat>, r: nat, x: nat, h: nat, pred: nat, p: nat, l: nat)
    requires |order| == |hs| && IsPred(hs, pred, r, l)
    requires p <= |hs| && (p <= r ==> hs[p] > l)
    ensures LinkAt(order, hs, pred, l).span >= r - pred
    ensures |Inserted(order, r + 1, x)| == |Inserted(hs, r + 1, h)| == |hs| + 1
    ensures LinkAt(Inserted(order, r + 1, x), Inserted(hs, r + 1, h), p, l) == GrownLink(order, hs, r, x, h, pred, p, l)
  {
    if p <= r {
      LinkLeftOfInsert(order, hs, r, x, h, p, l);
      assert p == pred || NextFrom(hs, p + 1, l) <= pred;
    } else if p == r + 1 {
      LinkOfInserted(order, hs, r, x, h, pred, l);
    } else {
      NextRightOfInsert(hs, r, h, p - 1, l);
    }
  }

  lemma LinkLeftOfInsert(order: seq<nat>, hs: seq<nat>, r: nat, x: nat, h: nat, p: nat, l: nat)
    requires |order| == |hs| && p <= r < |hs|
    ensures |Inserted(order, r + 1, x)| == |Inserted(hs, r + 1, h)| == |hs| + 1
    ensures var was := LinkAt(order, hs, p, l);
      LinkAt(Inserted(order, r + 1, x), Inserted(hs, r + 1, h), p, l) ==
      if NextFrom(hs, p + 1, l) <= r then was
      else if h > l then Level(x, r + 1 - p)
      else was.(span := was.span + 1)
  {
    NextLeftOfInsert(hs, r, h, p, l);
  }

  lemma LinkOfInserted(order: seq<nat>, hs: seq<nat>, r: nat, x: nat, h: nat, pred: nat, l: nat)
    requires |order| == |hs| && IsPred(hs, pred, r, l)
    ensures |Inserted(order, r + 1, x)| == |Inserted(hs, r + 1, h)| == |hs| + 1
    ensures var was := LinkAt(order, hs, pred, l);
      && was.span >= r - pred
      && LinkAt(Inserted(order, r + 1, x), Inserted(hs, r + 1, h), r + 1, l) == was.(span := was.span - (r - pred))
  {
    NextRightOfInsert(hs, r, h, r, l);
    NextIs(hs, r + 1, l, NextFrom(hs, pred + 1, l));
  }

  /** What one level of the grown list says about the list without slot `x`. */
  lemma GrownLinkHolds(ns: seq<Node>, order: seq<nat>, hs: seq<nat>, r: nat, x: nat, pred: nat, p: nat, l: nat)
    requires x < |ns| && |order| == |hs| && r < |hs|
    requires Fits(ns, Inserted(order, r + 1, x), Inserted(hs, r + 1, |ns[x].levels|))
    requires LevelOk(ns, Inserted(order, r + 1, x), Inserted(hs, r + 1, |ns[x].levels|), l)
    requires IsPred(hs, pred, r, l)
    requires p <= |order|
    requires (if p <= r then hs[p] else if p == r + 1 then |ns[x].levels| else hs[p - 1]) > l
    ensures LinkAt(order, hs, pred, l).span >= r - pred
    ensures var a := if p <= r then order[p] else if p == r + 1 then x else order[p - 1];
      a < |ns| && l < |ns[a].levels| &&
      ns[a].levels[l] == GrownLink(order, hs, r, x, |ns[x].levels|, pred, p, l)
  {
    InsertedAt(order, r + 1, x, p);
    InsertedAt(hs, r + 1, |ns[x].levels|, p);
    LinkAfterInsert(order, hs, r, x, |ns[x].levels|, pred, p, l);
    hide Inserted;
  }

  // ----------------------------------------------------------- editing levels

  function WithLevel(nodes: seq<Node>, a: nat, l: nat, v: Level): seq<Node>
    requires a < |nodes| && l < |nodes[a].levels|
  {
    nodes[a := nodes[a].(levels := nodes[a].levels[l := v])]
  }

  /** Same keys, back links and tower heights. */
  ghost predicate OnlyLinksDiffer(before: seq<Node>, after: seq<Node>) {
    && |before| == |after|
    && forall a :: 0 <= a < |before| ==>
      after[a].key == before[a].key && after[a].backward == before[a].backward && |after[a].levels| == |before[a].levels|
  }

  /** Put a header link that runs to the end on every level from `level` up, and
      make the header the predecessor there. */
  method RaiseHead(nodes: seq<Node>, level: nat, newLevel: nat, length: nat, update0: seq<nat>, rank0: seq<nat>)
    returns (ns: seq<Node>, update: seq<nat>, rank: seq<nat>)
    requires |nodes| > 0 && level <= newLevel <= MAX_LEVEL == |nodes[HEAD].levels| == |update0| == |rank0|
    ensures OnlyLinksDiffer(nodes, ns)
    ensures forall a :: 1 <= a < |ns| ==> ns[a] == nodes[a]
    ensures forall l :: 0 <= l < MAX_LEVEL ==>
      ns[HEAD].levels[l] == if level <= l < newLevel then Level(NIL, length) else nodes[HEAD].levels[l]
    ensures |update| == |rank| == MAX_LEVEL
    ensures forall l :: 0 <= l < MAX_LEVEL ==> update[l] == if level <= l < newLevel then HEAD else update0[l]
    ensures forall l :: 0 <= l < MAX_LEVEL ==> rank[l] == if level <= l < newLevel then 0 else rank0[l]
  {
    ns, update, rank := nodes, update0, rank0;
    for i := level to newLevel
      invariant OnlyLinksDiffer(nodes, ns)
      invariant forall a :: 1 <= a < |ns| ==> ns[a] == nodes[a]
      invariant forall l :: 0 <= l < MAX_LEVEL ==>
        ns[HEAD].levels[l] == if level <= l < i then Level(NIL, length) else nodes[HEAD].levels[l]
      invariant |update| == |rank| == MAX_LEVEL
      invariant forall l :: 0 <= l < MAX_LEVEL ==> update[l] == if level <= l < i then HEAD else update0[l]
      invariant forall l :: 0 <= l < MAX_LEVEL ==> rank[l] == if level <= l < i then 0 else rank0[l]
    {
      rank := rank[i := 0];
      update := update[i := HEAD];
      ns := WithLevel(ns, HEAD, i, Level(NIL, length));
    }
  }

  lemma RaiseKeepsLinks(before: seq<Node>, after: seq<Node>, order: seq<nat>, hs: seq<nat>, level: nat, level': nat)
    requires Shape(before, order, hs, level) && Linked(before, order, hs, level)
    requires level <= level' <= MAX_LEVEL && OnlyLinksDiffer(before, after)
    requires forall a :: 1 <= a < |after| ==> after[a] == before[a]
    requires forall l :: 0 <= l < MAX_LEVEL ==>
      after[HEAD].levels[l] == if level <= l < level' then Level(NIL, |order| - 1) else before[HEAD].levels[l]
    ensures Shape(after, order, hs[0 := level'], level') && Linked(after, order, hs[0 := level'], level')
    ensures Keys(after, order) == Keys(before, order)
  {
    hide LevelOk, NextFrom, Distinct;
    var hs' := hs[0 := level'];
    assert forall p :: 1 <= p < |order| ==> order[p] != HEAD by {
      RaiseDistinctHead(order);
    }
    forall l | 0 <= l < level'
      ensures LevelOk(after, order, hs', l)
    {
      assert l < level ==> LevelOk(before, order, hs, l);
      RaisedLevelOk(before, after, order, hs, level, level', l);
    }
  }

  lemma RaiseDistinctHead(order: seq<nat>)
    requires |order| > 0 && order[0] == HEAD && Distinct(order)
    ensures forall p :: 1 <= p < |order| ==> order[p] != HEAD
  {
  }

  lemma RaisedLevelOk(before: seq<Node>, after: seq<Node>, order: seq<nat>, hs: seq<nat>, level: nat, level': nat, l: nat)
    requires |order| > 0 && Fits(before, order, hs) && Fits(after, order, hs[0 := level'])
    requires hs[0] == level && forall p :: 1 <= p < |order| ==> hs[p] <= level && order[p] != HEAD
    requires order[0] == HEAD && level <= level' && l < level'
    requires l < level ==> LevelOk(before, order, hs, l)
    requires forall a :: 1 <= a < |after| ==> a < |before| && after[a] == before[a]
    requires after[HEAD].levels[l] == if level <= l then Level(NIL, |order| - 1) else before[HEAD].levels[l]
    ensures LevelOk(after, order, hs[0 := level'], l)
  {
    var hs' := hs[0 := level'];
    forall p | 0 <= p < |order| && hs'[p] > l
      ensures after[order[p]].levels[l] == LinkAt(order, hs', p, l)
    {
      NextIs(hs', p + 1, l, if l < level then NextFrom(hs, p + 1, l) else |hs|);
    }
  }

  lemma RaiseKeepsCore(before: seq<Node>, after: seq<Node>, tail: nat, level: nat, level': nat, length: nat,
                       order: seq<nat>, hs: seq<nat>)
    requires Core(before, tail, level, length, order, hs)
    requires level <= level' <= MAX_LEVEL && OnlyLinksDiffer(before, after)
    requires forall a :: 1 <= a < |after| ==> after[a] == before[a]
    requires |after[HEAD].levels| == MAX_LEVEL == |before[HEAD].levels|
    requires forall l :: 0 <= l < MAX_LEVEL ==>
      after[HEAD].levels[l] == if level <= l < level' then Level(NIL, length) else before[HEAD].levels[l]
    ensures Core(after, tail, level', length, order, hs[0 := level'])
    ensures Keys(after, order) == Keys(before, order)
  {
    RaiseKeepsLinks(before, after, order, hs, level, level');
  }

  lemma RaisedPreds(order: seq<nat>, hs: seq<nat>, level: nat, level': nat, r: nat,
                    update: seq<nat>, rank: seq<nat>, update': seq<nat>, rank': seq<nat>)
    requires Preds(order, hs, level, r, update, rank) && 1 <= level <= level' <= MAX_LEVEL
    requires order[0] == HEAD && forall p :: 1 <= p < |hs| ==> hs[p] <= level
    requires |update'| == |rank'| == MAX_LEVEL
    requires forall l :: 0 <= l < MAX_LEVEL ==> update'[l] == if level <= l < level' then HEAD else update[l]
    requires forall l :: 0 <= l < MAX_LEVEL ==> rank'[l] == if level <= l < level' then 0 else rank[l]
    ensures |hs| > 0 && Preds(order, hs[0 := level'], level', r, update', rank') && rank'[0] == rank[0]
  {
    forall l | 0 <= l < level'
      ensures IsPred(hs[0 := level'], rank'[l], r, l) && update'[l] == order[rank'[l]]
    {
      assert l < level ==> IsPred(hs, rank[l], r, l);
    }
  }

  lemma RaisedTop(hs: seq<nat>, level: nat, hs': seq<nat>, level': nat, r: nat, h: nat)
    requires |hs| >= 1 && TopUsed(hs, level) && r < |hs|
    requires if h > level then level' == h && hs' == hs[0 := h] else level' == level && hs' == hs
    ensures TopUsed(Inserted(hs', r + 1, h), level')
  {
    FinishInsertTop(hs', level', r, h);
  }

  lemma FinishInsertTop(hs: seq<nat>, level: nat, r: nat, h: nat)
    requires r < |hs| && (TopUsed(hs, level) || h == level)
    ensures TopUsed(Inserted(hs, r + 1, h), level)
  {
    if level > 1 {
      NextLeftOfInsert(hs, r, h, 0, level - 1);
    }
  }

  /** One level of the splice: the new tower takes over the rest of its
      predecessor's link, or the link over it gains one element of span. */
  function SpliceLevel(ns: seq<Node>, x: nat, h: nat, up: nat, step: nat, l: nat): seq<Node>
    requires up < |ns| && l < |ns[up].levels|
    requires x < |ns| && |ns[x].levels| == h && (l < h ==> ns[up].levels[l].span >= step)
  {
    var prev := ns[up].levels[l];
    if l < h then
      WithLevel(WithLevel(ns, x, l, Level(prev.forward, prev.span - step)), up, l, Level(x, step + 1))
    else
      WithLevel(ns, up, l, prev.(span := prev.span + 1))
  }

  lemma SpliceLevelEffect(ns: seq<Node>, x: nat, h: nat, up: nat, step: nat, l: nat)
    requires up < |ns| && l < |ns[up].levels| && x != up
    requires x < |ns| && |ns[x].levels| == h && (l < h ==> ns[up].levels[l].span >= step)
    ensures var ns' := SpliceLevel(ns, x, h, up, step, l);
      var was := ns[up].levels[l];
      && OnlyLinksDiffer(ns, ns')
      && ns'[up].levels[l] == (if l < h then Level(x, step + 1) else was.(span := was.span + 1))
      && (l < h ==> ns'[x].levels[l] == was.(span := was.span - step))
      && (forall a, k :: 0 <= a < |ns| && 0 <= k < |ns[a].levels| && (k != l || (a != up && (a != x || l >= h))) ==>
            ns'[a].levels[k] == ns[a].levels[k])
  {
  }

  lemma SplicedFits(ns: seq<Node>, order: seq<nat>, hs: seq<nat>, r: nat, x: nat)
    requires Fits(ns, order, hs) && r < |hs| && x < |ns|
    ensures Fits(ns, Inserted(order, r + 1, x), Inserted(hs, r + 1, |ns[x].levels|))
  {
    var order', hs' := Inserted(order, r + 1, x), Inserted(hs, r + 1, |ns[x].levels|);
    forall p | 0 <= p < |order'|
      ensures order'[p] < |ns| && hs'[p] <= |ns[order'[p]].levels|
    {
      assert p == r + 1 || order'[p] == order[if p <= r then p else p - 1];
    }
  }

  /** Splicing one level makes it right for the grown list. */
  lemma SpliceLevelOk(ns: seq<Node>, order: seq<nat>, hs: seq<nat>, r: nat, x: nat, pred: nat, l: nat)
    requires Fits(ns, order, hs) && LevelOk(ns, order, hs, l)
    requires Distinct(order)
    requires x < |ns| && x !in order
    requires IsPred(hs, pred, r, l)
    ensures LinkAt(order, hs, pred, l).span >= r - pred
    ensures ns[order[pred]].levels[l] == LinkAt(order, hs, pred, l)
    ensures var h := |ns[x].levels|;
      var ns' := SpliceLevel(ns, x, h, order[pred], r - pred, l);
      && Fits(ns', Inserted(order, r + 1, x), Inserted(hs, r + 1, h))
      && LevelOk(ns', Inserted(order, r + 1, x), Inserted(hs, r + 1, h), l)
  {
    assert NextFrom(hs, pred + 1, l) > r;
    hide Inserted, NextFrom, Distinct, SpliceLevel;
    var h := |ns[x].levels|;
    var ns' := SpliceLevel(ns, x, h, order[pred], r - pred, l);
    SpliceLevelEffect(ns, x, h, order[pred], r - pred, l);
    SplicedFits(ns', order, hs, r, x);
    var order', hs' := Inserted(order, r + 1, x), Inserted(hs, r + 1, h);
    forall p | 0 <= p < |order'| && hs'[p] > l
      ensures ns'[order'[p]].levels[l] == LinkAt(order', hs', p, l)
    {
      SplicedLinkOk(ns, ns', order, hs, r, x, h, pred, p, l);
    }
  }

  lemma SplicedLinkOk(ns: seq<Node>, ns': seq<Node>, order: seq<nat>, hs: seq<nat>, r: nat, x: nat, h: nat, pred: nat, p: nat, l: nat)
    requires Fits(ns, order, hs) && LevelOk(ns, order, hs, l) && Fits(ns', order, hs)
    requires Distinct(order)
    requires x < |ns'| && x !in order && |ns'[x].levels| == h
    requires IsPred(hs, pred, r, l) && ns[order[pred]].levels[l].span >= r - pred
    requires var was := ns[order[pred]].levels[l];
      && ns'[order[pred]].levels[l] == (if l < h then Level(x, r + 1 - pred) else was.(span := was.span + 1))
      && (l < h ==> ns'[x].levels[l] == was.(span := was.span - (r - pred)))
    requires forall q :: 0 <= q < |order| && q != pred && hs[q] > l ==> ns'[order[q]].levels[l] == ns[order[q]].levels[l]
    requires p <= |order| && Inserted(hs, r + 1, h)[p] > l
    ensures |Inserted(order, r + 1, x)| == |Inserted(hs, r + 1, h)| == |hs| + 1
    ensures Inserted(order, r + 1, x)[p] < |ns'| && l < |ns'[Inserted(order, r + 1, x)[p]].levels|
    ensures ns'[Inserted(order, r + 1, x)[p]].levels[l] == LinkAt(Inserted(order, r + 1, x), Inserted(hs, r + 1, h), p, l)
  {
    hide Inserted, NextFrom;
    InsertedAt(order, r + 1, x, p);
    InsertedAt(hs, r + 1, h, p);
    LinkAfterInsert(order, hs, r, x, h, pred, p, l);
  }

  /** The tower of slot `x` is spliced in after position `r` on the levels below
      `n`; the levels from `n` up are still those of the list without it. */
  ghost predicate HalfSpliced(ns: seq<Node>, order: seq<nat>, hs: seq<nat>, level: nat, r: nat, x: nat, n: nat) {
    && x < |ns| && r < |hs| == |order|
    && Fits(ns, order, hs) && Fits(ns, Inserted(order, r + 1, x), Inserted(hs, r + 1, |ns[x].levels|))
    && Linked(ns, Inserted(order, r + 1, x), Inserted(hs, r + 1, |ns[x].levels|), n)
    && (forall l :: n <= l < level ==> LevelOk(ns, order, hs, l))
  }

  lemma StartSplice(nodes: seq<Node>, order: seq<nat>, hs: seq<nat>, level: nat, r: nat, x: nat)
    requires Shape(nodes, order, hs, level) && Linked(nodes, order, hs, level)
    requires r < |order| && x < |nodes|
    ensures HalfSpliced(nodes, order, hs, level, r, x, 0) && Distinct(order)
  {
    SplicedFits(nodes, order, hs, r, x);
  }

  lemma SpliceStep(ns: seq<Node>, order: seq<nat>, hs: seq<nat>, level: nat, r: nat, x: nat, pred: nat, l: nat)
    requires HalfSpliced(ns, order, hs, level, r, x, l) && l < level
    requires Distinct(order)
    requires x !in order && IsPred(hs, pred, r, l)
    ensures pred <= r && order[pred] < |ns| && l < |ns[order[pred]].levels|
    ensures ns[order[pred]].levels[l].span >= r - pred
    ensures OnlyLinksDiffer(ns, SpliceLevel(ns, x, |ns[x].levels|, order[pred], r - pred, l))
    ensures HalfSpliced(SpliceLevel(ns, x, |ns[x].levels|, order[pred], r - pred, l), order, hs, level, r, x, l + 1)
  {
    hide Inserted, NextFrom;
    SpliceLevelOk(ns, order, hs, r, x, pred, l);
    SpliceLevelEffect(ns, x, |ns[x].levels|, order[pred], r - pred, l);
    var ns' := SpliceLevel(ns, x, |ns[x].levels|, order[pred], r - pred, l);
    var order', hs' := Inserted(order, r + 1, x), Inserted(hs, r + 1, |ns[x].levels|);
    forall k | 0 <= k < l
      ensures LevelOk(ns', order', hs', k)
    {
      LevelFrame(ns, ns', order', hs', k);
    }
    forall k | l < k < level
      ensures LevelOk(ns', order, hs, k)
    {
      LevelFrame(ns, ns', order, hs, k);
    }
  }

  /** Splice the tower of slot `x` into every level, lowest first. */
  method LinkTower(nodes: seq<Node>, x: nat, level: nat, update: seq<nat>, rank: seq<nat>,
                   ghost order: seq<nat>, ghost hs: seq<nat>)
    returns (ns: seq<Node>)
    requires Shape(nodes, order, hs, level) && Linked(nodes, order, hs, level)
    requires |rank| == MAX_LEVEL && Preds(order, hs, level, rank[0], update, rank)
    requires x < |nodes| && x !in order && |nodes[x].levels| <= level
    ensures OnlyLinksDiffer(nodes, ns)
    ensures HalfSpliced(ns, order, hs, level, rank[0], x, level)
  {
    hide Shape, Linked, LevelOk, Fits, HalfSpliced, Distinct, IsPred, InArena, Inserted, SpliceLevel;
    ns := nodes;
    StartSplice(nodes, order, hs, level, rank[0], x);
    for i := 0 to level
      invariant OnlyLinksDiffer(nodes, ns)
      invariant HalfSpliced(ns, order, hs, level, rank[0], x, i)
    {
      SpliceStep(ns, order, hs, level, rank[0], x, rank[i], i);
      ns := SpliceLevel(ns, x, |ns[x].levels|, update[i], rank[0] - rank[i], i);
    }
  }

  /** One level of an unlink: step over slot `x` if linked to it, else the link
      spans one element less. */
  function UnspliceLevel(ns: seq<Node>, x: nat, up: nat, l: nat): seq<Node>
    requires up < |ns| && l < |ns[up].levels| && ns[up].levels[l].span >= 1
    requires ns[up].levels[l].forward == x ==> x < |ns| && l < |ns[x].levels|
  {
    var ul := ns[up].levels[l];
    if ul.forward == x then
      var xl := ns[x].levels[l];
      WithLevel(ns, up, l, Level(xl.forward, ul.span + xl.span - 1))
    else
      WithLevel(ns, up, l, ul.(span := ul.span - 1))
  }

  lemma UnspliceLevelOk(ns: seq<Node>, order: seq<nat>, hs: seq<nat>, r: nat, x: nat, pred: nat, l: nat)
    requires x < |ns| <= NIL && x !in order
    requires Fits(ns, order, hs) && r < |hs|
    requires Fits(ns, Inserted(order, r + 1, x), Inserted(hs, r + 1, |ns[x].levels|))
    requires LevelOk(ns, Inserted(order, r + 1, x), Inserted(hs, r + 1, |ns[x].levels|), l)
    requires Distinct(order)
    requires IsPred(hs, pred, r, l)
    ensures var ul := ns[order[pred]].levels[l];
      ul.span >= 1 && (ul.forward == x <==> l < |ns[x].levels|)
    ensures Fits(UnspliceLevel(ns, x, order[pred], l), order, hs)
    ensures LevelOk(UnspliceLevel(ns, x, order[pred], l), order, hs, l)
  {
    var h := |ns[x].levels|;
    var up := order[pred];
    GrownLinkHolds(ns, order, hs, r, x, pred, pred, l);
    if l < h {
      GrownLinkHolds(ns, order, hs, r, x, pred, r + 1, l);
    }
    assert NextFrom(hs, pred + 1, l) > r;
    hide Inserted, NextFrom;
    var ns' := UnspliceLevel(ns, x, up, l);
    forall p | 0 <= p < |order| && hs[p] > l
      ensures ns'[order[p]].levels[l] == LinkAt(order, hs, p, l)
    {
      assert order[p] == up <==> p == pred;
      GrownLinkHolds(ns, order, hs, r, x, pred, if p <= r then p else p + 1, l);
    }
  }

  ghost predicate HalfUnspliced(ns: seq<Node>, order: seq<nat>, hs: seq<nat>, level: nat, r: nat, x: nat, n: nat) {
    && x < |ns| && r < |hs| == |order|
    && Fits(ns, order, hs) && Fits(ns, Inserted(order, r + 1, x), Inserted(hs, r + 1, |ns[x].levels|))
    && Linked(ns, order, hs, n)
    && LinkedFrom(ns, Inserted(order, r + 1, x), Inserted(hs, r + 1, |ns[x].levels|), n, level)
  }

  lemma UnspliceStep(ns: seq<Node>, order: seq<nat>, hs: seq<nat>, level: nat, r: nat, x: nat, pred: nat, l: nat)
    requires HalfUnspliced(ns, order, hs, level, r, x, l) && l < level
    requires |ns| <= NIL && Distinct(order) && x !in order && IsPred(hs, pred, r, l)
    ensures x < |ns| && order[pred] < |ns| && l < |ns[order[pred]].levels|
    ensures var ul := ns[order[pred]].levels[l];
      ul.span >= 1 && (ul.forward == x <==> l < |ns[x].levels|)
    ensures OnlyLinksDiffer(ns, UnspliceLevel(ns, x, order[pred], l)) && UnspliceLevel(ns, x, order[pred], l)[x] == ns[x]
    ensures HalfUnspliced(UnspliceLevel(ns, x, order[pred], l), order, hs, level, r, x, l + 1)
  {
    hide Inserted, NextFrom;
    var order', hs' := Inserted(order, r + 1, x), Inserted(hs, r + 1, |ns[x].levels|);
    assert LevelOk(ns, order', hs', l);
    UnspliceLevelOk(ns, order, hs, r, x, pred, l);
    var ns' := UnspliceLevel(ns, x, order[pred], l);
    forall k | 0 <= k < l
      ensures LevelOk(ns', order, hs, k)
    {
      LevelFrame(ns, ns', order, hs, k);
    }
    forall k | l < k < level
      ensures LevelOk(ns', order', hs', k)
    {
      LevelFrame(ns, ns', order', hs', k);
    }
  }

  /** Take the tower of slot `x` out of every level, lowest first. */
  method UnlinkTower(nodes: seq<Node>, x: nat, level: nat, update: seq<nat>,
                     ghost rank: seq<nat>, ghost r: nat, ghost order: seq<nat>, ghost hs: seq<nat>)
    returns (ns: seq<Node>)
    requires HalfUnspliced(nodes, order, hs, level, r, x, 0)
    requires |nodes| <= NIL && Distinct(order) && x !in order && x < |nodes| && level <= MAX_LEVEL
    requires Preds(order, hs, level, r, update, rank)
    ensures OnlyLinksDiffer(nodes, ns) && ns[x] == nodes[x]
    ensures HalfUnspliced(ns, order, hs, level, r, x, level)
  {
    hide Linked, LinkedFrom, LevelOk, Fits, Distinct, IsPred, Inserted, UnspliceLevel;
    ns := nodes;
    for i := 0 to level
      invariant OnlyLinksDiffer(nodes, ns) && ns[x] == nodes[x]
      invariant HalfUnspliced(ns, order, hs, level, r, x, i)
    {
      UnspliceStep(ns, order, hs, level, r, x, rank[i], i);
      ns := UnspliceLevel(ns, x, update[i], i);
    }
  }

  // --------------------------------------------------- finishing an insertion

  function WithBack(nodes: seq<Node>, a: nat, b: nat): seq<Node>
    requires a < |nodes|
  {
    nodes[a := nodes[a].(backward := b)]
  }

  /** Same keys and links. */
  ghost predicate OnlyBacksDiffer(before: seq<Node>, after: seq<Node>) {
    && |before| == |after|
    && forall a :: 0 <= a < |before| ==> after[a].key == before[a].key && after[a].levels == before[a].levels
  }

  lemma BacksKeepLinks(before: seq<Node>, after: seq<Node>, order: seq<nat>, hs: seq<nat>, level: nat)
    requires OnlyBacksDiffer(before, after) && Fits(before, order, hs) && Linked(before, order, hs, level)
    ensures Fits(after, order, hs) && Linked(after, order, hs, level)
  {
    SameLevelsSameLinks(before, after, order, hs, level);
  }

  /** Set the back link of `x`, and that of its successor if it has one. */
  function SetBacks(ns: seq<Node>, x: nat, back: nat): seq<Node>
    requires x < |ns| && |ns[x].levels| >= 1
    requires ns[x].levels[0].forward != NIL ==> ns[x].levels[0].forward < |ns|
  {
    var fwd := ns[x].levels[0].forward;
    if fwd == NIL then WithBack(ns, x, back) else WithBack(WithBack(ns, x, back), fwd, x)
  }

  lemma SetBacksEffect(ns: seq<Node>, x: nat, back: nat)
    requires x < |ns| && |ns[x].levels| >= 1 && ns[x].levels[0].forward != x
    requires ns[x].levels[0].forward != NIL ==> ns[x].levels[0].forward < |ns|
    ensures OnlyBacksDiffer(ns, SetBacks(ns, x, back))
    ensures forall a :: 0 <= a < |ns| ==>
      SetBacks(ns, x, back)[a].backward ==
      if a == x then back else if a == ns[x].levels[0].forward && a != NIL then x else ns[a].backward
  {
  }

  lemma BackAtInserted(order: seq<nat>, r: nat, x: nat, p: nat)
    requires r < |order| && 1 <= p <= |order| + 1
    ensures |Inserted(order, r + 1, x)| == |order| + 1
    ensures BackAt(Inserted(order, r + 1, x), p) ==
      if p <= r + 1 then BackAt(order, p) else if p == r + 2 then x else BackAt(order, p - 1)
  {
  }

  /** After the tower is linked in and the back links are set, the arena is in
      shape for the grown list. */
  lemma FinishInsertShape(before: seq<Node>, after: seq<Node>, order: seq<nat>, hs: seq<nat>, level: nat, r: nat, x: nat)
    requires Shape(before, order, hs, level) && r < |order|
    requires |after| == |before| && forall a :: 0 <= a < |after| ==> |after[a].levels| == |before[a].levels|
    requires x < |before| && x !in order && 1 <= |before[x].levels| <= level
    ensures Shape(after, Inserted(order, r + 1, x), Inserted(hs, r + 1, |before[x].levels|), level)
  {
    var h := |before[x].levels|;
    var order', hs' := Inserted(order, r + 1, x), Inserted(hs, r + 1, h);
    InsertedAt(order, r + 1, x, 0);
    InsertedAt(hs, r + 1, h, 0);
    InsertedInArena(order, r, x, |after|);
    InsertedDistinct(order, r, x);
    forall p | 1 <= p < |order'|
      ensures 1 <= hs'[p] <= level && |after[order'[p]].levels| == hs'[p]
    {
      hide Inserted, Distinct;
      InsertedAt(order, r + 1, x, p);
      InsertedAt(hs, r + 1, h, p);
    }
    hide Inserted, Distinct, InArena;
  }

  lemma FinishInsertBackAt(before: seq<Node>, after: seq<Node>, order: seq<nat>, tail: nat, r: nat, x: nat, p: nat)
    requires r < |order| && x < |before| == |after| && InArena(order, |before|) && BackLinked(before, order, tail)
    requires after[x].backward == BackAt(order, r + 1)
    requires r + 1 < |order| ==> after[order[r + 1]].backward == x
    requires forall p :: 0 <= p < |order| && p != r + 1 ==> after[order[p]].backward == before[order[p]].backward
    requires 1 <= p <= |order|
    ensures |Inserted(order, r + 1, x)| == |order| + 1 && Inserted(order, r + 1, x)[p] < |after|
    ensures after[Inserted(order, r + 1, x)[p]].backward == BackAt(Inserted(order, r + 1, x), p)
  {
    hide Inserted, BackAt;
    InsertedAt(order, r + 1, x, p);
    BackAtInserted(order, r, x, p);
    if p > r + 1 {
      assert after[order[p - 1]].backward == if p == r + 2 then x else before[order[p - 1]].backward;
    }
  }

  lemma FinishInsertBacks(before: seq<Node>, after: seq<Node>, order: seq<nat>, tail: nat, r: nat, x: nat)
    requires r < |order| && Distinct(order) && x !in order && x < |before| == |after|
    requires InArena(order, |before|)
    requires BackLinked(before, order, tail)
    requires after[x].backward == BackAt(order, r + 1)
    requires r + 1 < |order| ==> after[order[r + 1]].backward == x
    requires forall p :: 0 <= p < |order| && p != r + 1 ==> after[order[p]].backward == before[order[p]].backward
    ensures |Inserted(order, r + 1, x)| == |order| + 1 && InArena(Inserted(order, r + 1, x), |after|)
    ensures BackLinked(after, Inserted(order, r + 1, x), if r + 1 == |order| then x else tail)
  {
    hide Inserted, Distinct, BackAt, InArena;
    var order' := Inserted(order, r + 1, x);
    InsertedInArena(order, r, x, |after|);
    BackAtInserted(order, r, x, |order| + 1);
    TailIs(before, order, tail);
    forall p | 1 <= p < |order'|
      ensures order'[p] < |after| && after[order'[p]].backward == BackAt(order', p)
    {
      FinishInsertBackAt(before, after, order, tail, r, x, p);
    }
  }

  lemma TailIs(nodes: seq<Node>, order: seq<nat>, tail: nat)
    requires |order| >= 1 && InArena(order, |nodes|) && BackLinked(nodes, order, tail)
    ensures tail == BackAt(order, |order|)
  {
  }

  lemma FinishInsertKeys(before: seq<Node>, after: seq<Node>, order: seq<nat>, r: nat, x: nat)
    requires r < |order| && x < |after|
    requires InArena(order, |before|) && |before| <= |after|
    requires forall p :: 0 <= p < |order| ==> after[order[p]].key == before[order[p]].key
    ensures |Inserted(order, r + 1, x)| == |order| + 1 && InArena(Inserted(order, r + 1, x), |after|)
    ensures Keys(after, Inserted(order, r + 1, x)) == InsertKey(Keys(before, order), r, after[x].key)
  {
  }

  lemma FinishInsertPartition(n: nat, n': nat, order: seq<nat>, free: seq<nat>, r: nat, x: nat)
    requires Partitioned(n, order, free) && r < |order|
    requires if |free| > 0 then x == free[|free| - 1] && n' == n else x == n && n' == n + 1
    requires InArena(order, n)
    ensures x !in order
    ensures Partitioned(n', Inserted(order, r + 1, x), if |free| > 0 then free[..|free| - 1] else free)
  {
    var order' := Inserted(order, r + 1, x);
    var free' := if |free| > 0 then free[..|free| - 1] else free;
    forall a
      ensures a in order' <==> a in order || a == x
    {
      if a in order {
        var p :| 0 <= p < |order| && order[p] == a;
        assert order'[if p <= r then p else p + 1] == a;
      }
      assert order'[r + 1] == x;
    }
    hide Inserted;
    forall a | 0 <= a < n'
      ensures a in order' || a in free'
    {
      if a in free && a != x {
        var i :| 0 <= i < |free| && free[i] == a;
        assert free'[i] == a;
      }
    }
  }

  /** What a finished insertion has made of the arena. */
  ghost predicate Finished(before: seq<Node>, after: seq<Node>, order: seq<nat>, hs: seq<nat>, level: nat,
                           tail: nat, r: nat, x: nat)
    requires x < |before| && r < |order| == |hs| && InArena(order, |before|)
  {
    var order', hs' := Inserted(order, r + 1, x), Inserted(hs, r + 1, |before[x].levels|);
    && |after| == |before|
    && Shape(after, order', hs', level) && Linked(after, order', hs', level)
    && BackLinked(after, order', tail)
    && Keys(after, order') == InsertKey(Keys(before, order), r, before[x].key)
  }

  lemma FinishInsert(before: seq<Node>, ns: seq<Node>, order: seq<nat>, hs: seq<nat>, level: nat, tail: nat,
                     update: seq<nat>, rank: seq<nat>, x: nat)
    requires Shape(before, order, hs, level) && BackLinked(before, order, tail)
    requires |rank| == MAX_LEVEL && Preds(order, hs, level, rank[0], update, rank)
    requires x < |before| && x !in order && 1 <= |before[x].levels| <= level
    requires OnlyLinksDiffer(before, ns) && HalfSpliced(ns, order, hs, level, rank[0], x, level)
    ensures |update| > 0 && rank[0] < |order| == |hs| && InArena(order, |before|)
    ensures x < |ns| && |ns[x].levels| == |before[x].levels|
    ensures var fwd := ns[x].levels[0].forward;
      && (fwd != NIL ==> fwd < |ns|)
      && Finished(before, SetBacks(ns, x, if update[0] == HEAD then NIL else update[0]),
                  order, hs, level, if fwd == NIL then x else tail, rank[0], x)
  {
    hide Shape, Linked, BackLinked, Fits, HalfSpliced, Distinct, InArena, Preds, SetBacks, Keys,
      Inserted, InsertKey, BackAt, OnlyLinksDiffer, OnlyBacksDiffer, Finished;
    FinishInsertFacts(before, ns, order, hs, level, tail, update, rank, x);
    var r := rank[0];
    var after := SetBacks(ns, x, if update[0] == HEAD then NIL else update[0]);
    FinishInsertBacks(before, after, order, tail, r, x);
    FinishInsertKeys(before, after, order, r, x);
    FinishInsertShape(before, after, order, hs, level, r, x);
    BacksKeepLinks(ns, after, Inserted(order, r + 1, x), Inserted(hs, r + 1, |ns[x].levels|), level);
    FinishedIs(before, after, order, hs, level, if ns[x].levels[0].forward == NIL then x else tail, r, x);
  }

  lemma FinishedIs(before: seq<Node>, after: seq<Node>, order: seq<nat>, hs: seq<nat>, level: nat, tail: nat, r: nat, x: nat)
    requires x < |before| && r < |order| == |hs| && InArena(order, |before|)
    requires |after| == |before|
    requires Shape(after, Inserted(order, r + 1, x), Inserted(hs, r + 1, |before[x].levels|), level)
    requires Linked(after, Inserted(order, r + 1, x), Inserted(hs, r + 1, |before[x].levels|), level)
    requires BackLinked(after, Inserted(order, r + 1, x), tail)
    requires Keys(after, Inserted(order, r + 1, x)) == InsertKey(Keys(before, order), r, before[x].key)
    ensures Finished(before, after, order, hs, level, tail, r, x)
  {
  }

  lemma FinishInsertFacts(before: seq<Node>, ns: seq<Node>, order: seq<nat>, hs: seq<nat>, level: nat, tail: nat,
                          update: seq<nat>, rank: seq<nat>, x: nat)
    requires Shape(before, order, hs, level) && BackLinked(before, order, tail)
    requires |rank| == MAX_LEVEL && Preds(order, hs, level, rank[0], update, rank)
    requires x < |before| && x !in order && 1 <= |before[x].levels| <= level
    requires OnlyLinksDiffer(before, ns) && HalfSpliced(ns, order, hs, level, rank[0], x, level)
    ensures |update| > 0 && rank[0] < |order| == |hs| && InArena(order, |before|) && Distinct(order)
    ensures x < |ns| == |before| && |ns[x].levels| == |before[x].levels|
    ensures Fits(ns, Inserted(order, rank[0] + 1, x), Inserted(hs, rank[0] + 1, |ns[x].levels|))
    ensures Linked(ns, Inserted(order, rank[0] + 1, x), Inserted(hs, rank[0] + 1, |ns[x].levels|), level)
    ensures var fwd := ns[x].levels[0].forward;
      && (fwd == NIL <==> rank[0] + 1 == |order|)
      && (fwd != NIL ==> fwd < |ns| && fwd == order[rank[0] + 1])
    ensures var after := SetBacks(ns, x, if update[0] == HEAD then NIL else update[0]);
      && OnlyBacksDiffer(ns, after) && |after| == |ns|
      && (forall a :: 0 <= a < |after| ==> |after[a].levels| == |before[a].levels|)
      && (forall p :: 0 <= p < |order| ==> after[order[p]].key == before[order[p]].key)
      && after[x].key == before[x].key
      && after[x].backward == BackAt(order, rank[0] + 1)
      && (rank[0] + 1 < |order| ==> after[order[rank[0] + 1]].backward == x)
      && (forall p :: 0 <= p < |order| && p != rank[0] + 1 ==> after[order[p]].backward == before[order[p]].backward)
  {
    hide SetBacks, HalfSpliced, Inserted, Linked, Preds, IsPred, Fits, BackLinked, BackAt, Shape, Distinct, InArena;
    var r := rank[0];
    FirstPred(before, order, hs, level, tail, update, rank);
    SplicedLevelZero(ns, order, hs, level, r, x);
    assert r + 1 < |order| ==> order[r + 1] in order;
    SetBacksEffect(ns, x, if update[0] == HEAD then NIL else update[0]);
    HalfSplicedLinked(ns, order, hs, level, r, x);
  }

  /** What the level-0 predecessor of an insertion is. */
  lemma FirstPred(before: seq<Node>, order: seq<nat>, hs: seq<nat>, level: nat, tail: nat, update: seq<nat>, rank: seq<nat>)
    requires Shape(before, order, hs, level) && BackLinked(before, order, tail)
    requires |rank| == MAX_LEVEL && Preds(order, hs, level, rank[0], update, rank)
    ensures var r := rank[0];
      && |update| > 0 && r < |order| == |hs| && InArena(order, |before|) && Distinct(order) && level >= 1
      && update[0] == order[r] && (order[r] == HEAD <==> r == 0)
      && BackAt(order, r + 1) == (if update[0] == HEAD then NIL else update[0])
      && (r + 1 < |order| ==> order[r + 1] < NIL && order[r + 1] < |before|)
      && |before| <= NIL
      && (forall p :: 0 <= p < |order| ==> order[p] < |before| && hs[p] >= 1)
      && (forall p, q :: 0 <= p < q < |order| ==> order[p] != order[q])
  {
    assert IsPred(hs, rank[0], rank[0], 0);
    forall p | 0 <= p < |order|
      ensures order[p] < |before| && hs[p] >= 1
    {
      if p > 0 {
        assert 1 <= hs[p] <= level;
      }
    }
  }

  lemma HalfSplicedLinked(ns: seq<Node>, order: seq<nat>, hs: seq<nat>, level: nat, r: nat, x: nat)
    requires HalfSpliced(ns, order, hs, level, r, x, level)
    ensures Fits(ns, Inserted(order, r + 1, x), Inserted(hs, r + 1, |ns[x].levels|))
    ensures Linked(ns, Inserted(order, r + 1, x), Inserted(hs, r + 1, |ns[x].levels|), level)
  {
  }

  lemma SplicedLevelZero(ns: seq<Node>, order: seq<nat>, hs: seq<nat>, level: nat, r: nat, x: nat)
    requires HalfSpliced(ns, order, hs, level, r, x, level) && level >= 1 && |ns[x].levels| >= 1
    requires forall p :: 0 <= p < |order| ==> hs[p] >= 1
    ensures ns[x].levels[0].forward == if r + 1 < |order| then order[r + 1] else NIL
  {
    var order', hs' := Inserted(order, r + 1, x), Inserted(hs, r + 1, |ns[x].levels|);
    assert LevelOk(ns, order', hs', 0);
    assert order'[r + 1] == x && hs'[r + 1] == |ns[x].levels|;
    if r + 1 < |order| {
      assert hs'[r + 2] == hs[r + 1] >= 1;
    }
  }

  lemma InsertDone(mid: seq<Node>, after: seq<Node>, free: seq<nat>, level: nat, length: nat, length': nat,
                   order: seq<nat>, order': seq<nat>, hs: seq<nat>, hs': seq<nat>, tail: nat, r: nat, x: nat)
    requires x < |mid| && r < |order| == |hs| == length + 1 && InArena(order, |mid|) && length' == length + 1
    requires Finished(mid, after, order, hs, level, tail, r, x)
    requires order' == Inserted(order, r + 1, x) && hs' == Inserted(hs, r + 1, |mid[x].levels|)
    requires Partitioned(|mid|, order', free) && TopUsed(hs', level)
    requires Sorted(InsertKey(Keys(mid, order), r, mid[x].key))
    requires DistinctMembers(InsertKey(Keys(mid, order), r, mid[x].key))
    ensures Inv(after, free, tail, level, length', order', hs')
    ensures Keys(after, order') == InsertKey(Keys(mid, order), r, mid[x].key)
  {
  }

  // ----------------------------------------------------- finishing a deletion

  lemma PredsWithout(order: seq<nat>, hs: seq<nat>, level: nat, r: nat, update: seq<nat>, rank: seq<nat>)
    requires Preds(order, hs, level, r, update, rank) && r + 1 < |order|
    ensures Preds(Without(order, r + 1), Without(hs, r + 1), level, r, update, rank)
  {
  }

  lemma FitsWithout(nodes: seq<Node>, order: seq<nat>, hs: seq<nat>, r: nat)
    requires Fits(nodes, order, hs) && r + 1 < |order|
    ensures Fits(nodes, Without(order, r + 1), Without(hs, r + 1))
  {
  }

  lemma StartUnsplice(nodes: seq<Node>, tail: nat, level: nat, length: nat, order: seq<nat>, hs: seq<nat>,
                      r: nat, update: seq<nat>, rank: seq<nat>)
    requires Core(nodes, tail, level, length, order, hs) && r < length
    requires Preds(order, hs, level, r, update, rank)
    ensures var order', hs', x := Without(order, r + 1), Without(hs, r + 1), order[r + 1];
      && HalfUnspliced(nodes, order', hs', level, r, x, 0)
      && Distinct(order') && x !in order' && x < |nodes|
      && Preds(order', hs', level, r, update, rank)
      && |nodes[x].levels| == hs[r + 1] >= 1
      && order == Inserted(order', r + 1, x) && hs == Inserted(hs', r + 1, hs[r + 1])
  {
    hide Distinct, LevelOk, NextFrom, Inserted, Without, BackLinked, Preds;
    InsertedWithout(order, r + 1);
    InsertedWithout(hs, r + 1);
    WithoutDistinct(order, r + 1);
    FitsWithout(nodes, order, hs, r);
    PredsWithout(order, hs, level, r, update, rank);
  }

  /** Set the back link of what follows `x` to what precedes it. */
  function UnsetBacks(ns: seq<Node>, x: nat): seq<Node>
    requires x < |ns| && |ns[x].levels| >= 1
    requires ns[x].levels[0].forward != NIL ==> ns[x].levels[0].forward < |ns|
  {
    var fwd := ns[x].levels[0].forward;
    if fwd == NIL then ns else WithBack(ns, fwd, ns[x].backward)
  }

  lemma UnsetBacksEffect(ns: seq<Node>, x: nat)
    requires x < |ns| && |ns[x].levels| >= 1
    requires ns[x].levels[0].forward != NIL ==> ns[x].levels[0].forward < |ns|
    ensures OnlyBacksDiffer(ns, UnsetBacks(ns, x))
    ensures var fwd := ns[x].levels[0].forward; forall a :: 0 <= a < |ns| ==>
      UnsetBacks(ns, x)[a].backward == if a == fwd && fwd != NIL then ns[x].backward else ns[a].backward
  {
  }

  lemma BackAtWithout(order: seq<nat>, r: nat, p: nat)
    requires r + 1 < |order| && 1 <= p < |order|
    ensures |Without(order, r + 1)| == |order| - 1
    ensures BackAt(Without(order, r + 1), p) ==
      if p <= r + 1 then BackAt(order, p) else BackAt(order, p + 1)
  {
  }

  lemma DeletedBackAt(before: seq<Node>, after: seq<Node>, order: seq<nat>, tail: nat, r: nat, p: nat)
    requires r + 1 < |order| && InArena(order, |before|) && |after| == |before| && BackLinked(before, order, tail)
    requires r + 2 < |order| ==> after[order[r + 2]].backward == before[order[r + 1]].backward
    requires forall p :: 0 <= p < |order| && p != r + 2 ==> after[order[p]].backward == before[order[p]].backward
    requires 1 <= p < |order| - 1
    ensures |Without(order, r + 1)| == |order| - 1 && Without(order, r + 1)[p] < |after|
    ensures after[Without(order, r + 1)[p]].backward == BackAt(Without(order, r + 1), p)
  {
    hide Without, BackAt;
    WithoutAt(order, r + 1, p);
    BackAtWithout(order, r, p);
    assert p <= r ==> after[order[p]].backward == before[order[p]].backward == BackAt(order, p);
  }

  lemma DeletedBacks(before: seq<Node>, after: seq<Node>, order: seq<nat>, tail: nat, r: nat)
    requires r + 1 < |order| && Distinct(order) && InArena(order, |before|) && |after| == |before|
    requires BackLinked(before, order, tail)
    requires r + 2 < |order| ==> after[order[r + 2]].backward == before[order[r + 1]].backward
    requires forall p :: 0 <= p < |order| && p != r + 2 ==> after[order[p]].backward == before[order[p]].backward
    ensures |Without(order, r + 1)| == |order| - 1 && InArena(Without(order, r + 1), |after|)
    ensures BackLinked(after, Without(order, r + 1), if r + 2 == |order| then before[order[r + 1]].backward else tail)
  {
    hide Without, Distinct, BackAt;
    var order' := Without(order, r + 1);
    WithoutAt(order, r + 1, 0);
    forall p | 0 <= p < |order'|
      ensures order'[p] < |after|
    {
      WithoutAt(order, r + 1, p);
    }
    BackAtWithout(order, r, |order| - 1);
    forall p | 1 <= p < |order'|
      ensures after[order'[p]].backward == BackAt(order', p)
    {
      DeletedBackAt(before, after, order, tail, r, p);
    }
  }

  lemma DeletedKeys(before: seq<Node>, after: seq<Node>, order: seq<nat>, r: nat)
    requires r + 1 < |order| && InArena(order, |before|) && |after| == |before|
    requires forall a :: 0 <= a < |before| ==> after[a].key == before[a].key
    ensures |Without(order, r + 1)| == |order| - 1 && InArena(Without(order, r + 1), |after|)
    ensures Keys(after, Without(order, r + 1)) == WithoutKey(Keys(before, order), r)
  {
  }

  lemma DeletedShape(before: seq<Node>, after: seq<Node>, order: seq<nat>, hs: seq<nat>, level: nat, r: nat)
    requires Shape(before, order, hs, level) && r + 1 < |order|
    requires |after| == |before| && forall a :: 0 <= a < |after| ==> |after[a].levels| == |before[a].levels|
    ensures Shape(after, Without(order, r + 1), Without(hs, r + 1), level)
  {
    var order', hs' := Without(order, r + 1), Without(hs, r + 1);
    WithoutDistinct(order, r + 1);
    WithoutAt(order, r + 1, 0);
    WithoutAt(hs, r + 1, 0);
    forall p | 0 <= p < |order'|
      ensures order'[p] < |after|
      ensures p >= 1 ==> 1 <= hs'[p] <= level && |after[order'[p]].levels| == hs'[p]
    {
      WithoutAt(order, r + 1, p);
      WithoutAt(hs, r + 1, p);
    }
    hide Distinct, Without;
  }

  /** What is left of the core once slot `order[r + 1]` is taken out. */
  lemma FinishDelete(before: seq<Node>, ns: seq<Node>, tail: nat, level: nat, length: nat,
                     order: seq<nat>, hs: seq<nat>, r: nat)
    requires Core(before, tail, level, length, order, hs) && r < length
    requires order[r + 1] < |before| && OnlyLinksDiffer(before, ns) && ns[order[r + 1]] == before[order[r + 1]]
    requires HalfUnspliced(ns, Without(order, r + 1), Without(hs, r + 1), level, r, order[r + 1], level)
    ensures |ns| == |before| && |before[order[r + 1]].levels| >= 1
    ensures var fwd := before[order[r + 1]].levels[0].forward;
      && (fwd != NIL ==> fwd < |ns|)
      && |UnsetBacks(ns, order[r + 1])| == |ns|
      && Core(UnsetBacks(ns, order[r + 1]), if fwd == NIL then before[order[r + 1]].backward else tail, level, length - 1,
              Without(order, r + 1), Without(hs, r + 1))
      && Keys(UnsetBacks(ns, order[r + 1]), Without(order, r + 1)) == WithoutKey(Keys(before, order), r)
  {
    hide Shape, Linked, BackLinked, Fits, InArena, Distinct, Keys, Without, WithoutKey, HalfUnspliced, OnlyLinksDiffer,
      OnlyBacksDiffer, UnsetBacks, Core;
    CoreParts(before, tail, level, length, order, hs);
    DeleteFacts(before, ns, tail, level, length, order, hs, r);
    var after := UnsetBacks(ns, order[r + 1]);
    DeletedBacks(before, after, order, tail, r);
    DeletedKeys(before, after, order, r);
    DeletedShape(before, after, order, hs, level, r);
    BacksKeepLinks(ns, after, Without(order, r + 1), Without(hs, r + 1), level);
    var fwd := before[order[r + 1]].levels[0].forward;
    CoreIs(after, if fwd == NIL then before[order[r + 1]].backward else tail, level, length - 1,
           Without(order, r + 1), Without(hs, r + 1));
  }

  lemma DeleteFacts(before: seq<Node>, ns: seq<Node>, tail: nat, level: nat, length: nat,
                    order: seq<nat>, hs: seq<nat>, r: nat)
    requires Core(before, tail, level, length, order, hs) && r < length
    requires order[r + 1] < |before| && OnlyLinksDiffer(before, ns) && ns[order[r + 1]] == before[order[r + 1]]
    requires HalfUnspliced(ns, Without(order, r + 1), Without(hs, r + 1), level, r, order[r + 1], level)
    ensures |ns| == |before| && |before[order[r + 1]].levels| >= 1
    ensures var fwd := before[order[r + 1]].levels[0].forward;
      && (fwd == NIL <==> r + 2 == |order|) && (fwd != NIL ==> fwd < |ns| && fwd == order[r + 2])
    ensures Fits(ns, Without(order, r + 1), Without(hs, r + 1))
    ensures Linked(ns, Without(order, r + 1), Without(hs, r + 1), level)
    ensures var after := UnsetBacks(ns, order[r + 1]);
      && |after| == |ns| && OnlyBacksDiffer(ns, after)
      && (forall a :: 0 <= a < |before| ==> after[a].key == before[a].key)
      && (forall a :: 0 <= a < |before| ==> |after[a].levels| == |before[a].levels|)
      && (r + 2 < |order| ==> after[order[r + 2]].backward == before[order[r + 1]].backward)
      && (forall p :: 0 <= p < |order| && p != r + 2 ==> after[order[p]].backward == before[order[p]].backward)
  {
    hide Without, Distinct, Linked, LevelOk, BackLinked, Fits, UnsetBacks, Keys;
    FirstLink(before, tail, level, length, order, hs, r + 1);
    UnsetBacksEffect(ns, order[r + 1]);
    if r + 2 < |order| {
      OnceIn(order, r + 2);
    }
  }

  /** An empty top level can be given up. */
  lemma TrimStep(nodes: seq<Node>, tail: nat, level: nat, length: nat, order: seq<nat>, hs: seq<nat>)
    requires Core(nodes, tail, level, length, order, hs) && level > 1
    ensures level - 1 < |nodes[HEAD].levels|
    ensures TopUsed(hs, level) <==> nodes[HEAD].levels[level - 1].forward != NIL
    ensures !TopUsed(hs, level) ==> Core(nodes, tail, level - 1, length, order, hs[0 := level - 1])
  {
    assert LevelOk(nodes, order, hs, level - 1);
    assert nodes[order[0]].levels[level - 1] == LinkAt(order, hs, 0, level - 1);
    if !TopUsed(hs, level) {
      var hs' := hs[0 := level - 1];
      hide Distinct, LevelOk;
      forall l | 0 <= l < level - 1
        ensures LevelOk(nodes, order, hs', l)
      {
        assert LevelOk(nodes, order, hs, l);
        TrimmedLevelOk(nodes, order, hs, level, l);
      }
    }
  }

  lemma TrimmedLevelOk(nodes: seq<Node>, order: seq<nat>, hs: seq<nat>, level: nat, l: nat)
    requires |order| > 0 && level > 1 && Fits(nodes, order, hs) && LevelOk(nodes, order, hs, l) && hs[0] == level && l < level - 1
    requires Fits(nodes, order, hs[0 := level - 1])
    ensures LevelOk(nodes, order, hs[0 := level - 1], l)
  {
    var hs' := hs[0 := level - 1];
    forall p | 0 <= p < |order| && hs'[p] > l
      ensures nodes[order[p]].levels[l] == LinkAt(order, hs', p, l)
    {
      NextIs(hs', p + 1, l, NextFrom(hs, p + 1, l));
    }
  }

  lemma DeletedPartition(n: nat, order: seq<nat>, free: seq<nat>, q: nat)
    requires Partitioned(n, order, free) && Distinct(order) && q < |order| && InArena(order, n)
    ensures Partitioned(n, Without(order, q), free + [order[q]])
  {
    var order', x := Without(order, q), order[q];
    WithoutDistinct(order, q);
    forall a
      ensures a in order <==> a in order' || a == x
    {
      if a in order && a != x {
        var p :| 0 <= p < |order| && order[p] == a;
        assert order'[if p < q then p else p - 1] == a;
      }
    }
    hide Without, Distinct;
  }

  // ------------------------------------------------------- rescoring in place

  /** The neighbours the in-place test of a score change looks at. */
  lemma Neighbours(nodes: seq<Node>, free: seq<nat>, tail: nat, level: nat, length: nat,
                   order: seq<nat>, hs: seq<nat>, r: nat)
    requires Inv(nodes, free, tail, level, length, order, hs) && r < length
    ensures |order| == length + 1 && |Keys(nodes, order)| == length && order[r + 1] < |nodes| && |nodes[order[r + 1]].levels| > 0
    ensures Sorted(Keys(nodes, order)) && DistinctMembers(Keys(nodes, order))
    ensures nodes[order[r + 1]].key == Keys(nodes, order)[r]
    ensures var back := nodes[order[r + 1]].backward;
      if r == 0 then back == NIL else back < |nodes| && back != NIL && nodes[back].key == Keys(nodes, order)[r - 1]
    ensures var fwd := nodes[order[r + 1]].levels[0].forward;
      if r + 1 == length then fwd == NIL else fwd < |nodes| && fwd != NIL && nodes[fwd].key == Keys(nodes, order)[r + 1]
  {
    hide Linked, Distinct, LevelOk, Sorted, DistinctMembers, Partitioned, TopUsed, BackLinked, Keys, Fits;
    InvParts(nodes, free, tail, level, length, order, hs);
    FirstLink(nodes, tail, level, length, order, hs, r + 1);
    KeyOfSlot(nodes, order, r + 1, hs, level);
    KeyOfSlot(nodes, order, r, hs, level);
    BackOf(nodes, order, tail, r + 1);
  }

  lemma BackOf(nodes: seq<Node>, order: seq<nat>, tail: nat, p: nat)
    requires |order| >= 1 && InArena(order, |nodes|) && BackLinked(nodes, order, tail) && 1 <= p < |order|
    ensures order[p] < |nodes| && nodes[order[p]].backward == BackAt(order, p)
  {
  }

  lemma Rescore(nodes: seq<Node>, free: seq<nat>, tail: nat, level: nat, length: nat,
                order: seq<nat>, hs: seq<nat>, r: nat, score: Score)
    requires Inv(nodes, free, tail, level, length, order, hs) && r < length
    requires |order| == length + 1 && order[r + 1] < |nodes|
    requires var ks, key := Keys(nodes, order), Key(score, nodes[order[r + 1]].key.member);
      && (r > 0 ==> Less(ks[r - 1], key)) && (r + 1 < length ==> Less(key, ks[r + 1]))
    ensures var x := order[r + 1];
      var nodes' := nodes[x := nodes[x].(key := Key(score, nodes[x].key.member))];
      && Inv(nodes', free, tail, level, length, order, hs)
      && Keys(nodes', order) == Keys(nodes, order)[r := Key(score, nodes[x].key.member)]
  {
    hide Linked, BackLinked, Fits, Distinct, Sorted, DistinctMembers, Partitioned, TopUsed, Less;
    var x := order[r + 1];
    var key := Key(score, nodes[x].key.member);
    var nodes' := nodes[x := nodes[x].(key := key)];
    RescoredCore(nodes, nodes', tail, level, length, order, hs);
    RescoredKey(nodes, order, r, key);
    RescoredSorted(Keys(nodes, order), r, key);
  }

  lemma RescoredKey(nodes: seq<Node>, order: seq<nat>, r: nat, key: Key)
    requires InArena(order, |nodes|) && Distinct(order) && r + 1 < |order|
    requires key.member == nodes[order[r + 1]].key.member
    ensures InArena(order, |nodes[order[r + 1] := nodes[order[r + 1]].(key := key)]|)
    ensures Keys(nodes, order)[r] == nodes[order[r + 1]].key
    ensures Keys(nodes[order[r + 1] := nodes[order[r + 1]].(key := key)], order) == Keys(nodes, order)[r := key]
  {
  }

  /** The structure does not depend on the keys. */
  lemma RescoredCore(before: seq<Node>, after: seq<Node>, tail: nat, level: nat, length: nat, order: seq<nat>, hs: seq<nat>)
    requires Core(before, tail, level, length, order, hs)
    requires |after| == |before|
    requires forall a :: 0 <= a < |after| ==> after[a].backward == before[a].backward && after[a].levels == before[a].levels
    ensures Core(after, tail, level, length, order, hs)
  {
    hide Distinct, Linked, LevelOk;
    SameLevelsSameLinks(before, after, order, hs, level);
  }

  /** The slot at a rank holds the key of that rank, and that key has that rank. */
  lemma SlotKey(nodes: seq<Node>, free: seq<nat>, tail: nat, level: nat, length: nat,
                order: seq<nat>, hs: seq<nat>, i: nat)
    requires Inv(nodes, free, tail, level, length, order, hs) && i < length
    ensures |order| == length + 1 && InArena(order, |nodes|) && |Keys(nodes, order)| == length
    ensures order[i + 1] < |nodes| && order[i + 1] < NIL && order[i + 1] != HEAD
    ensures nodes[order[i + 1]].key == Keys(nodes, order)[i]
    ensures Keys(nodes, order)[i] in Keys(nodes, order) && RankIn(Keys(nodes, order), Keys(nodes, order)[i]) == i
  {
    hide Linked, BackLinked, Fits, DistinctMembers, Partitioned, TopUsed, RankIn, Sorted;
    KeyOfSlot(nodes, order, i + 1, hs, level);
    RankOfPosition(Keys(nodes, order), Keys(nodes, order)[i], i);
  }
}
