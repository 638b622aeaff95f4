/**
  The sorted-set index: an arena skiplist whose forward links carry spans.

  The arena is a sequence of nodes addressed by index, node 0 is the header,
  and released slots are kept on a free list.  The abstract value is the
  sequence of (score, member) keys in rank order.
  */
module Skiplist {
  import opened ByteStrings
  import opened SkiplistKeys
  import opened SkiplistArena

  class Skiplist {
    var nodes: seq<Node>
    var free: seq<nat>
    var tail: nat
    var level: nat
    var length: nat
    /** Arena slots in rank order, header first, and their tower heights. */
    ghost var order: seq<nat>
    ghost var hs: seq<nat>

    ghost predicate Valid()
      reads this
    {
      Inv(nodes, free, tail, level, length, order, hs)
    }

    /** The stored keys in rank order. */
    ghost function Elems(): (ks: seq<Key>)
      requires Valid()
      reads this
    {
      Keys(nodes, order)
    }

    constructor ()
      ensures Valid() && Elems() == []
    {
      nodes := [Node(Key(0, []), NIL, seq(MAX_LEVEL, _ => NIL_LEVEL))];
      free := [];
      tail := NIL;
      level := 1;
      length := 0;
      order := [HEAD];
      hs := [1];
      new;
      EmptyInv(nodes);
    }

    method Alloc(key: Key, height: nat) returns (x: nat)
      requires |nodes| < NIL || |free| > 0
      requires forall i :: 0 <= i < |free| ==> free[i] < |nodes|
      modifies `nodes, `free
      ensures if |old(free)| > 0 then x == old(free)[|old(free)| - 1] && free == old(free)[..|old(free)| - 1] && |nodes| == |old(nodes)|
              else x == |old(nodes)| && free == old(free) && |nodes| == |old(nodes)| + 1
      ensures nodes[x] == Node(key, NIL, seq(height, _ => NIL_LEVEL))
      ensures forall a :: 0 <= a < |old(nodes)| && a != x ==> nodes[a] == old(nodes)[a]
    {
      var node := Node(key, NIL, seq(height, _ => NIL_LEVEL));
      if |free| > 0 {
        x := free[|free| - 1];
        free := free[..|free| - 1];
        nodes := nodes[x := node];
      } else {
        x := |nodes|;
        nodes := nodes + [node];
      }
    }

    /** Bring the levels up to `newLevel` into use. */
    method RaiseTo(newLevel: nat, update0: seq<nat>, rank0: seq<nat>, ghost r: nat)
      returns (update: seq<nat>, rank: seq<nat>)
      requires Core(nodes, tail, level, length, order, hs) && Preds(order, hs, level, r, update0, rank0)
      requires level < newLevel <= MAX_LEVEL == |update0| == |rank0| && rank0[0] == r
      modifies `nodes, `level, `hs
      ensures Core(nodes, tail, level, length, order, hs) && Preds(order, hs, level, r, update, rank)
      ensures |rank| == MAX_LEVEL
      ensures level == newLevel && rank[0] == r && hs == old(hs)[0 := newLevel] && |nodes| == |old(nodes)|
      ensures InArena(order, |nodes|) && Keys(nodes, order) == Keys(old(nodes), order)
    {
      hide Shape, Linked, BackLinked, Fits, InArena, Distinct, Preds, IsPred, Keys, Core, OnlyLinksDiffer;
      CoreParts(nodes, tail, level, length, order, hs);
      var ns;
      ns, update, rank := RaiseHead(nodes, level, newLevel, length, update0, rank0);
      RaiseKeepsCore(nodes, ns, tail, level, newLevel, length, order, hs);
      RaisedPreds(order, hs, level, newLevel, r, update0, rank0, update, rank);
      nodes := ns;
      hs := hs[0 := newLevel];
      level := newLevel;
    }

    /** Link the allocated slot `x` in after rank `rank[0]`. */
    method LinkIn(x: nat, update: seq<nat>, rank: seq<nat>)
      requires Shape(nodes, order, hs, level) && Linked(nodes, order, hs, level) && BackLinked(nodes, order, tail)
      requires |rank| == MAX_LEVEL && Preds(order, hs, level, rank[0], update, rank)
      requires x < |nodes| && x !in order && 1 <= |nodes[x].levels| <= level && length == |order| - 1
      modifies `nodes, `tail, `length, `order, `hs
      ensures x < |old(nodes)| && rank[0] < |old(order)| == |old(hs)| && InArena(old(order), |old(nodes)|)
      ensures order == Inserted(old(order), rank[0] + 1, x)
      ensures hs == Inserted(old(hs), rank[0] + 1, |old(nodes)[x].levels|)
      ensures length == old(length) + 1
      ensures Finished(old(nodes), nodes, old(order), old(hs), level, tail, rank[0], x)
    {
      hide Shape, Linked, BackLinked, Fits, HalfSpliced, Distinct, InArena, Preds, SetBacks, Keys,
        Inserted, InsertKey, BackAt, OnlyLinksDiffer, Finished;
      var ns := LinkTower(nodes, x, level, update, rank, order, hs);
      FinishInsert(nodes, ns, order, hs, level, tail, update, rank, x);
      var fwd := ns[x].levels[0].forward;
      nodes := SetBacks(ns, x, if update[0] == HEAD then NIL else update[0]);
      if fwd == NIL {
        tail := x;
      }
      length := length + 1;
      order, hs := Inserted(order, rank[0] + 1, x), Inserted(hs, rank[0] + 1, |ns[x].levels|);
    }

    /** Insert a member that is not present; `newLevel` is the coin-flipped height. */
    method Insert(score: Score, member: Bytes, newLevel: nat)
      requires Valid()
      requires forall i :: 0 <= i < |Elems()| ==> Elems()[i].member != member
      requires 1 <= newLevel <= MAX_LEVEL
      requires |nodes| < NIL || |free| > 0
      modifies this
      ensures Valid()
      ensures Elems() == InsertKey(old(Elems()), RankIn(old(Elems()), Key(score, member)), Key(score, member))
    {
      hide Shape, Linked, BackLinked, Fits, InArena, Distinct, Preds, Inserted, InsertKey, Keys, Cut, DownClosed, NextFrom,
        DistinctMembers, Sorted, RankIn, Less, Finished, TopUsed, Partitioned, Core;
      var key := Key(score, member);
      ghost var ks := Elems();
      InvParts(nodes, free, tail, level, length, order, hs);
      LessIsDownClosed(ks, key);
      var update, rank := Descend(nodes, level, k => Less(k, key), order, hs);
      ghost var r := rank[0];
      InsertKeys(ks, key, r);
      if newLevel > level {
        update, rank := RaiseTo(newLevel, update, rank, r);
      }
      RaisedTop(old(hs), old(level), hs, level, r, newLevel);
      ghost var before, n, hs0 := nodes, |nodes|, hs;
      var x := Alloc(key, newLevel);
      FinishInsertPartition(n, |nodes|, order, old(free), r, x);
      OtherSlots(before, nodes, tail, level, length, order, hs);
      CoreParts(nodes, tail, level, length, order, hs);
      ghost var mid := nodes;
      LinkIn(x, update, rank);
      InsertDone(mid, nodes, free, level, old(length), length, old(order), order, hs0, hs, tail, r, x);
    }

    /** Locate a key and record its predecessor on every level. */
    method FindWithUpdate(key: Key) returns (found: Option<nat>, update: seq<nat>, ghost rank: seq<nat>)
      requires Valid()
      ensures var r := RankIn(Elems(), key);
        && r <= |Elems()| == length == |order| - 1
        && (key in Elems() <==> r < |Elems()| && Elems()[r] == key)
        && found == (if r < |Elems()| && Elems()[r] == key then Some(order[r + 1]) else None)
        && Preds(order, hs, level, r, update, rank)
    {
      hide Shape, Linked, BackLinked, Fits, InArena, Distinct, Preds, Keys, Cut, DownClosed, NextFrom,
        DistinctMembers, Sorted, RankIn, Less, TopUsed, Partitioned, Core;
      ghost var ks := Elems();
      InvParts(nodes, free, tail, level, length, order, hs);
      LessIsDownClosed(ks, key);
      update, rank := Descend(nodes, level, k => Less(k, key), order, hs);
      ghost var r := rank[0];
      FoundAtRank(ks, key, r);
      assert update[0] == order[r] by {
        PredsAtZero(order, hs, level, r, update, rank);
      }
      FirstLink(nodes, tail, level, length, order, hs, r);
      var cand := nodes[update[0]].levels[0].forward;
      if cand != NIL && nodes[cand].key == key {
        found := Some(cand);
      } else {
        found := None;
      }
    }

    /** Take the slot at rank `r` out of every level and give up empty top levels. */
    method Unlink(x: nat, update: seq<nat>, ghost rank: seq<nat>, ghost r: nat)
      requires Valid() && r < length == |order| - 1 && x == order[r + 1]
      requires Preds(order, hs, level, r, update, rank)
      modifies `nodes, `tail, `level, `length, `order, `hs
      ensures Core(nodes, tail, level, length, order, hs) && |hs| >= 1 && TopUsed(hs, level)
      ensures |old(order)| == old(length) + 1 && InArena(old(order), |old(nodes)|)
      ensures order == Without(old(order), r + 1) && |nodes| == |old(nodes)|
      ensures |order| == length + 1 && InArena(order, |nodes|)
      ensures |Keys(old(nodes), old(order))| == old(length)
      ensures Keys(nodes, order) == WithoutKey(Keys(old(nodes), old(order)), r)
    {
      hide Shape, Linked, BackLinked, Fits, InArena, Distinct, Preds, Keys, Without, WithoutKey, HalfUnspliced,
        OnlyLinksDiffer, UnsetBacks, DistinctMembers, Sorted, Partitioned, Core, TopUsed;
      InvParts(nodes, free, tail, level, length, order, hs);
      StartUnsplice(nodes, tail, level, length, order, hs, r, update, rank);
      var ns := UnlinkTower(nodes, x, level, update, rank, r, Without(order, r + 1), Without(hs, r + 1));
      FinishDelete(nodes, ns, tail, level, length, order, hs, r);
      var fwd := ns[x].levels[0].forward;
      if fwd == NIL {
        tail := ns[x].backward;
      }
      nodes := UnsetBacks(ns, x);
      order, hs := Without(order, r + 1), Without(hs, r + 1);
      length := length - 1;
      Trim();
    }

    method Trim()
      requires Core(nodes, tail, level, length, order, hs)
      modifies `level, `hs
      ensures Core(nodes, tail, level, length, order, hs) && |hs| >= 1 && TopUsed(hs, level)
      ensures |order| == length + 1 && InArena(order, |nodes|) && |Keys(nodes, order)| == length
    {
      hide Shape, Linked, BackLinked, Fits, InArena, Distinct, Keys, Core, NextFrom;
      CoreParts(nodes, tail, level, length, order, hs);
      while level > 1 && nodes[HEAD].levels[level - 1].forward == NIL
        invariant Core(nodes, tail, level, length, order, hs)
        invariant 1 <= level <= MAX_LEVEL && |hs| >= 1 && |nodes| > 0 && |nodes[HEAD].levels| == MAX_LEVEL
        decreases level
      {
        TrimStep(nodes, tail, level, length, order, hs);
        level := level - 1;
        hs := hs[0 := level];
      }
      if level > 1 {
        TrimStep(nodes, tail, level, length, order, hs);
      }
    }

    /** Put an unlinked slot on the free list. */
    method Release(x: nat)
      requires x < |nodes|
      modifies `nodes, `free
      ensures free == old(free) + [x]
      ensures nodes == old(nodes)[x := Node(Key(0, []), NIL, [])]
    {
      nodes := nodes[x := Node(Key(0, []), NIL, [])];
      free := free + [x];
    }

    /** Remove a key. Returns whether it was present. */
    method Delete(score: Score, member: Bytes) returns (present: bool)
      requires Valid()
      modifies this
      ensures Valid()
      ensures present <==> Key(score, member) in old(Elems())
      ensures var r := RankIn(old(Elems()), Key(score, member));
        if present then r < |old(Elems())| && Elems() == WithoutKey(old(Elems()), r) else Elems() == old(Elems())
    {
      hide Shape, Linked, BackLinked, Fits, InArena, Distinct, Preds, Keys, RankIn, DistinctMembers, Sorted,
        Partitioned, Core, TopUsed, Inv;
      var found, update; ghost var rank;
      found, update, rank := FindWithUpdate(Key(score, member));
      if found == None {
        return false;
      }
      DeleteSlot(found.value, update, rank, RankIn(Elems(), Key(score, member)));
      return true;
    }

    /** Unlink and release the slot at rank `r`. */
    method DeleteSlot(x: nat, update: seq<nat>, ghost rank: seq<nat>, ghost r: nat)
      requires Valid() && r < length == |order| - 1 && x == order[r + 1]
      requires Preds(order, hs, level, r, update, rank)
      modifies this
      ensures Valid() && r < |old(Elems())| && Elems() == WithoutKey(old(Elems()), r)
      ensures free == old(free) + [x]
    {
      hide Shape, Linked, BackLinked, Fits, InArena, Distinct, Preds, Keys, Without, WithoutKey,
        DistinctMembers, Sorted, Partitioned, Core, TopUsed;
      InvParts(nodes, free, tail, level, length, order, hs);
      DeletedPartition(|nodes|, order, free, r + 1);
      DeletedSorted(Elems(), r);
      SlotInArena(order, r + 1, |nodes|);
      Unlink(x, update, rank, r);
      ghost var before := nodes;
      Release(x);
      NotIn(old(order), r + 1);
      OtherSlots(before, nodes, tail, level, length, order, hs);
    }

    /** Move a member to a new score; it stays in place when it still sorts
        between its neighbours. */
    method UpdateScore(curScore: Score, member: Bytes, newScore: Score, newLevel: nat) returns (present: bool)
      requires Valid()
      requires 1 <= newLevel <= MAX_LEVEL
      modifies this
      ensures Valid()
      ensures present <==> Key(curScore, member) in old(Elems())
      ensures !present ==> Elems() == old(Elems())
      ensures present ==> var ks, r := old(Elems()), RankIn(old(Elems()), Key(curScore, member));
        && r < |ks|
        && var rest, key := WithoutKey(ks, r), Key(newScore, member);
        Elems() == InsertKey(rest, RankIn(rest, key), key)
    {
      hide Shape, Linked, BackLinked, Fits, InArena, Distinct, Preds, Keys, RankIn, DistinctMembers, Sorted,
        Partitioned, Core, TopUsed, Inv, WithoutKey, InsertKey, Less;
      var found, update; ghost var rank;
      found, update, rank := FindWithUpdate(Key(curScore, member));
      if found == None {
        return false;
      }
      var x := found.value;
      ghost var ks := Elems();
      ghost var r := RankIn(ks, Key(curScore, member));
      Neighbours(nodes, free, tail, level, length, order, hs, r);
      var back, fwd := nodes[x].backward, nodes[x].levels[0].forward;
      var okLeft := back == NIL || Less(nodes[back].key, Key(newScore, member));
      var okRight := fwd == NIL || Less(Key(newScore, member), nodes[fwd].key);
      if okLeft && okRight {
        Rescore(nodes, free, tail, level, length, order, hs, r, newScore);
        RescoredKeys(ks, r, newScore);
        nodes := nodes[x := nodes[x].(key := Key(newScore, member))];
        return true;
      }
      MembersWithout(ks, r);
      DeleteSlot(x, update, rank, r);
      Insert(newScore, member, newLevel);
      return true;
    }

    /** Remove everything, keeping the header. */
    method Clear()
      requires Valid()
      modifies this
      ensures Valid() && Elems() == []
    {
      hide Core, Shape, Linked, BackLinked, Keys, Sorted, DistinctMembers, Partitioned, TopUsed;
      InvParts(nodes, free, tail, level, length, order, hs);
      nodes := [nodes[HEAD].(levels := seq(MAX_LEVEL, _ => NIL_LEVEL))];
      free := [];
      tail := NIL;
      level := 1;
      length := 0;
      order := [HEAD];
      hs := [1];
      EmptyInv(nodes);
    }

    // ------------------------------------------------------------- queries

    /** 0-based rank of a key, if it is present. */
    method RankOf(key: Key) returns (rank: Option<nat>)
      requires Valid()
      ensures rank == if key in Elems() then Some(RankIn(Elems(), key)) else None
    {
      hide Shape, Linked, BackLinked, Fits, InArena, Distinct, Keys, RankIn, DistinctMembers, Sorted,
        Partitioned, Core, TopUsed, Inv, Less, DownClosed, Stopped;
      ghost var ks := Elems();
      InvParts(nodes, free, tail, level, length, order, hs);
      NotAboveIsDownClosed(ks, key);
      var x, i := HEAD, level;
      var p: nat := 0;
      while i > 0
        invariant 0 <= i <= level
        invariant p < |order| && x == order[p] && hs[p] >= i
        invariant p > 0 ==> !Less(key, ks[p - 1])
        invariant p > 0 ==> ks[p - 1] != key
        invariant i == 0 ==> Stopped(ks, hs, k => !Less(key, k), p, 0)
      {
        i := i - 1;
        x, p := DescendLevel(nodes, level, k => !Less(key, k), i, x, p, order, hs);
        KeyOfSlot(nodes, order, p, hs, level);
        StoppedTower(ks, hs, k => !Less(key, k), p, i);
        if x != HEAD && nodes[x].key == key {
          RankOfPosition(ks, key, p - 1);
          return Some(p - 1);
        }
      }
      AbsentAtBottom(ks, hs, key, p);
      return None;
    }

    /** The slot of 0-based rank `rank`. */
    method NodeByRank(rank: nat) returns (slot: Option<nat>)
      requires Valid()
      ensures |order| == length + 1 == |Elems()| + 1
      ensures slot == if rank < length then Some(order[rank + 1]) else None
    {
      hide Linked, BackLinked, Fits, Distinct, Keys, DistinctMembers, Sorted, Partitioned, TopUsed, LevelOk;
      InvParts(nodes, free, tail, level, length, order, hs);
      if rank >= length {
        return None;
      }
      var target, x, i := rank + 1, HEAD, level;
      var traversed: nat := 0;
      while i > 0
        invariant 0 <= i <= level
        invariant traversed <= target < |order| == |hs| && x == order[traversed] && hs[traversed] >= i
        invariant i == 0 ==> NextFrom(hs, traversed + 1, 0) > target
        invariant i < level ==> traversed < target
      {
        i := i - 1;
        while true
          invariant traversed <= target < |order| && x == order[traversed] && hs[traversed] > i
          decreases target - traversed
        {
          LinkHolds(nodes, level, order, hs, traversed, i);
          var l := nodes[x].levels[i];
          if l.forward == NIL || traversed + l.span > target {
            break;
          }
          traversed := traversed + l.span;
          x := l.forward;
        }
        if traversed == target && x != HEAD {
          return Some(x);
        }
        SlotIsHead(order, traversed);
      }
      return None;
    }

    /** The key of 0-based rank `rank`. */
    method ByRank(rank: nat) returns (key: Option<Key>)
      requires Valid()
      ensures key == if rank < |Elems()| then Some(Elems()[rank]) else None
    {
      hide Shape, Linked, BackLinked, Fits, InArena, Distinct, Keys, DistinctMembers, Sorted, Partitioned, Core, TopUsed,
        Inv;
      InvParts(nodes, free, tail, level, length, order, hs);
      var slot := NodeByRank(rank);
      if slot == None {
        return None;
      }
      SlotKey(nodes, free, tail, level, length, order, hs, rank);
      return Some(nodes[slot.value].key);
    }

    // -------------------------------------------------------------- ranges

    /** Does the range overlap the span from first to last key? */
    method IsInRange(r: Range) returns (b: bool)
      requires Valid()
      ensures b <==> !IsEmpty(r) && |Elems()| > 0 && GteMin(r, Elems()[|Elems()| - 1]) && LteMax(r, Elems()[0])
    {
      hide Linked, Distinct, Sorted, DistinctMembers, Partitioned, TopUsed, GteMin, LteMax, IsEmpty;
      if IsEmpty(r) || length == 0 {
        return false;
      }
      Neighbours(nodes, free, tail, level, length, order, hs, length - 1);
      FirstLink(nodes, tail, level, length, order, hs, 0);
      if tail == NIL || !GteMin(r, nodes[tail].key) {
        return false;
      }
      var first := nodes[HEAD].levels[0].forward;
      return first != NIL && LteMax(r, nodes[first].key);
    }

    /** The slot of the lowest key in the range. */
    method FirstNodeInRange(r: Range) returns (slot: Option<nat>)
      requires Valid() && Usable(Elems(), r)
      ensures |order| == |Elems()| + 1 && InArena(order, |nodes|)
      ensures slot == match FirstIn(Elems(), r) case None => None case Some(i) => Some(order[i + 1])
    {
      hide Shape, Linked, BackLinked, Fits, InArena, Distinct, Keys, DistinctMembers, Sorted, Preds,
        Partitioned, Core, TopUsed, Inv, GteMin, LteMax, IsEmpty, DownClosed, Cut, Usable, FirstIn;
      ghost var ks := Elems();
      InvParts(nodes, free, tail, level, length, order, hs);
      var possible := IsInRange(r);
      if !possible {
        NotInRange(ks, r);
        return None;
      }
      RangeIsDownClosed(ks, r);
      var update, rank := Descend(nodes, level, k => !GteMin(r, k), order, hs);
      ghost var p := rank[0];
      CutFirst(ks, r, p);
      PredsAtZero(order, hs, level, p, update, rank);
      FirstLink(nodes, tail, level, length, order, hs, p);
      var x := nodes[update[0]].levels[0].forward;
      if x != NIL && LteMax(r, nodes[x].key) {
        return Some(x);
      } else {
        return None;
      }
    }

    /** The slot of the highest key in the range. */
    method LastNodeInRange(r: Range) returns (slot: Option<nat>)
      requires Valid() && Usable(Elems(), r)
      ensures |order| == |Elems()| + 1 && InArena(order, |nodes|)
      ensures slot == match LastIn(Elems(), r) case None => None case Some(i) => Some(order[i + 1])
    {
      hide Linked, BackLinked, Fits, InArena, Distinct, Keys, DistinctMembers, Sorted, Preds,
        Partitioned, Core, TopUsed, Inv, GteMin, LteMax, IsEmpty, DownClosed, Cut, Usable, LastIn;
      ghost var ks := Elems();
      InvParts(nodes, free, tail, level, length, order, hs);
      var possible := IsInRange(r);
      if !possible {
        NotInRange(ks, r);
        return None;
      }
      RangeIsDownClosed(ks, r);
      var update, rank := Descend(nodes, level, k => LteMax(r, k), order, hs);
      ghost var p := rank[0];
      CutLast(ks, r, p);
      PredsAtZero(order, hs, level, p, update, rank);
      KeyOfSlot(nodes, order, p, hs, level);
      var x := update[0];
      if x != HEAD && GteMin(r, nodes[x].key) {
        return Some(x);
      } else {
        return None;
      }
    }

    /** 0-based rank of the lowest key in the range. */
    method FirstInRange(r: Range) returns (rank: Option<nat>)
      requires Valid() && Usable(Elems(), r)
      ensures rank == FirstIn(Elems(), r)
    {
      hide Shape, Linked, BackLinked, Fits, InArena, Distinct, Keys, DistinctMembers, Sorted, Partitioned, Core, TopUsed,
        Inv, Usable, RankIn, InRange;
      InvParts(nodes, free, tail, level, length, order, hs);
      var slot := FirstNodeInRange(r);
      if slot == None {
        return None;
      }
      SlotKey(nodes, free, tail, level, length, order, hs, FirstIn(Elems(), r).value);
      rank := RankOf(nodes[slot.value].key);
    }

    /** 0-based rank of the highest key in the range. */
    method LastInRange(r: Range) returns (rank: Option<nat>)
      requires Valid() && Usable(Elems(), r)
      ensures rank == LastIn(Elems(), r)
    {
      hide Shape, Linked, BackLinked, Fits, InArena, Distinct, Keys, DistinctMembers, Sorted, Partitioned, Core, TopUsed,
        Inv, Usable, RankIn, InRange;
      InvParts(nodes, free, tail, level, length, order, hs);
      var slot := LastNodeInRange(r);
      if slot == None {
        return None;
      }
      SlotKey(nodes, free, tail, level, length, order, hs, LastIn(Elems(), r).value);
      rank := RankOf(nodes[slot.value].key);
    }

    /** Walk the bottom level from the first key in range to the last. */
    method KeysInRange(r: Range) returns (out: seq<Key>)
      requires Valid() && Usable(Elems(), r)
      ensures out == Selected(Elems(), k => InRange(r, k))
    {
      hide Shape, Linked, BackLinked, Fits, InArena, Distinct, Keys, DistinctMembers, Sorted, Partitioned, Core, TopUsed,
        Inv, Usable, RankIn, InRange, FirstIn, LastIn, Selected;
      ghost var ks := Elems();
      InvParts(nodes, free, tail, level, length, order, hs);
      RangeIsSlice(ks, r);
      out := [];
      var slot := FirstNodeInRange(r);
      if slot == None {
        return;
      }
      var a := FirstInRange(r);
      var b := LastInRange(r);
      ghost var at: nat := a.value;
      SlotKey(nodes, free, tail, level, length, order, hs, at);
      var cur, remaining := slot.value, if b.Some? && b.value >= a.value then b.value - a.value + 1 else 0;
      while cur != NIL && remaining > 0
        invariant a.value <= at <= length && remaining >= 0 && at + remaining == b.value + 1
        invariant cur == if at < length then order[at + 1] else NIL
        invariant cur == NIL ==> at == length
        invariant out == ks[a.value..at]
        decreases remaining
      {
        SlotKey(nodes, free, tail, level, length, order, hs, at);
        FirstLink(nodes, tail, level, length, order, hs, at + 1);
        out := out + [nodes[cur].key];
        cur := nodes[cur].levels[0].forward;
        remaining := remaining - 1;
        at := at + 1;
        if at < length {
          SlotKey(nodes, free, tail, level, length, order, hs, at);
        }
      }
    }

    /** Remove every key in the range; `deleted` is what the callback saw. */
    method DeleteRange(r: Range) returns (removed: nat, deleted: seq<Key>)
      requires Valid() && Usable(Elems(), r)
      modifies this
      ensures Valid()
      ensures deleted == Selected(old(Elems()), k => InRange(r, k)) && removed == |deleted|
      ensures Elems() == Selected(old(Elems()), k => !InRange(r, k))
    {
      hide Shape, Linked, BackLinked, Fits, InArena, Distinct, Keys, Preds, DistinctMembers, Sorted, Partitioned, Core,
        TopUsed, Inv, Usable, RankIn, InRange, FirstIn, Selected, WithoutKey;
      removed, deleted := 0, [];
      ghost var ks0 := Elems();
      while true
        invariant Valid() && Usable(Elems(), r)
        invariant removed == |deleted|
        invariant Selected(ks0, k => InRange(r, k)) == deleted + Selected(Elems(), k => InRange(r, k))
        invariant Selected(ks0, k => !InRange(r, k)) == Selected(Elems(), k => !InRange(r, k))
        decreases |Elems()|
      {
        var first := FirstNodeInRange(r);
        if first == None {
          NothingSelected(Elems(), r);
          return;
        }
        var x := first.value;
        ghost var i := FirstIn(Elems(), r).value;
        InvParts(nodes, free, tail, level, length, order, hs);
        SlotKey(nodes, free, tail, level, length, order, hs, i);
        SelectedWithout(Elems(), r, i);
        if !LteMax(r, nodes[x].key) {
          return;
        }
        var key := nodes[x].key;
        deleted := deleted + [key];
        var found, update; ghost var rank;
        found, update, rank := FindWithUpdate(key);
        if found == None {
          return;
        }
        DeleteSlot(x, update, rank, i);
        removed := removed + 1;
      }
    }

    /** Remove at most `count` keys from 0-based rank `start` on. */
    method DeleteRangeByRank(start: nat, count: nat) returns (removed: nat, deleted: seq<Key>)
      requires Valid()
      modifies this
      ensures Valid() && removed == |deleted|
      ensures var ks := old(Elems());
        var a := if start < |ks| then start else |ks|;
        var b := if a + count < |ks| then a + count else |ks|;
        deleted == ks[a..b] && Elems() == ks[..a] + ks[b..]
    {
      hide Shape, Linked, BackLinked, Fits, InArena, Distinct, Keys, Preds, DistinctMembers, Sorted, Partitioned, Core,
        TopUsed, Inv, RankIn, WithoutKey;
      removed, deleted := 0, [];
      ghost var ks := Elems();
      InvParts(nodes, free, tail, level, length, order, hs);
      NothingCut(ks, start);
      if count == 0 || start >= length {
        return;
      }
      while removed < count
        invariant Valid() && removed == |deleted| <= count
        invariant start + removed <= |ks|
        invariant deleted == ks[start..start + removed]
        invariant Elems() == ks[..start] + ks[start + removed..]
      {
        var slot := NodeByRank(start);
        if slot == None {
          break;
        }
        var x := slot.value;
        SlotKey(nodes, free, tail, level, length, order, hs, start);
        var key := nodes[x].key;
        deleted := deleted + [key];
        var found, update; ghost var rank;
        found, update, rank := FindWithUpdate(key);
        if found == None {
          break;
        }
        CutOne(ks, start, removed);
        DeleteSlot(x, update, rank, start);
        removed := removed + 1;
      }
    }
  }

  lemma NothingCut(ks: seq<Key>, start: nat)
    ensures start <= |ks| ==> ks[start..start + 0] == [] && ks[..start] + ks[start + 0..] == ks
  {
  }

  /** The next key of a rank range, and what is left without it. */
  lemma CutOne(ks: seq<Key>, start: nat, removed: nat)
    requires start + removed < |ks|
    ensures var left := ks[..start] + ks[start + removed..];
      && start < |left| && left[start] == ks[start + removed]
      && WithoutKey(left, start) == ks[..start] + ks[start + (removed + 1)..]
      && ks[start..start + (removed + 1)] == ks[start..start + removed] + [ks[start + removed]]
  {
  }
}
