/** The compressed radix tree: a map from byte strings to values. */
module Rax {
  import opened ByteStrings
  import opened RaxArena
  import opened RaxFolds

  class Rax<V(==)> {
    var nodes: seq<Node<V>>
    var free: seq<nat>
    var numele: nat
    /** Positions, parents and the node at each position. */
    ghost var t: View

    ghost predicate Structured()
      reads this
    {
      TreeOk(nodes, t) && Partitioned(|nodes|, t.pos.Keys, free)
    }

    ghost predicate Valid()
      reads this
    {
      Structured() && LeavesHold(nodes, t, ROOT) && numele == |Contents(nodes, t)|
    }

    /** The stored map. */
    ghost function Map(): map<Bytes, V>
      requires Structured()
      reads this
    {
      Contents(nodes, t)
    }

    constructor ()
      ensures Valid() && Map() == map[]
    {
      nodes := [Leaf()];
      free := [];
      numele := 0;
      t := View(map[ROOT := []], map[], map[[] := ROOT]);
      new;
      EmptyTree(nodes, t);
    }

    /** Take a slot off the free list, or a new one. */
    method Alloc(n: Node<V>, ghost live: set<nat>) returns (x: nat)
      requires Partitioned(|nodes|, live, free)
      modifies `nodes, `free
      ensures Partitioned(|nodes|, live + {x}, free)
      ensures x !in live && |old(nodes)| <= |nodes| && x < |nodes| && nodes[x] == n
      ensures if |old(free)| > 0 then x == old(free)[|old(free)| - 1] && |nodes| == |old(nodes)| else x == |old(nodes)|
      ensures forall a :: 0 <= a < |old(nodes)| && a != x ==> nodes[a] == old(nodes)[a]
    {
      if |free| > 0 {
        x := free[|free| - 1];
        free := free[..|free| - 1];
        nodes := nodes[x := n];
      } else {
        x := |nodes|;
        nodes := nodes + [n];
      }
    }

    method Release(x: nat, ghost live: set<nat>)
      requires Partitioned(|nodes|, live, free) && x in live
      modifies `nodes, `free
      ensures x < |old(nodes)| && nodes == old(nodes)[x := Leaf()]
      ensures Partitioned(|nodes|, live - {x}, free)
    {
      nodes := nodes[x := Leaf()];
      free := free + [x];
    }

    /** The value stored under a key. */
    method Find(key: Bytes) returns (v: Option<V>)
      requires Valid()
      ensures v == if key in Map() then Some(Map()[key]) else None
    {
      var n, consumed, split, _ := Walk(nodes, key, t);
      if consumed != |key| || split != 0 {
        return None;
      }
      return nodes[n].value;
    }

    /** A node holding `lab` as its only edge, one-byte labels branching. */
    method Labelled(lab: Bytes, child: nat, ghost live: set<nat>) returns (x: nat)
      requires Partitioned(|nodes|, live, free)
      modifies `nodes, `free
      ensures Partitioned(|nodes|, live + {x}, free)
      ensures x !in live && |old(nodes)| <= |nodes| && x < |nodes|
      ensures nodes[x] == Node(lab, [child], |lab| > 1, None)
      ensures forall a :: 0 <= a < |old(nodes)| && a != x ==> nodes[a] == old(nodes)[a]
    {
      x := Alloc(Node(lab, [child], |lab| > 1, None), live);
    }

    /** Split the label of a compressed node after `m` bytes; the result is the
        branching node now standing there. */
    method SplitCompressed(node: nat, m: nat) returns (mid: nat, ghost behind: nat)
      requires Structured() && LeavesHold(nodes, t, ROOT)
      requires node in t.pos && node < |nodes| && nodes[node].compressed && m < |nodes[node].chars|
      modifies `nodes, `free, `t
      ensures Structured() && LeavesHold(nodes, t, ROOT) && Map() == old(Map())
      ensures node in t.pos && node < |nodes|
      ensures mid in t.pos && mid < |nodes| && t.pos[mid] == old(t.pos[node]) + old(nodes[node].chars)[..m]
      ensures !nodes[mid].compressed && nodes[mid].chars == [old(nodes[node].chars)[m]] && |nodes[mid].children| == 1
      ensures if m == 0 then mid == node else mid !in old(t.pos) && nodes[node].children == [mid]
      ensures m + 1 < |old(nodes[node].chars)| ==> behind !in old(t.pos) && behind != mid
      ensures Folds(nodes, t) == SplitSet(old(Folds(nodes, t)), node, mid, behind, m + 1 < |old(nodes[node].chars)|)
    {
      hide TreeOk, LeavesHold, Contents, NodeWf, Partitioned, EdgeSplit, Folds, SplitSet, SplitView;
      LiveFacts(nodes, t, node);
      EdgeFacts(nodes, t, node);
      CompressedFacts(nodes[node]);
      ghost var n0, t0 := nodes, t;
      ghost var live := t.pos.Keys;
      var lab := nodes[node].chars;
      var child := nodes[node].children[0];
      var tail := child;
      ghost var n1, t1 := n0, t0;
      if m + 1 < |lab| {
        tail := Labelled(lab[m + 1..], child, live);
        live := live + {tail};
        n1 := nodes[node := nodes[node].(chars := lab[..m + 1], children := [tail], compressed := m + 1 > 1)];
        SplitFirst(n0, n1, t0, node, m + 1, tail);
        SplitStep(n0, n1, t0, node, m + 1, tail);
        t1 := SplitView(t0, node, tail, t0.pos[node] + lab[..m + 1], child);
        assert t1.pos.Keys == live;
      }
      if m == 0 {
        nodes := nodes[node := nodes[node].(chars := lab[..1], children := [tail], compressed := false)];
        assert nodes == n1;
        t := t1;
        mid := node;
      } else {
        mid := Alloc(Node(lab[m..m + 1], [tail], false, None), live);
        nodes := nodes[node := nodes[node].(chars := lab[..m], children := [mid], compressed := m > 1)];
        SplitAgain(n1, nodes, t1, node, lab, m, mid, tail);
        SplitStep(n1, nodes, t1, node, m, mid);
        t := SplitView(t1, node, mid, t1.pos[node] + lab[..m], tail);
        assert t.pos.Keys == live + {mid};
      }
      behind := tail;
      TwoCuts(Folds(n0, t0), Folds(n1, t1), Folds(nodes, t), node, mid, tail, m + 1 < |lab|);
    }

    /** Go down as far as the key allows; if it diverges inside a label, split
        there, so that the key continues from a leaf or a branching node. */
    method InsertPoint(key: Bytes) returns (cur: nat, i: nat)
      requires Structured() && LeavesHold(nodes, t, ROOT)
      modifies `nodes, `free, `t
      ensures Structured() && LeavesHold(nodes, t, ROOT) && Map() == old(Map())
      ensures cur in t.pos && cur < |nodes| && i <= |key| && t.pos[cur] == key[..i] && NodeWf(nodes[cur])
      ensures i == |key| || |nodes[cur].children| == 0 || (!nodes[cur].compressed && !HasEdge(nodes[cur].chars, key[i]))
      ensures var f, off := old(Folds(nodes, t)), FoldsOff(nodes, t, cur);
        if i == |key| then |off| <= |f| + 1 && (|off| > |f| <==> EndsInside(old(nodes), old(t), key))
        else |off - {cur}| <= |f| && !EndsInside(old(nodes), old(t), key)
    {
      hide TreeOk, LeavesHold, Contents, Partitioned, EdgeIndex, NodeWf, Folds, EndsInside, FoldsOff, SplitSet;
      cur, i := ROOT, 0;
      LiveFacts(nodes, t, ROOT);
      while true
        invariant nodes == old(nodes) && t == old(t) && free == old(free)
        invariant cur in t.pos && i <= |key| && t.pos[cur] == key[..i]
        decreases |key| - i
      {
        LiveFacts(nodes, t, cur);
        if i == |key| || |nodes[cur].children| == 0 {
          StopsAtNode(nodes, t, cur, i, key);
          OffFolds(nodes, t, cur);
          return;
        }
        if nodes[cur].compressed {
          CompressedFacts(nodes[cur]);
          var m := MatchLen(nodes[cur].chars, key, i);
          var lab := nodes[cur].chars;
          if m == |lab| {
            StepOnKey(nodes, t, cur, 0, key, i);
            i := i + m;
            cur := nodes[cur].children[0];
          } else {
            if i + m == |key| {
              StopsAtEnd(nodes, t, cur, i, m, key);
            } else {
              StopsInLabel(nodes, t, cur, i, m, key);
            }
            ghost var node, behind := cur, 0;
            cur, behind := SplitCompressed(cur, m);
            FoldsLive(old(nodes), old(t));
            CutTally(nodes, t, old(Folds(nodes, t)), old(t.pos.Keys), node, cur, behind, m + 1 < |lab|);
            SplitPosition(key, i, m, lab);
            i := i + m;
            LiveFacts(nodes, t, cur);
            return;
          }
        } else {
          var j := EdgeIndex(nodes[cur].chars, key[i]);
          if !HasEdge(nodes[cur].chars, key[i]) {
            StopsBetween(nodes, t, cur, i, key);
            OffFolds(nodes, t, cur);
            return;
          }
          BranchFacts(nodes[cur]);
          StepOnKey(nodes, t, cur, j, key, i);
          i := i + 1;
          cur := nodes[cur].children[j];
        }
      }
    }

    /** Hang a new valueless leaf under `cur`, `rest` further down. */
    method AttachLeaf(cur: nat, rest: Bytes) returns (leaf: nat)
      requires Structured() && LeavesHold(nodes, t, ROOT)
      requires cur in t.pos && cur < |nodes| && |rest| > 0 && NodeWf(nodes[cur])
      requires |nodes[cur].children| == 0 || (!nodes[cur].compressed && !HasEdge(nodes[cur].chars, rest[0]))
      modifies `nodes, `free, `t
      ensures Structured() && LeavesHold(nodes, t, leaf) && Map() == old(Map())
      ensures leaf in t.pos && leaf < |nodes| && nodes[leaf] == Leaf()
      ensures t.pos[leaf] == old(t.pos[cur]) + rest && t.pos[leaf] !in old(t.at)
      ensures FoldsBeside(old(nodes), old(t), nodes, t, cur)
    {
      hide TreeOk, LeavesHold, Contents, Partitioned, EdgeIndex, NodeWf, EdgeAttached, FoldsBeside, StoredOrNoChild, HasEdge;
      LiveFacts(nodes, t, cur);
      ghost var n0, t0, live := nodes, t, t.pos.Keys;
      leaf := Alloc(Leaf(), live);
      DeadSlot(n0, nodes, t0, leaf);
      LeafStored(nodes, t0, cur);
      n0 := nodes;
      live := live + {leaf};
      if |nodes[cur].children| == 0 && |rest| > 1 {
        nodes := nodes[cur := nodes[cur].(chars := rest, children := [leaf], compressed := true)];
        AbsorbedStep(n0, nodes, t0, cur, rest, leaf);
        t := AttachView(t0, cur, leaf, t0.pos[cur] + rest);
        assert t.pos.Keys == live;
      } else {
        var first := rest[0];
        BranchingNow(nodes[cur], first);
        var child := leaf;
        if |rest| > 1 {
          child := Labelled(rest[1..], leaf, live);
          live := live + {child};
        }
        var at := EdgeIndex(nodes[cur].chars, first);
        nodes := nodes[cur := nodes[cur].(chars := InsertedAt(nodes[cur].chars, at, first),
                                          children := InsertedAt(nodes[cur].children, at, child), compressed := false)];
        ghost var n1 := nodes[child := Leaf()];
        ghost var t1 := AttachView(t0, cur, child, t0.pos[cur] + [first]);
        BranchStep(n0, n1, t0, cur, first, child);
        t := t1;
        if |rest| > 1 {
          AttachAgain(n0, n1, nodes, t0, cur, first, child, rest[1..], leaf);
          t := AttachView(t1, child, leaf, t1.pos[child] + rest[1..]);
          assert t0.pos[cur] + [first] + rest[1..] == t0.pos[cur] + rest;
        } else {
          assert rest == [first] && nodes == n1;
        }
        assert t.pos.Keys == live;
      }
      DeadFolds(old(nodes), n0, t0, leaf, nodes, t, cur);
    }

    /** Store a value under a key. Returns the value it replaces. */
    method Insert(key: Bytes, value: V) returns (was: Option<V>)
      requires Valid()
      modifies this
      ensures Valid()
      ensures was == if key in old(Map()) then Some(old(Map())[key]) else None
      ensures Map() == old(Map())[key := value]
      ensures |Folds(nodes, t)| <= |old(Folds(nodes, t))| + 1
      ensures |Folds(nodes, t)| > |old(Folds(nodes, t))| <==> EndsInside(old(nodes), old(t), key)
    {
      hide TreeOk, LeavesHold, Partitioned, EdgeIndex, NodeWf, Folds, EndsInside, HasEdge, FoldsOff;
      ghost var m := Map();
      ghost var at0 := t.at;
      var cur, i := InsertPoint(key);
      ContentsAt(nodes, t, key);
      LiveFacts(nodes, t, cur);
      CountInsert(m, key, value);
      if i == |key| {
        assert key == key[..i];
        was := nodes[cur].value;
        SetValue(nodes, t, cur, Some(value));
        SetValueLeaves(nodes, t, ROOT, cur, Some(value));
        StoredFolds(nodes, t, cur, value);
        nodes := nodes[cur := nodes[cur].(value := Some(value))];
        if was == None {
          numele := numele + 1;
        }
        return;
      }
      assert key == key[..i] + key[i..];
      ghost var off := FoldsOff(nodes, t, cur);
      var leaf := AttachLeaf(cur, key[i..]);
      SetValue(nodes, t, leaf, Some(value));
      SetValueLeaves(nodes, t, leaf, leaf, Some(value));
      StoredFolds(nodes, t, leaf, value);
      OffFolds(nodes, t, leaf);
      SizeWithin(Folds(nodes, t), off - {cur});
      nodes := nodes[leaf := nodes[leaf].(value := Some(value))];
      numele := numele + 1;
      was := None;
    }

    /** Drop the dead leaf chain that ends at `cur`. */
    method Prune(cur: nat, stack0: seq<Frame>) returns (node: nat, stack: seq<Frame>)
      requires Structured() && cur in t.pos && StackOk(nodes, t, stack0, cur) && LeavesHold(nodes, t, cur)
      modifies `nodes, `free, `t
      ensures Structured() && LeavesHold(nodes, t, ROOT) && Map() == old(Map())
      ensures node in t.pos && StackOk(nodes, t, stack, node)
      ensures Survives(old(t), t) && Folds(nodes, t) <= old(Folds(nodes, t)) + OnStack(stack) + {node}
      ensures forall a :: a in t.pos && a in OnStack(stack0) + {cur} ==> a in OnStack(stack) + {node}
    {
      hide TreeOk, Contents, Partitioned, NodeWf, StackOk, EdgeDetached, LeavesHold, Folds, OnStack;
      node, stack := cur, stack0;
      LiveFacts(nodes, t, node);
      while node != ROOT && |nodes[node].children| == 0 && nodes[node].value == None
        invariant Structured() && LeavesHold(nodes, t, node) && Map() == old(Map())
        invariant node in t.pos && node < |nodes| && StackOk(nodes, t, stack, node)
        invariant Survives(old(t), t) && Folds(nodes, t) <= old(Folds(nodes, t)) + OnStack(stack) + {node}
        invariant forall a :: a in t.pos && a in OnStack(stack0) + {cur} ==> a in OnStack(stack) + {node}
        decreases |stack|
      {
        StackToRoot(nodes, t, stack, node);
        if |stack| == 0 {
          break;
        }
        PopFrame(nodes, t, stack, node);
        OnStackPop(stack);
        var f := stack[|stack| - 1];
        stack := stack[..|stack| - 1];
        var parent, idx := f.node, f.child;
        ghost var n0, t0 := nodes, t;
        LiveFacts(nodes, t, parent);
        var p := nodes[parent];
        BranchOrOne(p);
        if p.compressed {
          p := p.(chars := [], children := [], compressed := false);
        } else {
          p := p.(chars := RemovedAt(p.chars, idx), children := RemovedAt(p.children, idx));
        }
        nodes := nodes[parent := p];
        Release(node, t.pos.Keys);
        DetachedIs(n0, nodes, parent, idx, p, node);
        DetachEdge(n0, nodes, t0, parent, idx);
        DetachedFolds(n0, nodes, t0, parent, idx, stack);
        t := DetachView(t0, node, t0.pos[node]);
        assert t.pos.Keys == t0.pos.Keys - {node};
        FoldsLive(nodes, t);
        DetachedStack(n0, nodes, t0, parent, idx, stack);
        DetachedLeaves(n0, nodes, t0, parent, idx);
        node := parent;
        LiveFacts(nodes, t, node);
      }
      SettledLeaf(nodes, t, node);
    }

    /** Fold `node` and its only child into one node, as often as the child is
        neither a key nor a branch point. */
    method TryMerge(node: nat)
      requires Structured() && LeavesHold(nodes, t, ROOT) && node in t.pos
      modifies `nodes, `free, `t
      ensures Structured() && LeavesHold(nodes, t, ROOT) && Map() == old(Map())
      ensures forall a :: a in old(t.pos) && |old(t.pos)[a]| <= |old(t.pos)[node]| ==>
        a in t.pos && t.pos[a] == old(t.pos)[a]
      ensures node < |nodes| && (|nodes[node].children| == 1 ==> var c := nodes[node].children[0];
        c < |nodes| && (nodes[c].value.Some? || |nodes[c].children| != 1))
      ensures Survives(old(t), t) && Folds(nodes, t) <= old(Folds(nodes, t)) - {node}
    {
      hide TreeOk, Contents, Partitioned, NodeWf, EdgeMerged, LeavesHold;
      while true
        invariant Survives(old(t), t) && Folds(nodes, t) <= old(Folds(nodes, t)) + {node}
        invariant Structured() && LeavesHold(nodes, t, ROOT) && Map() == old(Map())
        invariant forall a :: a in old(t.pos) && |old(t.pos)[a]| <= |old(t.pos)[node]| ==>
          a in t.pos && t.pos[a] == old(t.pos)[a]
        decreases t.pos.Keys
      {
        LiveFacts(nodes, t, node);
        EdgeFacts(nodes, t, node);
        if |nodes[node].children| != 1 {
          return;
        }
        var child := nodes[node].children[0];
        LiveFacts(nodes, t, child);
        if nodes[child].value.Some? || |nodes[child].children| != 1 {
          return;
        }
        ghost var n0, t0 := nodes, t;
        OnlyEdge(nodes, t, node);
        var chars, cchild := nodes[child].chars, nodes[child].children[0];
        var n := nodes[node];
        nodes := nodes[node := n.(chars := n.chars + chars, children := n.children[0 := cchild],
                                  compressed := |n.chars + chars| > 1)];
        Release(child, t.pos.Keys);
        MergedIs(n0, nodes, t0, node);
        MergeEdge(n0, nodes, t0, node);
        MergedFolds(n0, nodes, t0, node);
        t := MergeView(t0, node, child, t0.pos[child], cchild);
        assert t.pos.Keys == t0.pos.Keys - {child};
        MergedLeaves(n0, nodes, t0, t, node);
      }
    }

    /** Remove a key. Returns the value it had.  The tree is as compressed as it
        was, and wholly so along the removed key. */
    method Remove(key: Bytes) returns (was: Option<V>)
      requires Valid()
      modifies this
      ensures Valid()
      ensures was == if key in old(Map()) then Some(old(Map())[key]) else None
      ensures Map() == old(Map()) - {key}
      ensures Folds(nodes, t) <= old(Folds(nodes, t))
      ensures was.Some? ==> forall n :: n in Folds(nodes, t) ==> !Prefix(t.pos[n], key)
    {
      hide TreeOk, LeavesHold, Partitioned, NodeWf, StackOk, Folds, OnStack;
      var cur, consumed, split, stack := Walk(nodes, key, t);
      ContentsAt(nodes, t, key);
      CountRemove(Map(), key);
      if consumed != |key| || split != 0 {
        return None;
      }
      was := nodes[cur].value;
      if was == None {
        return;
      }
      LiveFacts(nodes, t, cur);
      SetValue(nodes, t, cur, None);
      SetValueLeaves(nodes, t, ROOT, cur, None);
      SetValueStack(nodes, t, stack, cur);
      ClearedFolds(nodes, t, stack, cur);
      nodes := nodes[cur := nodes[cur].(value := None)];
      numele := numele - 1;
      forall a | a in t.pos && Prefix(t.pos[a], key)
        ensures a in OnStack(stack) + {cur}
      {
        PathHolds(nodes, t, stack, cur, a);
      }
      var node;
      node, stack := Prune(cur, stack);
      MergeUp(node, stack);
      FoldsLive(nodes, t);
    }

    /** Re-compress on the way back to the root: nothing on the path folds any
        more, and nothing beside it starts to. */
    method MergeUp(node: nat, stack0: seq<Frame>)
      requires Structured() && LeavesHold(nodes, t, ROOT) && node in t.pos && StackOk(nodes, t, stack0, node)
      modifies `nodes, `free, `t
      ensures Structured() && LeavesHold(nodes, t, ROOT) && Map() == old(Map())
      ensures Survives(old(t), t) && Folds(nodes, t) <= old(Folds(nodes, t)) - OnStack(stack0) - {node}
    {
      hide TreeOk, Contents, Partitioned, StackOk, LeavesHold, Folds, OnStack;
      forall k | 0 <= k < |stack0|
        ensures stack0[k].node in t.pos && |t.pos[stack0[k].node]| <= |t.pos[node]|
      {
        StackLengths(nodes, t, stack0, node, k);
      }
      StackAscends(nodes, t, stack0, node);
      ghost var p0 := t.pos;
      TryMerge(node);
      var stack := stack0;
      while |stack| > 0
        invariant Structured() && LeavesHold(nodes, t, ROOT) && Map() == old(Map())
        invariant stack <= stack0
        invariant forall k :: 0 <= k < |stack| ==> stack[k].node in t.pos && t.pos[stack[k].node] == p0[stack[k].node]
        invariant Survives(old(t), t) && Folds(nodes, t) <= old(Folds(nodes, t)) - (OnStack(stack0) - OnStack(stack)) - {node}
        decreases |stack|
      {
        OnStackPop(stack);
        var f := stack[|stack| - 1];
        stack := stack[..|stack| - 1];
        TryMerge(f.node);
      }
      NothingOn(stack);
    }

    /** Drop every key. */
    method Clear()
      modifies this
      ensures Valid() && Map() == map[]
    {
      nodes := [Leaf()];
      free := [];
      numele := 0;
      t := View(map[ROOT := []], map[], map[[] := ROOT]);
      EmptyTree(nodes, t);
    }
  }

  /** Live nodes of `now` were live before, at the same positions. */
  ghost predicate Survives(was: View, now: View) {
    forall a :: a in now.pos ==> a in was.pos && now.pos[a] == was.pos[a]
  }

  lemma NothingOn(stack: seq<Frame>)
    ensures |stack| == 0 ==> OnStack(stack) == {}
  {
  }

  lemma StackToRoot<V>(nodes: seq<Node<V>>, t: View, stack: seq<Frame>, cur: nat)
    requires StackOk(nodes, t, stack, cur)
    ensures |stack| == 0 ==> cur == ROOT
  {
  }

  lemma BranchOrOne<V>(n: Node<V>)
    requires NodeWf(n)
    ensures !n.compressed ==> |n.chars| == |n.children|
  {
  }

  lemma DetachedIs<V>(n0: seq<Node<V>>, n1: seq<Node<V>>, n: nat, j: nat, p: Node<V>, x: nat)
    requires n < |n0| && x < |n0| && x != n && NodeWf(n0[n]) && j < |n0[n].children| && n0[n].children[j] == x
    requires |n0[x].children| == 0 && n0[x].value == None
    requires !n0[n].compressed ==> j < |n0[n].chars|
    requires p == if n0[n].compressed then n0[n].(chars := [], children := [], compressed := false)
      else n0[n].(chars := RemovedAt(n0[n].chars, j), children := RemovedAt(n0[n].children, j))
    requires n1 == n0[n := p][x := Leaf()]
    ensures EdgeDetached(n0, n1, n, j)
  {
  }

  lemma DetachedStack<V>(n0: seq<Node<V>>, n1: seq<Node<V>>, t: View, n: nat, j: nat, stack: seq<Frame>)
    requires TreeOk(n0, t) && n in t.pos && EdgeDetached(n0, n1, n, j) && n0[n].children[j] in t.pos
    requires StackOk(n0, t, stack, n)
    ensures StackOk(n1, DetachView(t, n0[n].children[j], t.pos[n0[n].children[j]]), stack, n)
  {
    hide TreeOk, StackOk, NodeWf;
    var x := n0[n].children[j];
    EdgeFacts(n0, t, n);
    EdgeIs(n0, t, n, j);
    forall a | a in t.pos && |t.pos[a]| < |t.pos[n]|
      ensures a < |n0| && a != n && a != x && n1[a] == n0[a]
    {
      LiveFacts(n0, t, a);
    }
    StackFrame(n0, n1, t, DetachView(t, x, t.pos[x]), stack, n);
  }

  lemma DetachedLeaves<V>(n0: seq<Node<V>>, n1: seq<Node<V>>, t: View, n: nat, j: nat)
    requires EdgeDetached(n0, n1, n, j) && LeavesHold(n0, t, n0[n].children[j])
    ensures LeavesHold(n1, DetachView(t, n0[n].children[j], if n0[n].children[j] in t.pos then t.pos[n0[n].children[j]] else []), n)
  {
  }

  /** A node that is not a valueless leaf, or is the root, is no exception. */
  lemma SettledLeaf<V>(nodes: seq<Node<V>>, t: View, node: nat)
    requires LeavesHold(nodes, t, node) && node < |nodes|
    requires node == ROOT || |nodes[node].children| != 0 || nodes[node].value.Some?
    ensures LeavesHold(nodes, t, ROOT)
  {
  }

  lemma OnlyEdge<V>(nodes: seq<Node<V>>, t: View, n: nat)
    requires TreeOk(nodes, t) && n in t.pos && n < |nodes| && |nodes[n].children| == 1
    ensures nodes[n].children[0] in t.pos && nodes[n].children[0] != n
    ensures |t.pos[n]| < |t.pos[nodes[n].children[0]]|
  {
    assert NodeOk(nodes, t, n);
    assert EdgeOk(nodes, t, n, 0);
  }

  lemma MergedIs<V>(n0: seq<Node<V>>, n1: seq<Node<V>>, t: View, n: nat)
    requires TreeOk(n0, t) && n in t.pos && n < |n0| && |n0[n].children| == 1
    requires var c := n0[n].children[0];
      && c in t.pos && c < |n0| && c != n && |n0[c].children| == 1 && n0[c].value == None
      && var chars := n0[n].chars + n0[c].chars;
      n1 == n0[n := n0[n].(chars := chars, children := n0[n].children[0 := n0[c].children[0]], compressed := |chars| > 1)][c := Leaf()]
    ensures EdgeMerged(n0, n1, n)
  {
    var c := n0[n].children[0];
    LiveFacts(n0, t, n);
    LiveFacts(n0, t, c);
    assert n0[n].children[0 := n0[c].children[0]] == n0[c].children;
  }

  lemma MergedLeaves<V>(n0: seq<Node<V>>, n1: seq<Node<V>>, t: View, t': View, n: nat)
    requires EdgeMerged(n0, n1, n) && LeavesHold(n0, t, ROOT)
    requires t'.pos.Keys == t.pos.Keys - {n0[n].children[0]}
    ensures LeavesHold(n1, t', ROOT)
  {
  }

  lemma CountRemove<V>(m: map<Bytes, V>, key: Bytes)
    ensures |m - {key}| == if key in m then |m| - 1 else |m|
    ensures key !in m ==> m - {key} == m
  {
    assert (m - {key}).Keys == m.Keys - {key};
    assert |m| == |m.Keys| && |m - {key}| == |(m - {key}).Keys|;
  }

  lemma SetValueStack<V>(nodes: seq<Node<V>>, t: View, stack: seq<Frame>, cur: nat)
    requires TreeOk(nodes, t) && StackOk(nodes, t, stack, cur) && cur < |nodes| && cur in t.pos
    ensures StackOk(nodes[cur := nodes[cur].(value := None)], t, stack, cur)
  {
    hide TreeOk, StackOk;
    forall a | a in t.pos
      ensures a < |nodes|
    {
      LiveFacts(nodes, t, a);
    }
    StackFrame(nodes, nodes[cur := nodes[cur].(value := None)], t, t, stack, cur);
  }

  /** Frames nearer the root stand at shorter positions. */
  lemma StackAscends<V>(nodes: seq<Node<V>>, t: View, stack: seq<Frame>, cur: nat)
    requires TreeOk(nodes, t) && StackOk(nodes, t, stack, cur) && cur in t.pos
    ensures forall k :: 0 <= k < |stack| ==> stack[k].node in t.pos
    ensures forall i, j :: 0 <= i < j < |stack| ==> |t.pos[stack[i].node]| <= |t.pos[stack[j].node]|
    decreases |stack|
  {
    hide TreeOk, StackOk;
    if |stack| > 0 {
      PopFrame(nodes, t, stack, cur);
      var rest, top := stack[..|stack| - 1], stack[|stack| - 1].node;
      StackAscends(nodes, t, rest, top);
      forall i | 0 <= i < |rest|
        ensures |t.pos[stack[i].node]| <= |t.pos[top]|
      {
        StackLengths(nodes, t, rest, top, i);
      }
    }
  }

  lemma BranchingNow<V>(n: Node<V>, b: Byte)
    requires NodeWf(n) && (|n.children| == 0 || (!n.compressed && !HasEdge(n.chars, b)))
    ensures !n.compressed && !HasEdge(n.chars, b) && |n.chars| == |n.children|
  {
  }

  lemma AttachAbsorbed<V>(n0: seq<Node<V>>, n1: seq<Node<V>>, t: View, n: nat, lab: Bytes, x: nat)
    requires TreeOk(n0, t) && n in t.pos && n < |n0| <= |n1| && x < |n1| && x != n && |lab| > 0
    requires |n0[n].children| == 0 && n1[x] == Leaf()
    requires n1[n] == n0[n].(chars := lab, children := [x], compressed := |lab| > 1)
    requires forall a :: 0 <= a < |n0| && a != n && a != x ==> n1[a] == n0[a]
    ensures EdgeAttached(n0, n1, n, lab, x)
  {
    hide TreeOk;
    LiveFacts(n0, t, n);
    assert InsertedAt(n0[n].children, 0, x) == [x];
    assert |lab| == 1 ==> InsertedAt(n0[n].chars, 0, lab[0]) == lab;
  }

  lemma AttachBranch<V>(n0: seq<Node<V>>, n1: seq<Node<V>>, t: View, n: nat, b: Byte, x: nat)
    requires TreeOk(n0, t) && n in t.pos && n < |n0| <= |n1| && x < |n1| && x != n
    requires !n0[n].compressed && !HasEdge(n0[n].chars, b) && n1[x] == Leaf() && |n0[n].chars| == |n0[n].children|
    requires var j := EdgeIndex(n0[n].chars, b);
      n1[n] == n0[n].(chars := InsertedAt(n0[n].chars, j, b), children := InsertedAt(n0[n].children, j, x), compressed := false)
    requires forall a :: 0 <= a < |n0| && a != n && a != x ==> n1[a] == n0[a]
    ensures EdgeAttached(n0, n1, n, [b], x)
  {
    LiveFacts(n0, t, n);
  }

  /** One new edge to a leaf, with everything it keeps. */
  lemma AttachStep<V>(n0: seq<Node<V>>, n1: seq<Node<V>>, t: View, n: nat, lab: Bytes, x: nat)
    requires TreeOk(n0, t) && LeavesHold(n0, t, ROOT) && StoredOrNoChild(n0, t, n)
    requires n in t.pos && x !in t.pos && x != ROOT && EdgeAttached(n0, n1, n, lab, x)
    ensures var t1 := AttachView(t, n, x, t.pos[n] + lab);
      && t.pos[n] + lab !in t.at
      && TreeOk(n1, t1) && LeavesHold(n1, t1, x) && Contents(n1, t1) == Contents(n0, t)
      && FoldsBeside(n0, t, n1, t1, n)
  {
    hide TreeOk, LeavesHold, Contents, FoldsBeside, StoredOrNoChild, EdgeAttached;
    AttachEdge(n0, n1, t, n, lab, x);
    AttachedFolds(n0, n1, t, n, lab, x);
    AttachLeaves(n0, n1, t, AttachView(t, n, x, t.pos[n] + lab), ROOT, n, lab, x);
  }

  lemma AbsorbedStep<V>(n0: seq<Node<V>>, n1: seq<Node<V>>, t: View, n: nat, lab: Bytes, x: nat)
    requires TreeOk(n0, t) && LeavesHold(n0, t, ROOT) && StoredOrNoChild(n0, t, n)
    requires n in t.pos && x !in t.pos && x != ROOT && n < |n0| <= |n1| && x < |n1| && |lab| > 0
    requires |n0[n].children| == 0 && n1[x] == Leaf()
    requires n1[n] == n0[n].(chars := lab, children := [x], compressed := |lab| > 1)
    requires forall a :: 0 <= a < |n0| && a != n && a != x ==> n1[a] == n0[a]
    ensures var t1 := AttachView(t, n, x, t.pos[n] + lab);
      && t.pos[n] + lab !in t.at
      && TreeOk(n1, t1) && LeavesHold(n1, t1, x) && Contents(n1, t1) == Contents(n0, t)
      && FoldsBeside(n0, t, n1, t1, n)
  {
    hide TreeOk, LeavesHold, Contents, FoldsBeside, StoredOrNoChild, EdgeAttached, AttachView;
    AttachAbsorbed(n0, n1, t, n, lab, x);
    AttachStep(n0, n1, t, n, lab, x);
  }

  lemma BranchStep<V>(n0: seq<Node<V>>, n1: seq<Node<V>>, t: View, n: nat, b: Byte, x: nat)
    requires TreeOk(n0, t) && LeavesHold(n0, t, ROOT) && StoredOrNoChild(n0, t, n)
    requires n in t.pos && x !in t.pos && x != ROOT && n < |n0| <= |n1| && x < |n1|
    requires !n0[n].compressed && !HasEdge(n0[n].chars, b) && n1[x] == Leaf() && |n0[n].chars| == |n0[n].children|
    requires var j := EdgeIndex(n0[n].chars, b);
      n1[n] == n0[n].(chars := InsertedAt(n0[n].chars, j, b), children := InsertedAt(n0[n].children, j, x), compressed := false)
    requires forall a :: 0 <= a < |n0| && a != n && a != x ==> n1[a] == n0[a]
    ensures var t1 := AttachView(t, n, x, t.pos[n] + [b]);
      && t.pos[n] + [b] !in t.at && EdgeAttached(n0, n1, n, [b], x)
      && TreeOk(n1, t1) && LeavesHold(n1, t1, x) && Contents(n1, t1) == Contents(n0, t)
      && FoldsBeside(n0, t, n1, t1, n)
  {
    hide TreeOk, LeavesHold, Contents, FoldsBeside, StoredOrNoChild, EdgeAttached, AttachView, EdgeIndex, HasEdge;
    AttachBranch(n0, n1, t, n, b, x);
    AttachStep(n0, n1, t, n, [b], x);
  }

  /** A new branch, then a leaf at the end of it. */
  lemma AttachAgain<V>(n0: seq<Node<V>>, n1: seq<Node<V>>, n2: seq<Node<V>>, t: View, n: nat, b: Byte, x: nat, lab: Bytes, y: nat)
    requires TreeOk(n0, t) && n in t.pos && x !in t.pos && EdgeAttached(n0, n1, n, [b], x) && |n0[n].children| > 0
    requires var t1 := AttachView(t, n, x, t.pos[n] + [b]);
      TreeOk(n1, t1) && LeavesHold(n1, t1, x) && y !in t1.pos && y != ROOT
    requires x < |n1| <= |n2| && y < |n2| && |lab| > 0 && n1[x] == n2[y] == Leaf()
    requires n2[x] == n1[x].(chars := lab, children := [y], compressed := |lab| > 1)
    requires forall a :: 0 <= a < |n1| && a != x && a != y ==> n2[a] == n1[a]
    ensures var t1 := AttachView(t, n, x, t.pos[n] + [b]); var t2 := AttachView(t1, x, y, t1.pos[x] + lab);
      && t1.pos[x] + lab !in t1.at
      && TreeOk(n2, t2) && LeavesHold(n2, t2, y) && Contents(n2, t2) == Contents(n1, t1)
      && FoldsBeside(n0, t, n2, t2, n)
  {
    hide TreeOk, LeavesHold, Contents, FoldsBeside, EdgeAttached;
    var t1 := AttachView(t, n, x, t.pos[n] + [b]);
    AttachAbsorbed(n1, n2, t1, x, lab, y);
    AttachEdge(n1, n2, t1, x, lab, y);
    AttachedTwice(n0, n1, n2, t, n, b, x, lab, y);
    AttachLeaves(n1, n2, t1, AttachView(t1, x, y, t1.pos[x] + lab), x, x, lab, y);
  }

  lemma AttachLeaves<V>(n0: seq<Node<V>>, n1: seq<Node<V>>, t0: View, t1: View, except: nat, n: nat, lab: Bytes, x: nat)
    requires TreeOk(n0, t0) && n in t0.pos && EdgeAttached(n0, n1, n, lab, x)
    requires LeavesHold(n0, t0, except) && (except == ROOT || except == n)
    requires t1.pos.Keys == t0.pos.Keys + {x}
    ensures LeavesHold(n1, t1, x)
  {
    hide TreeOk, EdgeIndex;
    forall a | a in t0.pos
      ensures a < |n0|
    {
      LiveFacts(n0, t0, a);
    }
  }

  /** A slot that is not live does not matter. */
  lemma DeadSlot<V>(nodes: seq<Node<V>>, nodes': seq<Node<V>>, t: View, x: nat)
    requires TreeOk(nodes, t) && x !in t.pos && |nodes| <= |nodes'|
    requires forall a :: 0 <= a < |nodes| && a != x ==> nodes'[a] == nodes[a]
    ensures TreeOk(nodes', t) && Contents(nodes', t) == Contents(nodes, t)
    ensures LeavesHold(nodes, t, ROOT) ==> LeavesHold(nodes', t, ROOT)
  {
    hide NodeOk;
    forall a | a in t.pos
      ensures a < |nodes|
    {
      LiveFacts(nodes, t, a);
    }
    SameStructure(nodes, nodes', t);
  }

  /** A key is stored exactly when the node at it holds a value. */
  lemma ContentsAt<V>(nodes: seq<Node<V>>, t: View, key: Bytes)
    requires TreeOk(nodes, t)
    ensures key in t.at ==> t.at[key] in t.pos && t.pos[t.at[key]] == key && t.at[key] < |nodes|
    ensures key in Contents(nodes, t) <==> key in t.at && nodes[t.at[key]].value.Some?
    ensures key in Contents(nodes, t) ==> Contents(nodes, t)[key] == nodes[t.at[key]].value.value
  {
    if key in t.at {
      LiveFacts(nodes, t, t.at[key]);
    }
  }

  lemma CountInsert<V>(m: map<Bytes, V>, key: Bytes, value: V)
    ensures |m[key := value]| == if key in m then |m| else |m| + 1
  {
    assert m[key := value].Keys == m.Keys + {key};
    assert |m| == |m.Keys| && |m[key := value]| == |m[key := value].Keys|;
  }

  /** Storing a value at `n` repairs it; clearing it makes it the exception. */
  lemma SetValueLeaves<V>(nodes: seq<Node<V>>, t: View, except: nat, n: nat, v: Option<V>)
    requires LeavesHold(nodes, t, except) && n < |nodes| && (except == ROOT || except == n)
    ensures LeavesHold(nodes[n := nodes[n].(value := v)], t, if v.Some? then ROOT else n)
  {
  }

  lemma BranchFacts<V>(n: Node<V>)
    requires NodeWf(n) && !n.compressed
    ensures |n.chars| == |n.children|
  {
  }

  /** Down an edge whose label is the next part of the key. */
  lemma StepOnKey<V>(nodes: seq<Node<V>>, t: View, cur: nat, j: nat, key: Bytes, i: nat)
    requires TreeOk(nodes, t) && cur in t.pos && cur < |nodes| && NodeWf(nodes[cur]) && j < |nodes[cur].children|
    requires i <= |key| && t.pos[cur] == key[..i] && Prefix(Label(nodes[cur], j), key[i..])
    ensures var c := nodes[cur].children[j]; c in t.pos && t.pos[c] == key[..i + |Label(nodes[cur], j)|]
  {
    hide TreeOk, Label;
    var lab := Label(nodes[cur], j);
    assert key[i..][..|lab|] == key[i..i + |lab|];
    ExtendPrefix(t.pos[cur], lab, key);
    StepDown(nodes, t, cur, j, key);
  }

  /** Where the key diverges from a label it has no edge of the split node. */
  lemma SplitPosition(key: Bytes, i: nat, m: nat, lab: Bytes)
    requires i + m <= |key| && m < |lab| && lab[..m] == key[i..i + m]
    requires i + m == |key| || lab[m] != key[i + m]
    ensures key[..i] + lab[..m] == key[..i + m]
    ensures i + m < |key| ==> !HasEdge([lab[m]], key[i + m])
  {
  }

  lemma CompressedFacts<V>(n: Node<V>)
    requires NodeWf(n) && n.compressed
    ensures |n.chars| > 1 && |n.children| == 1
  {
  }

  lemma SplitFirst<V>(n0: seq<Node<V>>, n1: seq<Node<V>>, t: View, node: nat, k: nat, tail: nat)
    requires TreeOk(n0, t) && node in t.pos && node < |n0| <= |n1| && tail < |n1| && tail != node
    requires |n0[node].children| == 1 && 0 < k < |n0[node].chars|
    requires n1[node] == n0[node].(chars := n0[node].chars[..k], children := [tail], compressed := k > 1)
    requires n1[tail] == Node(n0[node].chars[k..], [n0[node].children[0]], |n0[node].chars[k..]| > 1, None)
    requires forall a :: 0 <= a < |n0| && a != node && a != tail ==> n1[a] == n0[a]
    ensures EdgeSplit(n0, n1, node, k, tail)
  {
    LiveFacts(n0, t, node);
  }

  lemma SplitAgain<V>(n1: seq<Node<V>>, n2: seq<Node<V>>, t: View, node: nat, lab: Bytes, m: nat, mid: nat, tail: nat)
    requires TreeOk(n1, t) && node in t.pos && node < |n1| <= |n2| && mid < |n2| && mid != node && 0 < m < |lab|
    requires n1[node].chars == lab[..m + 1] && n1[node].children == [tail]
    requires n2[node] == n1[node].(chars := lab[..m], children := [mid], compressed := m > 1)
    requires n2[mid] == Node(lab[m..m + 1], [tail], false, None)
    requires forall a :: 0 <= a < |n1| && a != node && a != mid ==> n2[a] == n1[a]
    ensures EdgeSplit(n1, n2, node, m, mid)
  {
    LiveFacts(n1, t, node);
  }

  /** One cut of a label, with everything it keeps. */
  lemma SplitStep<V>(n0: seq<Node<V>>, n1: seq<Node<V>>, t: View, n: nat, k: nat, x: nat)
    requires TreeOk(n0, t) && LeavesHold(n0, t, ROOT) && n in t.pos && x !in t.pos && x != ROOT && EdgeSplit(n0, n1, n, k, x)
    ensures n < |n0| && |n0[n].children| == 1 && k <= |n0[n].chars|
    ensures var t1 := SplitView(t, n, x, t.pos[n] + n0[n].chars[..k], n0[n].children[0]);
      && TreeOk(n1, t1) && LeavesHold(n1, t1, ROOT) && Contents(n1, t1) == Contents(n0, t)
      && Folds(n1, t1) == Folds(n0, t) + {n} + (if n in Folds(n0, t) then {x} else {})
      && t1.pos.Keys == t.pos.Keys + {x} && t1.pos[n] == t.pos[n] && t1.pos[x] == t.pos[n] + n0[n].chars[..k]
  {
    hide TreeOk, LeavesHold, Contents, Folds, NodeWf;
    SplitEdge(n0, n1, t, n, k, x);
    SplitFolds(n0, n1, t, n, k, x);
    SplitLeaves(n0, n1, t, SplitView(t, n, x, t.pos[n] + n0[n].chars[..k], n0[n].children[0]), n, k, x);
  }

  lemma SplitLeaves<V>(nodes: seq<Node<V>>, nodes': seq<Node<V>>, t: View, t': View, n: nat, k: nat, x: nat)
    requires TreeOk(nodes, t) && EdgeSplit(nodes, nodes', n, k, x) && LeavesHold(nodes, t, ROOT)
    requires t'.pos.Keys == t.pos.Keys + {x}
    ensures LeavesHold(nodes', t', ROOT)
  {
    hide NodeOk;
    forall a | a in t.pos
      ensures a < |nodes|
    {
      LiveFacts(nodes, t, a);
    }
  }

  lemma EmptyTree<V>(nodes: seq<Node<V>>, t: View)
    requires nodes == [Leaf()] && t == View(map[ROOT := []], map[], map[[] := ROOT])
    ensures TreeOk(nodes, t) && Partitioned(1, t.pos.Keys, []) && LeavesHold(nodes, t, ROOT) && Contents(nodes, t) == map[]
  {
    assert NodeOk(nodes, t, ROOT);
  }
}
