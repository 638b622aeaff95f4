/**
  How compressed the radix tree is.  A node folds if its only child is neither a
  key nor a branch point, so that the two could be one node.
  */
module RaxFolds {
  import opened ByteStrings
  import opened RaxArena

  ghost predicate Foldable<V>(nodes: seq<Node<V>>, n: nat) {
    && n < |nodes| && |nodes[n].children| == 1
    && var c := nodes[n].children[0];
    c < |nodes| && nodes[c].value == None && |nodes[c].children| == 1
  }

  ghost function Folds<V>(nodes: seq<Node<V>>, t: View): set<nat> {
    set n | n in t.pos && Foldable(nodes, n)
  }

  lemma FoldsLive<V>(nodes: seq<Node<V>>, t: View)
    ensures Folds(nodes, t) <= t.pos.Keys
  {
  }

  /** The nodes of a path above its end. */
  ghost function OnStack(stack: seq<Frame>): set<nat> {
    set k | 0 <= k < |stack| :: stack[k].node
  }

  lemma OnStackPop(stack: seq<Frame>)
    requires |stack| > 0
    ensures OnStack(stack) == OnStack(stack[..|stack| - 1]) + {stack[|stack| - 1].node}
  {
    var rest := stack[..|stack| - 1];
    forall n | n in OnStack(stack)
      ensures n in OnStack(rest) || n == stack[|stack| - 1].node
    {
      var k :| 0 <= k < |stack| && stack[k].node == n;
      if k < |rest| {
        assert rest[k].node == n;
      }
    }
    forall n | n in OnStack(rest)
      ensures n in OnStack(stack)
    {
      var k :| 0 <= k < |rest| && rest[k].node == n;
      assert stack[k].node == n;
    }
  }

  /** The parent of the end of a path is the last node above it. */
  lemma ParentOnStack<V>(nodes: seq<Node<V>>, t: View, stack: seq<Frame>, cur: nat, a: nat)
    requires TreeOk(nodes, t) && StackOk(nodes, t, stack, cur)
    requires a in t.pos && a < |nodes| && cur in nodes[a].children
    ensures a in OnStack(stack)
  {
    EdgeFacts(nodes, t, a);
    if |stack| > 0 {
      PopFrame(nodes, t, stack, cur);
      var f := stack[|stack| - 1];
      EdgeFacts(nodes, t, f.node);
      assert f.node == a;
    }
  }

  lemma SameParent<V>(nodes: seq<Node<V>>, t: View, a: nat, b: nat, c: nat)
    requires TreeOk(nodes, t) && a in t.pos && b in t.pos && a < |nodes| && b < |nodes|
    requires c in nodes[a].children && c in nodes[b].children
    ensures a == b
  {
    EdgeFacts(nodes, t, a);
    EdgeFacts(nodes, t, b);
  }

  /** Clearing a value can only make the parent foldable. */
  lemma ClearedFolds<V>(nodes: seq<Node<V>>, t: View, stack: seq<Frame>, cur: nat)
    requires TreeOk(nodes, t) && StackOk(nodes, t, stack, cur) && cur in t.pos && cur < |nodes|
    ensures Folds(nodes[cur := nodes[cur].(value := None)], t) <= Folds(nodes, t) + OnStack(stack)
  {
    hide TreeOk, StackOk;
    var nodes' := nodes[cur := nodes[cur].(value := None)];
    forall a | a in Folds(nodes', t)
      ensures a in Folds(nodes, t) + OnStack(stack)
    {
      if nodes[a].children[0] == cur {
        ParentOnStack(nodes, t, stack, cur, a);
      }
    }
  }

  /** Taking an edge off `n` can only make `n` and its parent foldable. */
  lemma DetachedFolds<V>(nodes: seq<Node<V>>, nodes': seq<Node<V>>, t: View, n: nat, j: nat, stack: seq<Frame>)
    requires TreeOk(nodes, t) && n in t.pos && EdgeDetached(nodes, nodes', n, j) && StackOk(nodes, t, stack, n)
    requires nodes[n].children[j] in t.pos
    ensures var x := nodes[n].children[j];
      Folds(nodes', DetachView(t, x, t.pos[x])) <= Folds(nodes, t) + OnStack(stack) + {n}
  {
    hide TreeOk, StackOk, NodeWf, RemovedAt;
    var x := nodes[n].children[j];
    EdgeFacts(nodes, t, n);
    assert x in nodes[n].children;
    forall a | a in Folds(nodes', DetachView(t, x, t.pos[x])) && a != n
      ensures a in Folds(nodes, t) + OnStack(stack)
    {
      EdgeFacts(nodes, t, a);
      assert nodes'[a] == nodes[a];
      var b := nodes[a].children[0];
      if b == n {
        ParentOnStack(nodes, t, stack, n, a);
      }
    }
  }

  /** Folding a node makes no other node foldable. */
  lemma MergedFolds<V>(nodes: seq<Node<V>>, nodes': seq<Node<V>>, t: View, n: nat)
    requires TreeOk(nodes, t) && n in t.pos && EdgeMerged(nodes, nodes', n) && nodes[n].children[0] in t.pos
    ensures var c := nodes[n].children[0];
      Folds(nodes', MergeView(t, n, c, t.pos[c], nodes[c].children[0])) <= Folds(nodes, t) + {n}
  {
    hide TreeOk, NodeWf;
    var c := nodes[n].children[0];
    var t' := MergeView(t, n, c, t.pos[c], nodes[c].children[0]);
    EdgeFacts(nodes, t, n);
    forall a | a in Folds(nodes', t') && a != n
      ensures a in Folds(nodes, t)
    {
      EdgeFacts(nodes, t, a);
      assert nodes'[a] == nodes[a];
    }
  }

  /** Every live node at a prefix of the end of a path is on the path. */
  lemma {:induction false} PathHolds<V>(nodes: seq<Node<V>>, t: View, stack: seq<Frame>, cur: nat, a: nat)
    requires TreeOk(nodes, t) && StackOk(nodes, t, stack, cur) && cur in t.pos
    requires a in t.pos && Prefix(t.pos[a], t.pos[cur])
    ensures a == cur || a in OnStack(stack)
    decreases |stack|
  {
    hide TreeOk, StackOk;
    LiveFacts(nodes, t, a);
    LiveFacts(nodes, t, cur);
    if |t.pos[a]| < |t.pos[cur]| {
      if |stack| == 0 {
        StackStartsAtRoot(nodes, t, stack, cur);
      } else {
        PopFrame(nodes, t, stack, cur);
        OnStackPop(stack);
        var f := stack[|stack| - 1];
        LiveFacts(nodes, t, f.node);
        ChildPosition(nodes, t, f.node, f.child);
        if |t.pos[a]| > |t.pos[f.node]| {
          PrefixesCompare(t.pos[f.node], t.pos[a], t.pos[cur]);
          Between(nodes, t, f.node, f.child, a);
        } else {
          PrefixesCompare(t.pos[a], t.pos[f.node], t.pos[cur]);
          PathHolds(nodes, t, stack[..|stack| - 1], f.node, a);
        }
      }
    } else {
      assert t.pos[a] == t.pos[cur];
    }
  }

  lemma StackStartsAtRoot<V>(nodes: seq<Node<V>>, t: View, stack: seq<Frame>, cur: nat)
    requires TreeOk(nodes, t) && StackOk(nodes, t, stack, cur) && |stack| == 0
    ensures cur == ROOT && ROOT in t.pos && t.pos[ROOT] == []
  {
    LiveFacts(nodes, t, ROOT);
  }

  lemma ChildPosition<V>(nodes: seq<Node<V>>, t: View, n: nat, j: nat)
    requires TreeOk(nodes, t) && n in t.pos && n < |nodes| && NodeWf(nodes[n]) && j < |nodes[n].children|
    ensures nodes[n].children[j] in t.pos && t.pos[nodes[n].children[j]] == t.pos[n] + Label(nodes[n], j)
    ensures |Label(nodes[n], j)| > 0
  {
    assert NodeOk(nodes, t, n);
    assert EdgeOk(nodes, t, n, j);
  }

  /** No live node stands inside a label. */
  lemma Between<V>(nodes: seq<Node<V>>, t: View, n: nat, j: nat, a: nat)
    requires TreeOk(nodes, t) && n in t.pos && n < |nodes| && NodeWf(nodes[n]) && j < |nodes[n].children|
    requires a in t.pos && Prefix(t.pos[n], t.pos[a]) && Prefix(t.pos[a], t.pos[n] + Label(nodes[n], j))
    requires |t.pos[n]| < |t.pos[a]|
    ensures t.pos[a] == t.pos[n] + Label(nodes[n], j)
  {
    hide TreeOk;
    ChildPosition(nodes, t, n, j);
    var i := Toward(nodes, t, n, a);
    ChildPosition(nodes, t, n, i);
    var p := |t.pos[n]|;
    assert (t.pos[n] + Label(nodes[n], i))[p] == t.pos[a][p] == (t.pos[n] + Label(nodes[n], j))[p];
    SameFirstByteSameEdge(nodes[n], i, j);
  }

  // -------------------------------------------------------------- insertion

  /** The key ends inside the label of `n`, with two bytes or more to spare. */
  ghost predicate EndsIn<V>(nodes: seq<Node<V>>, t: View, n: nat, key: Bytes) {
    && n in t.pos && n < |nodes| && nodes[n].compressed
    && |t.pos[n]| < |key| && |key| + 2 <= |t.pos[n]| + |nodes[n].chars|
    && Prefix(key, t.pos[n] + nodes[n].chars)
  }

  ghost predicate EndsInside<V>(nodes: seq<Node<V>>, t: View, key: Bytes) {
    exists n :: EndsIn(nodes, t, n, key)
  }

  lemma EndsInFacts<V>(nodes: seq<Node<V>>, t: View, n: nat, key: Bytes)
    requires TreeOk(nodes, t) && EndsIn(nodes, t, n, key)
    ensures NodeWf(nodes[n]) && |nodes[n].children| == 1 && Label(nodes[n], 0) == nodes[n].chars
    ensures Prefix(t.pos[n], key)
  {
    LiveFacts(nodes, t, n);
    PrefixesCompare(t.pos[n], key, t.pos[n] + nodes[n].chars);
  }

  /** A key that leads to a node, or to one with no edge to follow, ends inside
      no label. */
  lemma StopsThere<V>(nodes: seq<Node<V>>, t: View, cur: nat, key: Bytes)
    requires TreeOk(nodes, t) && cur in t.pos && cur < |nodes| && NodeWf(nodes[cur]) && Prefix(t.pos[cur], key)
    requires |t.pos[cur]| == |key| || forall j :: 0 <= j < |nodes[cur].children| ==>
      !Prefix(key, t.pos[cur] + Label(nodes[cur], j)) && !Prefix(t.pos[cur] + Label(nodes[cur], j), key)
    ensures !EndsInside(nodes, t, key)
  {
    hide TreeOk, NodeWf;
    forall n
      ensures !EndsIn(nodes, t, n, key)
    {
      if EndsIn(nodes, t, n, key) {
        EndsInFacts(nodes, t, n, key);
        LiveFacts(nodes, t, n);
        LiveFacts(nodes, t, cur);
        if |t.pos[n]| < |t.pos[cur]| {
          InsideAbove(nodes, t, n, cur, key);
        } else if |t.pos[n]| > |t.pos[cur]| {
          PrefixesCompare(t.pos[cur], t.pos[n], key);
          var j := Toward(nodes, t, cur, n);
          PrefixOfPrefix(t.pos[cur] + Label(nodes[cur], j), t.pos[n], key);
        }
      }
    }
  }

  /** ... between two edges, */
  lemma StopsBetween<V>(nodes: seq<Node<V>>, t: View, cur: nat, i: nat, key: Bytes)
    requires TreeOk(nodes, t) && cur in t.pos && cur < |nodes| && NodeWf(nodes[cur]) && !nodes[cur].compressed
    requires i < |key| && t.pos[cur] == key[..i] && !HasEdge(nodes[cur].chars, key[i])
    ensures !EndsInside(nodes, t, key)
  {
    hide TreeOk;
    NoEdge(nodes[cur].chars, key[i], t.pos[cur], key);
    forall j | 0 <= j < |nodes[cur].children|
      ensures !Prefix(key, t.pos[cur] + Label(nodes[cur], j)) && !Prefix(t.pos[cur] + Label(nodes[cur], j), key)
    {
      assert (t.pos[cur] + Label(nodes[cur], j))[i] == nodes[cur].chars[j];
    }
    StopsThere(nodes, t, cur, key);
  }

  /** ... or by diverging from a label. */
  lemma StopsInLabel<V>(nodes: seq<Node<V>>, t: View, cur: nat, i: nat, m: nat, key: Bytes)
    requires TreeOk(nodes, t) && cur in t.pos && cur < |nodes| && NodeWf(nodes[cur]) && nodes[cur].compressed
    requires i + m < |key| && t.pos[cur] == key[..i] && m < |nodes[cur].chars| && nodes[cur].chars[m] != key[i + m]
    ensures !EndsInside(nodes, t, key)
  {
    hide TreeOk;
    forall j | 0 <= j < |nodes[cur].children|
      ensures !Prefix(key, t.pos[cur] + Label(nodes[cur], j)) && !Prefix(t.pos[cur] + Label(nodes[cur], j), key)
    {
      assert (t.pos[cur] + Label(nodes[cur], j))[i + m] == nodes[cur].chars[m];
    }
    StopsThere(nodes, t, cur, key);
  }

  lemma StopsAtNode<V>(nodes: seq<Node<V>>, t: View, cur: nat, i: nat, key: Bytes)
    requires TreeOk(nodes, t) && cur in t.pos && cur < |nodes| && NodeWf(nodes[cur]) && i <= |key| && t.pos[cur] == key[..i]
    requires i == |key| || |nodes[cur].children| == 0
    ensures !EndsInside(nodes, t, key)
  {
    StopsThere(nodes, t, cur, key);
  }

  lemma StopsAtEnd<V>(nodes: seq<Node<V>>, t: View, cur: nat, i: nat, m: nat, key: Bytes)
    requires TreeOk(nodes, t) && cur in t.pos && cur < |nodes| && nodes[cur].compressed
    requires 0 < m < |nodes[cur].chars| && i + m == |key| && t.pos[cur] == key[..i] && nodes[cur].chars[..m] == key[i..]
    ensures EndsInside(nodes, t, key) <==> m + 1 < |nodes[cur].chars|
  {
    hide TreeOk;
    var full := t.pos[cur] + nodes[cur].chars;
    assert full[..|key|] == key[..i] + key[i..] == key;
    InsideHere(nodes, t, cur, key);
  }

  lemma PrefixOfPrefix(a: Bytes, b: Bytes, c: Bytes)
    requires Prefix(a, b) && Prefix(b, c)
    ensures Prefix(a, c)
  {
  }

  /** No live node stands below `n` on the way to a key that ends inside its label. */
  lemma InsideAbove<V>(nodes: seq<Node<V>>, t: View, n: nat, a: nat, key: Bytes)
    requires TreeOk(nodes, t) && EndsIn(nodes, t, n, key) && a in t.pos && Prefix(t.pos[a], key)
    ensures |t.pos[a]| <= |t.pos[n]|
  {
    if |t.pos[a]| > |t.pos[n]| {
      EndsInFacts(nodes, t, n, key);
      PrefixesCompare(t.pos[n], t.pos[a], key);
      PrefixOfPrefix(t.pos[a], key, t.pos[n] + nodes[n].chars);
      LiveFacts(nodes, t, n);
      Between(nodes, t, n, 0, a);
    }
  }

  /** A key that ends inside a label does so in a known one. */
  lemma InsideHere<V>(nodes: seq<Node<V>>, t: View, cur: nat, key: Bytes)
    requires TreeOk(nodes, t) && cur in t.pos && cur < |nodes| && nodes[cur].compressed
    requires |t.pos[cur]| < |key| < |t.pos[cur]| + |nodes[cur].chars| && Prefix(key, t.pos[cur] + nodes[cur].chars)
    ensures EndsInside(nodes, t, key) <==> EndsIn(nodes, t, cur, key)
  {
    hide TreeOk;
    LiveFacts(nodes, t, cur);
    PrefixesCompare(t.pos[cur], key, t.pos[cur] + nodes[cur].chars);
    forall n
      ensures EndsIn(nodes, t, n, key) ==> n == cur
    {
      if EndsIn(nodes, t, n, key) {
        EndsInFacts(nodes, t, n, key);
        LiveFacts(nodes, t, n);
        InsideAbove(nodes, t, n, cur, key);
        if |t.pos[n]| > |t.pos[cur]| {
          PrefixesCompare(t.pos[cur], t.pos[n], key);
          PrefixOfPrefix(t.pos[n], key, t.pos[cur] + nodes[cur].chars);
          Between(nodes, t, cur, 0, n);
        } else {
          PrefixesCompare(t.pos[n], t.pos[cur], key);
        }
      }
    }
  }

  /** Cutting a label leaves a node that folds with the rest of it. */
  lemma SplitFolds<V>(nodes: seq<Node<V>>, nodes': seq<Node<V>>, t: View, n: nat, k: nat, x: nat)
    requires TreeOk(nodes, t) && n in t.pos && x !in t.pos && EdgeSplit(nodes, nodes', n, k, x)
    ensures var t' := SplitView(t, n, x, t.pos[n] + nodes[n].chars[..k], nodes[n].children[0]);
      Folds(nodes', t') == Folds(nodes, t) + {n} + (if n in Folds(nodes, t) then {x} else {})
  {
    hide TreeOk, NodeWf;
    var c := nodes[n].children[0];
    var t' := SplitView(t, n, x, t.pos[n] + nodes[n].chars[..k], c);
    EdgeFacts(nodes, t, n);
    OnlyEdgeDown(nodes, t, n);
    forall a | a in t.pos && a != n
      ensures Foldable(nodes', a) <==> Foldable(nodes, a)
    {
      EdgeFacts(nodes, t, a);
      assert nodes'[a] == nodes[a];
      if |nodes[a].children| == 1 {
        OnlyEdgeDown(nodes, t, a);
      }
    }
    assert Foldable(nodes', n) && (Foldable(nodes', x) <==> Foldable(nodes, n));
    assert t'.pos.Keys == t.pos.Keys + {x};
  }

  /** What folds once the label of `n` is cut in front of a byte, and behind it
      unless it is the last: `mid` holds that byte, `tail` what follows it. */
  ghost function SplitSet(f: set<nat>, n: nat, mid: nat, tail: nat, inside: bool): set<nat> {
    f + {n} + (if inside then {mid} else {}) + (if n in f then {if inside then tail else mid} else {})
  }

  /** Two cuts, the one behind the byte first. */
  lemma TwoCuts(f0: set<nat>, f1: set<nat>, f2: set<nat>, n: nat, mid: nat, tail: nat, inside: bool)
    requires f1 == if inside then f0 + {n} + (if n in f0 then {tail} else {}) else f0
    requires if mid == n then inside && f2 == f1 else f2 == f1 + {n} + (if n in f1 then {mid} else {})
    ensures f2 == SplitSet(f0, n, mid, tail, inside)
  {
  }

  /** The nodes that fold and are not the parent of an only child `n`. */
  ghost function FoldsOff<V>(nodes: seq<Node<V>>, t: View, n: nat): set<nat> {
    set a | a in t.pos && Foldable(nodes, a) && nodes[a].children != [n]
  }

  lemma OffFolds<V>(nodes: seq<Node<V>>, t: View, n: nat)
    ensures FoldsOff(nodes, t, n) <= Folds(nodes, t)
    ensures |FoldsOff(nodes, t, n) - {n}| <= |FoldsOff(nodes, t, n)| <= |Folds(nodes, t)|
  {
    SizeWithin(FoldsOff(nodes, t, n), Folds(nodes, t));
    SizeWithout(FoldsOff(nodes, t, n), n);
  }

  lemma {:induction false} SizeWithin(a: set<nat>, b: set<nat>)
    requires a <= b
    ensures |a| <= |b|
  {
    if a != {} {
      var x :| x in a;
      SizeWithin(a - {x}, b - {x});
    }
  }

  lemma OffChild<V>(nodes: seq<Node<V>>, t: View, n: nat, c: nat)
    requires TreeOk(nodes, t) && n in t.pos && n < |nodes| && nodes[n].children == [c]
    ensures FoldsOff(nodes, t, c) == Folds(nodes, t) - {n}
  {
    hide TreeOk;
    forall a | a in Folds(nodes, t) && nodes[a].children == [c]
      ensures a == n
    {
      SameParent(nodes, t, a, n, c);
    }
  }

  lemma SizeWithout(s: set<nat>, x: nat)
    ensures |s - {x}| == |s| - if x in s then 1 else 0
  {
  }

  lemma SizeWith(s: set<nat>, x: nat)
    requires x !in s
    ensures |s + {x}| == |s| + 1
  {
  }

  lemma InsideParts(f: set<nat>, n: nat, mid: nat, tail: nat)
    requires mid !in f - {n} && tail !in f && tail != n && tail != mid
    ensures var off, base := SplitSet(f, n, mid, tail, true) - {n}, if n in f then f - {n} + {tail} else f;
      off - {mid} == base && mid !in base - {n} && (mid != n ==> mid !in base && off == base + {mid})
  {
    if n !in f {
      assert f - {n} == f;
    }
  }

  /** One more node folds if the label goes on behind the byte, */
  lemma InsideTally(f: set<nat>, n: nat, mid: nat, tail: nat)
    requires mid !in f - {n} && tail !in f && tail != n && tail != mid
    ensures var off := SplitSet(f, n, mid, tail, true) - {n};
      |off - {mid}| == |f| && (mid != n ==> |off| == |f| + 1)
  {
    hide SplitSet;
    InsideParts(f, n, mid, tail);
    var base := if n in f then f - {n} + {tail} else f;
    if n in f {
      SizeWithout(f, n);
      SizeWith(f - {n}, tail);
    }
    if mid != n {
      SizeWith(base, mid);
    }
  }

  lemma EdgeParts(f: set<nat>, n: nat, mid: nat, tail: nat)
    requires mid !in f && mid != n
    ensures SplitSet(f, n, mid, tail, false) - {n} == if n in f then f - {n} + {mid} else f
  {
    if n !in f {
      assert f - {n} == f;
    }
  }

  /** ... and none if it does not. */
  lemma EdgeTally(f: set<nat>, n: nat, mid: nat, tail: nat)
    requires mid !in f && mid != n
    ensures var off := SplitSet(f, n, mid, tail, false) - {n};
      |off| == |f| && |off - {mid}| <= |f|
  {
    hide SplitSet;
    EdgeParts(f, n, mid, tail);
    if n in f {
      SizeWithout(f, n);
      SizeWith(f - {n}, mid);
    }
    SizeWithout(SplitSet(f, n, mid, tail, false) - {n}, mid);
  }

  /** A cut label, once the key goes on or ends at `mid`: one more node folds
      exactly if the key ended there and the label went on behind the cut byte. */
  lemma CutTally<V>(nodes: seq<Node<V>>, t: View, f: set<nat>, live: set<nat>, n: nat, mid: nat, tail: nat, inside: bool)
    requires TreeOk(nodes, t) && n in t.pos && n < |nodes| && n in live && f <= live
    requires if mid == n then inside else mid !in live && nodes[n].children == [mid]
    requires Folds(nodes, t) == SplitSet(f, n, mid, tail, inside) && (inside ==> tail !in live && tail != mid)
    ensures |FoldsOff(nodes, t, mid) - {mid}| <= |f|
    ensures mid != n ==> |FoldsOff(nodes, t, mid)| == |f| + if inside then 1 else 0
  {
    hide SplitSet, TreeOk, Folds, FoldsOff;
    if inside {
      InsideTally(f, n, mid, tail);
    } else {
      EdgeTally(f, n, mid, tail);
    }
    OffFolds(nodes, t, mid);
    if mid != n {
      OffChild(nodes, t, n, mid);
    }
    SizeWithin(FoldsOff(nodes, t, mid) - {mid}, Folds(nodes, t) - {n} - {mid});
  }

  lemma OnlyEdgeDown<V>(nodes: seq<Node<V>>, t: View, n: nat)
    requires TreeOk(nodes, t) && n in t.pos && n < |nodes| && |nodes[n].children| == 1
    ensures nodes[n].children[0] in t.pos && nodes[n].children[0] != n
  {
    LiveFacts(nodes, t, n);
    ChildPosition(nodes, t, n, 0);
  }

  lemma AttachedChildren<V>(nodes: seq<Node<V>>, nodes': seq<Node<V>>, n: nat, lab: Bytes, x: nat)
    requires EdgeAttached(nodes, nodes', n, lab, x)
    ensures n < |nodes| <= |nodes'| && |nodes'[n].children| == |nodes[n].children| + 1 && nodes'[n].value == nodes[n].value
    ensures |nodes[n].children| == 0 ==> nodes'[n].children[0] == x
    ensures x < |nodes'| && |nodes'[x].children| == 0
  {
  }

  /** A new leaf makes no node foldable, nor leaves the node it hangs off so. */
  lemma AttachedFolds<V>(nodes: seq<Node<V>>, nodes': seq<Node<V>>, t: View, n: nat, lab: Bytes, x: nat)
    requires TreeOk(nodes, t) && n in t.pos && x !in t.pos && EdgeAttached(nodes, nodes', n, lab, x)
    requires StoredOrNoChild(nodes, t, n)
    ensures FoldsBeside(nodes, t, nodes', AttachView(t, n, x, t.pos[n] + lab), n)
  {
    hide TreeOk, NodeWf, EdgeIndex, HasEdge, InsertedAt;
    AttachedChildren(nodes, nodes', n, lab, x);
    forall a | a in Folds(nodes', AttachView(t, n, x, t.pos[n] + lab))
      ensures a in Folds(nodes, t) && a != n && a < |nodes| && nodes[a].children != [n]
    {
      if a != n && a != x {
        EdgeFacts(nodes, t, a);
        assert nodes'[a] == nodes[a];
        var b := nodes[a].children[0];
        assert nodes[a].children == [b];
      }
    }
  }

  /** A value makes no node foldable and its parent not foldable. */
  lemma StoredFolds<V>(nodes: seq<Node<V>>, t: View, n: nat, v: V)
    requires n < |nodes|
    ensures var nodes' := nodes[n := nodes[n].(value := Some(v))];
      Folds(nodes', t) == FoldsOff(nodes, t, n)
  {
    var nodes' := nodes[n := nodes[n].(value := Some(v))];
    forall a | a in t.pos && a < |nodes| && |nodes[a].children| == 1
      ensures nodes[a].children == [n] <==> nodes[a].children[0] == n
    {
    }
  }

  /** `n` is no valueless leaf, or nobody's only child. */
  ghost predicate StoredOrNoChild<V>(nodes: seq<Node<V>>, t: View, n: nat) {
    n < |nodes| && |nodes[n].children| == 0 ==>
      nodes[n].value.Some? || forall a :: a in t.pos && a < |nodes| ==> nodes[a].children != [n]
  }

  /** A leaf holds a value, or is the root and nobody's child. */
  lemma LeafStored<V>(nodes: seq<Node<V>>, t: View, n: nat)
    requires TreeOk(nodes, t) && LeavesHold(nodes, t, ROOT) && n in t.pos && n < |nodes|
    ensures StoredOrNoChild(nodes, t, n)
  {
    hide TreeOk;
    forall a | a in t.pos && a < |nodes| && nodes[a].children == [n]
      ensures n != ROOT
    {
      EdgeFacts(nodes, t, a);
      assert n in nodes[a].children;
    }
  }

  /** A slot that is not live does not matter. */
  lemma DeadFolds<V>(nodes: seq<Node<V>>, mid: seq<Node<V>>, t: View, x: nat, nodes': seq<Node<V>>, t': View, n: nat)
    requires TreeOk(nodes, t) && x !in t.pos && |nodes| <= |mid|
    requires forall a :: 0 <= a < |nodes| && a != x ==> mid[a] == nodes[a]
    requires FoldsBeside(mid, t, nodes', t', n)
    ensures FoldsBeside(nodes, t, nodes', t', n)
  {
    hide TreeOk;
    forall a | a in t.pos
      ensures a < |nodes| && mid[a] == nodes[a] && (Foldable(mid, a) <==> Foldable(nodes, a))
    {
      EdgeFacts(nodes, t, a);
      if |nodes[a].children| == 1 {
        OnlyEdgeDown(nodes, t, a);
        assert nodes[a].children[0] in nodes[a].children;
      }
    }
  }

  /** The child hung beside others is not an only child. */
  lemma NotAlone<V>(nodes: seq<Node<V>>, nodes': seq<Node<V>>, t: View, n: nat, b: Byte, x: nat)
    requires TreeOk(nodes, t) && n in t.pos && x !in t.pos && EdgeAttached(nodes, nodes', n, [b], x)
    requires |nodes[n].children| > 0
    ensures forall a :: a in AttachView(t, n, x, t.pos[n] + [b]).pos && a < |nodes'| ==> nodes'[a].children != [x]
  {
    hide TreeOk, NodeWf, InsertedAt, EdgeIndex, HasEdge;
    AttachedChildren(nodes, nodes', n, [b], x);
    forall a | a in t.pos && a != n
      ensures a < |nodes'| && nodes'[a].children != [x]
    {
      EdgeFacts(nodes, t, a);
      assert nodes'[a] == nodes[a];
    }
  }

  /** Of the nodes that fold after `n` got a new edge, all did before, and neither
      `n` nor its parent is among them. */
  ghost predicate FoldsBeside<V>(nodes: seq<Node<V>>, t: View, nodes': seq<Node<V>>, t': View, n: nat) {
    Folds(nodes', t') <= FoldsOff(nodes, t, n) - {n}
  }

  /** A new branch that goes on to a leaf. */
  lemma AttachedTwice<V>(nodes: seq<Node<V>>, mid: seq<Node<V>>, nodes': seq<Node<V>>, t: View,
                         n: nat, b: Byte, x: nat, lab: Bytes, y: nat)
    requires TreeOk(nodes, t) && n in t.pos && x !in t.pos && EdgeAttached(nodes, mid, n, [b], x) && |nodes[n].children| > 0
    requires var t1 := AttachView(t, n, x, t.pos[n] + [b]);
      TreeOk(mid, t1) && y !in t1.pos && EdgeAttached(mid, nodes', x, lab, y)
    ensures var t1 := AttachView(t, n, x, t.pos[n] + [b]);
      FoldsBeside(nodes, t, nodes', AttachView(t1, x, y, t1.pos[x] + lab), n)
  {
    hide TreeOk, EdgeAttached, Folds, FoldsOff;
    NotAlone(nodes, mid, t, n, b, x);
    OffFolds(mid, AttachView(t, n, x, t.pos[n] + [b]), x);
    AttachedFolds(nodes, mid, t, n, [b], x);
    AttachedFolds(mid, nodes', AttachView(t, n, x, t.pos[n] + [b]), x, lab, y);
  }

  /** A tree that holds "abcd" alone: nothing folds, and "ab" ends inside. */
  lemma PrefixLoosens<V>(v: V) returns (nodes: seq<Node<V>>, t: View)
    ensures TreeOk(nodes, t) && LeavesHold(nodes, t, ROOT) && Contents(nodes, t) == map[[97, 98, 99, 100] := v]
    ensures Folds(nodes, t) == {} && EndsInside(nodes, t, [97, 98])
  {
    var key: Bytes := [97, 98, 99, 100];
    nodes := [Node(key, [1], true, None), Node([], [], false, Some(v))];
    t := View(map[ROOT := [], 1 := key], map[1 := ROOT], map[[] := ROOT, key := 1]);
    assert t.pos[ROOT] + Label(nodes[ROOT], 0) == key;
    assert NodeOk(nodes, t, ROOT) && NodeOk(nodes, t, 1);
    assert [] + key == key;
    assert EndsIn(nodes, t, ROOT, [97, 98]);
  }
}
