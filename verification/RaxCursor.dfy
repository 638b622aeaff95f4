/** Bidirectional cursors over the radix tree. */
module RaxCursor {
  import opened ByteStrings
  import opened RaxArena

  // -------------------------------------------- order of the live positions

  /** How the position of the `j`-th child of `n` compares with a live position. */
  lemma ChildCompare<V>(nodes: seq<Node<V>>, t: View, n: nat, j: nat, k: Bytes) returns (i: int)
    requires TreeOk(nodes, t) && n in t.pos && n < |nodes| && j < |nodes[n].children| && k in t.at
    ensures NodeWf(nodes[n]) && nodes[n].children[j] in t.pos
    ensures var p, q := t.pos[n], t.pos[nodes[n].children[j]];
      && (!Prefix(p, k) ==> i == -1 && (BytesLess(q, k) <==> BytesLess(p, k)) && !Prefix(q, k) && q != k && p != k)
      && (k == p ==> i == -2 && BytesLess(k, q) && !Prefix(q, k))
      && (Prefix(p, k) && k != p ==> (
            && 0 <= i < |nodes[n].children| && BytesLess(p, k)
            && (i == j ==> Prefix(q, k))
            && (i < j ==> BytesLess(k, q) && !Prefix(q, k))
            && (i > j ==> After(q, k))))
    ensures 0 <= i ==> i < |nodes[n].children| && nodes[n].children[i] in t.pos && Prefix(t.pos[nodes[n].children[i]], k)
  {
    hide TreeOk, BytesLess;
    EdgeFacts(nodes, t, n);
    EdgeIs(nodes, t, n, j);
    var p, q := t.pos[n], t.pos[nodes[n].children[j]];
    assert Prefix(p, q);
    if !Prefix(p, k) {
      i := -1;
      Outside(p, q, k);
    } else if k == p {
      i := -2;
      PrefixLeq(k, q);
    } else {
      AtFacts(nodes, t, k);
      PrefixLeq(p, k);
      var c := Toward(nodes, t, n, t.at[k]);
      i := c;
      EdgeIs(nodes, t, n, c);
      if i != j {
        SiblingsDiverge(nodes[n], p, i, j, k);
      }
    }
  }

  lemma AtFacts<V>(nodes: seq<Node<V>>, t: View, k: Bytes)
    requires TreeOk(nodes, t) && k in t.at
    ensures t.at[k] in t.pos && t.pos[t.at[k]] == k
  {
  }

  /** Strings under different edges of a node compare like the edges. */
  lemma SiblingsDiverge<V>(n: Node<V>, p: Bytes, i: nat, j: nat, k: Bytes)
    requires NodeWf(n) && i < |n.children| && j < |n.children| && i != j
    requires Prefix(p + Label(n, i), k)
    ensures !Prefix(p + Label(n, j), k)
    ensures if i < j then BytesLess(k, p + Label(n, j)) else BytesLess(p + Label(n, j), k)
  {
    var q := p + Label(n, j);
    assert |n.chars| == |n.children| && !n.compressed;
    var x, y := n.chars[i], n.chars[j];
    assert if i < j then x < y else y < x;
    assert k[|p|] == (p + [x])[|p|] == x;
    assert q[|p|] == y;
    assert k == p + k[|p|..] by {
      assert k[..|p|] == (p + [x])[..|p|] == p;
    }
    CommonPrefix(p, k[|p|..], [y]);
    CommonPrefix(p, [y], k[|p|..]);
  }

  /** (S1) Past `n` means at or past its first child. */
  lemma FirstChild<V>(nodes: seq<Node<V>>, t: View, n: nat, k: Bytes)
    requires TreeOk(nodes, t) && n in t.pos && n < |nodes| && |nodes[n].children| > 0 && k in t.at
    ensures nodes[n].children[0] in t.pos
    ensures BytesLess(t.pos[n], k) <==> BytesLeq(t.pos[nodes[n].children[0]], k)
  {
    hide TreeOk, BytesLess;
    var i := ChildCompare(nodes, t, n, 0, k);
    var p, q := t.pos[n], t.pos[nodes[n].children[0]];
    BytesIrreflexive(p);
    if k == p {
      LessOrAfter(q, k);
    } else if i == 0 {
      PrefixLeq(q, k);
    }
  }

  /** (S2) Past the subtree of a child means at or past its right sibling. */
  lemma NextSibling<V>(nodes: seq<Node<V>>, t: View, n: nat, j: nat, k: Bytes)
    requires TreeOk(nodes, t) && n in t.pos && n < |nodes| && j + 1 < |nodes[n].children| && k in t.at
    ensures nodes[n].children[j] in t.pos && nodes[n].children[j + 1] in t.pos
    ensures After(t.pos[nodes[n].children[j]], k) <==> BytesLeq(t.pos[nodes[n].children[j + 1]], k)
  {
    hide TreeOk, BytesLess;
    var i := ChildCompare(nodes, t, n, j, k);
    var i' := ChildCompare(nodes, t, n, j + 1, k);
    var q, q' := t.pos[nodes[n].children[j]], t.pos[nodes[n].children[j + 1]];
    LessOrAfter(q, k);
    LessOrAfter(q', k);
    if 0 <= i {
      SameToward(nodes, t, n, i, i', k);
      if i' == j + 1 {
        PrefixLeq(q', k);
      }
    }
  }

  /** (S3) Past the subtree of the last child means past the subtree of `n`. */
  lemma LastChild<V>(nodes: seq<Node<V>>, t: View, n: nat, k: Bytes)
    requires TreeOk(nodes, t) && n in t.pos && n < |nodes| && |nodes[n].children| > 0 && k in t.at
    ensures nodes[n].children[|nodes[n].children| - 1] in t.pos
    ensures After(t.pos[nodes[n].children[|nodes[n].children| - 1]], k) <==> After(t.pos[n], k)
  {
    hide TreeOk, BytesLess;
    var j := |nodes[n].children| - 1;
    var i := ChildCompare(nodes, t, n, j, k);
    LessOrAfter(t.pos[nodes[n].children[j]], k);
    assert k == t.pos[n] ==> Prefix(t.pos[n], k);
  }

  /** (S4) A leaf has nothing below it. */
  lemma LeafAfter<V>(nodes: seq<Node<V>>, t: View, n: nat, k: Bytes)
    requires TreeOk(nodes, t) && n in t.pos && n < |nodes| && |nodes[n].children| == 0 && k in t.at
    ensures After(t.pos[n], k) <==> BytesLess(t.pos[n], k)
  {
    hide TreeOk, BytesLess;
    AtFacts(nodes, t, k);
    BytesIrreflexive(k);
    if Prefix(t.pos[n], k) && |t.pos[n]| < |k| {
      var _ := Toward(nodes, t, n, t.at[k]);
    }
    assert Prefix(t.pos[n], k) && |t.pos[n]| == |k| ==> t.pos[n] == k[..|k|] == k;
  }

  lemma SameToward<V>(nodes: seq<Node<V>>, t: View, n: nat, i: nat, i': nat, k: Bytes)
    requires TreeOk(nodes, t) && n in t.pos && n < |nodes| && i < |nodes[n].children| && i' < |nodes[n].children|
    requires nodes[n].children[i] in t.pos && nodes[n].children[i'] in t.pos
    requires Prefix(t.pos[nodes[n].children[i]], k) && Prefix(t.pos[nodes[n].children[i']], k)
    ensures i == i'
  {
    hide TreeOk;
    EdgeFacts(nodes, t, n);
    EdgeIs(nodes, t, n, i);
    EdgeIs(nodes, t, n, i');
    if i != i' {
      SiblingsDiverge(nodes[n], t.pos[n], i, i', k);
    }
  }

  /** (S5) Where the target leaves the tree at `n`: the children before `e` are
      below it, those from `e` on above it. */
  ghost predicate Splits<V>(nodes: seq<Node<V>>, t: View, n: nat, target: Bytes, e: nat)
    requires n in t.pos
  {
    && n < |nodes| && NodeWf(nodes[n]) && e <= |nodes[n].children|
    && Prefix(t.pos[n], target) && t.pos[n] != target
    && (forall j :: 0 <= j < e ==> var q := t.pos[n] + Label(nodes[n], j);
          BytesLess(q, target) && !Prefix(q, target))
    && (forall j :: e <= j < |nodes[n].children| ==> var q := t.pos[n] + Label(nodes[n], j);
          BytesLess(target, q) && !Prefix(q, target))
  }

  lemma SeekSplit<V>(nodes: seq<Node<V>>, t: View, n: nat, target: Bytes, e: nat, k: Bytes)
    requires TreeOk(nodes, t) && n in t.pos && k in t.at && Splits(nodes, t, n, target, e)
    ensures k != target
    ensures forall c :: c in nodes[n].children ==> c in t.pos
    ensures e < |nodes[n].children| ==> (BytesLess(target, k) <==> BytesLeq(t.pos[nodes[n].children[e]], k))
    ensures e == |nodes[n].children| ==> (BytesLess(target, k) <==> After(t.pos[n], k))
    ensures e > 0 ==> (BytesLess(k, target) <==> !After(t.pos[nodes[n].children[e - 1]], k))
    ensures e == 0 ==> (BytesLess(k, target) <==> BytesLeq(k, t.pos[n]))
  {
    hide TreeOk, BytesLess;
    EdgeFacts(nodes, t, n);
    SeekNotThere(nodes, t, n, target, e);
    BytesTotal(k, target);
    LessOrAfter(target, k);
    var m := |nodes[n].children|;
    if m == 0 {
      SeekOutside(nodes, t, n, target, e, k);
      LeafAfter(nodes, t, n, k);
      LessOrAfter(t.pos[n], k);
    } else if e < m {
      SeekAt(nodes, t, n, target, e, k);
      if e > 0 {
        NextSibling(nodes, t, n, e - 1, k);
      } else {
        FirstChild(nodes, t, n, k);
        LessOrAfter(t.pos[n], k);
      }
    } else {
      SeekOutside(nodes, t, n, target, e, k);
      LastChild(nodes, t, n, k);
    }
  }

  lemma SeekNotThere<V>(nodes: seq<Node<V>>, t: View, n: nat, target: Bytes, e: nat)
    requires TreeOk(nodes, t) && n in t.pos && Splits(nodes, t, n, target, e)
    ensures target !in t.at
  {
    hide TreeOk, BytesLess;
    NothingThere(nodes, t, n, target);
  }

  /** The target and a key compare as the key's edge and the split. */
  lemma SeekEdge<V>(nodes: seq<Node<V>>, t: View, n: nat, target: Bytes, e: nat, i: nat, k: Bytes)
    requires n in t.pos && Splits(nodes, t, n, target, e) && i < |nodes[n].children|
    requires Prefix(t.pos[n] + Label(nodes[n], i), k)
    ensures if i < e then BytesLess(k, target) else BytesLess(target, k)
  {
    hide BytesLess;
    var q := t.pos[n] + Label(nodes[n], i);
    if i < e {
      Outside(q, k, target);
    } else {
      PrefixLeq(q, k);
      if q != k {
        BytesTransitive(target, q, k);
      }
    }
  }

  lemma SeekAt<V>(nodes: seq<Node<V>>, t: View, n: nat, target: Bytes, e: nat, k: Bytes)
    requires TreeOk(nodes, t) && n in t.pos && k in t.at && Splits(nodes, t, n, target, e)
    requires e < |nodes[n].children|
    ensures nodes[n].children[e] in t.pos
    ensures BytesLess(target, k) <==> BytesLeq(t.pos[nodes[n].children[e]], k)
  {
    hide TreeOk, BytesLess, Splits;
    SplitBounds(nodes, t, n, target, e);
    EdgeFacts(nodes, t, n);
    EdgeIs(nodes, t, n, e);
    var i := ChildCompare(nodes, t, n, e, k);
    var p, q := t.pos[n], t.pos[nodes[n].children[e]];
    LessOrAfter(q, k);
    LessOrAfter(target, k);
    if i == -1 {
      Outside(p, target, k);
    } else if i == -2 {
      PrefixLeq(p, target);
    } else {
      EdgeIs(nodes, t, n, i);
      SeekEdge(nodes, t, n, target, e, i, k);
      if i == e {
        PrefixLeq(q, k);
      }
    }
  }

  lemma SplitBounds<V>(nodes: seq<Node<V>>, t: View, n: nat, target: Bytes, e: nat)
    requires n in t.pos && Splits(nodes, t, n, target, e)
    ensures n < |nodes| && NodeWf(nodes[n]) && e <= |nodes[n].children| && Prefix(t.pos[n], target) && t.pos[n] != target
  {
  }

  /** With every child below the target, past it means past the subtree. */
  lemma SeekOutside<V>(nodes: seq<Node<V>>, t: View, n: nat, target: Bytes, e: nat, k: Bytes)
    requires TreeOk(nodes, t) && n in t.pos && k in t.at && Splits(nodes, t, n, target, e)
    requires e == |nodes[n].children|
    ensures BytesLess(target, k) <==> After(t.pos[n], k)
  {
    hide TreeOk, BytesLess, Splits;
    SplitBounds(nodes, t, n, target, e);
    EdgeFacts(nodes, t, n);
    AtFacts(nodes, t, k);
    var p := t.pos[n];
    PrefixLeq(p, target);
    LessOrAfter(target, k);
    if !Prefix(p, k) {
      Outside(p, target, k);
    } else if k != p {
      var i := Toward(nodes, t, n, t.at[k]);
      SeekEdge(nodes, t, n, target, e, i, k);
    }
  }

  // ------------------------------------------------------------- the cursor

  datatype Seek = Ge | Gt | Le | Lt

  predicate IsForward(op: Seek) {
    op.Ge? || op.Gt?
  }

  /** The relation a seek asks for. */
  ghost predicate Satisfies(op: Seek, k: Bytes, target: Bytes) {
    match op
    case Ge => BytesLeq(target, k)
    case Gt => BytesLess(target, k)
    case Le => BytesLeq(k, target)
    case Lt => BytesLess(k, target)
  }

  datatype Outcome = AtTarget | Below | Diverge(above: Option<nat>, below: Option<nat>)

  class RaxIter<V(==)> {
    const nodes: seq<Node<V>>
    var key: Bytes
    var stack: seq<Frame>
    var cur: nat
    var pending: bool
    var eof: bool
    var forward: bool
    ghost const t: View

    /** The cursor stands on a live node and knows the way to it. */
    ghost predicate Placed()
      reads this
    {
      && TreeOk(nodes, t)
      && cur in t.pos && cur < |nodes|
      && key == t.pos[cur]
      && StackOk(nodes, t, stack, cur)
    }

    /** ... and, unless exhausted, on a stored key. */
    ghost predicate Valid()
      reads this
    {
      Placed() && (!eof ==> key in Contents(nodes, t))
    }

    ghost function Map(): map<Bytes, V>
      requires TreeOk(nodes, t)
    {
      Contents(nodes, t)
    }

    /** Still to be yielded. */
    ghost predicate ToCome(k: Bytes)
      reads this
    {
      !eof && if pending then (if forward then BytesLeq(key, k) else BytesLeq(k, key))
              else (if forward then BytesLess(key, k) else BytesLess(k, key))
    }

    constructor (nodes: seq<Node<V>>, ghost t: View)
      requires TreeOk(nodes, t)
      ensures this.nodes == nodes && this.t == t && Valid() && eof
    {
      this.nodes := nodes;
      this.t := t;
      key, stack, cur := [], [], ROOT;
      pending, eof, forward := false, true, true;
      new;
      LiveFacts(nodes, t, ROOT);
    }

    // ---------------------------------------------------------- movement

    method Descend(i: nat)
      requires Placed() && i < |nodes[cur].children|
      modifies `key, `stack, `cur
      ensures Placed() && cur == nodes[old(cur)].children[i]
    {
      hide TreeOk, StackOk, Contents;
      LiveFacts(nodes, t, cur);
      EdgeFacts(nodes, t, cur);
      EdgeIs(nodes, t, cur, i);
      PushFrame(nodes, t, stack, cur, i);
      var n := nodes[cur];
      stack := stack + [Frame(cur, i, |key|)];
      if n.compressed {
        key := key + n.chars;
      } else if i < |n.chars| {
        key := key + [n.chars[i]];
      }
      cur := n.children[i];
    }

    method Ascend() returns (f: Option<Frame>)
      requires Placed()
      modifies `key, `stack, `cur
      ensures Placed()
      ensures f == None ==> old(cur) == ROOT && cur == old(cur)
      ensures f.Some? ==> cur == f.value.node && f.value.child < |nodes[cur].children|
      ensures f.Some? ==> nodes[cur].children[f.value.child] == old(cur)
      ensures f.Some? ==> |stack| < |old(stack)|
    {
      hide TreeOk, Contents, FrameOk;
      if |stack| == 0 {
        return None;
      }
      PopFrame(nodes, t, stack, cur);
      ghost var was := cur;
      var top := stack[|stack| - 1];
      stack := stack[..|stack| - 1];
      ParentPrefix(nodes, t, top.node, top.child);
      key := key[..top.klen];
      cur := top.node;
      return Some(top);
    }

    method DescendRightmost()
      requires Placed()
      modifies `key, `stack, `cur
      ensures Placed() && |nodes[cur].children| == 0
      ensures forall k :: k in t.at ==> (After(old(key), k) <==> After(key, k))
    {
      hide TreeOk, Contents, StackOk, After;
      while true
        invariant Placed()
        invariant forall k :: k in t.at ==> (After(old(key), k) <==> After(key, k))
        decreases MaxLength(t) - |key|
      {
        PositionBound(t, cur);
        var last := |nodes[cur].children|;
        if last == 0 {
          return;
        }
        forall k | k in t.at
          ensures nodes[cur].children[last - 1] in t.pos
          ensures After(t.pos[nodes[cur].children[last - 1]], k) <==> After(t.pos[cur], k)
        {
          LastChild(nodes, t, cur, k);
        }
        ChildIsLonger(nodes, t, cur, last - 1);
        Descend(last - 1);
        PositionBound(t, cur);
      }
    }

    /** Leave the current subtree for the next one to the right. */
    method NextSubtree() returns (moved: bool)
      requires Placed()
      modifies `key, `stack, `cur
      ensures Placed()
      ensures moved ==> forall k :: k in t.at ==> (After(old(key), k) <==> BytesLeq(key, k))
      ensures !moved ==> forall k :: k in t.at ==> !After(old(key), k)
    {
      hide TreeOk, Contents, StackOk, BytesLess, After;
      while true
        invariant Placed()
        invariant forall k :: k in t.at ==> (After(old(key), k) <==> After(key, k))
        decreases |stack|
      {
        ghost var x := cur;
        var f := Ascend();
        if f == None {
          NothingAfterRoot(nodes, t);
          return false;
        }
        var j := f.value.child;
        if j + 1 < |nodes[cur].children| {
          forall k | k in t.at
            ensures nodes[cur].children[j + 1] in t.pos
            ensures After(t.pos[x], k) <==> BytesLeq(t.pos[nodes[cur].children[j + 1]], k)
          {
            NextSibling(nodes, t, cur, j, k);
          }
          Descend(j + 1);
          return true;
        }
        forall k | k in t.at
          ensures After(t.pos[x], k) <==> After(t.pos[cur], k)
        {
          LastChild(nodes, t, cur, k);
        }
      }
    }

    /** Move to the next stored key; without `descendFirst` the subtree of the
        current node is skipped. */
    method StepForward(descendFirst: bool) returns (ok: bool)
      requires Placed()
      modifies `key, `stack, `cur
      ensures Placed()
      ensures ok ==> key in Map()
      ensures ok ==> forall k :: k in Map() ==>
        ((if descendFirst then BytesLess(old(key), k) else After(old(key), k)) <==> BytesLeq(key, k))
      ensures !ok ==> forall k :: k in Map() ==> !(if descendFirst then BytesLess(old(key), k) else After(old(key), k))
    {
      hide TreeOk, Contents, StackOk, BytesLess, After;
      var down := descendFirst;
      while true
        invariant Placed()
        invariant forall k :: k in Map() ==>
          ((if descendFirst then BytesLess(old(key), k) else After(old(key), k)) <==>
           (if down then BytesLess(key, k) else After(key, k)))
        decreases Beyond(t, key)
      {
        ghost var was := key;
        KeyIsLive(nodes, t);
        LiveFacts(nodes, t, cur);
        if down && |nodes[cur].children| != 0 {
          forall k | k in t.at
            ensures nodes[cur].children[0] in t.pos
            ensures BytesLess(t.pos[cur], k) <==> BytesLeq(t.pos[nodes[cur].children[0]], k)
          {
            FirstChild(nodes, t, cur, k);
          }
          Descend(0);
        } else {
          if down {
            forall k | k in t.at
              ensures After(t.pos[cur], k) <==> BytesLess(t.pos[cur], k)
            {
              LeafAfter(nodes, t, cur, k);
            }
          }
          var moved := NextSubtree();
          if !moved {
            return false;
          }
        }
        LiveFacts(nodes, t, cur);
        BeyondShrinks(nodes, t, was, key);
        KeyIsStored(nodes, t, cur);
        down := true;
        if nodes[cur].value.Some? {
          return true;
        }
        NotStoredLess(nodes, t, cur);
      }
    }

    /** Move to the previous stored key; with `checkSelf` the current node counts. */
    method StepBackward(checkSelf: bool) returns (ok: bool)
      requires Placed()
      modifies `key, `stack, `cur
      ensures Placed()
      ensures ok ==> key in Map()
      ensures ok ==> forall k :: k in Map() ==>
        ((if checkSelf then BytesLeq(k, old(key)) else BytesLess(k, old(key))) <==> BytesLeq(k, key))
      ensures !ok ==> forall k :: k in Map() ==> !(if checkSelf then BytesLeq(k, old(key)) else BytesLess(k, old(key)))
    {
      hide TreeOk, Contents, StackOk, BytesLess, After;
      KeyIsLive(nodes, t);
      KeyIsStored(nodes, t, cur);
      if checkSelf && nodes[cur].value.Some? {
        return true;
      }
      if checkSelf {
        NotStoredLess(nodes, t, cur);
      }
      while true
        invariant Placed() && key in t.at
        invariant forall k :: k in Map() ==>
          ((if checkSelf then BytesLeq(k, old(key)) else BytesLess(k, old(key))) <==> BytesLess(k, key))
        decreases Before(t, key)
      {
        ghost var x, was := cur, key;
        var f := Ascend();
        if f == None {
          NothingBeforeRoot(nodes, t);
          return false;
        }
        var j := f.value.child;
        if j > 0 {
          forall k | k in t.at
            ensures nodes[cur].children[j - 1] in t.pos
            ensures BytesLess(k, t.pos[x]) <==> !After(t.pos[nodes[cur].children[j - 1]], k)
          {
            NextSibling(nodes, t, cur, j - 1, k);
            LessOrAfter(t.pos[x], k);
            LessOrAfter(k, t.pos[x]);
          }
          Descend(j - 1);
          DescendRightmost();
          forall k | k in t.at
            ensures After(t.pos[cur], k) <==> !BytesLeq(k, t.pos[cur])
          {
            LeafAfter(nodes, t, cur, k);
            LessOrAfter(t.pos[cur], k);
          }
        } else {
          forall k | k in t.at
            ensures BytesLess(k, t.pos[x]) <==> BytesLeq(k, t.pos[cur])
          {
            FirstChild(nodes, t, cur, k);
            LessOrAfter(t.pos[x], k);
            LessOrAfter(t.pos[cur], k);
            LessOrAfter(k, t.pos[x]);
          }
        }
        KeyIsStored(nodes, t, cur);
        BeforeShrinks(t, was, key);
        if nodes[cur].value.Some? {
          return true;
        }
        NotStoredLess(nodes, t, cur);
      }
    }

    // -------------------------------------------------------- positioning

    method Reset()
      requires TreeOk(nodes, t)
      modifies `key, `stack, `cur, `pending, `eof
      ensures Placed() && cur == ROOT && key == [] && !pending && !eof
    {
      key, stack, cur, pending, eof := [], [], ROOT, false, false;
      LiveFacts(nodes, t, ROOT);
    }

    method StartFirst()
      requires TreeOk(nodes, t)
      modifies this
      ensures Valid() && forward && forall k :: k in Map() ==> ToCome(k)
    {
      hide TreeOk, Contents, StackOk, BytesLess;
      Reset();
      forward := true;
      KeyIsStored(nodes, t, ROOT);
      EmptyFirst();
      if nodes[ROOT].value.Some? {
        pending := true;
        return;
      }
      NotStoredLess(nodes, t, ROOT);
      var ok := StepForward(true);
      if ok {
        pending := true;
      } else {
        eof := true;
      }
    }

    method StartLast()
      requires TreeOk(nodes, t)
      modifies this
      ensures Valid() && !forward && forall k :: k in Map() ==> ToCome(k)
    {
      hide TreeOk, Contents, StackOk, BytesLess, After;
      Reset();
      forward := false;
      KeyIsLive(nodes, t);
      NothingAfterRoot(nodes, t);
      DescendRightmost();
      forall k | k in t.at
        ensures BytesLeq(k, t.pos[cur])
      {
        LeafAfter(nodes, t, cur, k);
        LessOrAfter(t.pos[cur], k);
      }
      var ok := StepBackward(true);
      if ok {
        pending := true;
      } else {
        eof := true;
      }
    }

    /** Walk down as far as the target matches. */
    method SeekWalk(target: Bytes) returns (outcome: Outcome, ghost e: nat)
      requires Placed() && cur == ROOT && key == []
      modifies `key, `stack, `cur
      ensures Placed()
      ensures outcome.AtTarget? ==> key == target
      ensures !outcome.AtTarget? ==> Splits(nodes, t, cur, target, e)
      ensures outcome.Below? ==> e == 0 && |nodes[cur].children| == 0
      ensures outcome.Diverge? ==> e <= |nodes[cur].children| && |nodes[cur].children| > 0
      ensures outcome.Diverge? ==> outcome.above == if e < |nodes[cur].children| then Some(e) else None
      ensures outcome.Diverge? ==> outcome.below == if e > 0 then Some(e - 1) else None
    {
      hide TreeOk, Contents, StackOk, BytesLess, EdgeIndex;
      var i := 0;
      e := 0;
      while true
        invariant Placed()
        invariant i == |key| <= |target| && key == target[..i]
        decreases |target| - i
      {
        LiveFacts(nodes, t, cur);
        var n := nodes[cur];
        if i == |target| {
          return AtTarget, 0;
        }
        if |n.children| == 0 {
          e := 0;
          return Below, e;
        }
        if n.compressed {
          var lab := n.chars;
          var m := MatchLen(lab, target, i);
          if m == |lab| {
            ExtendPrefix(t.pos[cur], lab, target);
            StepDown(nodes, t, cur, 0, target);
            Descend(0);
            i := i + m;
            continue;
          }
          var above := i + m == |target| || lab[m] > target[i + m];
          e := if above then 0 else 1;
          SplitsCompressed(nodes, t, cur, target, m, e);
          return Diverge(if above then Some(0) else None, if above then None else Some(0)), e;
        }
        var j := EdgeIndex(n.chars, target[i]);
        if HasEdge(n.chars, target[i]) {
          ExtendPrefix(t.pos[cur], [n.chars[j]], target);
          StepDown(nodes, t, cur, j, target);
          Descend(j);
          i := i + 1;
        } else {
          e := j;
          SplitsBranching(nodes, t, cur, target, e);
          return Diverge(if j < |n.children| then Some(j) else None, if j > 0 then Some(j - 1) else None), e;
        }
      }
    }

    /** Stand on the extremal key that satisfies `op`, if there is one. */
    method DoSeek(op: Seek, target: Bytes)
      requires TreeOk(nodes, t)
      modifies `key, `stack, `cur, `pending, `eof
      ensures Valid() && (!eof ==> pending)
      ensures !eof ==> forall k :: k in Map() ==>
        (Satisfies(op, k, target) <==> if IsForward(op) then BytesLeq(key, k) else BytesLeq(k, key))
      ensures eof ==> forall k :: k in Map() ==> !Satisfies(op, k, target)
    {
      hide TreeOk, Contents, StackOk, BytesLess, After, Splits;
      Reset();
      KeyIsLive(nodes, t);
      var outcome; ghost var e;
      outcome, e := SeekWalk(target);
      ghost var at := cur;
      KeyIsStored(nodes, t, cur);
      if !outcome.AtTarget? {
        forall k | k in t.at
          ensures SplitAt(nodes, t, at, target, e, k)
        {
          SeekSplit(nodes, t, at, target, e, k);
        }
      }
      var found;
      if IsForward(op) {
        found := SeekForward(op, target, outcome, e);
      } else {
        found := SeekBackward(op, target, outcome, e);
      }
      if found {
        pending, eof := true, false;
      } else {
        eof := true;
      }
    }

    /** How the walk of a seek can have ended. */
    ghost predicate Ended(target: Bytes, outcome: Outcome, e: nat)
      requires Placed()
      reads this
    {
      match outcome
      case AtTarget => key == target
      case Below =>
        e == 0 && |nodes[cur].children| == 0 && forall k :: k in t.at ==> SplitAt(nodes, t, cur, target, e, k)
      case Diverge(above, below) =>
        && e <= |nodes[cur].children|
        && above == (if e < |nodes[cur].children| then Some(e) else None)
        && below == (if e > 0 then Some(e - 1) else None)
        && forall k :: k in t.at ==> SplitAt(nodes, t, cur, target, e, k)
    }

    method SeekForward(op: Seek, target: Bytes, outcome: Outcome, ghost e: nat) returns (found: bool)
      requires Placed() && IsForward(op) && Ended(target, outcome, e)
      modifies `key, `stack, `cur
      ensures Placed() && (found ==> key in Map())
      ensures found ==> forall k :: k in Map() ==> (Satisfies(op, k, target) <==> BytesLeq(key, k))
      ensures !found ==> forall k :: k in Map() ==> !Satisfies(op, k, target)
    {
      hide TreeOk, Contents, StackOk, BytesLess, After;
      KeyIsLive(nodes, t);
      KeyIsStored(nodes, t, cur);
      match outcome
      case AtTarget =>
        if op.Ge? && nodes[cur].value.Some? {
          found := true;
        } else {
          if nodes[cur].value.None? {
            NotStoredLess(nodes, t, cur);
          }
          found := StepForward(true);
        }
      case Below =>
        found := StepForward(false);
      case Diverge(Some(j), _) =>
        ghost var n := cur;
        Descend(j);
        assert cur in nodes[n].children;
        KeyIsStored(nodes, t, cur);
        if nodes[cur].value.Some? {
          found := true;
        } else {
          NotStoredLess(nodes, t, cur);
          found := StepForward(true);
        }
      case Diverge(None, _) =>
        found := StepForward(false);
    }

    method SeekBackward(op: Seek, target: Bytes, outcome: Outcome, ghost e: nat) returns (found: bool)
      requires Placed() && !IsForward(op) && Ended(target, outcome, e)
      modifies `key, `stack, `cur
      ensures Placed() && (found ==> key in Map())
      ensures found ==> forall k :: k in Map() ==> (Satisfies(op, k, target) <==> BytesLeq(k, key))
      ensures !found ==> forall k :: k in Map() ==> !Satisfies(op, k, target)
    {
      hide TreeOk, Contents, StackOk, BytesLess, After;
      KeyIsLive(nodes, t);
      KeyIsStored(nodes, t, cur);
      match outcome
      case AtTarget =>
        if op.Le? && nodes[cur].value.Some? {
          found := true;
        } else {
          if nodes[cur].value.None? {
            NotStoredLess(nodes, t, cur);
          }
          found := StepBackward(false);
        }
      case Below =>
        found := StepBackward(true);
      case Diverge(_, Some(j)) =>
        ghost var n := cur;
        Descend(j);
        assert cur in nodes[n].children;
        DescendRightmost();
        forall k | k in t.at
          ensures After(t.pos[cur], k) <==> !BytesLeq(k, t.pos[cur])
        {
          LeafAfter(nodes, t, cur, k);
          LessOrAfter(t.pos[cur], k);
        }
        found := StepBackward(true);
      case Diverge(_, None) =>
        found := StepBackward(true);
    }

    /** A seek found the least or greatest key in the relation, and the cursor is
        about to yield it and everything beyond it in its direction. */
    ghost predicate Sought(op: Seek, target: Bytes)
      requires TreeOk(nodes, t)
      reads this
    {
      && (eof <==> forall k :: k in Map() ==> !Satisfies(op, k, target))
      && (!eof ==> pending && key in Map() && Satisfies(op, key, target))
      && (!eof ==> forall k :: k in Map() && Satisfies(op, k, target) ==>
            if IsForward(op) then BytesLeq(key, k) else BytesLeq(k, key))
      && (!eof ==> forall k :: k in Map() ==> (ToCome(k) <==> if forward then BytesLeq(key, k) else BytesLeq(k, key)))
    }

    /** Seek, then iterate in ascending order. */
    method SeekTo(op: Seek, target: Bytes)
      requires TreeOk(nodes, t)
      modifies this
      ensures Valid() && forward && Sought(op, target)
    {
      hide TreeOk, Contents, StackOk, BytesLess, After, Satisfies;
      DoSeek(op, target);
      assert !eof ==> key in Map() && BytesLeq(key, key);
      forward := true;
    }

    /** Seek, then iterate in descending order. */
    method SeekRev(op: Seek, target: Bytes)
      requires TreeOk(nodes, t)
      modifies this
      ensures Valid() && !forward && Sought(op, target)
    {
      hide TreeOk, Contents, StackOk, BytesLess, After, Satisfies;
      DoSeek(op, target);
      assert !eof ==> key in Map() && BytesLeq(key, key);
      forward := false;
    }

    /** Yield the next pair, in the cursor's direction. */
    method Next() returns (r: Option<(Bytes, V)>)
      requires Valid()
      modifies `key, `stack, `cur, `pending, `eof
      ensures Valid()
      ensures r == None ==> eof && forall k :: k in Map() ==> !old(ToCome(k))
      ensures r.Some? ==> var (k, v) := r.value;
        && k in Map() && Map()[k] == v && old(ToCome(k))
        && (forall k' :: k' in Map() && old(ToCome(k')) ==> if forward then BytesLeq(k, k') else BytesLeq(k', k))
        && (forall k' :: k' in Map() ==> (ToCome(k') <==> old(ToCome(k')) && k' != k))
    {
      hide TreeOk, Contents, StackOk, BytesLess, After;
      if eof {
        return None;
      }
      ghost var was := key;
      if pending {
        pending := false;
      } else {
        var ok;
        if forward {
          ok := StepForward(true);
        } else {
          ok := StepBackward(false);
        }
        if !ok {
          eof := true;
          return None;
        }
      }
      KeyIsStored(nodes, t, cur);
      forall k | k in Map()
        ensures BytesLess(key, k) <==> BytesLeq(key, k) && k != key
        ensures BytesLess(k, key) <==> BytesLeq(k, key) && k != key
      {
        BytesIrreflexive(key);
      }
      return Some((key, nodes[cur].value.value));
    }

    /** Everything still to come, in order. */
    method CollectPairs() returns (out: seq<(Bytes, V)>)
      requires Valid()
      modifies `key, `stack, `cur, `pending, `eof
      ensures Valid() && eof
      ensures forall i :: 0 <= i < |out| ==> out[i].0 in Map() && Map()[out[i].0] == out[i].1
      ensures forall k :: k in Map() && old(ToCome(k)) <==> exists i :: 0 <= i < |out| && out[i].0 == k
      ensures forall i, j :: 0 <= i < j < |out| ==>
        if forward then BytesLess(out[i].0, out[j].0) else BytesLess(out[j].0, out[i].0)
    {
      hide TreeOk, Contents, StackOk, BytesLess, After, BytesLeq, ToCome;
      out := [];
      ghost var todo := set k | k in Map().Keys && ToCome(k);
      while true
        invariant TreeOk(nodes, t) && Valid()
        invariant forall i :: 0 <= i < |out| ==> out[i].0 in Map() && Map()[out[i].0] == out[i].1 && out[i].0 in todo
        invariant forall k :: k in todo ==> ToCome(k) || exists i :: 0 <= i < |out| && out[i].0 == k
        invariant forall k :: k in Map() && ToCome(k) ==> k in todo
        invariant forall i, k :: 0 <= i < |out| && k in Map() && ToCome(k) ==>
          if forward then BytesLess(out[i].0, k) else BytesLess(k, out[i].0)
        invariant forall i, j :: 0 <= i < j < |out| ==>
          if forward then BytesLess(out[i].0, out[j].0) else BytesLess(out[j].0, out[i].0)
        decreases set k | k in Map().Keys && ToCome(k)
      {
        ghost var before := set k | k in Map().Keys && ToCome(k);
        var r := Next();
        if r == None {
          return;
        }
        ghost var after := set k | k in Map().Keys && ToCome(k);
        assert r.value.0 in before && r.value.0 !in after && after <= before;
        forall k | k in Map() && ToCome(k)
          ensures if forward then BytesLess(r.value.0, k) else BytesLess(k, r.value.0)
        {
          LeqMeans(r.value.0, k);
          LeqMeans(k, r.value.0);
        }
        ghost var was := out;
        out := out + [r.value];
        assert out[|was|].0 == r.value.0;
        forall k | k in todo
          ensures ToCome(k) || exists i :: 0 <= i < |out| && out[i].0 == k
        {
          if exists i :: 0 <= i < |was| && was[i].0 == k {
            var i :| 0 <= i < |was| && was[i].0 == k;
            assert out[i].0 == k;
          }
        }
      }
    }
  }

  lemma LeqMeans(a: Bytes, b: Bytes)
    ensures BytesLeq(a, b) && a != b ==> BytesLess(a, b)
  {
  }

  /** What `SeekSplit` says of one live position. */
  ghost predicate SplitAt<V>(nodes: seq<Node<V>>, t: View, n: nat, target: Bytes, e: nat, k: Bytes) {
    && n in t.pos && n < |nodes| && e <= |nodes[n].children|
    && (forall c :: c in nodes[n].children ==> c in t.pos)
    && k != target
    && (e < |nodes[n].children| ==> (BytesLess(target, k) <==> BytesLeq(t.pos[nodes[n].children[e]], k)))
    && (e == |nodes[n].children| ==> (BytesLess(target, k) <==> After(t.pos[n], k)))
    && (e > 0 ==> (BytesLess(k, target) <==> !After(t.pos[nodes[n].children[e - 1]], k)))
    && (e == 0 ==> (BytesLess(k, target) <==> BytesLeq(k, t.pos[n])))
  }

  ghost function Before(t: View, key: Bytes): set<Bytes> {
    set k | k in t.at.Keys && BytesLess(k, key)
  }

  lemma BeforeShrinks(t: View, was: Bytes, now: Bytes)
    requires was in t.at && now in t.at && BytesLess(now, was)
    ensures Before(t, now) < Before(t, was)
  {
    BytesIrreflexive(now);
    forall k | k in Before(t, now)
      ensures k in Before(t, was)
    {
      BytesTransitive(k, now, was);
    }
    assert now in Before(t, was) && now !in Before(t, now);
  }

  lemma NothingBeforeRoot<V>(nodes: seq<Node<V>>, t: View)
    requires TreeOk(nodes, t)
    ensures ROOT in t.pos && forall k :: !BytesLess(k, t.pos[ROOT])
  {
    LiveFacts(nodes, t, ROOT);
  }

  lemma EmptyFirst()
    ensures forall k: Bytes :: k == [] || BytesLess([], k)
  {
  }

  /** A walk stuck inside a label has the child wholly on one side. */
  lemma SplitsCompressed<V>(nodes: seq<Node<V>>, t: View, n: nat, target: Bytes, m: nat, e: nat)
    requires TreeOk(nodes, t) && n in t.pos && n < |nodes| && NodeWf(nodes[n]) && nodes[n].compressed
    requires var i, lab := |t.pos[n]|, nodes[n].chars;
      && i < |target| && t.pos[n] == target[..i] && m < |lab| && i + m <= |target| && lab[..m] == target[i..i + m]
      && (i + m == |target| || lab[m] != target[i + m])
      && e == if i + m == |target| || lab[m] > target[i + m] then 0 else 1
    ensures Splits(nodes, t, n, target, e)
  {
    hide TreeOk;
    var p, lab := t.pos[n], nodes[n].chars;
    var q, c := p + lab, p + lab[..m];
    assert target[..|p| + m] == target[..|p|] + target[|p|..|p| + m] == c;
    assert q == c + lab[m..] && target == c + target[|c|..];
    CommonPrefix(c, lab[m..], target[|c|..]);
    CommonPrefix(c, target[|c|..], lab[m..]);
    NotPrefix(p, lab, target, m);
  }

  /** A walk stuck between edges has the smaller edges below the target. */
  lemma SplitsBranching<V>(nodes: seq<Node<V>>, t: View, n: nat, target: Bytes, e: nat)
    requires TreeOk(nodes, t) && n in t.pos && n < |nodes| && NodeWf(nodes[n]) && !nodes[n].compressed
    requires var i := |t.pos[n]|;
      i < |target| && t.pos[n] == target[..i] && !HasEdge(nodes[n].chars, target[i]) && e == EdgeIndex(nodes[n].chars, target[i])
    ensures Splits(nodes, t, n, target, e)
  {
    hide TreeOk, EdgeIndex;
    var p, chars := t.pos[n], nodes[n].chars;
    EdgeIndexMeans(chars, target[|p|]);
    NoEdge(chars, target[|p|], p, target);
    assert target == p + target[|p|..];
    forall j | 0 <= j < |chars|
      ensures if j < e then BytesLess(p + [chars[j]], target) else BytesLess(target, p + [chars[j]])
    {
      CommonPrefix(p, [chars[j]], target[|p|..]);
      CommonPrefix(p, target[|p|..], [chars[j]]);
    }
    hide BytesLess, HasEdge;
  }

  /** The live positions past a key. */
  ghost function Beyond(t: View, key: Bytes): set<Bytes> {
    set k | k in t.at.Keys && BytesLess(key, k)
  }

  lemma BeyondShrinks<V>(nodes: seq<Node<V>>, t: View, was: Bytes, now: Bytes)
    requires was in t.at && now in t.at && (BytesLess(was, now) || After(was, now))
    ensures Beyond(t, now) < Beyond(t, was)
  {
    BytesIrreflexive(now);
    forall k | k in Beyond(t, now)
      ensures k in Beyond(t, was)
    {
      BytesTransitive(was, now, k);
    }
    assert now in Beyond(t, was) && now !in Beyond(t, now);
  }

  lemma KeyIsLive<V>(nodes: seq<Node<V>>, t: View)
    requires TreeOk(nodes, t)
    ensures forall k :: k in Contents(nodes, t) ==> k in t.at
  {
  }

  lemma KeyIsStored<V>(nodes: seq<Node<V>>, t: View, n: nat)
    requires TreeOk(nodes, t) && n in t.pos && n < |nodes|
    ensures t.pos[n] in t.at
    ensures t.pos[n] in Contents(nodes, t) <==> nodes[n].value.Some?
    ensures t.pos[n] in Contents(nodes, t) ==> Contents(nodes, t)[t.pos[n]] == nodes[n].value.value
  {
    LiveFacts(nodes, t, n);
  }

  lemma NotStoredLess<V>(nodes: seq<Node<V>>, t: View, n: nat)
    requires TreeOk(nodes, t) && n in t.pos && n < |nodes| && nodes[n].value == None
    ensures forall k :: k in Contents(nodes, t) ==> k != t.pos[n]
  {
    KeyIsStored(nodes, t, n);
  }

  lemma NothingAfterRoot<V>(nodes: seq<Node<V>>, t: View)
    requires TreeOk(nodes, t)
    ensures ROOT in t.pos && forall k :: !After(t.pos[ROOT], k)
  {
    LiveFacts(nodes, t, ROOT);
  }

  /** An upper bound on the length of the live positions. */
  ghost function MaxLength(t: View): nat {
    LongestOf(t.pos.Values)
  }

  ghost function LongestOf(s: set<Bytes>): (m: nat)
    ensures forall k :: k in s ==> |k| <= m
  {
    if s == {} then 0
    else
      var k :| k in s;
      var m := LongestOf(s - {k});
      if |k| > m then |k| else m
  }

  lemma PositionBound(t: View, n: nat)
    requires n in t.pos
    ensures |t.pos[n]| <= MaxLength(t)
  {
    assert t.pos[n] in t.pos.Values;
  }

  lemma ChildIsLonger<V>(nodes: seq<Node<V>>, t: View, n: nat, j: nat)
    requires TreeOk(nodes, t) && n in t.pos && n < |nodes| && j < |nodes[n].children|
    ensures nodes[n].children[j] in t.pos && |t.pos[n]| < |t.pos[nodes[n].children[j]]|
  {
    hide TreeOk;
    EdgeFacts(nodes, t, n);
    EdgeIs(nodes, t, n, j);
  }

  lemma ParentPrefix<V>(nodes: seq<Node<V>>, t: View, n: nat, j: nat)
    requires TreeOk(nodes, t) && n in t.pos && n < |nodes| && j < |nodes[n].children|
    ensures nodes[n].children[j] in t.pos && |t.pos[n]| <= |t.pos[nodes[n].children[j]]|
    ensures t.pos[nodes[n].children[j]][..|t.pos[n]|] == t.pos[n]
  {
    hide TreeOk;
    EdgeFacts(nodes, t, n);
    EdgeIs(nodes, t, n, j);
  }
}
