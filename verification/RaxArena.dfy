/**
  The arena of the radix tree.  Besides the node vector there is a ghost view:
  the position (key prefix) of every live node, its parent, and the node at each
  position.  Well-formedness is stated node by node, so an edit only has to be
  checked at the nodes it touches.
  */
module RaxArena {
  import opened ByteStrings

  const ROOT: nat := 0

  datatype Node<V> = Node(chars: Bytes, children: seq<nat>, compressed: bool, value: Option<V>)

  /** Position and parent of every live node, and the live node at a position. */
  datatype View = View(pos: map<nat, Bytes>, par: map<nat, nat>, at: map<Bytes, nat>)

  function Leaf<V>(): Node<V> {
    Node([], [], false, None)
  }

  // ------------------------------------------------------- well-formedness

  /** A compressed node has one edge with a label of several bytes; a branching
      node has one sorted one-byte edge per child. */
  ghost predicate NodeWf<V>(n: Node<V>) {
    if n.compressed then |n.chars| > 1 && |n.children| == 1
    else |n.chars| == |n.children| && StrictlyAscending(n.chars)
  }

  function Label<V>(n: Node<V>, j: nat): Bytes
    requires n.compressed || j < |n.chars|
  {
    if n.compressed then n.chars else [n.chars[j]]
  }

  ghost predicate EdgeOk<V>(nodes: seq<Node<V>>, t: View, n: nat, j: nat)
    requires n < |nodes| && n in t.pos && j < |nodes[n].children| && NodeWf(nodes[n])
  {
    var c := nodes[n].children[j];
    && c != ROOT
    && c in t.pos && t.pos[c] == t.pos[n] + Label(nodes[n], j)
    && c in t.par && t.par[c] == n
  }

  ghost predicate NodeOk<V>(nodes: seq<Node<V>>, t: View, n: nat)
    requires n in t.pos
  {
    && n < |nodes|
    && NodeWf(nodes[n])
    && (forall j :: 0 <= j < |nodes[n].children| ==> EdgeOk(nodes, t, n, j))
    && t.pos[n] in t.at && t.at[t.pos[n]] == n
    && (n != ROOT ==> n in t.par && t.par[n] in t.pos && t.par[n] < |nodes| && n in nodes[t.par[n]].children)
  }

  /** The live nodes form a tree under the root, one node per position. */
  ghost predicate TreeOk<V>(nodes: seq<Node<V>>, t: View) {
    && ROOT in t.pos && t.pos[ROOT] == []
    && (forall n {:trigger NodeOk(nodes, t, n)} :: n in t.pos ==> NodeOk(nodes, t, n))
    && (forall k :: k in t.at ==> t.at[k] in t.pos && t.pos[t.at[k]] == k)
  }

  /** A slot is free exactly when it is not live. */
  ghost predicate Partitioned(n: nat, live: set<nat>, free: seq<nat>) {
    && (forall a :: a in live ==> a < n)
    && (forall a :: 0 <= a < n ==> (a in live <==> a !in free))
    && (forall i :: 0 <= i < |free| ==> free[i] < n)
    && (forall i, j :: 0 <= i < j < |free| ==> free[i] != free[j])
  }

  /** Every leaf but the root holds a value. */
  ghost predicate LeavesHold<V>(nodes: seq<Node<V>>, t: View, except: nat) {
    forall n :: n in t.pos && n < |nodes| && n != ROOT && n != except && |nodes[n].children| == 0 ==> nodes[n].value.Some?
  }

  /** The stored map. */
  ghost function Contents<V>(nodes: seq<Node<V>>, t: View): map<Bytes, V>
    requires TreeOk(nodes, t)
  {
    map k | k in t.at && (assert NodeOk(nodes, t, t.at[k]); nodes[t.at[k]].value.Some?) :: nodes[t.at[k]].value.value
  }

  /** Two labels of one node that start with the same byte are the same edge. */
  lemma SameFirstByteSameEdge<V>(n: Node<V>, i: nat, j: nat)
    requires NodeWf(n) && i < |n.children| && j < |n.children|
    requires Label(n, i)[0] == Label(n, j)[0]
    ensures i == j
  {
    assert n.compressed || n.chars[i] == n.chars[j];
  }

  /** Below a live node, every live node further down its position hangs off one
      of its edges. */
  lemma {:induction false} Toward<V>(nodes: seq<Node<V>>, t: View, n: nat, c: nat) returns (j: nat)
    requires TreeOk(nodes, t) && n in t.pos && c in t.pos
    requires Prefix(t.pos[n], t.pos[c]) && |t.pos[n]| < |t.pos[c]|
    ensures n < |nodes| && NodeWf(nodes[n]) && j < |nodes[n].children|
    ensures Prefix(t.pos[n] + Label(nodes[n], j), t.pos[c])
    decreases |t.pos[c]|
  {
    assert NodeOk(nodes, t, n) && NodeOk(nodes, t, c);
    var d := t.par[c];
    assert NodeOk(nodes, t, d);
    var jc :| 0 <= jc < |nodes[d].children| && nodes[d].children[jc] == c;
    assert EdgeOk(nodes, t, d, jc);
    assert Prefix(t.pos[d], t.pos[c]);
    if |t.pos[d]| == |t.pos[n]| {
      PrefixesCompare(t.pos[d], t.pos[n], t.pos[c]);
      j := jc;
    } else if |t.pos[d]| > |t.pos[n]| {
      PrefixesCompare(t.pos[n], t.pos[d], t.pos[c]);
      j := Toward(nodes, t, n, d);
      var lab := t.pos[n] + Label(nodes[n], j);
      assert lab == t.pos[d][..|lab|] == t.pos[c][..|lab|];
    } else {
      PrefixesCompare(t.pos[d], t.pos[n], t.pos[c]);
      var _ := Toward(nodes, t, d, n);
      assert false;
    }
  }

  // ---------------------------------------------------------------- walking

  /** One step on the path from the root: the node left, the edge taken, and the
      key length before it. */
  datatype Frame = Frame(node: nat, child: nat, klen: nat)

  /** The node the `k`-th frame leads to. */
  function Below(stack: seq<Frame>, k: nat, cur: nat): nat
    requires k < |stack|
  {
    if k + 1 < |stack| then stack[k + 1].node else cur
  }

  ghost predicate FrameOk<V>(nodes: seq<Node<V>>, t: View, f: Frame, to: nat) {
    && f.node in t.pos && f.node < |nodes|
    && f.child < |nodes[f.node].children| && nodes[f.node].children[f.child] == to
    && f.klen == |t.pos[f.node]|
  }

  /** The stack is the path from the root to `cur`. */
  ghost predicate StackOk<V>(nodes: seq<Node<V>>, t: View, stack: seq<Frame>, cur: nat) {
    && (forall k :: 0 <= k < |stack| ==> FrameOk(nodes, t, stack[k], Below(stack, k, cur)))
    && (if |stack| == 0 then cur else stack[0].node) == ROOT
  }

  /** Number of edge bytes below `b`: where `b` is, or where it would go. */
  function EdgeIndex(chars: Bytes, b: Byte): (j: nat)
    ensures j <= |chars|
  {
    if |chars| > 0 && chars[0] < b then 1 + EdgeIndex(chars[1..], b) else 0
  }

  lemma {:induction false} EdgeIndexMeans(chars: Bytes, b: Byte)
    requires StrictlyAscending(chars)
    ensures forall i :: 0 <= i < EdgeIndex(chars, b) ==> chars[i] < b
    ensures forall i :: EdgeIndex(chars, b) <= i < |chars| ==> chars[i] >= b
  {
    if |chars| > 0 && chars[0] < b {
      EdgeIndexMeans(chars[1..], b);
      var j := EdgeIndex(chars[1..], b);
      forall i | 0 <= i < |chars|
        ensures if i < j + 1 then chars[i] < b else chars[i] >= b
      {
        assert i == 0 || chars[i] == chars[1..][i - 1];
      }
    }
  }

  predicate HasEdge(chars: Bytes, b: Byte) {
    var j := EdgeIndex(chars, b);
    j < |chars| && chars[j] == b
  }

  /** How many label bytes agree with the key from `i` on. */
  method MatchLen(lab: Bytes, key: Bytes, i: nat) returns (m: nat)
    requires i <= |key|
    ensures m <= |lab| && i + m <= |key|
    ensures lab[..m] == key[i..i + m]
    ensures m == |lab| || i + m == |key| || lab[m] != key[i + m]
  {
    m := 0;
    while m < |lab| && i + m < |key| && lab[m] == key[i + m]
      invariant m <= |lab| && i + m <= |key|
      invariant lab[..m] == key[i..i + m]
    {
      m := m + 1;
    }
  }

  lemma LiveFacts<V>(nodes: seq<Node<V>>, t: View, n: nat)
    requires TreeOk(nodes, t)
    ensures ROOT in t.pos && t.pos[ROOT] == []
    ensures n in t.pos ==> n < |nodes| && NodeWf(nodes[n]) && t.pos[n] in t.at && t.at[t.pos[n]] == n
  {
    assert NodeOk(nodes, t, ROOT);
    assert n in t.pos ==> NodeOk(nodes, t, n);
  }

  /** Following a label that agrees with the key leads to a node on the key. */
  lemma StepDown<V>(nodes: seq<Node<V>>, t: View, cur: nat, j: nat, key: Bytes)
    requires TreeOk(nodes, t) && cur in t.pos && Prefix(t.pos[cur], key)
    requires cur < |nodes| && NodeWf(nodes[cur]) && j < |nodes[cur].children|
    requires Prefix(t.pos[cur] + Label(nodes[cur], j), key)
    ensures var c := nodes[cur].children[j];
      c in t.pos && c < |nodes| && c != ROOT && t.pos[c] == t.pos[cur] + Label(nodes[cur], j) && Prefix(t.pos[c], key)
  {
    assert NodeOk(nodes, t, cur);
    assert EdgeOk(nodes, t, cur, j);
    assert NodeOk(nodes, t, nodes[cur].children[j]);
  }

  /** If no edge of `cur` agrees with the key, no live node is at the key. */
  lemma NothingThere<V>(nodes: seq<Node<V>>, t: View, cur: nat, key: Bytes)
    requires TreeOk(nodes, t) && cur in t.pos && Prefix(t.pos[cur], key) && |t.pos[cur]| < |key|
    requires cur < |nodes| && NodeWf(nodes[cur])
    requires forall j :: 0 <= j < |nodes[cur].children| ==> !Prefix(t.pos[cur] + Label(nodes[cur], j), key)
    ensures key !in t.at
  {
    if key in t.at {
      var _ := Toward(nodes, t, cur, t.at[key]);
    }
  }

  lemma PushFrame<V>(nodes: seq<Node<V>>, t: View, stack: seq<Frame>, cur: nat, j: nat)
    requires StackOk(nodes, t, stack, cur) && cur in t.pos && cur < |nodes| && j < |nodes[cur].children|
    ensures StackOk(nodes, t, stack + [Frame(cur, j, |t.pos[cur]|)], nodes[cur].children[j])
  {
    var stack', c := stack + [Frame(cur, j, |t.pos[cur]|)], nodes[cur].children[j];
    forall k | 0 <= k < |stack'|
      ensures FrameOk(nodes, t, stack'[k], Below(stack', k, c))
    {
      if k < |stack| {
        assert FrameOk(nodes, t, stack[k], Below(stack, k, cur));
      }
    }
  }

  /** Walk as far down as the key allows, recording the path. */
  method Walk<V>(nodes: seq<Node<V>>, key: Bytes, ghost t: View)
    returns (cur: nat, consumed: nat, split: nat, stack: seq<Frame>)
    requires TreeOk(nodes, t)
    ensures cur in t.pos && cur < |nodes|
    ensures consumed == |key| && split == 0 <==> key in t.at
    ensures key in t.at ==> cur == t.at[key] && StackOk(nodes, t, stack, cur)
  {
    hide TreeOk, FrameOk, EdgeOk;
    cur, consumed, split, stack := ROOT, 0, 0, [];
    var i := 0;
    LiveFacts(nodes, t, ROOT);
    while true
      invariant cur in t.pos && cur < |nodes| && Prefix(t.pos[cur], key) && i == |t.pos[cur]|
      invariant StackOk(nodes, t, stack, cur)
      decreases |key| - i
    {
      LiveFacts(nodes, t, cur);
      var n := nodes[cur];
      if |n.children| == 0 || i == |key| {
        if i < |key| {
          NothingThere(nodes, t, cur, key);
        } else {
          assert key == key[..i];
        }
        return cur, i, 0, stack;
      }
      if n.compressed {
        var j := MatchLen(n.chars, key, i);
        if j != |n.chars| {
          NotPrefix(t.pos[cur], n.chars, key, j);
          NothingThere(nodes, t, cur, key);
          return cur, i + j, j, stack;
        }
        ExtendPrefix(t.pos[cur], n.chars, key);
        StepDown(nodes, t, cur, 0, key);
        PushFrame(nodes, t, stack, cur, 0);
        stack := stack + [Frame(cur, 0, i)];
        i := i + |n.chars|;
        cur := n.children[0];
      } else {
        var j := EdgeIndex(n.chars, key[i]);
        if !HasEdge(n.chars, key[i]) {
          NoEdge(n.chars, key[i], t.pos[cur], key);
          NothingThere(nodes, t, cur, key);
          return cur, i, 0, stack;
        }
        ExtendPrefix(t.pos[cur], [n.chars[j]], key);
        StepDown(nodes, t, cur, j, key);
        PushFrame(nodes, t, stack, cur, j);
        stack := stack + [Frame(cur, j, i)];
        i := i + 1;
        cur := n.children[j];
      }
    }
  }

  lemma ExtendPrefix(p: Bytes, lab: Bytes, key: Bytes)
    requires Prefix(p, key) && |p| + |lab| <= |key| && key[|p|..|p| + |lab|] == lab
    ensures Prefix(p + lab, key)
  {
    assert key[..|p| + |lab|] == key[..|p|] + key[|p|..|p| + |lab|];
  }

  lemma NotPrefix(p: Bytes, lab: Bytes, key: Bytes, m: nat)
    requires m < |lab| && |p| + m <= |key| && (|p| + m == |key| || lab[m] != key[|p| + m])
    ensures !Prefix(p + lab, key)
  {
    assert (p + lab)[|p| + m] == lab[m];
  }

  lemma NoEdge(chars: Bytes, b: Byte, p: Bytes, key: Bytes)
    requires StrictlyAscending(chars) && !HasEdge(chars, b) && |p| < |key| && key[|p|] == b
    ensures forall j :: 0 <= j < |chars| ==> chars[j] != b && !Prefix(p + [chars[j]], key)
  {
    EdgeIndexMeans(chars, b);
    var e := EdgeIndex(chars, b);
    forall j | 0 <= j < |chars|
      ensures chars[j] != b && !Prefix(p + [chars[j]], key)
    {
      assert j <= e || chars[e] < chars[j];
      assert (p + [chars[j]])[|p|] == chars[j];
    }
  }

  // ------------------------------------------------------ primitive edits

  /** Edits that keep chars, children and compression keep the tree. */
  lemma SameStructure<V>(nodes: seq<Node<V>>, nodes': seq<Node<V>>, t: View)
    requires TreeOk(nodes, t) && |nodes| <= |nodes'|
    requires forall n :: n in t.pos ==> n < |nodes| && nodes'[n].(value := None) == nodes[n].(value := None)
    ensures TreeOk(nodes', t)
  {
    forall n | n in t.pos
      ensures NodeOk(nodes', t, n)
    {
      assert NodeOk(nodes, t, n);
      forall j | 0 <= j < |nodes'[n].children|
        ensures EdgeOk(nodes', t, n, j)
      {
        assert EdgeOk(nodes, t, n, j);
      }
    }
  }

  lemma SetValue<V>(nodes: seq<Node<V>>, t: View, n: nat, v: Option<V>)
    requires TreeOk(nodes, t) && n in t.pos && n < |nodes|
    ensures TreeOk(nodes[n := nodes[n].(value := v)], t)
    ensures Contents(nodes[n := nodes[n].(value := v)], t) ==
      match v case None => Contents(nodes, t) - {t.pos[n]} case Some(w) => Contents(nodes, t)[t.pos[n] := w]
  {
    hide LeavesHold, NodeOk;
    LiveFacts(nodes, t, n);
    forall a | a in t.pos
      ensures a < |nodes|
    {
      LiveFacts(nodes, t, a);
    }
    SameStructure(nodes, nodes[n := nodes[n].(value := v)], t);
  }

  /** Put slot `x` on the only edge of `n`, `k` bytes down. */
  ghost predicate EdgeSplit<V>(nodes: seq<Node<V>>, nodes': seq<Node<V>>, n: nat, k: nat, x: nat) {
    && n < |nodes| <= |nodes'| && x < |nodes'| && x != n
    && NodeWf(nodes[n]) && |nodes[n].children| == 1 && 0 < k < |nodes[n].chars|
    && var c := nodes[n];
    && nodes'[n] == c.(chars := c.chars[..k], children := [x], compressed := k > 1)
    && nodes'[x] == Node(c.chars[k..], c.children, |c.chars| - k > 1, None)
    && forall a :: 0 <= a < |nodes| && a != n && a != x ==> nodes'[a] == nodes[a]
  }

  function SplitView(t: View, n: nat, x: nat, at: Bytes, c: nat): View {
    View(t.pos[x := at], t.par[x := n][c := x], t.at[at := x])
  }

  /** A node whose own edges and upward edge are as before is still right. */
  lemma Unaffected<V>(nodes: seq<Node<V>>, nodes': seq<Node<V>>, t: View, t': View, a: nat)
    requires a in t.pos && a in t'.pos && NodeOk(nodes, t, a)
    requires a < |nodes'| && nodes'[a] == nodes[a]
    requires t'.pos[a] == t.pos[a] && t.pos[a] in t'.at && t'.at[t.pos[a]] == a
    requires forall c :: c in nodes[a].children ==> c in t'.pos && c in t.pos && t'.pos[c] == t.pos[c] && c in t'.par && t'.par[c] == a
    requires a != ROOT ==> a in t'.par && t'.par[a] in t'.pos && t'.par[a] < |nodes'| && a in nodes'[t'.par[a]].children
    ensures NodeOk(nodes', t', a)
  {
    forall j | 0 <= j < |nodes'[a].children|
      ensures EdgeOk(nodes', t', a, j)
    {
      assert EdgeOk(nodes, t, a, j);
      assert nodes[a].children[j] in nodes[a].children;
    }
  }

  /** A node with a single edge. */
  lemma OneEdge<V>(nodes: seq<Node<V>>, t: View, a: nat, c: nat)
    requires a in t.pos && a < |nodes| && NodeWf(nodes[a]) && nodes[a].children == [c]
    requires c != ROOT && c in t.pos && t.pos[c] == t.pos[a] + nodes[a].chars && c in t.par && t.par[c] == a
    requires t.pos[a] in t.at && t.at[t.pos[a]] == a
    requires a != ROOT ==> a in t.par && t.par[a] in t.pos && t.par[a] < |nodes| && a in nodes[t.par[a]].children
    ensures NodeOk(nodes, t, a)
  {
    assert Label(nodes[a], 0) == nodes[a].chars;
    assert EdgeOk(nodes, t, a, 0);
  }

  /** What the parts of a well-formed tree say about one of its nodes. */
  lemma EdgeFacts<V>(nodes: seq<Node<V>>, t: View, n: nat)
    requires TreeOk(nodes, t) && n in t.pos
    ensures NodeOk(nodes, t, n) && n < |nodes|
    ensures forall c :: c in nodes[n].children ==> c != ROOT && c in t.pos && c < |nodes| && c in t.par && t.par[c] == n
    ensures |nodes[n].children| == 1 ==> t.pos[nodes[n].children[0]] == t.pos[n] + nodes[n].chars
    ensures n != ROOT ==> n in t.par && t.par[n] in t.pos && t.par[n] < |nodes| && n in nodes[t.par[n]].children
    ensures t.pos[n] in t.at && t.at[t.pos[n]] == n
  {
    assert NodeOk(nodes, t, n);
    forall j | 0 <= j < |nodes[n].children|
      ensures var c := nodes[n].children[j]; c != ROOT && c in t.pos && c < |nodes| && c in t.par && t.par[c] == n
    {
      assert EdgeOk(nodes, t, n, j);
      assert NodeOk(nodes, t, nodes[n].children[j]);
    }
    if |nodes[n].children| == 1 {
      assert EdgeOk(nodes, t, n, 0);
      assert Label(nodes[n], 0) == nodes[n].chars;
    }
  }

  lemma SplitEdge<V>(nodes: seq<Node<V>>, nodes': seq<Node<V>>, t: View, n: nat, k: nat, x: nat)
    requires TreeOk(nodes, t) && n in t.pos && x !in t.pos && x != ROOT
    requires EdgeSplit(nodes, nodes', n, k, x)
    ensures TreeOk(nodes', SplitView(t, n, x, t.pos[n] + nodes[n].chars[..k], nodes[n].children[0]))
    ensures Contents(nodes', SplitView(t, n, x, t.pos[n] + nodes[n].chars[..k], nodes[n].children[0])) == Contents(nodes, t)
  {
    hide NodeOk;
    var c := nodes[n].children[0];
    var key := t.pos[n] + nodes[n].chars[..k];
    var t' := SplitView(t, n, x, key, c);
    NothingBetween(nodes, t, n, k);
    EdgeFacts(nodes, t, n);
    EdgeFacts(nodes, t, c);
    forall a | a in t'.pos
      ensures NodeOk(nodes', t', a)
    {
      SplitNodeOk(nodes, nodes', t, n, k, x, a);
    }
    forall a | a in t.pos
      ensures a < |nodes|
    {
      LiveFacts(nodes, t, a);
    }
  }

  lemma NothingBetween<V>(nodes: seq<Node<V>>, t: View, n: nat, k: nat)
    requires TreeOk(nodes, t) && n in t.pos && n < |nodes| && NodeWf(nodes[n])
    requires |nodes[n].children| == 1 && 0 < k < |nodes[n].chars|
    ensures t.pos[n] + nodes[n].chars[..k] !in t.at
  {
    var key := t.pos[n] + nodes[n].chars[..k];
    assert Prefix(t.pos[n], key);
    NothingThere(nodes, t, n, key);
  }

  lemma SplitNodeOk<V>(nodes: seq<Node<V>>, nodes': seq<Node<V>>, t: View, n: nat, k: nat, x: nat, a: nat)
    requires TreeOk(nodes, t) && n in t.pos && x !in t.pos && x != ROOT
    requires EdgeSplit(nodes, nodes', n, k, x)
    requires t.pos[n] + nodes[n].chars[..k] !in t.at
    requires a in t.pos || a == x
    ensures NodeOk(nodes', SplitView(t, n, x, t.pos[n] + nodes[n].chars[..k], nodes[n].children[0]), a)
  {
    hide NodeOk, TreeOk;
    var c := nodes[n].children[0];
    var key := t.pos[n] + nodes[n].chars[..k];
    var t' := SplitView(t, n, x, key, c);
    EdgeFacts(nodes, t, n);
    assert key + nodes[n].chars[k..] == t.pos[n] + nodes[n].chars;
    if a == x {
      OneEdge(nodes', t', x, c);
    } else if a == n {
      OneEdge(nodes', t', n, x);
    } else {
      EdgeFacts(nodes, t, a);
      Unaffected(nodes, nodes', t, t', a);
    }
  }

  /** Fold the only child `c` of `n`, a valueless node with one edge, into `n`. */
  ghost predicate EdgeMerged<V>(nodes: seq<Node<V>>, nodes': seq<Node<V>>, n: nat) {
    && n < |nodes| == |nodes'| && NodeWf(nodes[n]) && |nodes[n].children| == 1
    && var c := nodes[n].children[0];
    && c < |nodes| && c != n && NodeWf(nodes[c]) && |nodes[c].children| == 1 && nodes[c].value == None
    && var chars := nodes[n].chars + nodes[c].chars;
    && nodes'[n] == nodes[n].(chars := chars, children := nodes[c].children, compressed := |chars| > 1)
    && forall a :: 0 <= a < |nodes| && a != n && a != c ==> nodes'[a] == nodes[a]
  }

  function MergeView(t: View, n: nat, c: nat, at: Bytes, g: nat): View {
    View(t.pos - {c}, (t.par - {c})[g := n], t.at - {at})
  }

  lemma MergeEdge<V>(nodes: seq<Node<V>>, nodes': seq<Node<V>>, t: View, n: nat)
    requires TreeOk(nodes, t) && n in t.pos
    requires EdgeMerged(nodes, nodes', n)
    requires nodes[n].children[0] in t.pos
    ensures var c := nodes[n].children[0];
      var t' := MergeView(t, n, c, t.pos[c], nodes[c].children[0]);
      && TreeOk(nodes', t') && Contents(nodes', t') == Contents(nodes, t)
      && c != ROOT && n in t'.pos && t'.pos[n] == t.pos[n]
  {
    hide NodeOk;
    var c := nodes[n].children[0];
    var g := nodes[c].children[0];
    var t' := MergeView(t, n, c, t.pos[c], g);
    EdgeFacts(nodes, t, n);
    EdgeFacts(nodes, t, c);
    EdgeFacts(nodes, t, g);
    forall a | a in t'.pos
      ensures NodeOk(nodes', t', a)
    {
      MergedNodeOk(nodes, nodes', t, n, a);
    }
    forall k | k in t.at && k != t.pos[c]
      ensures t.at[k] != c && t.at[k] < |nodes|
    {
      LiveFacts(nodes, t, t.at[k]);
    }
  }

  lemma MergedNodeOk<V>(nodes: seq<Node<V>>, nodes': seq<Node<V>>, t: View, n: nat, a: nat)
    requires TreeOk(nodes, t) && n in t.pos
    requires EdgeMerged(nodes, nodes', n)
    requires nodes[n].children[0] in t.pos && a in t.pos && a != nodes[n].children[0]
    ensures var c := nodes[n].children[0];
      NodeOk(nodes', MergeView(t, n, c, t.pos[c], nodes[c].children[0]), a)
  {
    hide NodeOk, TreeOk;
    var c := nodes[n].children[0];
    var g := nodes[c].children[0];
    var t' := MergeView(t, n, c, t.pos[c], g);
    EdgeFacts(nodes, t, n);
    EdgeFacts(nodes, t, c);
    EdgeFacts(nodes, t, g);
    EdgeFacts(nodes, t, a);
    assert nodes[n].children == [c] && nodes[c].children == [g];
    assert t.pos[a] != t.pos[c];
    if a == n {
      assert t.pos[g] == t.pos[n] + (nodes[n].chars + nodes[c].chars);
      OneEdge(nodes', t', n, g);
    } else {
      Unaffected(nodes, nodes', t, t', a);
    }
  }

  function InsertedAt<T>(s: seq<T>, j: nat, x: T): seq<T>
    requires j <= |s|
  {
    s[..j] + [x] + s[j..]
  }

  function RemovedAt<T>(s: seq<T>, j: nat): seq<T>
    requires j < |s|
  {
    s[..j] + s[j + 1..]
  }

  /** Give `n` a new edge `lab` to the fresh leaf `x`: a leaf absorbs any label
      as its only edge, a branching node takes a one-byte label it does not have. */
  ghost predicate EdgeAttached<V>(nodes: seq<Node<V>>, nodes': seq<Node<V>>, n: nat, lab: Bytes, x: nat) {
    && n < |nodes| <= |nodes'| && x < |nodes'| && x != n && |lab| > 0
    && nodes'[x] == Leaf()
    && NodeWf(nodes[n])
    && (if |lab| > 1 then
          |nodes[n].children| == 0 &&
          nodes'[n] == nodes[n].(chars := lab, children := [x], compressed := true)
        else
          !nodes[n].compressed && !HasEdge(nodes[n].chars, lab[0]) &&
          var j := EdgeIndex(nodes[n].chars, lab[0]);
          nodes'[n] == nodes[n].(chars := InsertedAt(nodes[n].chars, j, lab[0]),
                                 children := InsertedAt(nodes[n].children, j, x), compressed := false))
    && forall a :: 0 <= a < |nodes| && a != n && a != x ==> nodes'[a] == nodes[a]
  }

  function AttachView(t: View, n: nat, x: nat, at: Bytes): View {
    View(t.pos[x := at], t.par[x := n], t.at[at := x])
  }

  lemma NoSuchEdge<V>(nodes: seq<Node<V>>, nodes': seq<Node<V>>, t: View, n: nat, lab: Bytes, x: nat)
    requires TreeOk(nodes, t) && n in t.pos
    requires EdgeAttached(nodes, nodes', n, lab, x)
    ensures t.pos[n] + lab !in t.at
  {
    hide TreeOk, NodeOk;
    var key := t.pos[n] + lab;
    assert Prefix(t.pos[n], key);
    if |lab| == 1 {
      NoEdge(nodes[n].chars, lab[0], t.pos[n], key);
    }
    NothingThere(nodes, t, n, key);
  }

  lemma NewLeafOk<V>(nodes: seq<Node<V>>, t: View, x: nat, n: nat)
    requires x in t.pos && x < |nodes| && nodes[x] == Leaf()
    requires t.pos[x] in t.at && t.at[t.pos[x]] == x
    requires x in t.par && t.par[x] == n && n in t.pos && n < |nodes| && x in nodes[n].children
    ensures NodeOk(nodes, t, x)
  {
  }

  lemma InsertedMembers(s: seq<nat>, j: nat, x: nat)
    requires j <= |s|
    ensures x in InsertedAt(s, j, x)
    ensures forall a :: a in s ==> a in InsertedAt(s, j, x)
  {
    var t := InsertedAt(s, j, x);
    assert t[j] == x;
    forall a | a in s
      ensures a in t
    {
      var i :| 0 <= i < |s| && s[i] == a;
      assert t[if i < j then i else i + 1] == a;
    }
  }

  lemma InsertedAscending(chars: Bytes, b: Byte)
    requires StrictlyAscending(chars) && !HasEdge(chars, b)
    ensures StrictlyAscending(InsertedAt(chars, EdgeIndex(chars, b), b))
  {
    EdgeIndexMeans(chars, b);
    NoEdge(chars, b, [], [b]);
  }

  /** The node that got the edge. */
  lemma AttachedNodeOk<V>(nodes: seq<Node<V>>, nodes': seq<Node<V>>, t: View, n: nat, lab: Bytes, x: nat)
    requires TreeOk(nodes, t) && n in t.pos && x !in t.pos && x != ROOT
    requires EdgeAttached(nodes, nodes', n, lab, x)
    requires t.pos[n] + lab !in t.at
    ensures NodeOk(nodes', AttachView(t, n, x, t.pos[n] + lab), n)
  {
    hide TreeOk, EdgeIndex, StrictlyAscending, NodeOk;
    var t' := AttachView(t, n, x, t.pos[n] + lab);
    EdgeFacts(nodes, t, n);
    if |lab| > 1 {
      OneEdge(nodes', t', n, x);
      AttachedUp(nodes, nodes', t, n, lab, x, n);
    } else {
      assert lab == [lab[0]];
      InsertedAscending(nodes[n].chars, lab[0]);
      AttachedUp(nodes, nodes', t, n, lab, x, n);
      forall j | 0 <= j < |nodes'[n].children|
        ensures EdgeOk(nodes', t', n, j)
      {
        var e := EdgeIndex(nodes[n].chars, lab[0]);
        if j != e {
          EdgeIs(nodes, t, n, if j < e then j else j - 1);
        }
      }
      NodeOkIs(nodes', t', n);
    }
  }

  lemma NodeOkIs<V>(nodes: seq<Node<V>>, t: View, n: nat)
    requires n in t.pos && n < |nodes| && NodeWf(nodes[n])
    requires forall j :: 0 <= j < |nodes[n].children| ==> EdgeOk(nodes, t, n, j)
    requires t.pos[n] in t.at && t.at[t.pos[n]] == n
    requires n != ROOT ==> n in t.par && t.par[n] in t.pos && t.par[n] < |nodes| && n in nodes[t.par[n]].children
    ensures NodeOk(nodes, t, n)
  {
  }

  lemma EdgeIs<V>(nodes: seq<Node<V>>, t: View, n: nat, j: nat)
    requires n in t.pos && NodeOk(nodes, t, n) && n < |nodes| && j < |nodes[n].children|
    ensures EdgeOk(nodes, t, n, j)
  {
  }

  /** The upward edge of a live node survives an attachment. */
  lemma AttachedUp<V>(nodes: seq<Node<V>>, nodes': seq<Node<V>>, t: View, n: nat, lab: Bytes, x: nat, a: nat)
    requires EdgeAttached(nodes, nodes', n, lab, x) && x !in t.pos
    requires a != ROOT ==> a in t.par && t.par[a] in t.pos && t.par[a] < |nodes| && a in nodes[t.par[a]].children
    ensures a != ROOT ==> t.par[a] < |nodes'| && a in nodes'[t.par[a]].children
    ensures x in nodes'[n].children
  {
    hide EdgeIndex, HasEdge;
    if |lab| == 1 {
      InsertedMembers(nodes[n].children, EdgeIndex(nodes[n].chars, lab[0]), x);
    }
  }

  lemma AttachedOthers<V>(nodes: seq<Node<V>>, nodes': seq<Node<V>>, t: View, n: nat, lab: Bytes, x: nat, a: nat)
    requires TreeOk(nodes, t) && n in t.pos && x !in t.pos && x != ROOT && a in t.pos && a != n
    requires EdgeAttached(nodes, nodes', n, lab, x)
    requires t.pos[n] + lab !in t.at
    ensures NodeOk(nodes', AttachView(t, n, x, t.pos[n] + lab), a)
  {
    hide TreeOk, NodeOk, EdgeIndex, HasEdge;
    EdgeFacts(nodes, t, a);
    AttachedUp(nodes, nodes', t, n, lab, x, a);
    Unaffected(nodes, nodes', t, AttachView(t, n, x, t.pos[n] + lab), a);
  }

  lemma AttachEdge<V>(nodes: seq<Node<V>>, nodes': seq<Node<V>>, t: View, n: nat, lab: Bytes, x: nat)
    requires TreeOk(nodes, t) && n in t.pos && x !in t.pos && x != ROOT
    requires EdgeAttached(nodes, nodes', n, lab, x)
    ensures t.pos[n] + lab !in t.at
    ensures TreeOk(nodes', AttachView(t, n, x, t.pos[n] + lab))
    ensures Contents(nodes', AttachView(t, n, x, t.pos[n] + lab)) == Contents(nodes, t)
  {
    hide NodeOk, EdgeIndex, HasEdge, EdgeAttached;
    NoSuchEdge(nodes, nodes', t, n, lab, x);
    AttachBounds(nodes, nodes', t, n, lab, x);
    var t' := AttachView(t, n, x, t.pos[n] + lab);
    AttachedNodeOk(nodes, nodes', t, n, lab, x);
    NewLeafOk(nodes', t', x, n);
    forall a | a in t'.pos
      ensures NodeOk(nodes', t', a)
    {
      if a != x && a != n {
        AttachedOthers(nodes, nodes', t, n, lab, x, a);
      }
    }
    forall k | k in t.at
      ensures t.at[k] < |nodes| && t.at[k] != x && nodes'[t.at[k]].value == nodes[t.at[k]].value
    {
      LiveFacts(nodes, t, t.at[k]);
      AttachValues(nodes, nodes', n, lab, x, t.at[k]);
    }
  }

  lemma AttachBounds<V>(nodes: seq<Node<V>>, nodes': seq<Node<V>>, t: View, n: nat, lab: Bytes, x: nat)
    requires EdgeAttached(nodes, nodes', n, lab, x) && x !in t.pos
    ensures n < |nodes| <= |nodes'| && x < |nodes'| && nodes'[x] == Leaf() && x in nodes'[n].children
  {
    AttachedUp(nodes, nodes', t, n, lab, x, ROOT);
  }

  lemma AttachValues<V>(nodes: seq<Node<V>>, nodes': seq<Node<V>>, n: nat, lab: Bytes, x: nat, a: nat)
    requires EdgeAttached(nodes, nodes', n, lab, x) && a < |nodes| && a != x
    ensures a < |nodes'| && nodes'[a].value == nodes[a].value
  {
  }

  /** Drop the edge `j` of `n`, which leads to a valueless leaf; a compressed node
      loses its whole label. */
  ghost predicate EdgeDetached<V>(nodes: seq<Node<V>>, nodes': seq<Node<V>>, n: nat, j: nat) {
    && n < |nodes| == |nodes'| && NodeWf(nodes[n]) && j < |nodes[n].children|
    && var x := nodes[n].children[j];
    && x != n && x < |nodes| && |nodes[x].children| == 0 && nodes[x].value == None
    && nodes'[n] == (if nodes[n].compressed then nodes[n].(chars := [], children := [], compressed := false)
                     else nodes[n].(chars := RemovedAt(nodes[n].chars, j), children := RemovedAt(nodes[n].children, j)))
    && forall a :: 0 <= a < |nodes| && a != n && a != x ==> nodes'[a] == nodes[a]
  }

  function DetachView(t: View, x: nat, at: Bytes): View {
    View(t.pos - {x}, t.par - {x}, t.at - {at})
  }

  lemma DetachEdge<V>(nodes: seq<Node<V>>, nodes': seq<Node<V>>, t: View, n: nat, j: nat)
    requires TreeOk(nodes, t) && n in t.pos
    requires EdgeDetached(nodes, nodes', n, j)
    requires nodes[n].children[j] in t.pos
    ensures var x := nodes[n].children[j];
      var t' := DetachView(t, x, t.pos[x]);
      && TreeOk(nodes', t') && Contents(nodes', t') == Contents(nodes, t)
      && x != ROOT && n in t'.pos && t'.pos[n] == t.pos[n]
  {
    hide NodeOk;
    var x := nodes[n].children[j];
    var t' := DetachView(t, x, t.pos[x]);
    EdgeFacts(nodes, t, n);
    EdgeFacts(nodes, t, x);
    forall a | a in t'.pos
      ensures NodeOk(nodes', t', a)
    {
      if a == n {
        DetachedNodeOk(nodes, nodes', t, n, j);
      } else {
        DetachedOthers(nodes, nodes', t, n, j, a);
      }
    }
    forall k | k in t.at && k != t.pos[x]
      ensures t.at[k] != x && t.at[k] < |nodes| && nodes'[t.at[k]].value == nodes[t.at[k]].value
    {
      LiveFacts(nodes, t, t.at[k]);
    }
  }

  lemma RemovedMembers(s: seq<nat>, j: nat, a: nat)
    requires j < |s| && a in s && a != s[j]
    ensures a in RemovedAt(s, j)
  {
    var i :| 0 <= i < |s| && s[i] == a;
    assert RemovedAt(s, j)[if i < j then i else i - 1] == a;
  }

  /** Different edges of a live node lead to different nodes. */
  lemma DistinctChildren<V>(nodes: seq<Node<V>>, t: View, n: nat, i: nat, j: nat)
    requires TreeOk(nodes, t) && n in t.pos && n < |nodes| && i < |nodes[n].children| && j < |nodes[n].children|
    requires nodes[n].children[i] == nodes[n].children[j]
    ensures i == j
  {
    assert NodeOk(nodes, t, n);
    assert EdgeOk(nodes, t, n, i) && EdgeOk(nodes, t, n, j);
    assert (t.pos[n] + Label(nodes[n], i))[|t.pos[n]|] == (t.pos[n] + Label(nodes[n], j))[|t.pos[n]|];
    SameFirstByteSameEdge(nodes[n], i, j);
  }

  /** The upward edge of another live node survives a detachment. */
  lemma DetachedUp<V>(nodes: seq<Node<V>>, nodes': seq<Node<V>>, t: View, n: nat, j: nat, a: nat)
    requires EdgeDetached(nodes, nodes', n, j)
    requires a != nodes[n].children[j]
    requires a != ROOT ==> a in t.par && t.par[a] < |nodes| && a in nodes[t.par[a]].children
    requires a != ROOT ==> t.par[a] != nodes[n].children[j]
    ensures a != ROOT ==> t.par[a] < |nodes'| && a in nodes'[t.par[a]].children
  {
    if a != ROOT && t.par[a] == n {
      if nodes[n].compressed {
        assert nodes[n].children == [nodes[n].children[j]];
      } else {
        RemovedMembers(nodes[n].children, j, a);
      }
    }
  }

  lemma DetachedNodeOk<V>(nodes: seq<Node<V>>, nodes': seq<Node<V>>, t: View, n: nat, j: nat)
    requires TreeOk(nodes, t) && n in t.pos
    requires EdgeDetached(nodes, nodes', n, j)
    requires nodes[n].children[j] in t.pos
    ensures NodeOk(nodes', DetachView(t, nodes[n].children[j], t.pos[nodes[n].children[j]]), n)
  {
    hide TreeOk, NodeOk;
    var x := nodes[n].children[j];
    var t' := DetachView(t, x, t.pos[x]);
    EdgeFacts(nodes, t, n);
    EdgeFacts(nodes, t, x);
    NoChildren(nodes, t, n, x);
    DetachedUp(nodes, nodes', t, n, j, n);
    forall i | 0 <= i < |nodes'[n].children|
      ensures EdgeOk(nodes', t', n, i)
    {
      var i0 := if i < j then i else i + 1;
      EdgeIs(nodes, t, n, i0);
      if nodes[n].children[i0] == x {
        DistinctChildren(nodes, t, n, i0, j);
      }
    }
    NodeOkIs(nodes', t', n);
  }

  lemma NoChildren<V>(nodes: seq<Node<V>>, t: View, a: nat, x: nat)
    requires TreeOk(nodes, t) && a in t.pos && x in t.pos && x < |nodes| && |nodes[x].children| == 0
    ensures a != ROOT ==> a in t.par && t.par[a] != x
    ensures a != x ==> t.pos[a] != t.pos[x]
  {
    assert NodeOk(nodes, t, a) && NodeOk(nodes, t, x);
  }

  lemma DetachedOthers<V>(nodes: seq<Node<V>>, nodes': seq<Node<V>>, t: View, n: nat, j: nat, a: nat)
    requires TreeOk(nodes, t) && n in t.pos
    requires EdgeDetached(nodes, nodes', n, j)
    requires nodes[n].children[j] in t.pos && a in t.pos && a != n && a != nodes[n].children[j]
    ensures NodeOk(nodes', DetachView(t, nodes[n].children[j], t.pos[nodes[n].children[j]]), a)
  {
    hide TreeOk, NodeOk;
    var x := nodes[n].children[j];
    EdgeFacts(nodes, t, n);
    EdgeFacts(nodes, t, a);
    NoChildren(nodes, t, a, x);
    DetachedUp(nodes, nodes', t, n, j, a);
    Unaffected(nodes, nodes', t, DetachView(t, x, t.pos[x]), a);
  }

  /** Positions grow along the path. */
  lemma {:induction false} StackLengths<V>(nodes: seq<Node<V>>, t: View, stack: seq<Frame>, cur: nat, k: nat)
    requires TreeOk(nodes, t) && StackOk(nodes, t, stack, cur) && k < |stack|
    ensures cur in t.pos && cur != ROOT && stack[k].node in t.pos && |t.pos[stack[k].node]| < |t.pos[cur]|
    decreases |stack| - k
  {
    hide TreeOk;
    assert FrameOk(nodes, t, stack[k], Below(stack, k, cur));
    EdgeFacts(nodes, t, stack[k].node);
    EdgeIs(nodes, t, stack[k].node, stack[k].child);
    if k + 1 < |stack| {
      StackLengths(nodes, t, stack, cur, k + 1);
    }
  }

  /** Dropping the top frame goes up one node. */
  lemma PopFrame<V>(nodes: seq<Node<V>>, t: View, stack: seq<Frame>, cur: nat)
    requires TreeOk(nodes, t) && StackOk(nodes, t, stack, cur) && |stack| > 0
    ensures var f := stack[|stack| - 1];
      && f.node in t.pos && f.node < |nodes| && f.child < |nodes[f.node].children| && nodes[f.node].children[f.child] == cur
      && f.klen == |t.pos[f.node]| && f.node != cur && cur in t.pos
      && StackOk(nodes, t, stack[..|stack| - 1], f.node)
  {
    hide TreeOk;
    var f, rest := stack[|stack| - 1], stack[..|stack| - 1];
    assert FrameOk(nodes, t, f, Below(stack, |stack| - 1, cur));
    StackLengths(nodes, t, stack, cur, |stack| - 1);
    forall k | 0 <= k < |rest|
      ensures FrameOk(nodes, t, rest[k], Below(rest, k, f.node))
    {
      assert FrameOk(nodes, t, stack[k], Below(stack, k, cur));
    }
  }

  /** The path to a node does not depend on the node itself or anything below. */
  lemma StackFrame<V>(nodes: seq<Node<V>>, nodes': seq<Node<V>>, t: View, t': View, stack: seq<Frame>, cur: nat)
    requires TreeOk(nodes, t) && StackOk(nodes, t, stack, cur) && |nodes'| >= |nodes| && cur in t.pos
    requires forall a :: a in t.pos && |t.pos[a]| < |t.pos[cur]| ==>
      a in t'.pos && t'.pos[a] == t.pos[a] && a < |nodes| && nodes'[a].children == nodes[a].children
    ensures StackOk(nodes', t', stack, cur)
  {
    hide TreeOk;
    forall k | 0 <= k < |stack|
      ensures FrameOk(nodes', t', stack[k], Below(stack, k, cur))
    {
      assert FrameOk(nodes, t, stack[k], Below(stack, k, cur));
      StackLengths(nodes, t, stack, cur, k);
    }
  }

  // ------------------------------------------------------------ reachability

  /** A walk along child links from the root to `a`. */
  ghost predicate PathTo<V>(nodes: seq<Node<V>>, path: seq<nat>, a: nat) {
    && |path| > 0 && path[0] == ROOT && path[|path| - 1] == a
    && forall i :: 0 <= i < |path| - 1 ==> path[i] < |nodes| && path[i + 1] in nodes[path[i]].children
  }

  lemma {:induction false} LiveHasPath<V>(nodes: seq<Node<V>>, t: View, a: nat) returns (path: seq<nat>)
    requires TreeOk(nodes, t) && a in t.pos
    ensures PathTo(nodes, path, a)
    decreases |t.pos[a]|
  {
    hide TreeOk;
    EdgeFacts(nodes, t, a);
    if a == ROOT {
      return [ROOT];
    }
    var d := t.par[a];
    EdgeFacts(nodes, t, d);
    var j :| 0 <= j < |nodes[d].children| && nodes[d].children[j] == a;
    EdgeIs(nodes, t, d, j);
    path := LiveHasPath(nodes, t, d);
    path := path + [a];
  }

  lemma {:induction false} PathIsLive<V>(nodes: seq<Node<V>>, t: View, path: seq<nat>, a: nat)
    requires TreeOk(nodes, t) && PathTo(nodes, path, a)
    ensures a in t.pos
    decreases |path|
  {
    hide TreeOk;
    LiveFacts(nodes, t, ROOT);
    if |path| > 1 {
      var d := path[|path| - 2];
      PathIsLive(nodes, t, path[..|path| - 1], d);
      EdgeFacts(nodes, t, d);
      assert path[|path| - 2 + 1] == a;
    }
  }

  /** The nodes reachable from the root are exactly the slots that are not free,
      and each but the root is a child of exactly one of them. */
  lemma ReachableIffNotFree<V>(nodes: seq<Node<V>>, t: View, free: seq<nat>, a: nat)
    requires TreeOk(nodes, t) && Partitioned(|nodes|, t.pos.Keys, free)
    ensures (exists path :: PathTo(nodes, path, a)) <==> a < |nodes| && a !in free
    ensures a in t.pos && a != ROOT ==>
      a in t.par && t.par[a] in t.pos &&
      forall e :: e in t.pos && e < |nodes| ==> (a in nodes[e].children <==> e == t.par[a])
  {
    hide TreeOk;
    if a in t.pos {
      var path := LiveHasPath(nodes, t, a);
      EdgeFacts(nodes, t, a);
      forall e | e in t.pos && e < |nodes| && a in nodes[e].children
        ensures a in t.par && e == t.par[a]
      {
        EdgeFacts(nodes, t, e);
      }
    }
    forall path | PathTo(nodes, path, a)
      ensures a in t.pos
    {
      PathIsLive(nodes, t, path, a);
    }
  }
}
