/** Bytes, byte strings and their memcmp order (shorter first on a tie). */
module ByteStrings {

  type Byte = b: int | 0 <= b < 256
  type Bytes = seq<Byte>

  datatype Option<+T> = None | Some(value: T)

  ghost predicate StrictlyAscending(v: seq<int>) {
    forall i, j :: 0 <= i < j < |v| ==> v[i] < v[j]
  }

  /** Strict lexicographic order on byte strings. */
  predicate BytesLess(a: Bytes, b: Bytes) {
    if |b| == 0 then false
    else if |a| == 0 then true
    else a[0] < b[0] || (a[0] == b[0] && BytesLess(a[1..], b[1..]))
  }

  /** The first place where `a` and `b` differ. */
  ghost predicate DiffersAt(a: Bytes, b: Bytes, i: int) {
    0 <= i < |a| && i < |b| && a[i] != b[i] && forall k :: 0 <= k < i ==> a[k] == b[k]
  }

  /** (memcmp) The first byte that differs decides, and a proper prefix comes first. */
  lemma {:induction false} FirstDifference(a: Bytes, b: Bytes)
    ensures BytesLess(a, b) <==>
      (|a| < |b| && forall k :: 0 <= k < |a| ==> a[k] == b[k]) || exists i :: DiffersAt(a, b, i) && a[i] < b[i]
    decreases |a|
  {
    if |a| > 0 && |b| > 0 {
      if a[0] == b[0] {
        FirstDifference(a[1..], b[1..]);
        forall i | i > 0
          ensures DiffersAt(a, b, i) <==> DiffersAt(a[1..], b[1..], i - 1)
        {
          DiffersLater(a, b, i);
        }
        if exists i :: DiffersAt(a[1..], b[1..], i) && a[1..][i] < b[1..][i] {
          var i :| DiffersAt(a[1..], b[1..], i) && a[1..][i] < b[1..][i];
          assert DiffersAt(a, b, i + 1);
        }
        assert (forall k :: 0 <= k < |a| - 1 && k < |b| - 1 ==> a[1..][k] == a[k + 1] && b[1..][k] == b[k + 1]);
        if |a| < |b| && forall k :: 0 <= k < |a[1..]| ==> a[1..][k] == b[1..][k] {
          assert forall k :: 1 <= k < |a| ==> a[k] == a[1..][k - 1] == b[1..][k - 1] == b[k];
        }
      } else {
        assert DiffersAt(a, b, 0);
      }
    }
  }

  lemma DiffersLater(a: Bytes, b: Bytes, i: int)
    requires |a| > 0 && |b| > 0 && a[0] == b[0] && i > 0
    ensures DiffersAt(a, b, i) <==> DiffersAt(a[1..], b[1..], i - 1)
  {
    if DiffersAt(a[1..], b[1..], i - 1) {
      forall k | 1 <= k < i
        ensures a[k] == b[k]
      {
        assert a[1..][k - 1] == b[1..][k - 1];
      }
    }
  }

  /** There is one first difference. */
  lemma OneDifference(a: Bytes, b: Bytes, i: int)
    requires DiffersAt(a, b, i)
    ensures BytesLess(a, b) <==> a[i] < b[i]
  {
    FirstDifference(a, b);
  }

  lemma {:induction false} BytesTotal(a: Bytes, b: Bytes)
    ensures BytesLess(a, b) || a == b || BytesLess(b, a)
  {
    if |a| == 0 || |b| == 0 {
    } else {
      BytesTotal(a[1..], b[1..]);
      if a[0] == b[0] && a[1..] == b[1..] {
        assert a == [a[0]] + a[1..] && b == [b[0]] + b[1..];
      }
    }
  }

  lemma {:induction false} BytesTransitive(a: Bytes, b: Bytes, c: Bytes)
    requires BytesLess(a, b) && BytesLess(b, c)
    ensures BytesLess(a, c)
  {
    if |a| == 0 {
    } else if a[0] == b[0] && b[0] == c[0] {
      BytesTransitive(a[1..], b[1..], c[1..]);
    }
  }

  lemma {:induction false} BytesIrreflexive(a: Bytes)
    ensures !BytesLess(a, a)
  {
    if |a| > 0 {
      BytesIrreflexive(a[1..]);
    }
  }

  // --------------------------------------------------------------- prefixes

  ghost predicate Prefix(a: Bytes, b: Bytes) {
    |a| <= |b| && a == b[..|a|]
  }

  lemma PrefixesCompare(a: Bytes, b: Bytes, c: Bytes)
    requires Prefix(a, c) && Prefix(b, c) && |a| <= |b|
    ensures Prefix(a, b)
    ensures |a| == |b| ==> a == b
  {
    assert a == c[..|b|][..|a|];
  }

  predicate BytesLeq(a: Bytes, b: Bytes) {
    a == b || BytesLess(a, b)
  }

  /** Strictly after every extension of `p`. */
  ghost predicate After(p: Bytes, k: Bytes) {
    BytesLess(p, k) && !Prefix(p, k)
  }

  lemma {:induction false} PrefixLeq(a: Bytes, b: Bytes)
    requires Prefix(a, b)
    ensures BytesLeq(a, b)
  {
    if |a| > 0 {
      assert a[1..] == b[1..][..|a| - 1];
      PrefixLeq(a[1..], b[1..]);
      if a[1..] == b[1..] {
        assert a == [a[0]] + a[1..] && b == [b[0]] + b[1..];
      }
    }
  }

  /** A common prefix does not influence the order. */
  lemma {:induction false} CommonPrefix(p: Bytes, a: Bytes, b: Bytes)
    ensures BytesLess(p + a, p + b) <==> BytesLess(a, b)
  {
    if |p| == 0 {
      assert p + a == a && p + b == b;
    } else {
      CommonPrefix(p[1..], a, b);
      assert (p + a)[1..] == p[1..] + a && (p + b)[1..] == p[1..] + b;
    }
  }

  /** A string that does not extend `p` compares alike with all extensions of `p`. */
  lemma {:induction false} Outside(p: Bytes, q: Bytes, k: Bytes)
    requires Prefix(p, q) && !Prefix(p, k)
    ensures BytesLess(q, k) <==> BytesLess(p, k)
    ensures BytesLess(k, q) <==> BytesLess(k, p)
    ensures !Prefix(q, k) && q != k && k != p
  {
    assert |q| <= |k| ==> k[..|p|] == k[..|q|][..|p|];
    assert p == p[..|p|];
    if |k| > 0 && p[0] == k[0] {
      assert p == [p[0]] + p[1..] && p[1..] == q[1..][..|p| - 1];
      assert |p| <= |k| ==> k[..|p|] == [k[0]] + k[1..][..|p| - 1];
      Outside(p[1..], q[1..], k[1..]);
    }
  }

  lemma LessOrAfter(p: Bytes, k: Bytes)
    ensures !(BytesLess(p, k) && BytesLeq(k, p))
    ensures BytesLess(p, k) || BytesLeq(k, p)
  {
    BytesTotal(p, k);
    BytesIrreflexive(p);
    if BytesLess(p, k) && BytesLess(k, p) {
      BytesTransitive(p, k, p);
    }
  }
}
