/**
  The keys of a sorted set: their order, sorted sequences of them, and the score
  and member ranges that select from such a sequence.
  */
module SkiplistKeys {
  import opened ByteStrings

  // ---------------------------------------------------------------- key order

  /** A score is only ever compared, so it is modelled by its position in the
      order of the non-NaN doubles (both zeros share one position). */
  type Score = int

  datatype Key = Key(score: Score, member: Bytes)

  predicate Less(a: Key, b: Key) {
    a.score < b.score || (a.score == b.score && BytesLess(a.member, b.member))
  }

  /** By score, then by member as memcmp has it. */
  lemma KeyOrder(a: Key, b: Key)
    ensures a.score < b.score ==> Less(a, b) && !Less(b, a)
    ensures a.score == b.score && |a.member| < |b.member| && a.member == b.member[..|a.member|] ==> Less(a, b)
    ensures forall i :: a.score == b.score && DiffersAt(a.member, b.member, i) ==> (Less(a, b) <==> a.member[i] < b.member[i])
  {
    FirstDifference(a.member, b.member);
    forall i | a.score == b.score && DiffersAt(a.member, b.member, i)
      ensures Less(a, b) <==> a.member[i] < b.member[i]
    {
      OneDifference(a.member, b.member, i);
    }
  }

  lemma LessTotal(a: Key, b: Key)
    ensures Less(a, b) || a == b || Less(b, a)
  {
    BytesTotal(a.member, b.member);
  }

  lemma LessTransitive(a: Key, b: Key, c: Key)
    requires Less(a, b) && Less(b, c)
    ensures Less(a, c)
  {
    if a.score == b.score == c.score {
      BytesTransitive(a.member, b.member, c.member);
    }
  }

  lemma LessIrreflexive(a: Key)
    ensures !Less(a, a)
  {
    BytesIrreflexive(a.member);
  }

  // -------------------------------------------------------------- sorted keys

  ghost predicate Sorted(ks: seq<Key>) {
    forall i, j :: 0 <= i < j < |ks| ==> Less(ks[i], ks[j])
  }

  ghost predicate DistinctMembers(ks: seq<Key>) {
    forall i, j :: 0 <= i < j < |ks| ==> ks[i].member != ks[j].member
  }

  /** `below` holds of exactly the first `r` keys. */
  ghost predicate Cut(ks: seq<Key>, below: Key -> bool, r: nat) {
    && r <= |ks|
    && (forall k :: 0 <= k < r ==> below(ks[k]))
    && (forall k :: r <= k < |ks| ==> !below(ks[k]))
  }

  ghost predicate DownClosed(ks: seq<Key>, below: Key -> bool) {
    forall i, j :: 0 <= i < j < |ks| && below(ks[j]) ==> below(ks[i])
  }

  /** Number of leading keys less than `key`: its rank in a sorted list. */
  function RankIn(ks: seq<Key>, key: Key): (r: nat)
    ensures r <= |ks|
  {
    if |ks| > 0 && Less(ks[0], key) then 1 + RankIn(ks[1..], key) else 0
  }

  lemma {:induction false} CutIsRank(ks: seq<Key>, key: Key, r: nat)
    requires Cut(ks, k => Less(k, key), r)
    ensures RankIn(ks, key) == r
  {
    if r > 0 {
      CutIsRank(ks[1..], key, r - 1);
    }
  }

  function InsertKey(ks: seq<Key>, r: nat, key: Key): (t: seq<Key>)
    requires r <= |ks|
    ensures |t| == |ks| + 1
  {
    ks[..r] + [key] + ks[r..]
  }

  function WithoutKey(ks: seq<Key>, r: nat): (t: seq<Key>)
    requires r < |ks|
    ensures |t| == |ks| - 1
  {
    ks[..r] + ks[r + 1..]
  }

  lemma LessIsDownClosed(ks: seq<Key>, key: Key)
    requires Sorted(ks)
    ensures DownClosed(ks, k => Less(k, key))
  {
    forall i, j | 0 <= i < j < |ks| && Less(ks[j], key)
      ensures Less(ks[i], key)
    {
      LessTransitive(ks[i], ks[j], key);
    }
  }

  lemma NotAboveIsDownClosed(ks: seq<Key>, key: Key)
    requires Sorted(ks)
    ensures DownClosed(ks, k => !Less(key, k))
  {
    forall i, j | 0 <= i < j < |ks| && !Less(key, ks[j])
      ensures !Less(key, ks[i])
    {
      if Less(key, ks[i]) {
        LessTransitive(key, ks[i], ks[j]);
      }
    }
  }

  lemma InsertKeepsSorted(ks: seq<Key>, key: Key, r: nat)
    requires Sorted(ks) && Cut(ks, k => Less(k, key), r)
    requires forall i :: 0 <= i < |ks| ==> ks[i] != key
    ensures Sorted(InsertKey(ks, r, key))
  {
    forall i | r <= i < |ks|
      ensures Less(key, ks[i])
    {
      LessTotal(ks[i], key);
    }
  }

  lemma InsertKeepsDistinct(ks: seq<Key>, key: Key, r: nat)
    requires DistinctMembers(ks) && r <= |ks|
    requires forall i :: 0 <= i < |ks| ==> ks[i].member != key.member
    ensures DistinctMembers(InsertKey(ks, r, key))
  {
  }

  lemma InsertKeys(ks: seq<Key>, key: Key, r: nat)
    requires Sorted(ks) && DistinctMembers(ks) && Cut(ks, k => Less(k, key), r)
    requires forall i :: 0 <= i < |ks| ==> ks[i].member != key.member
    ensures r <= |ks| && RankIn(ks, key) == r
    ensures Sorted(InsertKey(ks, r, key)) && DistinctMembers(InsertKey(ks, r, key))
  {
    CutIsRank(ks, key, r);
    InsertKeepsSorted(ks, key, r);
    InsertKeepsDistinct(ks, key, r);
  }

  lemma DeletedSorted(ks: seq<Key>, r: nat)
    requires Sorted(ks) && DistinctMembers(ks) && r < |ks|
    ensures Sorted(WithoutKey(ks, r)) && DistinctMembers(WithoutKey(ks, r))
  {
  }

  /** In a sorted list a key can only stand at its own rank. */
  lemma FoundAtRank(ks: seq<Key>, key: Key, r: nat)
    requires Sorted(ks) && Cut(ks, k => Less(k, key), r)
    ensures RankIn(ks, key) == r
    ensures key in ks <==> r < |ks| && ks[r] == key
  {
    CutIsRank(ks, key, r);
    if key in ks {
      var i :| 0 <= i < |ks| && ks[i] == key;
      LessIrreflexive(key);
      assert i >= r;
      if i > r {
        assert Less(ks[r], ks[i]);
      }
    }
  }

  lemma RankOfPosition(ks: seq<Key>, key: Key, i: nat)
    requires Sorted(ks) && i < |ks| && ks[i] == key
    ensures key in ks && RankIn(ks, key) == i
  {
    forall j | i <= j < |ks|
      ensures !Less(ks[j], key)
    {
      LessIrreflexive(key);
      if j > i && Less(ks[j], key) {
        LessTransitive(key, ks[j], key);
      }
    }
    CutIsRank(ks, key, i);
  }

  lemma MembersWithout(ks: seq<Key>, r: nat)
    requires DistinctMembers(ks) && r < |ks|
    ensures forall i :: 0 <= i < |WithoutKey(ks, r)| ==> WithoutKey(ks, r)[i].member != ks[r].member
  {
  }

  lemma RescoredSorted(ks: seq<Key>, r: nat, key: Key)
    requires Sorted(ks) && DistinctMembers(ks) && r < |ks| && key.member == ks[r].member
    requires (r > 0 ==> Less(ks[r - 1], key)) && (r + 1 < |ks| ==> Less(key, ks[r + 1]))
    ensures Sorted(ks[r := key]) && DistinctMembers(ks[r := key])
  {
    var ks' := ks[r := key];
    forall i, j | 0 <= i < j < |ks'|
      ensures Less(ks'[i], ks'[j])
    {
      if j == r && i + 1 < r {
        LessTransitive(ks[i], ks[r - 1], key);
      } else if i == r && r + 1 < j {
        LessTransitive(key, ks[r + 1], ks[j]);
      }
    }
  }

  /** Rescoring in place is removing and inserting again. */
  lemma RescoredKeys(ks: seq<Key>, r: nat, score: Score)
    requires Sorted(ks) && r < |ks|
    requires var key := Key(score, ks[r].member);
      (r > 0 ==> Less(ks[r - 1], key)) && (r + 1 < |ks| ==> Less(key, ks[r + 1]))
    ensures var rest, key := WithoutKey(ks, r), Key(score, ks[r].member);
      ks[r := key] == InsertKey(rest, RankIn(rest, key), key)
  {
    var rest, key := WithoutKey(ks, r), Key(score, ks[r].member);
    forall i | 0 <= i < |rest|
      ensures if i < r then Less(rest[i], key) else !Less(rest[i], key)
    {
      if i + 1 < r {
        LessTransitive(ks[i], ks[r - 1], key);
      } else if i >= r && Less(rest[i], key) {
        LessIrreflexive(key);
        if i > r {
          LessTransitive(ks[r + 1], ks[i + 1], key);
        }
        LessTransitive(key, ks[r + 1], key);
      }
    }
    CutIsRank(rest, key, r);
  }

  // ------------------------------------------------------------------- ranges

  datatype ScoreBound = ScoreBound(value: Score, exclusive: bool)
  datatype LexBound = NegInf | PosInf | Incl(bound: Bytes) | Excl(bound: Bytes)
  datatype Range =
    | ByScore(smin: ScoreBound, smax: ScoreBound)
    | ByLex(lmin: LexBound, lmax: LexBound)

  predicate GteMin(r: Range, k: Key) {
    match r
    case ByScore(min, _) => if min.exclusive then k.score > min.value else k.score >= min.value
    case ByLex(NegInf, _) => true
    case ByLex(PosInf, _) => false
    case ByLex(Incl(b), _) => !BytesLess(k.member, b)
    case ByLex(Excl(b), _) => BytesLess(b, k.member)
  }

  predicate LteMax(r: Range, k: Key) {
    match r
    case ByScore(_, max) => if max.exclusive then k.score < max.value else k.score <= max.value
    case ByLex(_, NegInf) => false
    case ByLex(_, PosInf) => true
    case ByLex(_, Incl(b)) => !BytesLess(b, k.member)
    case ByLex(_, Excl(b)) => BytesLess(k.member, b)
  }

  predicate InRange(r: Range, k: Key) {
    GteMin(r, k) && LteMax(r, k)
  }

  /** The bounds alone rule every key out. */
  predicate IsEmpty(r: Range) {
    match r
    case ByScore(min, max) =>
      min.value > max.value || (min.value == max.value && (min.exclusive || max.exclusive))
    case ByLex(min, max) =>
      if min.PosInf? || max.NegInf? then true
      else if min.NegInf? || max.PosInf? then false
      else BytesLess(max.bound, min.bound) || (min.bound == max.bound && (min.Excl? || max.Excl?))
  }

  /** A range by member is meaningful only when all scores agree. */
  ghost predicate Usable(ks: seq<Key>, r: Range) {
    r.ByLex? ==> forall i, j :: 0 <= i < j < |ks| ==> ks[i].score == ks[j].score
  }

  /** Index of the lowest key in the range. */
  ghost function FirstIn(ks: seq<Key>, r: Range): (i: Option<nat>)
    ensures i.Some? ==> i.value < |ks| && InRange(r, ks[i.value])
    ensures i.Some? ==> forall j :: 0 <= j < i.value ==> !InRange(r, ks[j])
    ensures i.None? ==> forall j :: 0 <= j < |ks| ==> !InRange(r, ks[j])
  {
    if |ks| == 0 then None
    else if InRange(r, ks[0]) then Some(0)
    else
      var i := FirstIn(ks[1..], r);
      assert forall j :: 0 < j < |ks| ==> ks[j] == ks[1..][j - 1];
      if i.None? then None else Some(i.value + 1)
  }

  /** Index of the highest key in the range. */
  ghost function LastIn(ks: seq<Key>, r: Range): (i: Option<nat>)
    ensures i.Some? ==> i.value < |ks| && InRange(r, ks[i.value])
    ensures i.Some? ==> forall j :: i.value < j < |ks| ==> !InRange(r, ks[j])
    ensures i.None? ==> forall j :: 0 <= j < |ks| ==> !InRange(r, ks[j])
  {
    if |ks| == 0 then None
    else if InRange(r, ks[|ks| - 1]) then Some(|ks| - 1)
    else LastIn(ks[..|ks| - 1], r)
  }

  /** The keys a test selects, in order. */
  ghost function Selected(ks: seq<Key>, test: Key -> bool): seq<Key> {
    if |ks| == 0 then []
    else (if test(ks[0]) then [ks[0]] else []) + Selected(ks[1..], test)
  }

  /** What the bounds of a score range mean: keys strictly between are in, keys
      beyond are out, and keys at a bound are in exactly if it is inclusive. */
  lemma ScoreRangeLaw(lo: Score, loOpen: bool, hi: Score, hiOpen: bool, k: Key)
    ensures var r := ByScore(ScoreBound(lo, loOpen), ScoreBound(hi, hiOpen));
      && (lo < k.score < hi ==> InRange(r, k))
      && (k.score < lo || hi < k.score ==> !InRange(r, k))
      && (k.score == lo < hi ==> (InRange(r, k) <==> !loOpen))
      && (lo < hi == k.score ==> (InRange(r, k) <==> !hiOpen))
      && (k.score == lo == hi ==> (InRange(r, k) <==> !loOpen && !hiOpen))
      && (IsEmpty(r) <==> hi < lo || (lo == hi && (loOpen || hiOpen)))
  {
  }

  /** A member range tests each bound for itself, in memcmp order. */
  lemma LexRangeLaw(lo: LexBound, hi: LexBound, k: Key)
    ensures var r := ByLex(lo, hi);
      && (InRange(r, k) <==>
           && !lo.PosInf? && !hi.NegInf?
           && (lo.Incl? ==> k.member == lo.bound || BytesLess(lo.bound, k.member))
           && (lo.Excl? ==> k.member != lo.bound && BytesLess(lo.bound, k.member))
           && (hi.Incl? ==> k.member == hi.bound || BytesLess(k.member, hi.bound))
           && (hi.Excl? ==> k.member != hi.bound && BytesLess(k.member, hi.bound)))
      && (IsEmpty(r) <==>
           || lo.PosInf? || hi.NegInf?
           || (!lo.NegInf? && !hi.PosInf? && BytesLess(hi.bound, lo.bound))
           || (!lo.NegInf? && !hi.PosInf? && hi.bound == lo.bound && !(lo.Incl? && hi.Incl?)))
      && (lo.Incl? && (hi.PosInf? || (hi.Incl? && BytesLeq(lo.bound, hi.bound)) || (hi.Excl? && BytesLess(lo.bound, hi.bound))) ==>
           !IsEmpty(r) && InRange(r, Key(k.score, lo.bound)))
      && (hi.Incl? && (lo.NegInf? || (lo.Incl? && BytesLeq(lo.bound, hi.bound)) || (lo.Excl? && BytesLess(lo.bound, hi.bound))) ==>
           !IsEmpty(r) && InRange(r, Key(k.score, hi.bound)))
  {
    BytesIrreflexive(k.member);
    if lo.Incl? || lo.Excl? {
      LessOrAfter(lo.bound, k.member);
      BytesIrreflexive(lo.bound);
    }
    if hi.Incl? || hi.Excl? {
      LessOrAfter(k.member, hi.bound);
      BytesIrreflexive(hi.bound);
    }
    if (lo.Incl? || lo.Excl?) && (hi.Incl? || hi.Excl?) {
      LessOrAfter(lo.bound, hi.bound);
      LessOrAfter(hi.bound, lo.bound);
    }
  }

  lemma EmptyMeans(r: Range, k: Key)
    requires IsEmpty(r)
    ensures !InRange(r, k)
  {
    if r.ByLex? && (r.lmin.Incl? || r.lmin.Excl?) && (r.lmax.Incl? || r.lmax.Excl?) {
      var a, m, b := r.lmin.bound, k.member, r.lmax.bound;
      BytesTotal(a, m);
      BytesTotal(m, b);
      BytesIrreflexive(a);
      BytesIrreflexive(m);
      if BytesLess(b, a) && InRange(r, k) {
        if BytesLess(a, m) {
          BytesTransitive(b, a, m);
        }
        if BytesLess(m, b) {
          BytesTransitive(m, b, a);
          if BytesLess(a, m) {
            BytesTransitive(m, a, m);
          }
        }
      }
      if a == b && BytesLess(a, m) && BytesLess(m, b) {
        BytesTransitive(a, m, b);
      }
    }
  }

  lemma BoundsMonotone(r: Range, a: Key, b: Key)
    requires Less(a, b) && (r.ByLex? ==> a.score == b.score)
    ensures GteMin(r, a) ==> GteMin(r, b)
    ensures LteMax(r, b) ==> LteMax(r, a)
  {
    if r.ByLex? {
      var m, n := a.member, b.member;
      if (r.lmin.Incl? || r.lmin.Excl?) {
        if BytesLess(n, r.lmin.bound) {
          BytesTransitive(m, n, r.lmin.bound);
        }
        if BytesLess(r.lmin.bound, m) {
          BytesTransitive(r.lmin.bound, m, n);
        }
      }
      if (r.lmax.Incl? || r.lmax.Excl?) {
        if BytesLess(r.lmax.bound, m) {
          BytesTransitive(r.lmax.bound, m, n);
        }
        if BytesLess(n, r.lmax.bound) {
          BytesTransitive(m, n, r.lmax.bound);
        }
      }
    }
  }

  lemma RangeIsDownClosed(ks: seq<Key>, r: Range)
    requires Sorted(ks) && Usable(ks, r)
    ensures DownClosed(ks, k => !GteMin(r, k)) && DownClosed(ks, k => LteMax(r, k))
  {
    hide GteMin, LteMax, Less;
    forall i, j | 0 <= i < j < |ks|
      ensures GteMin(r, ks[i]) ==> GteMin(r, ks[j])
      ensures LteMax(r, ks[j]) ==> LteMax(r, ks[i])
    {
      BoundsMonotone(r, ks[i], ks[j]);
    }
  }

  lemma NotInRange(ks: seq<Key>, r: Range)
    requires Sorted(ks) && Usable(ks, r)
    requires IsEmpty(r) || |ks| == 0 || !GteMin(r, ks[|ks| - 1]) || !LteMax(r, ks[0])
    ensures FirstIn(ks, r) == None && LastIn(ks, r) == None
  {
    hide GteMin, LteMax, IsEmpty;
    RangeIsDownClosed(ks, r);
    forall j | 0 <= j < |ks|
      ensures !InRange(r, ks[j])
    {
      if IsEmpty(r) {
        EmptyMeans(r, ks[j]);
      }
    }
  }

  lemma CutFirst(ks: seq<Key>, r: Range, p: nat)
    requires Sorted(ks) && Usable(ks, r) && Cut(ks, k => !GteMin(r, k), p)
    ensures p <= |ks|
    ensures FirstIn(ks, r) == if p < |ks| && LteMax(r, ks[p]) then Some(p) else None
  {
    hide GteMin, LteMax, FirstIn;
    RangeIsDownClosed(ks, r);
  }

  lemma CutLast(ks: seq<Key>, r: Range, p: nat)
    requires Sorted(ks) && Usable(ks, r) && Cut(ks, k => LteMax(r, k), p)
    ensures p <= |ks|
    ensures LastIn(ks, r) == if p > 0 && GteMin(r, ks[p - 1]) then Some(p - 1) else None
  {
    hide GteMin, LteMax, LastIn;
    RangeIsDownClosed(ks, r);
  }

  lemma {:induction false} SelectedNone(ks: seq<Key>, test: Key -> bool)
    requires forall i :: 0 <= i < |ks| ==> !test(ks[i])
    ensures Selected(ks, test) == []
  {
    if |ks| > 0 {
      SelectedNone(ks[1..], test);
    }
  }

  lemma {:induction false} SelectedAll(ks: seq<Key>, test: Key -> bool)
    requires forall i :: 0 <= i < |ks| ==> test(ks[i])
    ensures Selected(ks, test) == ks
  {
    if |ks| > 0 {
      SelectedAll(ks[1..], test);
    }
  }

  lemma {:induction false} SelectedConcat(s: seq<Key>, t: seq<Key>, test: Key -> bool)
    ensures Selected(s + t, test) == Selected(s, test) + Selected(t, test)
  {
    if |s| == 0 {
      assert s + t == t;
    } else {
      SelectedConcat(s[1..], t, test);
      assert (s + t)[1..] == s[1..] + t && (s + t)[0] == s[0];
      KeysAssociate(if test(s[0]) then [s[0]] else [], Selected(s[1..], test), Selected(t, test));
    }
  }

  lemma KeysAssociate(a: seq<Key>, b: seq<Key>, c: seq<Key>)
    ensures a + (b + c) == (a + b) + c
  {
  }

  /** The keys in a range are the slice from the first to the last of them. */
  lemma RangeIsSlice(ks: seq<Key>, r: Range)
    requires Sorted(ks) && Usable(ks, r)
    ensures FirstIn(ks, r).Some? ==> LastIn(ks, r).Some? && FirstIn(ks, r).value <= LastIn(ks, r).value < |ks|
    ensures Selected(ks, k => InRange(r, k)) ==
      match FirstIn(ks, r) case None => [] case Some(a) => ks[a..LastIn(ks, r).value + 1]
  {
    hide GteMin, LteMax, FirstIn, LastIn;
    if FirstIn(ks, r) == None {
      SelectedNone(ks, k => InRange(r, k));
    } else {
      RangeIsDownClosed(ks, r);
      SelectedSlice(ks, k => InRange(r, k), FirstIn(ks, r).value, LastIn(ks, r).value + 1);
    }
  }

  lemma ThreeParts(ks: seq<Key>, a: nat, b: nat)
    requires a <= b <= |ks|
    ensures ks == ks[..a] + (ks[a..b] + ks[b..])
  {
  }

  lemma SelectedSlice(ks: seq<Key>, test: Key -> bool, a: nat, b: nat)
    requires a <= b <= |ks|
    requires forall k :: 0 <= k < |ks| ==> (test(ks[k]) <==> a <= k < b)
    ensures Selected(ks, test) == ks[a..b]
  {
    hide Selected;
    var s, t, u := ks[..a], ks[a..b], ks[b..];
    ThreeParts(ks, a, b);
    forall i | 0 <= i < |t|
      ensures test(t[i])
    {
      assert t[i] == ks[a + i];
    }
    forall i | 0 <= i < |u|
      ensures !test(u[i])
    {
      assert u[i] == ks[b + i];
    }
    SelectedConcat(s, t + u, test);
    SelectedConcat(t, u, test);
    SelectedNone(s, test);
    SelectedAll(t, test);
    SelectedNone(u, test);
    KeysBetween(Selected(s, test), t, Selected(u, test));
  }

  lemma KeysBetween(a: seq<Key>, t: seq<Key>, b: seq<Key>)
    ensures a == [] && b == [] ==> a + (t + b) == t
  {
  }

  lemma NothingSelected(ks: seq<Key>, r: Range)
    requires FirstIn(ks, r) == None
    ensures Selected(ks, k => InRange(r, k)) == [] && Selected(ks, k => !InRange(r, k)) == ks
  {
    SelectedNone(ks, k => InRange(r, k));
    SelectedAll(ks, k => !InRange(r, k));
  }

  /** Removing the first selected key removes it from the selection only. */
  lemma SelectedWithout(ks: seq<Key>, r: Range, i: nat)
    requires FirstIn(ks, r) == Some(i) && Usable(ks, r)
    ensures i < |ks| && LteMax(r, ks[i]) && Usable(WithoutKey(ks, i), r)
    ensures Selected(ks, k => InRange(r, k)) == [ks[i]] + Selected(WithoutKey(ks, i), k => InRange(r, k))
    ensures Selected(ks, k => !InRange(r, k)) == Selected(WithoutKey(ks, i), k => !InRange(r, k))
  {
    hide GteMin, LteMax, FirstIn, Selected;
    var yes, no := k => InRange(r, k), k => !InRange(r, k);
    var s, t := ks[..i], ks[i + 1..];
    assert ks == s + ([ks[i]] + t);
    SelectedConcat(s, [ks[i]] + t, yes);
    SelectedConcat([ks[i]], t, yes);
    SelectedConcat(s, t, yes);
    SelectedNone(s, yes);
    SelectedAll([ks[i]], yes);
    SelectedConcat(s, [ks[i]] + t, no);
    SelectedConcat([ks[i]], t, no);
    SelectedConcat(s, t, no);
    SelectedNone([ks[i]], no);
  }
}
