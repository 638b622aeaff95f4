/**
  SCAN over all shards, with the keyspace changing between any two bucket visits.
  Every visit reads the shard as it is at that moment; `env(t)` is the keyspace
  the `t`-th visit finds, so nothing is assumed about what happens in between.
  */
module Scan {
  import opened ByteStrings
  import opened Entries
  import opened ScanCursor
  import Arithmetic
  import Glob

  // ------------------------------------------------------------- the options

  datatype Options = Options(count: nat, pattern: Option<Bytes>, typeFilter: Option<Bytes>)

  function Lower(b: Byte): Byte {
    if 65 <= b <= 90 then b + 32 else b
  }

  predicate EqIgnoreCase(a: Bytes, b: Bytes) {
    |a| == |b| && forall i :: 0 <= i < |a| ==> Lower(a[i]) == Lower(b[i])
  }

  /** Two names are the same if at every place they have the same byte or the two
      cases of one ASCII letter. */
  lemma SameLetters(a: Bytes, b: Bytes)
    ensures EqIgnoreCase(a, b) <==>
      |a| == |b| && forall i :: 0 <= i < |a| ==>
        a[i] == b[i] || (65 <= a[i] <= 90 && b[i] == a[i] + 32) || (65 <= b[i] <= 90 && a[i] == b[i] + 32)
  {
    if |a| == |b| {
      forall i | 0 <= i < |a|
        ensures Lower(a[i]) == Lower(b[i]) <==>
          a[i] == b[i] || (65 <= a[i] <= 90 && b[i] == a[i] + 32) || (65 <= b[i] <= 90 && a[i] == b[i] + 32)
      {
      }
    }
  }

  /** The key is unexpired and passes the filters. */
  ghost predicate Passes(key: Bytes, e: Entry, now: nat, opts: Options) {
    && !IsExpired(e, now)
    && (opts.typeFilter.Some? ==> EqIgnoreCase(opts.typeFilter.value, e.typeName))
    && (opts.pattern.Some? ==> opts.pattern.value == [Glob.STAR] || Glob.GlobMatches(opts.pattern.value, key))
  }

  // ------------------------------------------------------- visits and runs

  /** Where an iteration stands. */
  datatype Place = At(shard: nat, intra: bv64) | Done

  /** One bucket visit: where, with how many bucket bits, and what was there. */
  datatype Visit = Visit(shard: nat, intra: bv64, bits: nat, db: Option<Dict>, now: nat, opts: Options)

  ghost predicate Bucketed(v: Visit, hash: Bytes -> bv64, k: Bytes)
    requires v.bits <= MAX_SCAN_BITS
  {
    SameBucket(hash(k), v.intra, v.bits)
  }

  ghost predicate Live(v: Visit, k: Bytes) {
    v.db.Some? && k in v.db.value && Passes(k, v.db.value[k], v.now, v.opts)
  }

  /** The keys a visit returns. */
  ghost function Reported(v: Visit, hash: Bytes -> bv64): set<Bytes>
    requires v.bits <= MAX_SCAN_BITS
  {
    if v.db == None then {} else set k | k in v.db.value && Bucketed(v, hash, k) && Live(v, k)
  }

  function NextIntra(v: Visit): bv64
    requires v.bits <= MAX_SCAN_BITS
  {
    if v.db == None then 0 else ScanAdvance(v.intra, Mask(v.bits))
  }

  /** Where an iteration over `n` shards goes next. */
  function After(v: Visit, n: nat): Place
    requires v.bits <= MAX_SCAN_BITS
  {
    if NextIntra(v) != 0 then At(v.shard, NextIntra(v))
    else if v.shard + 1 < n then At(v.shard + 1, 0)
    else Done
  }

  function PlaceBefore(trace: seq<Visit>, i: nat, from: Place, n: nat): Place
    requires i <= |trace| && forall j :: 0 <= j < |trace| ==> trace[j].bits <= MAX_SCAN_BITS
  {
    if i == 0 then from else After(trace[i - 1], n)
  }

  ghost predicate Sane(trace: seq<Visit>, n: nat) {
    forall i :: 0 <= i < |trace| ==> trace[i].bits <= MAX_SCAN_BITS && trace[i].shard < n
  }

  /** Every visit is where the one before it led. */
  ghost predicate Chain(trace: seq<Visit>, from: Place, to: Place, n: nat) {
    && Sane(trace, n)
    && (forall i :: 0 <= i < |trace| ==> PlaceBefore(trace, i, from, n) == At(trace[i].shard, trace[i].intra))
    && PlaceBefore(trace, |trace|, from, n) == to
  }

  /** All the keys a run returns, with multiplicity. */
  ghost function Returned(trace: seq<Visit>, hash: Bytes -> bv64, n: nat): multiset<Bytes>
    requires Sane(trace, n)
  {
    if |trace| == 0 then multiset{}
    else Returned(trace[..|trace| - 1], hash, n) + multiset(Reported(trace[|trace| - 1], hash))
  }

  lemma ReturnedAppend(trace: seq<Visit>, v: Visit, n: nat, hash: Bytes -> bv64)
    requires Sane(trace, n) && v.shard < n && v.bits <= MAX_SCAN_BITS
    ensures Sane(trace + [v], n)
    ensures Returned(trace + [v], hash, n) == Returned(trace, hash, n) + multiset(Reported(v, hash))
  {
    hide Reported;
    var all := trace + [v];
    assert all[..|all| - 1] == trace;
  }

  lemma ChainAppend(trace: seq<Visit>, from: Place, to: Place, v: Visit, n: nat)
    requires Chain(trace, from, to, n) && to == At(v.shard, v.intra) && v.shard < n && v.bits <= MAX_SCAN_BITS
    ensures Chain(trace + [v], from, After(v, n), n)
  {
    hide After;
    var all := trace + [v];
    assert Sane(all, n);
    forall i | 0 <= i < |all|
      ensures PlaceBefore(all, i, from, n) == At(all[i].shard, all[i].intra)
    {
      if i < |trace| {
        assert PlaceBefore(trace, i, from, n) == At(trace[i].shard, trace[i].intra);
      }
    }
  }

  lemma PlaceInConcat(a: seq<Visit>, b: seq<Visit>, from: Place, mid: Place, n: nat, i: nat)
    requires Sane(a, n) && Sane(b, n) && Sane(a + b, n) && i <= |a| + |b| && PlaceBefore(a, |a|, from, n) == mid
    ensures PlaceBefore(a + b, i, from, n) == if i < |a| then PlaceBefore(a, i, from, n) else PlaceBefore(b, i - |a|, mid, n)
  {
    hide After;
    if i > |a| {
      assert (a + b)[i - 1] == b[i - 1 - |a|];
    }
  }

  lemma ChainConcat(a: seq<Visit>, b: seq<Visit>, from: Place, mid: Place, to: Place, n: nat)
    requires Chain(a, from, mid, n) && Chain(b, mid, to, n)
    ensures Chain(a + b, from, to, n)
  {
    hide After, PlaceBefore;
    var all := a + b;
    assert Sane(all, n);
    forall i | 0 <= i < |all|
      ensures PlaceBefore(all, i, from, n) == At(all[i].shard, all[i].intra)
    {
      PlaceInConcat(a, b, from, mid, n, i);
      if i < |a| {
        assert PlaceBefore(a, i, from, n) == At(a[i].shard, a[i].intra);
      } else {
        assert PlaceBefore(b, i - |a|, mid, n) == At(b[i - |a|].shard, b[i - |a|].intra);
      }
    }
    PlaceInConcat(a, b, from, mid, n, |all|);
  }

  lemma {:induction false} ReturnedConcat(a: seq<Visit>, b: seq<Visit>, n: nat, hash: Bytes -> bv64)
    requires Sane(a, n) && Sane(b, n)
    ensures Sane(a + b, n)
    ensures Returned(a + b, hash, n) == Returned(a, hash, n) + Returned(b, hash, n)
  {
    if |b| == 0 {
      assert a + b == a;
    } else {
      hide Returned;
      var b', v := b[..|b| - 1], b[|b| - 1];
      assert b == b' + [v] && a + b == (a + b') + [v];
      ReturnedConcat(a, b', n, hash);
      ReturnedAppend(b', v, n, hash);
      ReturnedAppend(a + b', v, n, hash);
    }
  }

  lemma PrefixChain(trace: seq<Visit>, i: nat, from: Place, to: Place, n: nat)
    requires Chain(trace, from, to, n) && i <= |trace|
    ensures Chain(trace[..i], from, PlaceBefore(trace, i, from, n), n)
  {
    var p := trace[..i];
    assert Sane(p, n);
    forall j | 0 <= j < |p|
      ensures PlaceBefore(p, j, from, n) == At(p[j].shard, p[j].intra)
    {
      assert PlaceBefore(trace, j, from, n) == At(trace[j].shard, trace[j].intra);
    }
  }

  lemma VisitPlace(trace: seq<Visit>, from: Place, to: Place, n: nat, i: nat)
    requires Chain(trace, from, to, n) && i < |trace|
    ensures trace[i].bits <= MAX_SCAN_BITS && trace[i].shard < n
    ensures i == 0 ==> from == At(trace[0].shard, trace[0].intra)
    ensures i > 0 ==> trace[i - 1].bits <= MAX_SCAN_BITS && trace[i - 1].shard < n
    ensures i > 0 ==> After(trace[i - 1], n) == At(trace[i].shard, trace[i].intra)
    ensures i + 1 == |trace| ==> After(trace[i], n) == to
  {
    hide After;
    assert PlaceBefore(trace, i, from, n) == At(trace[i].shard, trace[i].intra);
  }

  lemma PlaceHere(trace: seq<Visit>, from: Place, to: Place, n: nat, i: nat)
    requires Chain(trace, from, to, n) && i < |trace|
    ensures Sane(trace, n) && PlaceBefore(trace, i, from, n) == At(trace[i].shard, trace[i].intra)
  {
    hide After;
  }

  lemma SaneChain(trace: seq<Visit>, from: Place, to: Place, n: nat)
    requires Chain(trace, from, to, n)
    ensures Sane(trace, n)
  {
  }

  // ------------------------------------------------------------ one visit

  /** The ranks a visit covers are `Start(v) .. End(v)`. */
  function Start(v: Visit): nat {
    BucketStart(v.intra, v.bits)
  }

  function End(v: Visit): nat
    requires v.bits <= MAX_SCAN_BITS
  {
    if v.db == None then 16 else Start(v) + Span(v.bits)
  }

  lemma BucketedRanks(v: Visit, hash: Bytes -> bv64, k: Bytes)
    requires v.bits <= MAX_SCAN_BITS
    ensures Bucketed(v, hash, k) <==> Start(v) <= Rank(hash(k)) < Start(v) + Span(v.bits)
    ensures Start(v) <= Rank(v.intra) < Start(v) + Span(v.bits) <= 16
  {
    hide Rank, SameBucket, BucketStart, Span;
    BucketRanks(hash(k), v.intra, v.bits);
    RankInBucket(v.intra, v.bits);
  }

  /** A visit covers its rank, returns the live keys of the ranks it covers, and
      leads to the next rank. */
  lemma VisitCovers(v: Visit, hash: Bytes -> bv64, k: Bytes)
    requires v.bits <= MAX_SCAN_BITS
    ensures Rank(v.intra) < End(v) <= 16
    ensures v.db.Some? ==> Start(v) <= Rank(v.intra)
    ensures k in Reported(v, hash) <==> Live(v, k) && Start(v) <= Rank(hash(k)) < End(v)
    ensures NextIntra(v) == 0 ==> End(v) == 16
    ensures NextIntra(v) != 0 ==> End(v) == Rank(NextIntra(v)) && BucketStart(NextIntra(v), v.bits) == End(v)
    ensures NextIntra(v) < 16
  {
    hide Rank, ScanAdvance, Mask, BucketStart, Span, Bucketed, Passes;
    BucketedRanks(v, hash, k);
    AdvanceRank(v.intra, v.bits);
  }

  // ----------------------------------------------------------- whole runs

  /** The iteration has left rank `r` of shard `j` behind. */
  ghost predicate Behind(p: Place, j: nat, r: nat) {
    p.Done? || p.shard > j || (p.shard == j && Rank(p.intra) > r)
  }

  /** (Coverage, step by step) A key that is live at every visit of its shard has
      been returned by the time the iteration has left its rank behind. */
  lemma {:induction false} CoveredSoFar(trace: seq<Visit>, i: nat, to: Place, n: nat, hash: Bytes -> bv64, k: Bytes, j: nat)
    requires Chain(trace, At(0, 0), to, n) && i <= |trace| && j < n
    requires forall a :: 0 <= a < |trace| && trace[a].shard == j ==> Live(trace[a], k)
    requires Behind(PlaceBefore(trace, i, At(0, 0), n), j, Rank(hash(k)))
    ensures exists a :: 0 <= a < i && k in Reported(trace[a], hash)
  {
    hide Reported, Live, Rank, After, Chain;
    FromZero();
    SaneChain(trace, At(0, 0), to, n);
    if i > 0 {
      var v := trace[i - 1];
      PlaceHere(trace, At(0, 0), to, n, i - 1);
      if Behind(At(v.shard, v.intra), j, Rank(hash(k))) {
        CoveredSoFar(trace, i - 1, to, n, hash, k, j);
      } else {
        StepCovers(v, n, hash, k, j);
      }
    }
  }

  lemma FromZero()
    ensures Rank(0) == 0
  {
  }

  lemma StepCovers(v: Visit, n: nat, hash: Bytes -> bv64, k: Bytes, j: nat)
    requires v.bits <= MAX_SCAN_BITS
    requires !Behind(At(v.shard, v.intra), j, Rank(hash(k))) && Behind(After(v, n), j, Rank(hash(k)))
    requires j < n && v.shard < n && (v.shard == j ==> Live(v, k))
    ensures k in Reported(v, hash)
  {
    hide Reported, NextIntra, Rank, Start, BucketStart, Passes;
    FromZero();
    VisitCovers(v, hash, k);
  }

  /** (Coverage) A full iteration, whatever happened between its visits, returns
      every key that was live at every visit of its shard. */
  lemma FullCoverage(trace: seq<Visit>, n: nat, hash: Bytes -> bv64, k: Bytes, j: nat)
    requires Chain(trace, At(0, 0), Done, n) && j < n
    requires forall a :: 0 <= a < |trace| && trace[a].shard == j ==> Live(trace[a], k)
    ensures exists a :: 0 <= a < |trace| && k in Reported(trace[a], hash)
    ensures k in Returned(trace, hash, n)
  {
    CoveredSoFar(trace, |trace|, Done, n, hash, k, j);
    var a :| 0 <= a < |trace| && k in Reported(trace[a], hash);
    ReportedReturned(trace, n, hash, k, a);
  }

  lemma {:induction false} ReportedReturned(trace: seq<Visit>, n: nat, hash: Bytes -> bv64, k: Bytes, a: nat)
    requires Sane(trace, n) && a < |trace| && k in Reported(trace[a], hash)
    ensures k in Returned(trace, hash, n)
  {
    hide Reported;
    if a < |trace| - 1 {
      ReportedReturned(trace[..|trace| - 1], n, hash, k, a);
    }
  }

  /** Steps of the iteration done when it stands at `p`, at most 16 a shard. */
  function Progress(p: Place, n: nat): nat {
    if p.Done? then 16 * n else 16 * p.shard + Rank(p.intra)
  }

  lemma StepProgress(v: Visit, n: nat)
    requires v.bits <= MAX_SCAN_BITS && v.shard < n
    ensures Progress(At(v.shard, v.intra), n) < Progress(After(v, n), n) <= 16 * n
    ensures After(v, n).At? ==> After(v, n).shard < n && After(v, n).intra < 16
    ensures After(v, n).At? ==> After(v, n).shard > 0 || After(v, n).intra > 0
  {
    hide Reported, NextIntra, Rank, Start, BucketStart, Passes;
    FromZero();
    VisitCovers(v, _ => 0, []);
  }

  function VisitsTo(trace: seq<Visit>, j: nat): nat {
    if |trace| == 0 then 0
    else VisitsTo(trace[..|trace| - 1], j) + if trace[|trace| - 1].shard == j then 1 else 0
  }

  /** Ranks of shard `j` done when the iteration stands at `p`. */
  function ShardProgress(p: Place, j: nat): nat {
    if p.Done? || p.shard > j then 16 else if p.shard == j then Rank(p.intra) else 0
  }

  lemma StepShardProgress(v: Visit, n: nat, j: nat)
    requires v.bits <= MAX_SCAN_BITS && v.shard < n && j < n
    ensures ShardProgress(At(v.shard, v.intra), j) + (if v.shard == j then 1 else 0) <= ShardProgress(After(v, n), j)
  {
    hide Reported, NextIntra, Rank, Start, BucketStart, Passes;
    FromZero();
    VisitCovers(v, _ => 0, []);
  }

  /** (Bound) At most 16 bucket visits a shard, however COUNT and size vary. */
  lemma {:induction false} VisitBound(trace: seq<Visit>, to: Place, n: nat, j: nat)
    requires Chain(trace, At(0, 0), to, n) && j < n
    ensures VisitsTo(trace, j) <= ShardProgress(to, j) <= 16
    ensures |trace| <= Progress(to, n)
    decreases |trace|
  {
    hide Rank, After, Progress, Chain;
    EmptyProgress(trace, to, n, j);
    if |trace| > 0 {
      hide ShardProgress;
      var l := |trace| - 1;
      var v := trace[l];
      VisitPlace(trace, At(0, 0), to, n, l);
      ChainInit(trace, to, n);
      VisitBound(trace[..l], At(v.shard, v.intra), n, j);
      StepShardProgress(v, n, j);
      StepProgress(v, n);
    }
  }

  lemma EmptyProgress(trace: seq<Visit>, to: Place, n: nat, j: nat)
    requires Chain(trace, At(0, 0), to, n) && j < n
    ensures ShardProgress(to, j) <= 16
    ensures trace == [] ==> ShardProgress(to, j) == Progress(to, n) == 0
  {
    hide After;
    FromZero();
  }

  lemma ChainInit(trace: seq<Visit>, to: Place, n: nat)
    requires Chain(trace, At(0, 0), to, n) && |trace| > 0
    ensures var l := |trace| - 1; Chain(trace[..l], At(0, 0), At(trace[l].shard, trace[l].intra), n)
  {
    hide After, Chain, PlaceBefore;
    PlaceHere(trace, At(0, 0), to, n, |trace| - 1);
    PrefixChain(trace, |trace| - 1, At(0, 0), to, n);
  }

  // -------------------------------------------------------- no duplicates

  ghost predicate HomesKept(trace: seq<Visit>, home: Bytes -> nat) {
    forall a, k :: 0 <= a < |trace| && trace[a].db.Some? && k in trace[a].db.value ==> home(k) == trace[a].shard
  }

  /** The visit starts its bucket below the place the iteration stands at, and
      the rank of `k` is among those it goes over again. */
  ghost predicate GoesBackOver(v: Visit, hash: Bytes -> bv64, k: Bytes) {
    Start(v) <= Rank(hash(k)) < Rank(v.intra)
  }

  /** No visit of shard `j` goes back over the rank of `k`. */
  ghost predicate PassedOnce(trace: seq<Visit>, hash: Bytes -> bv64, j: nat, k: Bytes) {
    forall i :: 0 <= i < |trace| && trace[i].shard == j && trace[i].db.Some? ==> !GoesBackOver(trace[i], hash, k)
  }

  /** Wherever an iteration stands, all it visited in this shard is behind it. */
  lemma {:induction false} RanksBehind(trace: seq<Visit>, to: Place, n: nat, a: nat, b: nat)
    requires Chain(trace, At(0, 0), to, n) && a < b < |trace|
    ensures trace[a].bits <= MAX_SCAN_BITS && trace[b].bits <= MAX_SCAN_BITS
    ensures trace[a].shard == trace[b].shard ==> End(trace[a]) <= Rank(trace[b].intra)
    decreases b
  {
    hide Chain, Start, End, Rank, NextIntra;
    VisitPlace(trace, At(0, 0), to, n, a);
    VisitPlace(trace, At(0, 0), to, n, b);
    VisitCovers(trace[b - 1], _ => 0, []);
    ShardsAscend(trace, to, n, a, b - 1);
    ShardsAscend(trace, to, n, b - 1, b);
    if a < b - 1 && trace[a].shard == trace[b].shard {
      RanksBehind(trace, to, n, a, b - 1);
    }
  }

  lemma {:induction false} ShardsAscend(trace: seq<Visit>, to: Place, n: nat, a: nat, b: nat)
    requires Chain(trace, At(0, 0), to, n) && a <= b < |trace|
    ensures trace[a].shard <= trace[b].shard
    decreases b
  {
    hide Chain, NextIntra;
    if a < b {
      VisitPlace(trace, At(0, 0), to, n, b);
      ShardsAscend(trace, to, n, a, b - 1);
    }
  }

  lemma ReportedOnce(trace: seq<Visit>, to: Place, n: nat, hash: Bytes -> bv64, home: Bytes -> nat, k: Bytes, a: nat, b: nat)
    requires Chain(trace, At(0, 0), to, n) && HomesKept(trace, home) && PassedOnce(trace, hash, home(k), k)
    requires a < b < |trace|
    ensures trace[a].bits <= MAX_SCAN_BITS && trace[b].bits <= MAX_SCAN_BITS
    ensures !(k in Reported(trace[a], hash) && k in Reported(trace[b], hash))
  {
    hide Rank, Start, End, Reported, NextIntra, Chain;
    VisitPlace(trace, At(0, 0), to, n, a);
    VisitPlace(trace, At(0, 0), to, n, b);
    VisitCovers(trace[a], hash, k);
    VisitCovers(trace[b], hash, k);
    if Live(trace[a], k) && Live(trace[b], k) {
      assert home(k) == trace[a].shard;
      assert home(k) == trace[b].shard;
      RanksBehind(trace, to, n, a, b);
    }
  }

  /** (At most once) A key whose rank no visit goes back over is not returned
      twice, stable or not. */
  lemma {:induction false} AtMostOnce(trace: seq<Visit>, i: nat, to: Place, n: nat, hash: Bytes -> bv64, home: Bytes -> nat, k: Bytes)
    requires Chain(trace, At(0, 0), to, n) && HomesKept(trace, home) && PassedOnce(trace, hash, home(k), k) && i <= |trace|
    ensures Sane(trace[..i], n) && Returned(trace[..i], hash, n)[k] <= 1
    ensures Returned(trace[..i], hash, n)[k] == 1 ==> exists a :: 0 <= a < i && k in Reported(trace[a], hash)
  {
    hide Reported, After, PassedOnce, HomesKept, PlaceBefore;
    assert Sane(trace[..i], n);
    if i > 0 {
      AtMostOnce(trace, i - 1, to, n, hash, home, k);
      assert trace[..i][..i - 1] == trace[..i - 1];
      if k in Reported(trace[i - 1], hash) {
        if a :| 0 <= a < i - 1 && k in Reported(trace[a], hash) {
          ReportedOnce(trace, to, n, hash, home, k, a, i - 1);
        }
      }
    }
  }

  lemma {:induction false} ReportedTwice(trace: seq<Visit>, n: nat, hash: Bytes -> bv64, k: Bytes, a: nat, b: nat)
    requires Sane(trace, n) && a < b < |trace| && k in Reported(trace[a], hash) && k in Reported(trace[b], hash)
    ensures Returned(trace, hash, n)[k] >= 2
  {
    hide Reported;
    var l := |trace| - 1;
    if b < l {
      ReportedTwice(trace[..l], n, hash, k, a, b);
    } else {
      ReportedReturned(trace[..l], n, hash, k, a);
    }
  }

  /** (Exactly once, exactly when) A key live throughout is returned exactly once
      if and only if no visit of its shard goes back over its rank. */
  lemma ExactlyOnceIff(trace: seq<Visit>, n: nat, hash: Bytes -> bv64, home: Bytes -> nat, k: Bytes)
    requires Chain(trace, At(0, 0), Done, n) && HomesKept(trace, home) && home(k) < n
    requires forall a :: 0 <= a < |trace| && trace[a].shard == home(k) ==> Live(trace[a], k)
    ensures Returned(trace, hash, n)[k] == 1 <==> PassedOnce(trace, hash, home(k), k)
  {
    hide Chain, HomesKept, Reported, Live, Returned;
    SaneChain(trace, At(0, 0), Done, n);
    FullCoverage(trace, n, hash, k, home(k));
    if PassedOnce(trace, hash, home(k), k) {
      AtMostOnce(trace, |trace|, Done, n, hash, home, k);
      assert trace[..|trace|] == trace;
    } else {
      var b :| 0 <= b < |trace| && trace[b].shard == home(k) && trace[b].db.Some? && GoesBackOver(trace[b], hash, k);
      WentBack(trace, n, hash, k, b);
    }
  }

  /** A visit that goes back over a rank returns its keys once more. */
  lemma WentBack(trace: seq<Visit>, n: nat, hash: Bytes -> bv64, k: Bytes, b: nat)
    requires Chain(trace, At(0, 0), Done, n) && b < |trace| && trace[b].db.Some?
    requires GoesBackOver(trace[b], hash, k)
    requires forall a :: 0 <= a < |trace| && trace[a].shard == trace[b].shard ==> Live(trace[a], k)
    ensures Sane(trace, n) && Returned(trace, hash, n)[k] >= 2
  {
    hide Chain, Reported, Live, Returned, Rank, Start, NextIntra;
    SaneChain(trace, At(0, 0), Done, n);
    PlaceHere(trace, At(0, 0), Done, n, b);
    VisitCovers(trace[b], hash, k);
    CoveredSoFar(trace, b, Done, n, hash, k, trace[b].shard);
    var a :| 0 <= a < b && k in Reported(trace[a], hash);
    ReportedTwice(trace, n, hash, k, a, b);
  }

  /** The cursor carries no bit above the mask the visit uses. */
  predicate Aligned(v: Visit)
    requires v.bits <= MAX_SCAN_BITS
  {
    v.intra & !Mask(v.bits) == 0
  }

  /** Every visit of shard `j` finds the cursor within its mask. */
  ghost predicate AlignedIn(trace: seq<Visit>, j: nat) {
    forall i :: 0 <= i < |trace| && trace[i].shard == j && trace[i].db.Some? ==> trace[i].bits <= MAX_SCAN_BITS && Aligned(trace[i])
  }

  lemma AlignedStart(v: Visit)
    requires v.bits <= MAX_SCAN_BITS && v.intra < 16
    ensures Aligned(v) <==> Start(v) == Rank(v.intra)
  {
    hide Mask;
    Masks();
  }

  /** The constant hash of a given rank. */
  lemma HashOfRank(r: nat) returns (h: bv64)
    requires r < 16
    ensures Rank(h) == r
  {
    h := (if r / 8 % 2 == 1 then 1 else 0) | (if r / 4 % 2 == 1 then 2 else 0)
       | (if r / 2 % 2 == 1 then 4 else 0) | (if r % 2 == 1 then 8 else 0);
  }

  lemma IntraSmall(trace: seq<Visit>, to: Place, n: nat, i: nat)
    requires Chain(trace, At(0, 0), to, n) && i < |trace|
    ensures trace[i].bits <= MAX_SCAN_BITS && trace[i].intra < 16
  {
    hide Chain, NextIntra;
    VisitPlace(trace, At(0, 0), to, n, i);
    if i > 0 {
      VisitCovers(trace[i - 1], _ => 0, []);
    }
  }

  /** (Exactly once, whatever the hash) A key live throughout is sure to be
      returned exactly once if and only if every visit of its shard finds the
      cursor within the mask it is about to use. */
  lemma ExactlyOnceAnyHash(trace: seq<Visit>, n: nat, home: Bytes -> nat, k: Bytes)
    requires Chain(trace, At(0, 0), Done, n) && Sane(trace, n) && HomesKept(trace, home) && home(k) < n
    requires forall a :: 0 <= a < |trace| && trace[a].shard == home(k) ==> Live(trace[a], k)
    ensures (forall hash: Bytes -> bv64 :: Returned(trace, hash, n)[k] == 1) <==> AlignedIn(trace, home(k))
  {
    hide Chain, HomesKept, Live, Returned, Rank, Start, Mask;
    if AlignedIn(trace, home(k)) {
      forall hash: Bytes -> bv64
        ensures Returned(trace, hash, n)[k] == 1
      {
        AlignedPassedOnce(trace, Done, n, hash, home(k), k);
        ExactlyOnceIff(trace, n, hash, home, k);
      }
    } else {
      var b :| 0 <= b < |trace| && trace[b].shard == home(k) && trace[b].db.Some? && !(trace[b].bits <= MAX_SCAN_BITS && Aligned(trace[b]));
      IntraSmall(trace, Done, n, b);
      AlignedStart(trace[b]);
      BucketedRanks(trace[b], _ => 0, k);
      var h := HashOfRank(Start(trace[b]));
      var hash: Bytes -> bv64 := _ => h;
      assert GoesBackOver(trace[b], hash, k);
      ExactlyOnceIff(trace, n, hash, home, k);
    }
  }

  lemma AlignedPassedOnce(trace: seq<Visit>, to: Place, n: nat, hash: Bytes -> bv64, j: nat, k: Bytes)
    requires Chain(trace, At(0, 0), to, n) && AlignedIn(trace, j)
    ensures PassedOnce(trace, hash, j, k)
  {
    hide Chain, Start, Rank, Aligned;
    forall i | 0 <= i < |trace| && trace[i].shard == j && trace[i].db.Some?
      ensures !GoesBackOver(trace[i], hash, k)
    {
      IntraSmall(trace, to, n, i);
      AlignedStart(trace[i]);
    }
  }

  /** The mask never shrinks while the iteration is inside a shard. */
  ghost predicate NeverShrinks(trace: seq<Visit>) {
    forall i :: 0 <= i && i + 1 < |trace| && trace[i].shard == trace[i + 1].shard ==>
      trace[i + 1].db == None || trace[i].bits <= trace[i + 1].bits
  }

  /** A mask that never shrinks keeps the cursor within it. */
  lemma NeverShrinksAligned(trace: seq<Visit>, to: Place, n: nat, j: nat)
    requires Chain(trace, At(0, 0), to, n) && NeverShrinks(trace)
    ensures AlignedIn(trace, j)
  {
    hide Chain, Rank, BucketStart, ScanAdvance, Aligned, Mask;
    forall i | 0 <= i < |trace| && trace[i].shard == j && trace[i].db.Some?
      ensures trace[i].bits <= MAX_SCAN_BITS && Aligned(trace[i])
    {
      var w := trace[i];
      IntraSmall(trace, to, n, i);
      AlignedStart(w);
      VisitPlace(trace, At(0, 0), to, n, i);
      BucketStartZero(w.bits);
      if i > 0 {
        var v := trace[i - 1];
        VisitCovers(v, _ => 0, []);
        if w.intra != 0 {
          BucketStartStays(w.intra, v.bits, w.bits);
        }
      }
    }
  }

  lemma BucketStartZero(bits: nat)
    ensures BucketStart(0, bits) == Rank(0) == 0
  {
  }

  /** (Exactly once) With masks that never shrink inside a shard a key live
      throughout is returned exactly once. */
  lemma ExactlyOnce(trace: seq<Visit>, n: nat, hash: Bytes -> bv64, home: Bytes -> nat, k: Bytes)
    requires Chain(trace, At(0, 0), Done, n) && NeverShrinks(trace) && HomesKept(trace, home) && home(k) < n
    requires forall a :: 0 <= a < |trace| && trace[a].shard == home(k) ==> Live(trace[a], k)
    ensures Returned(trace, hash, n)[k] == 1
  {
    hide Chain, Returned, NeverShrinks, HomesKept, Live, AlignedIn, PassedOnce;
    NeverShrinksAligned(trace, Done, n, home(k));
    AlignedPassedOnce(trace, Done, n, hash, home(k), k);
    ExactlyOnceIff(trace, n, hash, home, k);
  }

  /** A visit that does go back: COUNT 1 followed by COUNT 10 over the same two
      keys returns one of them twice. */
  lemma ShrinkingDuplicates(a: Bytes, b: Bytes, e: Entry, hash: Bytes -> bv64) returns (trace: seq<Visit>)
    requires a != b && hash(a) == 0 && e.expireAt == None
    ensures Chain(trace, At(0, 0), Done, 1) && !NeverShrinks(trace) && !PassedOnce(trace, hash, 0, a)
    ensures forall i :: 0 <= i < |trace| ==> trace[i].db == Some(map[a := e, b := e]) && BitsFit(trace[i].bits, 2, trace[i].opts.count)
    ensures Returned(trace, hash, 1)[a] == 2
  {
    hide ScanAdvance, Chain, Bucketed, Shifted, Rank, BucketStart;
    var db: Dict := map[a := e, b := e];
    var v := Visit(0, 0, 1, Some(db), 0, Options(1, None, None));
    var w := Visit(0, 1, 0, Some(db), 0, Options(10, None, None));
    trace := [v, w];
    ShrinkNumbers();
    EmptyChain();
    ChainAppend([], At(0, 0), At(0, 0), v, 1);
    assert [] + [v] == [v] && [v] + [w] == trace;
    ChainAppend([v], At(0, 0), After(v, 1), w, 1);
    ReturnedAppend([], v, 1, hash);
    ReturnedAppend([v], w, 1, hash);
    BucketZero(v, hash, a);
    BucketAll(w, hash, a);
    assert a in Reported(v, hash) && a in Reported(w, hash);
    assert trace[0].shard == trace[1].shard && trace[0].bits > trace[1].bits;
    assert GoesBackOver(trace[1], hash, a);
  }

  lemma EmptyChain()
    ensures Chain([], At(0, 0), At(0, 0), 1)
  {
  }

  lemma ShrinkNumbers()
    ensures ScanAdvance(0, Mask(1)) == 1 && ScanAdvance(1, Mask(0)) == 0
    ensures BitsFit(1, 2, 1) && BitsFit(0, 2, 10)
    ensures BucketStart(1, 0) == Rank(0) == 0 < Rank(1)
  {
    assert Shifted(2, 1) == 1;
  }

  lemma BucketZero(v: Visit, hash: Bytes -> bv64, k: Bytes)
    requires v.bits <= MAX_SCAN_BITS && hash(k) == 0 && v.intra == 0
    ensures Bucketed(v, hash, k)
  {
  }

  lemma BucketAll(v: Visit, hash: Bytes -> bv64, k: Bytes)
    requires v.bits == 0
    ensures Bucketed(v, hash, k)
  {
    Masks();
  }

  // ------------------------------------------------------------- the code

  /** Place and packed cursor: `cursor = intra * shards + shard`. */
  function Pack(p: Place, n: nat): nat {
    if p.Done? then 0 else (p.intra as nat) * n + p.shard
  }

  /** The body of the loop over the dict: is this key to be returned? */
  method Wanted(db: Dict, v: Visit, hash: Bytes -> bv64, k: Bytes) returns (r: bool)
    requires v.bits <= MAX_SCAN_BITS && v.db == Some(db) && k in db
    ensures r <==> k in Reported(v, hash)
  {
    hide SameBucket, Glob.GlobMatches, EqIgnoreCase;
    var e := db[k];
    if !SameBucket(hash(k), v.intra, v.bits) {
      return false;
    }
    if IsExpired(e, v.now) {
      return false;
    }
    if v.opts.typeFilter.Some? && !EqIgnoreCase(v.opts.typeFilter.value, e.typeName) {
      return false;
    }
    if v.opts.pattern.Some? && v.opts.pattern.value != [Glob.STAR] {
      var hit := Glob.GlobMatch(v.opts.pattern.value, k);
      if !hit {
        return false;
      }
    }
    return true;
  }

  lemma ReportedStored(v: Visit, hash: Bytes -> bv64)
    requires v.bits <= MAX_SCAN_BITS && v.db.Some?
    ensures Reported(v, hash) <= v.db.value.Keys
  {
  }

  /** Of the keys in `all`, exactly those in `done` have been appended to `out`. */
  ghost predicate Collected(out': seq<Bytes>, out: seq<Bytes>, all: set<Bytes>, done: set<Bytes>) {
    multiset(out') == multiset(out) + multiset(all * done)
  }

  lemma CollectOne(out': seq<Bytes>, out: seq<Bytes>, all: set<Bytes>, done: set<Bytes>, k: Bytes)
    requires Collected(out', out, all, done) && k !in done
    ensures Collected(if k in all then out' + [k] else out', out, all, done + {k})
  {
    assert all * (done + {k}) == if k in all then all * done + {k} else all * done;
  }

  lemma CollectedAll(out': seq<Bytes>, out: seq<Bytes>, all: set<Bytes>, done: set<Bytes>)
    requires Collected(out', out, all, done) && all <= done
    ensures multiset(out') == multiset(out) + multiset(all)
  {
    assert all * done == all;
  }

  /** Visit one bucket of one database slice; the dict yields its keys in any order. */
  method ScanDb(db: Dict, v: Visit, hash: Bytes -> bv64, out: seq<Bytes>)
    returns (examined: nat, next: bv64, out': seq<Bytes>)
    requires v.bits <= MAX_SCAN_BITS && v.db == Some(db)
    ensures examined == |db| && next == NextIntra(v)
    ensures multiset(out') == multiset(out) + multiset(Reported(v, hash))
  {
    hide Reported, Mask, ScanAdvance, Collected;
    examined, out' := 0, out;
    var todo := db.Keys;
    ghost var done: set<Bytes> := {};
    NothingCollected(out, Reported(v, hash));
    while todo != {}
      invariant todo + done == db.Keys && todo !! done && examined == |done|
      invariant Collected(out', out, Reported(v, hash), done)
    {
      var k :| k in todo;
      todo := todo - {k};
      examined := examined + 1;
      CollectOne(out', out, Reported(v, hash), done, k);
      done := done + {k};
      var r := Wanted(db, v, hash, k);
      if r {
        out' := out' + [k];
      }
    }
    ReportedStored(v, hash);
    CollectedAll(out', out, Reported(v, hash), done);
    next := ScanAdvance(v.intra, Mask(v.bits));
  }

  lemma NothingCollected(out: seq<Bytes>, all: set<Bytes>)
    ensures Collected(out, out, all, {})
  {
    assert all * {} == {};
  }

  /** The place a client's cursor denotes. */
  function Unpack(cursor: nat, n: nat): Place
    requires 0 < n && cursor < MAX_CURSOR
  {
    DivBound(cursor, n);
    At(cursor % n, (cursor / n) as bv64)
  }

  const MAX_CURSOR: nat := 0x1_0000_0000_0000_0000

  /** Past this the shard index would push the intra-shard bits out of 64. */
  const MAX_SHARDS: nat := 0x1000_0000_0000_0000

  lemma DivBound(cursor: nat, n: nat)
    requires 0 < n
    ensures cursor / n <= cursor
  {
    if cursor / n > cursor {
      assert n * (cursor / n) <= cursor;
      MulMono(cursor / n, n);
    }
  }

  lemma MulMono(a: nat, n: nat)
    requires 0 < n
    ensures a <= n * a
  {
  }

  lemma UnpackPack(p: Place, n: nat)
    requires 0 < n <= MAX_SHARDS && p.At? && p.intra < 16 && p.shard < n
    ensures Pack(p, n) < MAX_CURSOR && Unpack(Pack(p, n), n) == p
    ensures p.shard > 0 || p.intra > 0 ==> Pack(p, n) != 0
  {
    Small(p.intra);
    DivMod(p.intra as nat, p.shard, n);
  }

  lemma Small(b: bv64)
    requires b < 16
    ensures (b as nat) < 16 && (b as nat) as bv64 == b
    ensures b > 0 ==> (b as nat) > 0
  {
  }

  lemma DivMod(a: nat, b: nat, n: nat)
    requires b < n
    ensures (a * n + b) / n == a && (a * n + b) % n == b
    ensures a < 16 ==> a * n + b < 16 * n
    ensures a > 0 ==> a * n + b > 0
  {
    Arithmetic.Division(a, b, n);
    if a > 0 {
      Arithmetic.AtLeast(a, n);
    }
    if a < 16 {
      Arithmetic.AtLeast(16 - a, n);
      Arithmetic.Distribute(16, a, n);
    }
  }

  /** Visit `i` of a call saw the shard as it was at that moment. */
  ghost predicate Observed(v: Visit, snapshot: seq<Option<Dict>>, opts: Options, now: nat) {
    && v.shard < |snapshot| && v.db == snapshot[v.shard] && v.opts == opts && v.now == now
    && (v.db.Some? ==> BitsFit(v.bits, |v.db.value|, opts.count))
  }

  /** One shard's turn under its lock. */
  method VisitShard(snapshot: seq<Option<Dict>>, shard: nat, intra: bv64, opts: Options, now: nat, hash: Bytes -> bv64, keys: seq<Bytes>)
    returns (examined: nat, next: bv64, keys': seq<Bytes>, v: Visit)
    requires shard < |snapshot|
    ensures v.bits <= MAX_SCAN_BITS && v.shard == shard && v.intra == intra && Observed(v, snapshot, opts, now)
    ensures next == NextIntra(v) && examined == if v.db == None then 0 else |v.db.value|
    ensures multiset(keys') == multiset(keys) + multiset(Reported(v, hash))
  {
    hide ScanAdvance, Mask, Shifted, Bucketed, Live;
    var slice := snapshot[shard];
    if slice == None {
      v := Visit(shard, intra, 0, slice, now, opts);
      return 0, 0, keys, v;
    }
    var bits := ScanBits(|slice.value|, opts.count);
    var visit := Visit(shard, intra, bits, slice, now, opts);
    v := visit;
    examined, next, keys' := ScanDb(slice.value, visit, hash, keys);
  }

  /** The keys the visits of a call have looked at. */
  function Examined(trace: seq<Visit>): nat {
    if |trace| == 0 then 0
    else
      var v := trace[|trace| - 1];
      Examined(trace[..|trace| - 1]) + if v.db == None then 0 else |v.db.value|
  }

  lemma ExaminedOne(trace: seq<Visit>, v: Visit)
    ensures Examined(trace + [v]) == Examined(trace) + if v.db == None then 0 else |v.db.value|
  {
    assert (trace + [v])[..|trace|] == trace;
  }

  /** COUNT keys have been looked at, or as many returned. */
  ghost predicate Spent(trace: seq<Visit>, hash: Bytes -> bv64, n: nat, count: nat)
    requires Sane(trace, n)
  {
    Examined(trace) >= count || |Returned(trace, hash, n)| >= count
  }

  /** The budget was not spent before the last visit, and is spent after it unless
      the iteration is over. */
  ghost predicate StopsInTime(trace: seq<Visit>, to: Place, hash: Bytes -> bv64, n: nat, count: nat) {
    && Sane(trace, n)
    && (to.Done? || Spent(trace, hash, n, count))
    && (|trace| > 1 ==> Sane(trace[..|trace| - 1], n) && !Spent(trace[..|trace| - 1], hash, n, count))
  }

  /** The visits saw the keyspace from moment `clock` on. */
  ghost predicate AllObserved(trace: seq<Visit>, env: nat -> seq<Option<Dict>>, clock: nat, opts: Options, now: nat) {
    forall i :: 0 <= i < |trace| ==> Observed(trace[i], env(clock + i), opts, now)
  }

  /** A call: the keyspace it meets, and its arguments. */
  datatype Call = Call(env: nat -> seq<Option<Dict>>, clock: nat, n: nat, opts: Options, now: nat, hash: Bytes -> bv64)

  /** What it has done so far. */
  ghost predicate Called(c: Call, trace: seq<Visit>, from: Place, to: Place, keys: multiset<Bytes>, examined: nat) {
    && Chain(trace, from, to, c.n)
    && keys == Returned(trace, c.hash, c.n) && examined == Examined(trace)
    && (|trace| > 0 ==> Progress(from, c.n) < Progress(to, c.n))
    && AllObserved(trace, c.env, c.clock, c.opts, c.now)
  }

  lemma CalledOne(c: Call, trace: seq<Visit>, from: Place, to: Place, keys: multiset<Bytes>, examined: nat, v: Visit)
    requires Called(c, trace, from, to, keys, examined)
    requires to == At(v.shard, v.intra) && v.shard < c.n && v.bits <= MAX_SCAN_BITS && (|trace| == 0 ==> from == to)
    requires Observed(v, c.env(c.clock + |trace|), c.opts, c.now)
    ensures var e := if v.db == None then 0 else |v.db.value|;
      Called(c, trace + [v], from, After(v, c.n), keys + multiset(Reported(v, c.hash)), examined + e)
  {
    hide Chain, Returned, Progress, Reported, Rank, After, NextIntra, Examined, Observed;
    SaneChain(trace, from, to, c.n);
    ChainAppend(trace, from, to, v, c.n);
    ReturnedAppend(trace, v, c.n, c.hash);
    ExaminedOne(trace, v);
    StepProgress(v, c.n);
  }

  lemma CalledNothing(c: Call, from: Place)
    ensures Called(c, [], from, from, multiset{}, 0)
  {
  }

  lemma CalledMeans(c: Call, trace: seq<Visit>, from: Place, to: Place, keys: multiset<Bytes>, examined: nat)
    requires Called(c, trace, from, to, keys, examined)
    ensures Sane(trace, c.n) && Chain(trace, from, to, c.n) && keys == Returned(trace, c.hash, c.n)
    ensures |trace| > 0 ==> Progress(from, c.n) < Progress(to, c.n)
    ensures AllObserved(trace, c.env, c.clock, c.opts, c.now)
  {
  }

  lemma CallStops(c: Call, trace: seq<Visit>, from: Place, at: Place, was: multiset<Bytes>, before: nat,
                  v: Visit, to: Place, keys: multiset<Bytes>, examined: nat)
    requires Called(c, trace, from, at, was, before) && Called(c, trace + [v], from, to, keys, examined)
    requires |trace| > 0 ==> before < c.opts.count && |was| < c.opts.count
    requires to.Done? || examined >= c.opts.count || |keys| >= c.opts.count
    ensures StopsInTime(trace + [v], to, c.hash, c.n, c.opts.count)
  {
    hide Returned, Examined, Observed, Progress;
    assert (trace + [v])[..|trace + [v]| - 1] == trace;
  }

  /** The cursor of the place after a visit; done after the last shard. */
  method NextCursor(shard: nat, nextIntra: bv64, n: nat, ghost to: Place) returns (next: nat, done: bool)
    requires 0 < n <= MAX_SHARDS && shard < n && nextIntra < 16
    requires to == if nextIntra != 0 then At(shard, nextIntra) else if shard + 1 < n then At(shard + 1, 0) else Done
    ensures next == Pack(to, n) < MAX_CURSOR && (done <==> to.Done?)
    ensures if done then next == 0 else next != 0 && Unpack(next, n) == to
  {
    hide Pack, Unpack;
    if nextIntra == 0 {
      if shard + 1 >= n {
        PackDone(n);
        return 0, true;
      }
      next := shard + 1;
    } else {
      next := (nextIntra as nat) * n + shard;
    }
    PackIs(to, n, nextIntra, shard, next);
    done := false;
  }

  /** One SCAN call: bucket after bucket, one shard lock at a time, until the
      budget is spent, and no further, or the last shard is done. */
  method CmdScan(env: nat -> seq<Option<Dict>>, clock: nat, n: nat, cursor: nat, opts: Options, now: nat, hash: Bytes -> bv64)
    returns (next: nat, keys: seq<Bytes>, visits: nat, trace: seq<Visit>, to: Place)
    requires 0 < n <= MAX_SHARDS && cursor < MAX_CURSOR && forall t :: |env(t)| == n
    ensures visits == |trace| > 0 && Chain(trace, Unpack(cursor, n), to, n) && next == Pack(to, n) < MAX_CURSOR
    ensures Progress(Unpack(cursor, n), n) < Progress(to, n) <= 16 * n
    ensures if to.Done? then next == 0 else next != 0 && Unpack(next, n) == to
    ensures multiset(keys) == Returned(trace, hash, n)
    ensures StopsInTime(trace, to, hash, n, opts.count)
    ensures AllObserved(trace, env, clock, opts, now)
  {
    hide Chain, Returned, Observed, Pack, Unpack, Progress, Reported, Rank, After, NextIntra, Examined, Called, Sane, StopsInTime, AllObserved;
    keys, trace, next, visits := [], [], cursor, 0;
    to := Unpack(cursor, n);
    ghost var call, from := Call(env, clock, n, opts, now, hash), to;
    CalledNothing(call, to);
    UnpackShard(cursor, n);
    var examined: nat := 0;
    while true
      invariant visits == |trace| && (|trace| == 0 ==> next == cursor)
      invariant next < MAX_CURSOR && to == Unpack(next, n) && to.At? && to.shard < n
      invariant Called(call, trace, from, to, multiset(keys), examined)
      invariant |trace| > 0 ==> examined < opts.count && |keys| < opts.count
      decreases 16 * n - Progress(to, n)
    {
      var shard, intra := Decode(next, n);
      var e, nextIntra, v;
      ghost var before, at, was, had := trace, to, multiset(keys), examined;
      e, nextIntra, keys, v := VisitShard(env(clock + visits), shard, intra, opts, now, hash, keys);
      CalledOne(call, trace, from, to, was, examined, v);
      examined := examined + e;
      StepProgress(v, n);
      visits := visits + 1;
      trace := trace + [v];
      to := After(v, n);
      CalledMeans(call, trace, from, to, multiset(keys), examined);
      AfterIs(v, n);
      var done;
      next, done := NextCursor(shard, nextIntra, n, to);
      if done || examined >= opts.count || |keys| >= opts.count {
        CallStops(call, before, from, at, was, had, v, to, multiset(keys), examined);
        return;
      }
    }
  }

  lemma NothingVisited(from: Place, n: nat, hash: Bytes -> bv64)
    ensures Chain([], from, from, n) && Returned([], hash, n) == multiset{} && Examined([]) == 0
  {
  }

  lemma UnpackShard(cursor: nat, n: nat)
    requires 0 < n && cursor < MAX_CURSOR
    ensures Unpack(cursor, n).At? && Unpack(cursor, n).shard < n
  {
  }

  method Decode(cursor: nat, n: nat) returns (shard: nat, intra: bv64)
    requires 0 < n && cursor < MAX_CURSOR
    ensures shard < n && Unpack(cursor, n) == At(shard, intra)
  {
    DivBound(cursor, n);
    shard, intra := cursor % n, (cursor / n) as bv64;
  }

  lemma AfterIs(v: Visit, n: nat)
    requires v.bits <= MAX_SCAN_BITS && v.shard < n
    ensures After(v, n) == if NextIntra(v) != 0 then At(v.shard, NextIntra(v)) else if v.shard + 1 < n then At(v.shard + 1, 0) else Done
  {
  }

  lemma PackDone(n: nat)
    ensures Pack(Done, n) == 0
  {
  }

  lemma PackIs(p: Place, n: nat, nextIntra: bv64, shard: nat, next: nat)
    requires 0 < n <= MAX_SHARDS && shard < n && nextIntra < 16
    requires if nextIntra != 0 then p == At(shard, nextIntra) && next == (nextIntra as nat) * n + shard
             else shard + 1 < n && p == At(shard + 1, 0) && next == shard + 1
    ensures next == Pack(p, n) < MAX_CURSOR && next != 0 && Unpack(next, n) == p
  {
    UnpackPack(p, n);
  }

  /** The key is live in shard `j` at every moment up to `hi`, whichever of the
      client's calls looks at it. */
  ghost predicate Stable(env: nat -> seq<Option<Dict>>, hi: nat, calls: nat -> (Options, nat), j: nat, k: Bytes) {
    forall t, c :: 0 <= t < hi && 0 <= c ==>
      var s, (opts, now) := env(t), calls(c);
      j < |s| && s[j].Some? && k in s[j].value && Passes(k, s[j].value[k], now, opts)
  }

  /** What a full iteration promises: at most 16 visits a shard, every key that
      stays, none twice if masks never shrink, and a key that stays exactly once
      just when no visit goes back over its rank. */
  ghost predicate Complete(trace: seq<Visit>, keys: seq<Bytes>, env: nat -> seq<Option<Dict>>, n: nat,
                           calls: nat -> (Options, nat), hash: Bytes -> bv64) {
    && |trace| <= 16 * n && (forall j :: 0 <= j < n ==> VisitsTo(trace, j) <= 16)
    && (forall j, k :: 0 <= j < n && Stable(env, |trace|, calls, j, k) ==> k in keys)
    && (forall home: Bytes -> nat, k :: NeverShrinks(trace) && HomesKept(trace, home) ==> multiset(keys)[k] <= 1)
    && (forall home: Bytes -> nat, k :: HomesKept(trace, home) && home(k) < n && Stable(env, |trace|, calls, home(k), k) ==>
         (multiset(keys)[k] == 1 <==> PassedOnce(trace, hash, home(k), k)))
  }

  /** A full iteration by a client that passes back each cursor it gets, with
      options of its choice. */
  method Iterate(env: nat -> seq<Option<Dict>>, n: nat, calls: nat -> (Options, nat), hash: Bytes -> bv64)
    returns (keys: seq<Bytes>, trace: seq<Visit>)
    requires 0 < n <= MAX_SHARDS && forall t :: |env(t)| == n
    ensures Complete(trace, keys, env, n, calls, hash)
  {
    hide Chain, Returned, Observed, Pack, Unpack, Progress, Rank, Stable, NeverShrinks, HomesKept, PassedOnce, VisitsTo, Complete, Witnessed, After, Live, Reported, Examined;
    keys, trace := [], [];
    var cursor: nat, calledSoFar: nat, clock: nat := 0, 0, 0;
    var at := At(0, 0);
    NothingVisited(at, n, hash);
    StartPlace(n);
    while true
      invariant clock == |trace| && cursor < MAX_CURSOR && Unpack(cursor, n) == at
      invariant Chain(trace, At(0, 0), at, n) && Sane(trace, n)
      invariant multiset(keys) == Returned(trace, hash, n)
      invariant forall i :: 0 <= i < |trace| ==> Witnessed(trace[i], env(i), calls)
      decreases 16 * n - Progress(at, n)
    {
      var (opts, now) := calls(calledSoFar);
      var ks, visits, more, to;
      cursor, ks, visits, more, to := CmdScan(env, clock, n, cursor, opts, now, hash);
      WitnessedCall(trace, more, env, calls, calledSoFar);
      SaneChain(more, at, to, n);
      ChainConcat(trace, more, At(0, 0), at, to, n);
      ReturnedConcat(trace, more, n, hash);
      trace, keys, at := trace + more, keys + ks, to;
      calledSoFar, clock := calledSoFar + 1, clock + visits;
      if cursor == 0 {
        break;
      }
    }
    IterationComplete(trace, keys, env, n, calls, hash);
  }

  lemma StartPlace(n: nat)
    requires 0 < n
    ensures Unpack(0, n) == At(0, 0)
  {
    assert 0 % n == 0 && 0 / n == 0;
  }

  /** Some call of the client saw this. */
  ghost predicate Witnessed(v: Visit, snapshot: seq<Option<Dict>>, calls: nat -> (Options, nat)) {
    exists c: nat :: Observed(v, snapshot, calls(c).0, calls(c).1)
  }

  lemma WitnessedCall(trace: seq<Visit>, more: seq<Visit>, env: nat -> seq<Option<Dict>>, calls: nat -> (Options, nat), c: nat)
    requires forall i :: 0 <= i < |trace| ==> Witnessed(trace[i], env(i), calls)
    requires forall i :: 0 <= i < |more| ==> Observed(more[i], env(|trace| + i), calls(c).0, calls(c).1)
    ensures forall i :: 0 <= i < |trace + more| ==> Witnessed((trace + more)[i], env(i), calls)
  {
    hide Observed;
    forall i | 0 <= i < |trace + more|
      ensures Witnessed((trace + more)[i], env(i), calls)
    {
      if i >= |trace| {
        assert Observed(more[i - |trace|], env(|trace| + (i - |trace|)), calls(c).0, calls(c).1);
      }
    }
  }

  /** What a finished iteration has achieved. */
  lemma IterationComplete(trace: seq<Visit>, keys: seq<Bytes>, env: nat -> seq<Option<Dict>>, n: nat,
                          calls: nat -> (Options, nat), hash: Bytes -> bv64)
    requires 0 < n && Chain(trace, At(0, 0), Done, n) && Sane(trace, n)
    requires multiset(keys) == Returned(trace, hash, n)
    requires forall i :: 0 <= i < |trace| ==> Witnessed(trace[i], env(i), calls)
    ensures Complete(trace, keys, env, n, calls, hash)
  {
    hide Chain, Returned, Rank, NeverShrinks, HomesKept, PassedOnce, AlignedIn, Stable, Witnessed, Live, VisitsTo, ShardProgress;
    forall j | 0 <= j < n
      ensures VisitsTo(trace, j) <= 16 && |trace| <= 16 * n
    {
      VisitBound(trace, Done, n, j);
    }
    assert VisitsTo(trace, 0) <= 16;
    forall j, k | 0 <= j < n && Stable(env, |trace|, calls, j, k)
      ensures k in keys
    {
      StableThroughout(trace, env, calls, j, k);
      FullCoverage(trace, n, hash, k, j);
      assert k in multiset(keys);
    }
    forall home: Bytes -> nat, k | NeverShrinks(trace) && HomesKept(trace, home)
      ensures multiset(keys)[k] <= 1
    {
      NeverShrinksAligned(trace, Done, n, home(k));
      AlignedPassedOnce(trace, Done, n, hash, home(k), k);
      AtMostOnce(trace, |trace|, Done, n, hash, home, k);
      assert trace[..|trace|] == trace;
    }
    forall home: Bytes -> nat, k | HomesKept(trace, home) && home(k) < n && Stable(env, |trace|, calls, home(k), k)
      ensures multiset(keys)[k] == 1 <==> PassedOnce(trace, hash, home(k), k)
    {
      StableThroughout(trace, env, calls, home(k), k);
      ExactlyOnceIff(trace, n, hash, home, k);
    }
  }

  lemma StableThroughout(trace: seq<Visit>, env: nat -> seq<Option<Dict>>, calls: nat -> (Options, nat), j: nat, k: Bytes)
    requires forall i :: 0 <= i < |trace| ==> Witnessed(trace[i], env(i), calls)
    requires Stable(env, |trace|, calls, j, k)
    ensures forall a :: 0 <= a < |trace| && trace[a].shard == j ==> Live(trace[a], k)
  {
    hide Witnessed, Stable, Live;
    forall a | 0 <= a < |trace| && trace[a].shard == j
      ensures Live(trace[a], k)
    {
      StableLive(trace[a], env, |trace|, calls, j, k, a);
    }
  }

  lemma StableLive(v: Visit, env: nat -> seq<Option<Dict>>, hi: nat, calls: nat -> (Options, nat), j: nat, k: Bytes, t: nat)
    requires t < hi && Witnessed(v, env(t), calls) && Stable(env, hi, calls, j, k) && v.shard == j
    ensures Live(v, k)
  {
    var c: nat :| Observed(v, env(t), calls(c).0, calls(c).1);
  }
}
