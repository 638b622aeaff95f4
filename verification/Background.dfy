/** Active expiry and eviction: single-lock rounds that remove keys on their own. */
module Background {
  import opened ByteStrings
  import opened Entries
  import opened Commands
  import opened Keyspace
  import opened Dispatch
  import Decimal

  const KEYS_PER_LOOP: nat := 20
  const CYCLE_CONTINUE_PCT: nat := 25
  const EVICTION_POOL_SIZE: nat := 16

  // ------------------------------------------------------------------ samples

  ghost predicate Distinct(keys: seq<Bytes>) {
    forall i, j :: 0 <= i < j < |keys| ==> keys[i] != keys[j]
  }

  /** A window of a hash table from a random offset: any `want` distinct keys. */
  method Sample(keys: set<Bytes>, want: nat) returns (window: seq<Bytes>)
    ensures Distinct(window) && |window| == if want < |keys| then want else |keys|
    ensures forall k :: k in window ==> k in keys
  {
    window := [];
    var rest := keys;
    while |window| < want && rest != {}
      invariant Distinct(window) && |window| <= want && |window| + |rest| == |keys| && rest <= keys
      invariant forall k :: k in window ==> k in keys && k !in rest
    {
      var k :| k in rest;
      rest := rest - {k};
      window := window + [k];
    }
  }

  // ------------------------------------------------------------ active expiry

  /** Distinct keys with a deadline, as many as wanted or there are. */
  ghost predicate Sampled(window: seq<Bytes>, d: Dict, want: nat) {
    && Distinct(window) && (forall k :: k in window ==> k in d && d[k].expireAt.Some?)
    && |window| == if want < |Deadlines(d)| then want else |Deadlines(d)|
  }

  /** The keys of a sample whose deadline is not after `now`. */
  ghost function Overdue(window: seq<Bytes>, d: Dict, now: nat): set<Bytes> {
    set k | k in window && k in d && d[k].expireAt.Some? && d[k].expireAt.value <= now
  }

  ghost predicate NoneOverdue(d: Dict, now: nat) {
    forall k :: k in d && d[k].expireAt.Some? ==> d[k].expireAt.value > now
  }

  /** One sampling round over one database: exactly the sampled keys whose deadline
      has passed are removed. */
  method SampleRound(db: Db, now: nat, want: nat) returns (sampled: nat, victims: seq<Bytes>, ghost window: seq<Bytes>)
    requires db.Valid()
    modifies db
    ensures db.Valid() && db.dict == old(db.dict) - KeySet(victims)
    ensures Sampled(window, old(db.dict), want) && sampled == |window|
    ensures Distinct(victims) && KeySet(victims) == Overdue(window, old(db.dict), now)
    ensures Told(old(db.dict), old(db.watch), db.dict, db.watch)
  {
    var keys := Sample(db.expires.Keys, want);
    window := keys;
    victims, sampled := [], 0;
    for i := 0 to |keys|
      invariant sampled == i && Distinct(victims)
      invariant forall k :: k in victims <==> k in keys[..i] && db.expires[k] <= now
    {
      sampled := sampled + 1;
      assert keys[i] in keys && keys[..i + 1] == keys[..i] + [keys[i]];
      if db.expires[keys[i]] <= now {
        victims := victims + [keys[i]];
      }
    }
    assert keys[..|keys|] == keys;
    ghost var d := db.dict;
    assert KeySet(victims[..0]) == {};
    ToldNothing(d, db.watch);
    for i := 0 to |victims|
      invariant db.Valid() && db.dict == d - KeySet(victims[..i])
      invariant Told(d, old(db.watch), db.dict, db.watch)
    {
      MoreKeys(victims, i);
      ghost var before, w := db.dict, db.watch;
      var _ := db.RemoveEntry(victims[i]);
      db.SignalWatch(victims[i]);
      ToldOne(before, w, db.dict, db.watch, victims[i]);
      ToldBoth(d, old(db.watch), before, w, db.dict, db.watch);
    }
    assert victims[..|victims|] == victims;
  }

  /** Log one deletion per key. */
  method LogDeletions(shard: Shard, db: nat, keys: seq<Bytes>, unlink: bool)
    requires shard.Valid() && forall i :: 0 <= i < |shard.history| ==> ClockFree(shard.history[i].cmd)
    modifies shard`replBuf, shard`sequence, shard`history
    ensures shard.Valid()
    ensures ReplayDb(shard.history, db) == old(ReplayDb(shard.history, db)) - KeySet(keys)
    ensures forall j :: j != db ==> ReplayDb(shard.history, j) == old(ReplayDb(shard.history, j))
    ensures forall i :: 0 <= i < |shard.history| ==> ClockFree(shard.history[i].cmd)
  {
    hide ReplayDb;
    ghost var logged := ReplayDb(shard.history, db);
    assert KeySet(keys[..0]) == {} && logged - {} == logged;
    for i := 0 to |keys|
      invariant shard.Valid()
      invariant ReplayDb(shard.history, db) == logged - KeySet(keys[..i])
      invariant forall j :: j != db ==> ReplayDb(shard.history, j) == old(ReplayDb(shard.history, j))
      invariant forall i :: 0 <= i < |shard.history| ==> ClockFree(shard.history[i].cmd)
    {
      ghost var p := Propagation(db, Del([keys[i]], unlink));
      MoreKeys(keys, i);
      assert KeySet([keys[i]]) == {keys[i]};
      RemoveMore(logged, KeySet(keys[..i]), keys[i]);
      forall j
        ensures ReplayDb(shard.history + [p], j) == if j == db then Plain(p.cmd, ReplayDb(shard.history, j)) else ReplayDb(shard.history, j)
      {
        ReplayAppend(shard.history, p, j);
      }
      shard.Propagate(db, Del([keys[i]], unlink));
    }
    assert keys[..|keys|] == keys;
  }

  /** Removing only what has expired hides nothing from clients, now or later. */
  lemma ExpiredInvisible(d: Dict, keys: set<Bytes>, now: nat, later: nat)
    requires now <= later && forall k :: k in keys ==> k in d && IsExpired(d[k], now)
    ensures Live(d - keys, later) == Live(d, later)
  {
  }

  /** One round under the shard's lock: remove, then log. */
  method ExpireRound(shard: Shard, db: nat, now: nat, unlink: bool)
    returns (sampled: nat, expired: nat, ghost window: seq<Bytes>)
    requires shard.Accounted() && db < |shard.dbs|
    modifies shard`dirty, shard`replBuf, shard`sequence, shard`history, shard.dbs[db]
    ensures shard.Accounted()
    ensures forall later :: now <= later ==> Live(shard.dbs[db].dict, later) == Live(old(shard.dbs[db].dict), later)
    ensures Sampled(window, old(shard.dbs[db].dict), KEYS_PER_LOOP) && sampled == |window|
    ensures shard.dbs[db].dict == old(shard.dbs[db].dict) - Overdue(window, old(shard.dbs[db].dict), now)
    ensures expired == |Overdue(window, old(shard.dbs[db].dict), now)|
    ensures |Deadlines(old(shard.dbs[db].dict))| <= KEYS_PER_LOOP ==> NoneOverdue(shard.dbs[db].dict, now)
    ensures expired <= sampled <= KEYS_PER_LOOP && |shard.dbs[db].dict| + expired == |old(shard.dbs[db].dict)|
    ensures shard.dirty == old(shard.dirty) + expired
    ensures forall j :: 0 <= j < |shard.dbs| && j != db ==> shard.dbs[j].dict == old(shard.dbs[j].dict)
    ensures Told(old(shard.dbs[db].dict), old(shard.dbs[db].watch), shard.dbs[db].dict, shard.dbs[db].watch)
  {
    hide ReplayDb, Live, Sampled, Overdue, Deadlines, Told;
    var slice := shard.dbs[db];
    ghost var d := slice.dict;
    var victims;
    sampled, victims, window := SampleRound(slice, now, KEYS_PER_LOOP);
    shard.dirty := shard.dirty + |victims|;
    LogDeletions(shard, db, victims, unlink);
    expired := |victims|;
    RoundMeans(window, victims, d, KEYS_PER_LOOP, now);
    forall later | now <= later
      ensures Live(d - KeySet(victims), later) == Live(d, later)
    {
      ExpiredInvisible(d, KeySet(victims), now, later);
    }
  }

  lemma RoundMeans(window: seq<Bytes>, victims: seq<Bytes>, d: Dict, want: nat, now: nat)
    requires Sampled(window, d, want) && Distinct(victims) && KeySet(victims) == Overdue(window, d, now)
    ensures forall k :: k in KeySet(victims) ==> k in d && IsExpired(d[k], now)
    ensures |d - KeySet(victims)| + |victims| == |d| && |Overdue(window, d, now)| == |victims| <= |window| <= want
    ensures |Deadlines(d)| <= want ==> NoneOverdue(d - Overdue(window, d, now), now)
  {
    hide Deadlines;
    assert forall k :: k in victims ==> k in KeySet(victims);
    RemovedCount(d, victims);
    DistinctCount(victims);
    DistinctCount(window);
    SmallerSet(KeySet(victims), KeySet(window));
    if |Deadlines(d)| <= want {
      AllSampled(window, d, want, now);
    }
  }

  lemma {:induction false} SmallerSet(a: set<Bytes>, b: set<Bytes>)
    requires a <= b
    ensures |a| <= |b|
  {
    if a != {} {
      var x :| x in a;
      SmallerSet(a - {x}, b - {x});
    }
  }

  /** A sample as large as the index holds every key with a deadline. */
  lemma AllSampled(window: seq<Bytes>, d: Dict, want: nat, now: nat)
    requires Sampled(window, d, want) && |Deadlines(d)| <= want
    ensures NoneOverdue(d - Overdue(window, d, now), now)
  {
    DistinctCount(window);
    assert KeySet(window) <= Deadlines(d).Keys;
    SameSize(KeySet(window), Deadlines(d).Keys);
    forall k | k in d && d[k].expireAt.Some?
      ensures k in window
    {
      assert k in Deadlines(d).Keys;
    }
  }

  lemma SameSize(a: set<Bytes>, b: set<Bytes>)
    requires a <= b && |a| == |b|
    ensures a == b
  {
    assert |b - a| == 0;
  }

  lemma RemovedCount(d: Dict, keys: seq<Bytes>)
    requires Distinct(keys) && forall k :: k in keys ==> k in d
    ensures |d - KeySet(keys)| + |keys| == |d|
  {
    DistinctCount(keys);
    assert (d - KeySet(keys)).Keys == d.Keys - KeySet(keys);
    assert KeySet(keys) <= d.Keys;
  }

  lemma {:induction false} DistinctCount(keys: seq<Bytes>)
    requires Distinct(keys)
    ensures |KeySet(keys)| == |keys|
  {
    if |keys| > 0 {
      var init := keys[..|keys| - 1];
      DistinctCount(init);
      assert KeySet(keys) == KeySet(init) + {keys[|keys| - 1]};
    } else {
      assert KeySet(keys) == {};
    }
  }

  /** `later` is no earlier than any of the clock readings taken so far. */
  ghost predicate NoEarlier(later: nat, clock: nat -> nat, rounds: nat) {
    forall t :: 0 <= t < rounds ==> clock(t) <= later
  }

  /** The keys stored in all databases together. */
  ghost function StoredKeys(dicts: seq<Dict>): nat {
    if |dicts| == 0 then 0 else StoredKeys(dicts[..|dicts| - 1]) + |dicts[|dicts| - 1]|
  }

  lemma {:induction false} StoredElsewhere(was: seq<Dict>, now: seq<Dict>, db: nat)
    requires db < |was| == |now| && forall j :: 0 <= j < |was| && j != db ==> now[j] == was[j]
    ensures StoredKeys(now) + |was[db]| == StoredKeys(was) + |now[db]|
    decreases |was|
  {
    var l := |was| - 1;
    if db < l {
      StoredElsewhere(was[..l], now[..l], db);
    } else {
      assert was[..l] == now[..l];
    }
  }

  ghost function DictsOf(shard: Shard): (dicts: seq<Dict>)
    reads shard, shard.dbs
    ensures |dicts| == |shard.dbs| && forall j :: 0 <= j < |dicts| ==> dicts[j] == shard.dbs[j].dict
  {
    seq(|shard.dbs|, j requires 0 <= j < |shard.dbs| reads shard, shard.dbs => shard.dbs[j].dict)
  }

  /** No client can tell `now` from `was`, at any time no earlier than the clock
      readings of these rounds. */
  ghost predicate Unseen(was: seq<Dict>, now: seq<Dict>, clock: nat -> nat, rounds: nat) {
    && |was| == |now|
    && forall j, later :: 0 <= j < |was| && NoEarlier(later, clock, rounds) ==> Live(now[j], later) == Live(was[j], later)
  }

  lemma UnseenRound(start: seq<Dict>, was: seq<Dict>, now: seq<Dict>, db: nat, clock: nat -> nat, rounds: nat)
    requires Unseen(start, was, clock, rounds) && db < |was| == |now|
    requires forall j :: 0 <= j < |was| && j != db ==> now[j] == was[j]
    requires forall later :: clock(rounds) <= later ==> Live(now[db], later) == Live(was[db], later)
    ensures Unseen(start, now, clock, rounds + 1)
  {
    hide Live;
    forall j, later | 0 <= j < |was| && NoEarlier(later, clock, rounds + 1)
      ensures Live(now[j], later) == Live(start[j], later)
    {
      assert NoEarlier(later, clock, rounds) && clock(rounds) <= later;
    }
  }

  /** What a sweep did. */
  datatype CycleStats = CycleStats(sampled: nat, expired: nat, rounds: nat, timedOut: bool)

  /** One round: its database, its sample and its clock. */
  datatype Round = Round(db: nat, window: seq<Bytes>, now: nat)

  /** The databases after these rounds. */
  ghost function AfterRounds(start: seq<Dict>, rounds: seq<Round>): (dicts: seq<Dict>)
    ensures |dicts| == |start|
  {
    if |rounds| == 0 then start
    else
      var before, r := AfterRounds(start, rounds[..|rounds| - 1]), rounds[|rounds| - 1];
      if r.db < |start| then before[r.db := before[r.db] - Overdue(r.window, before[r.db], r.now)] else before
  }

  /** More than a quarter of the sample was overdue. */
  ghost predicate MostlyStale(r: Round, d: Dict) {
    4 * |Overdue(r.window, d, r.now)| > |r.window|
  }

  /** The database the next round is for: the same one while its samples are mostly
      stale. */
  ghost function NextDb(start: seq<Dict>, rounds: seq<Round>): nat {
    if |rounds| == 0 then 0
    else
      var before, r := AfterRounds(start, rounds[..|rounds| - 1]), rounds[|rounds| - 1];
      if r.db < |start| && MostlyStale(r, before[r.db]) then r.db else r.db + 1
  }

  /** Every round samples the database whose turn it is, at its own clock. */
  ghost predicate Schedule(start: seq<Dict>, rounds: seq<Round>, clock: nat -> nat) {
    |rounds| > 0 ==>
      var init, r := rounds[..|rounds| - 1], rounds[|rounds| - 1];
      && Schedule(start, init, clock)
      && r.db == NextDb(start, init) < |start| && r.now == clock(|init|)
      && Sampled(r.window, AfterRounds(start, init)[r.db], KEYS_PER_LOOP)
  }

  ghost function SampledBy(rounds: seq<Round>): nat {
    if |rounds| == 0 then 0 else SampledBy(rounds[..|rounds| - 1]) + |rounds[|rounds| - 1].window|
  }

  lemma OneRound(start: seq<Dict>, rounds: seq<Round>, clock: nat -> nat, r: Round, dicts: seq<Dict>)
    requires Schedule(start, rounds, clock) && r.db == NextDb(start, rounds) < |start| && r.now == clock(|rounds|)
    requires dicts == AfterRounds(start, rounds) && Sampled(r.window, dicts[r.db], KEYS_PER_LOOP)
    ensures Schedule(start, rounds + [r], clock)
    ensures AfterRounds(start, rounds + [r]) == dicts[r.db := dicts[r.db] - Overdue(r.window, dicts[r.db], r.now)]
    ensures SampledBy(rounds + [r]) == SampledBy(rounds) + |r.window|
    ensures NextDb(start, rounds + [r]) == if MostlyStale(r, dicts[r.db]) then r.db else r.db + 1
  {
    assert (rounds + [r])[..|rounds|] == rounds;
  }

  lemma NoRounds(start: seq<Dict>, clock: nat -> nat)
    ensures Schedule(start, [], clock) && AfterRounds(start, []) == start && NextDb(start, []) == 0 && SampledBy([]) == 0
  {
  }

  /** A sweep so far: unseen, every key that went was counted, and no round was
      started after the deadline. */
  ghost predicate Sweeping(start: seq<Dict>, now: seq<Dict>, total: CycleStats, clock: nat -> nat, instant: nat -> nat, deadline: nat) {
    && Unseen(start, now, clock, total.rounds)
    && StoredKeys(now) + total.expired == StoredKeys(start)
    && total.expired <= total.sampled <= KEYS_PER_LOOP * total.rounds
    && forall t :: 0 <= t < total.rounds ==> instant(t) < deadline
  }

  lemma SweepRound(start: seq<Dict>, was: seq<Dict>, now: seq<Dict>, db: nat, total: CycleStats, sampled: nat, expired: nat,
                   clock: nat -> nat, instant: nat -> nat, deadline: nat)
    requires Sweeping(start, was, total, clock, instant, deadline) && instant(total.rounds) < deadline
    requires db < |was| == |now| && forall j :: 0 <= j < |was| && j != db ==> now[j] == was[j]
    requires forall later :: clock(total.rounds) <= later ==> Live(now[db], later) == Live(was[db], later)
    requires expired <= sampled <= KEYS_PER_LOOP && |now[db]| + expired == |was[db]|
    ensures Sweeping(start, now, CycleStats(total.sampled + sampled, total.expired + expired, total.rounds + 1, total.timedOut),
                     clock, instant, deadline)
  {
    hide Live, StoredKeys, Unseen;
    UnseenRound(start, was, now, db, clock, total.rounds);
    StoredElsewhere(was, now, db);
  }

  lemma NoSweep(start: seq<Dict>, clock: nat -> nat, instant: nat -> nat, deadline: nat)
    ensures Sweeping(start, start, CycleStats(0, 0, 0, false), clock, instant, deadline)
  {
  }

  /** Sweep one shard: per database, round after round while the samples are mostly
      stale, until time is up.  `instant(t)` is the time read before round `t`,
      `clock(t)` the wall clock of that round, and `tracked` the published number of
      keys with a deadline.  From its last round on a client cannot tell that it
      happened; a sweep that is not cut short has seen every database. */
  method CycleShard(shard: Shard, active: bool, tracked: nat, clock: nat -> nat, instant: nat -> nat, deadline: nat, unlink: bool)
    returns (total: CycleStats, ghost rounds: seq<Round>)
    requires shard.Accounted()
    modifies shard`dirty, shard`replBuf, shard`sequence, shard`history, shard.dbs
    ensures shard.Accounted()
    ensures Sweeping(old(DictsOf(shard)), DictsOf(shard), total, clock, instant, deadline)
    ensures Schedule(old(DictsOf(shard)), rounds, clock) && |rounds| == total.rounds && SampledBy(rounds) == total.sampled
    ensures DictsOf(shard) == AfterRounds(old(DictsOf(shard)), rounds) && shard.dirty == old(shard.dirty) + total.expired
    ensures if total.timedOut then instant(total.rounds) >= deadline
      else !active || tracked == 0 || NextDb(old(DictsOf(shard)), rounds) == |shard.dbs| <= total.rounds
    ensures !active || tracked == 0 ==> total == CycleStats(0, 0, 0, false) && shard.history == old(shard.history)
  {
    hide ReplayDb, Live, Sweeping, Shard.Accounted, Schedule, AfterRounds, NextDb, SampledBy, Overdue, Sampled;
    total, rounds := CycleStats(0, 0, 0, false), [];
    ghost var start := DictsOf(shard);
    NoSweep(start, clock, instant, deadline);
    NoRounds(start, clock);
    if !active || tracked == 0 {
      return;
    }
    for db := 0 to |shard.dbs|
      invariant shard.Accounted() && db <= total.rounds && !total.timedOut && shard.dirty == old(shard.dirty) + total.expired
      invariant Sweeping(start, DictsOf(shard), total, clock, instant, deadline)
      invariant Schedule(start, rounds, clock) && |rounds| == total.rounds && NextDb(start, rounds) == db
      invariant DictsOf(shard) == AfterRounds(start, rounds) && SampledBy(rounds) == total.sampled
    {
      while true
        invariant shard.Accounted() && db <= total.rounds && !total.timedOut && shard.dirty == old(shard.dirty) + total.expired
        invariant Sweeping(start, DictsOf(shard), total, clock, instant, deadline)
        invariant Schedule(start, rounds, clock) && |rounds| == total.rounds && NextDb(start, rounds) == db
        invariant DictsOf(shard) == AfterRounds(start, rounds) && SampledBy(rounds) == total.sampled
        decreases |shard.dbs[db].dict|
      {
        if instant(total.rounds) >= deadline {
          TimedOut(start, DictsOf(shard), total, clock, instant, deadline);
          total := total.(timedOut := true);
          return;
        }
        ghost var was := DictsOf(shard);
        var sampled, expired;
        ghost var window;
        sampled, expired, window := ExpireRound(shard, db, clock(total.rounds), unlink);
        SweepRound(start, was, DictsOf(shard), db, total, sampled, expired, clock, instant, deadline);
        OneRound(start, rounds, clock, Round(db, window, clock(total.rounds)), was);
        rounds := rounds + [Round(db, window, clock(total.rounds))];
        total := CycleStats(total.sampled + sampled, total.expired + expired, total.rounds + 1, total.timedOut);
        if sampled == 0 || expired * 100 <= sampled * CYCLE_CONTINUE_PCT {
          break;
        }
      }
    }
  }

  lemma TimedOut(start: seq<Dict>, now: seq<Dict>, total: CycleStats, clock: nat -> nat, instant: nat -> nat, deadline: nat)
    requires Sweeping(start, now, total, clock, instant, deadline)
    ensures Sweeping(start, now, total.(timedOut := true), clock, instant, deadline)
  {
  }

  // ----------------------------------------------------------------- eviction

  /** A sampled key; the larger the score, the better the victim. */
  datatype Candidate = Candidate(key: Bytes, score: nat)

  ghost predicate Descending(v: seq<Candidate>) {
    forall i, j :: 0 <= i < j < |v| ==> v[i].score >= v[j].score
  }

  /** No candidate in `out` is better than one in `v`. */
  ghost predicate NoneBetter(v: seq<Candidate>, out: multiset<Candidate>) {
    forall c, i :: c in out && 0 <= i < |v| ==> c.score <= v[i].score
  }

  /** The pool holds, best first, the best of everything pushed so far. */
  ghost predicate BestOf(v: seq<Candidate>, seen: multiset<Candidate>) {
    && Descending(v)
    && multiset(v) <= seen
    && |v| == (if |seen| < EVICTION_POOL_SIZE then |seen| else EVICTION_POOL_SIZE)
    && NoneBetter(v, seen - multiset(v))
  }

  function Inserted(v: seq<Candidate>, at: nat, c: Candidate): seq<Candidate>
    requires at <= |v|
  {
    v[..at] + [c] + v[at..]
  }

  /** The bounded best-of pool. */
  class Pool {
    var v: seq<Candidate>
    ghost var seen: multiset<Candidate>

    ghost predicate Valid()
      reads this
    {
      BestOf(v, seen)
    }

    constructor ()
      ensures Valid() && v == [] && seen == multiset{}
    {
      v, seen := [], multiset{};
    }

    method Push(c: Candidate)
      requires Valid()
      modifies this
      ensures Valid() && seen == old(seen) + multiset{c}
    {
      hide BestOf, Inserted;
      var at := 0;
      while at < |v| && v[at].score >= c.score
        invariant at <= |v| && forall i :: 0 <= i < at ==> v[i].score >= c.score
      {
        at := at + 1;
      }
      PushedBest(v, seen, c, at);
      seen := seen + multiset{c};
      if at >= EVICTION_POOL_SIZE {
        return;
      }
      var longer := v[..at] + [c] + v[at..];
      v := if |longer| <= EVICTION_POOL_SIZE then longer else longer[..EVICTION_POOL_SIZE];
      InsertedIs(old(v), at, c);
    }
  }

  lemma InsertedIs(v: seq<Candidate>, at: nat, c: Candidate)
    requires at <= |v|
    ensures Inserted(v, at, c) == v[..at] + [c] + v[at..] && |Inserted(v, at, c)| == |v| + 1
  {
  }

  lemma PushedNothing(v: seq<Candidate>, seen: multiset<Candidate>, c: Candidate)
    requires BestOf(v, seen) && |v| >= EVICTION_POOL_SIZE && forall i :: 0 <= i < |v| ==> v[i].score >= c.score
    ensures BestOf(v, seen + multiset{c})
  {
    hide NoneBetter, Descending;
    var out := seen - multiset(v);
    assert seen + multiset{c} == multiset(v) + (out + multiset{c});
    Split(seen + multiset{c}, multiset(v), out + multiset{c});
    DroppedNew(v, out, c);
  }

  lemma PushedInside(v: seq<Candidate>, seen: multiset<Candidate>, c: Candidate, at: nat)
    requires BestOf(v, seen) && at <= |v|
    requires (forall i :: 0 <= i < at ==> v[i].score >= c.score) && (at < |v| ==> v[at].score < c.score)
    ensures var w, out := Inserted(v, at, c), seen - multiset(v);
      && |w| == |v| + 1 && seen + multiset{c} == multiset(w) + out
      && |seen + multiset{c}| == |w| + |out|
      && forall n :: 0 <= n <= |w| ==> Descending(w[..n])
  {
    hide Inserted, NoneBetter, Descending;
    var w, out := Inserted(v, at, c), seen - multiset(v);
    assert seen == multiset(v) + out;
    InsertedIs(v, at, c);
    InsertedContents(v, at, c);
    InsertedSorted(v, at, c);
    assert seen + multiset{c} == multiset(w) + out;
    Split(seen + multiset{c}, multiset(w), out);
  }

  /** Inserting behind everything at least as good, and truncating, keeps the best. */
  lemma PushedBest(v: seq<Candidate>, seen: multiset<Candidate>, c: Candidate, at: nat)
    requires BestOf(v, seen) && at <= |v|
    requires (forall i :: 0 <= i < at ==> v[i].score >= c.score) && (at < |v| ==> v[at].score < c.score)
    ensures |Inserted(v, at, c)| == |v| + 1
    ensures var w, n := Inserted(v, at, c), EVICTION_POOL_SIZE;
      BestOf(if at >= n then v else if |w| <= n then w else w[..n], seen + multiset{c})
  {
    hide Inserted, NoneBetter, Descending;
    var w, out := Inserted(v, at, c), seen - multiset(v);
    var seen' := seen + multiset{c};
    PushedInside(v, seen, c, at);
    if at >= EVICTION_POOL_SIZE {
      PushedNothing(v, seen, c);
    } else if |w| <= EVICTION_POOL_SIZE {
      Split(seen', multiset(w), out);
      NothingOut(w, out);
      assert w[..|w|] == w;
    } else {
      var kept, last := w[..EVICTION_POOL_SIZE], w[EVICTION_POOL_SIZE];
      assert w == kept + [last];
      assert seen' == multiset(kept) + (out + multiset{last});
      Split(seen', multiset(kept), out + multiset{last});
      DroppedLast(v, at, c, out);
    }
  }

  lemma Split(total: multiset<Candidate>, kept: multiset<Candidate>, out: multiset<Candidate>)
    requires total == kept + out
    ensures total - kept == out && kept <= total && |total| == |kept| + |out|
  {
  }

  lemma NothingOut(w: seq<Candidate>, out: multiset<Candidate>)
    requires |out| == 0
    ensures NoneBetter(w, out)
  {
  }

  lemma DroppedNew(v: seq<Candidate>, out: multiset<Candidate>, c: Candidate)
    requires NoneBetter(v, out) && forall i :: 0 <= i < |v| ==> v[i].score >= c.score
    ensures NoneBetter(v, out + multiset{c})
  {
  }

  lemma InsertedContents(v: seq<Candidate>, at: nat, c: Candidate)
    requires at <= |v|
    ensures multiset(Inserted(v, at, c)) == multiset(v) + multiset{c}
  {
    assert v == v[..at] + v[at..];
  }

  lemma InsertedSorted(v: seq<Candidate>, at: nat, c: Candidate)
    requires Descending(v) && at <= |v|
    requires (forall i :: 0 <= i < at ==> v[i].score >= c.score) && (at < |v| ==> v[at].score < c.score)
    ensures Descending(Inserted(v, at, c))
    ensures forall n :: 0 <= n <= |Inserted(v, at, c)| ==> Descending(Inserted(v, at, c)[..n])
  {
    var w := Inserted(v, at, c);
    forall i, j | 0 <= i < j < |w|
      ensures w[i].score >= w[j].score
    {
      assert w[i] == if i < at then v[i] else if i == at then c else v[i - 1];
      assert w[j] == if j < at then v[j] else if j == at then c else v[j - 1];
    }
  }

  /** In a full pool the last candidate is the one to go. */
  lemma DroppedLast(v: seq<Candidate>, at: nat, c: Candidate, out: multiset<Candidate>)
    requires Descending(v) && NoneBetter(v, out) && at < |v|
    requires (forall i :: 0 <= i < at ==> v[i].score >= c.score) && v[at].score < c.score
    ensures var w := Inserted(v, at, c); NoneBetter(w[..|v|], out + multiset{w[|v|]})
  {
    var w := Inserted(v, at, c);
    assert w[|v|] == v[|v| - 1];
    forall e, i | e in out + multiset{w[|v|]} && 0 <= i < |v|
      ensures e.score <= w[..|v|][i].score
    {
      assert w[i] == if i < at then v[i] else if i == at then c else v[i - 1];
      assert e.score <= v[|v| - 1].score && e.score <= v[at].score;
    }
  }

  /** The keys a policy may evict. */
  ghost function EligibleKeys(d: Dict, volatile: bool): set<Bytes> {
    if volatile then Deadlines(d).Keys else d.Keys
  }

  /** The sampled keys with their scores. */
  ghost function Scored(window: seq<Bytes>, d: Dict, score: (Bytes, Entry) -> nat): multiset<Candidate>
    requires forall k :: k in window ==> k in d
  {
    if |window| == 0 then multiset{}
    else
      var k := window[|window| - 1];
      Scored(window[..|window| - 1], d, score) + multiset{Candidate(k, score(k, d[k]))}
  }

  /** `best` are the best, best first, of a sample of `want` eligible keys. */
  ghost predicate BestOfSample(best: seq<Candidate>, window: seq<Bytes>, d: Dict, volatile: bool, want: nat, score: (Bytes, Entry) -> nat) {
    && Distinct(window) && (forall k :: k in window ==> k in d && k in EligibleKeys(d, volatile))
    && |window| == (if want < |EligibleKeys(d, volatile)| then want else |EligibleKeys(d, volatile)|)
    && BestOf(best, Scored(window, d, score))
  }

  lemma {:induction false} ScoredOnce(window: seq<Bytes>, d: Dict, score: (Bytes, Entry) -> nat)
    requires Distinct(window) && forall k :: k in window ==> k in d
    ensures |Scored(window, d, score)| == |window|
    ensures forall c :: c in Scored(window, d, score) ==>
      c.key in window && c.score == score(c.key, d[c.key]) && Scored(window, d, score)[c] == 1
  {
    if |window| > 0 {
      ScoredOnce(window[..|window| - 1], d, score);
    }
  }

  lemma NoneScored(d: Dict, score: (Bytes, Entry) -> nat)
    ensures Scored([], d, score) == multiset{}
  {
  }

  lemma ScoredNext(keys: seq<Bytes>, i: nat, d: Dict, score: (Bytes, Entry) -> nat)
    requires i < |keys| && keys[i] in d && forall k :: k in keys[..i] ==> k in d
    ensures forall k :: k in keys[..i + 1] ==> k in d
    ensures Scored(keys[..i + 1], d, score) == Scored(keys[..i], d, score) + multiset{Candidate(keys[i], score(keys[i], d[keys[i]]))}
  {
    assert keys[..i + 1][..i] == keys[..i] && keys[..i + 1] == keys[..i] + [keys[i]];
  }

  lemma SampleKeys(best: seq<Candidate>, window: seq<Bytes>, d: Dict, volatile: bool, want: nat, score: (Bytes, Entry) -> nat)
    requires BestOfSample(best, window, d, volatile, want, score)
    ensures forall i :: 0 <= i < |best| ==>
      && best[i].key in d && best[i].score == score(best[i].key, d[best[i].key])
      && (volatile ==> d[best[i].key].expireAt.Some?)
    ensures forall i, j :: 0 <= i < j < |best| ==> best[i].key != best[j].key
  {
    hide Scored;
    ScoredOnce(window, d, score);
    PoolHolds(best, Scored(window, d, score));
    forall i, j | 0 <= i < j < |best|
      ensures best[i].key != best[j].key
    {
      assert best[i] in Scored(window, d, score) && multiset(best)[best[i]] <= 1;
      if best[i].key == best[j].key {
        Repeated(best, i, j);
      }
    }
  }

  lemma Repeated(v: seq<Candidate>, i: nat, j: nat)
    requires i < j < |v| && v[i] == v[j]
    ensures multiset(v)[v[i]] >= 2
  {
    assert v == v[..j] + v[j..] && v[..j][i] == v[i] && v[j..][0] == v[j];
    assert multiset(v) == multiset(v[..j]) + multiset(v[j..]);
    assert v[i] in multiset(v[..j]) && v[j] in multiset(v[j..]);
  }

  /** Draw `want` candidates: volatile policies sample the keys with a deadline,
      the others all keys. */
  method FillPool(db: Db, volatile: bool, want: nat, score: (Bytes, Entry) -> nat, pool: Pool)
    returns (sampled: nat, ghost window: seq<Bytes>)
    requires db.Valid() && pool.Valid() && pool.v == []
    modifies pool
    ensures pool.Valid() && sampled == |window|
    ensures BestOfSample(pool.v, window, db.dict, volatile, want, score)
  {
    hide BestOf, Scored;
    NoneScored(db.dict, score);
    var eligible := if volatile then db.expires.Keys else db.dict.Keys;
    assert eligible == EligibleKeys(db.dict, volatile);
    sampled := 0;
    var keys := Sample(eligible, want);
    window := keys;
    PoolHolds(pool.v, pool.seen);
    for i := 0 to |keys|
      invariant pool.Valid() && sampled == i
      invariant forall k :: k in keys[..i] ==> k in db.dict
      invariant pool.seen == Scored(keys[..i], db.dict, score)
    {
      var key := keys[i];
      assert key in keys;
      ScoredNext(keys, i, db.dict, score);
      sampled := sampled + 1;
      pool.Push(Candidate(key, score(key, db.dict[key])));
    }
    assert keys[..|keys|] == keys;
  }

  lemma PoolHolds(v: seq<Candidate>, seen: multiset<Candidate>)
    requires BestOf(v, seen)
    ensures v == [] ==> seen == multiset{}
    ensures multiset(v) <= seen && forall i :: 0 <= i < |v| ==> v[i] in seen
  {
    forall i | 0 <= i < |v|
      ensures v[i] in seen
    {
      assert v[i] in multiset(v);
    }
  }

  /** The first `n` candidates, as victims of one database. */
  ghost function Taken(db: nat, best: seq<Candidate>, n: nat): seq<(nat, Bytes)>
    requires n <= |best|
  {
    seq(n, i requires 0 <= i < |best| => (db, best[i].key))
  }

  /** As many of them as there is room for. */
  ghost function BestTaken(db: nat, best: seq<Candidate>, room: nat): seq<(nat, Bytes)> {
    Taken(db, best, if room < |best| then room else |best|)
  }

  /** The best of each database's sample in turn, while there is room. */
  ghost function BestOfEach(pools: seq<seq<Candidate>>, maxKeys: nat): (r: seq<(nat, Bytes)>)
    ensures |r| <= maxKeys && forall i :: 0 <= i < |r| ==> r[i].0 < |pools|
  {
    if |pools| == 0 then []
    else
      var l := |pools| - 1;
      var before := BestOfEach(pools[..l], maxKeys);
      before + BestTaken(l, pools[l], maxKeys - |before|)
  }

  /** The victims of one database. */
  function VictimsOf(victims: seq<(nat, Bytes)>, db: nat): set<Bytes> {
    set i | 0 <= i < |victims| && victims[i].0 == db :: victims[i].1
  }

  lemma OneMoreVictim(victims: seq<(nat, Bytes)>, db: nat, key: Bytes, j: nat)
    ensures VictimsOf(victims + [(db, key)], j) == if j == db then VictimsOf(victims, j) + {key} else VictimsOf(victims, j)
  {
    var more := victims + [(db, key)];
    assert forall i :: 0 <= i < |victims| ==> more[i] == victims[i];
    assert more[|victims|] == (db, key);
    forall k | k in VictimsOf(victims, j)
      ensures k in VictimsOf(more, j)
    {
      var i :| 0 <= i < |victims| && victims[i].0 == j && victims[i].1 == k;
      assert more[i].1 == k;
    }
  }

  /** The victims are the best of a sample of each of the first databases in turn,
      and all of them are keys the policy may evict. */
  ghost predicate Swept(victims: seq<(nat, Bytes)>, pools: seq<seq<Candidate>>, windows: seq<seq<Bytes>>, dicts: seq<Dict>,
                        volatile: bool, want: nat, maxKeys: nat, scores: nat -> (Bytes, Entry) -> nat) {
    && |pools| == |windows| <= |dicts| && victims == BestOfEach(pools, maxKeys)
    && (forall j :: 0 <= j < |pools| ==> BestOfSample(pools[j], windows[j], dicts[j], volatile, want, scores(j)))
    && AllEligible(victims, dicts, volatile)
  }

  lemma NothingSwept(dicts: seq<Dict>, volatile: bool, want: nat, maxKeys: nat, scores: nat -> (Bytes, Entry) -> nat)
    ensures Swept([], [], [], dicts, volatile, want, maxKeys, scores)
  {
  }

  lemma SweptParts(victims: seq<(nat, Bytes)>, pools: seq<seq<Candidate>>, windows: seq<seq<Bytes>>, dicts: seq<Dict>,
                   volatile: bool, want: nat, maxKeys: nat, scores: nat -> (Bytes, Entry) -> nat)
    requires Swept(victims, pools, windows, dicts, volatile, want, maxKeys, scores)
    ensures |victims| <= maxKeys && |pools| <= |dicts|
    ensures AllEligible(victims, dicts, volatile) && forall i :: 0 <= i < |victims| ==> victims[i].0 < |pools|
  {
    hide BestOfSample;
  }

  lemma SweptNext(victims: seq<(nat, Bytes)>, pools: seq<seq<Candidate>>, windows: seq<seq<Bytes>>, dicts: seq<Dict>,
                  volatile: bool, want: nat, maxKeys: nat, scores: nat -> (Bytes, Entry) -> nat, best: seq<Candidate>, window: seq<Bytes>)
    requires Swept(victims, pools, windows, dicts, volatile, want, maxKeys, scores) && |victims| <= maxKeys && |pools| < |dicts|
    requires BestOfSample(best, window, dicts[|pools|], volatile, want, scores(|pools|))
    requires AllEligible(victims + BestTaken(|pools|, best, maxKeys - |victims|), dicts, volatile)
    ensures Swept(victims + BestTaken(|pools|, best, maxKeys - |victims|), pools + [best], windows + [window], dicts,
                  volatile, want, maxKeys, scores)
  {
    hide BestOfSample, BestTaken, Eligible;
    assert (pools + [best])[..|pools|] == pools;
  }

  /** Evict at most `maxKeys` keys from one shard under one lock acquisition: of
      each database in turn the best of a sample, until enough are found.  Scores may
      differ from one database to the next, as random ones do. */
  method EvictBatch(shard: Shard, volatile: bool, samples: nat, maxKeys: nat, scores: nat -> (Bytes, Entry) -> nat, unlink: bool)
    returns (victims: seq<(nat, Bytes)>, ghost pools: seq<seq<Candidate>>, ghost windows: seq<seq<Bytes>>)
    requires shard.Accounted()
    modifies shard`dirty, shard`replBuf, shard`sequence, shard`history, shard.dbs
    ensures shard.Accounted() && |victims| <= maxKeys && shard.dirty == old(shard.dirty) + |victims|
    ensures forall j :: 0 <= j < |shard.dbs| ==> shard.dbs[j].dict == old(shard.dbs[j].dict) - VictimsOf(victims, j)
    ensures |pools| < |shard.dbs| ==> |victims| == maxKeys
    ensures Swept(victims, pools, windows, old(DictsOf(shard)), volatile, samples * 4, maxKeys, scores)
  {
    hide ReplayDb, Swept, VictimsOf, Deadlines, Db.Valid;
    victims, pools, windows := [], [], [];
    ghost var dicts := DictsOf(shard);
    NothingSwept(dicts, volatile, samples * 4, maxKeys, scores);
    NoVictimsYet(dicts);
    for db := 0 to |shard.dbs|
      invariant shard.Valid() && shard.history == old(shard.history) && shard.dirty == old(shard.dirty)
      invariant |pools| == db && |victims| <= maxKeys
      invariant Swept(victims, pools, windows, dicts, volatile, samples * 4, maxKeys, scores)
      invariant forall j :: 0 <= j < |shard.dbs| ==> shard.dbs[j].dict == dicts[j] - VictimsOf(victims, j)
    {
      if |victims| >= maxKeys {
        break;
      }
      ghost var best, window;
      ghost var before := victims;
      SweptParts(victims, pools, windows, dicts, volatile, samples * 4, maxKeys, scores);
      victims, best, window := EvictDb(shard, db, volatile, samples, maxKeys, scores(db), victims, dicts);
      SweptNext(before, pools, windows, dicts, volatile, samples * 4, maxKeys, scores, best, window);
      pools, windows := pools + [best], windows + [window];
    }
    SweptParts(victims, pools, windows, dicts, volatile, samples * 4, maxKeys, scores);
    shard.dirty := shard.dirty + |victims|;
    LogVictims(shard, victims, unlink);
  }

  lemma NoVictimsYet(dicts: seq<Dict>)
    ensures forall j :: 0 <= j < |dicts| ==> dicts[j] == dicts[j] - VictimsOf([], j)
  {
  }

  ghost predicate AllEligible(victims: seq<(nat, Bytes)>, dicts: seq<Dict>, volatile: bool) {
    forall i :: 0 <= i < |victims| ==> Eligible(victims[i], dicts, volatile)
  }

  ghost predicate Eligible(victim: (nat, Bytes), dicts: seq<Dict>, volatile: bool) {
    && victim.0 < |dicts| && victim.1 in dicts[victim.0]
    && (volatile ==> dicts[victim.0][victim.1].expireAt.Some?)
  }

  /** The victims of one database: the best of the pool while there is room. */
  method EvictDb(shard: Shard, db: nat, volatile: bool, samples: nat, maxKeys: nat, score: (Bytes, Entry) -> nat,
                 victims: seq<(nat, Bytes)>, ghost dicts: seq<Dict>)
    returns (victims': seq<(nat, Bytes)>, ghost best: seq<Candidate>, ghost window: seq<Bytes>)
    requires shard.Valid() && db < |shard.dbs| == |dicts| && |victims| <= maxKeys
    requires forall j :: 0 <= j < |shard.dbs| ==> shard.dbs[j].dict == dicts[j] - VictimsOf(victims, j)
    requires AllEligible(victims, dicts, volatile) && forall i :: 0 <= i < |victims| ==> victims[i].0 < db
    modifies shard.dbs[db]
    ensures shard.Valid()
    ensures forall j :: 0 <= j < |shard.dbs| ==> shard.dbs[j].dict == dicts[j] - VictimsOf(victims', j)
    ensures BestOfSample(best, window, dicts[db], volatile, samples * 4, score)
    ensures victims' == victims + BestTaken(db, best, maxKeys - |victims|)
    ensures AllEligible(victims', dicts, volatile)
  {
    hide BestOf, BestOfSample, VictimsOf, Scored, Distinct, Deadlines, EligibleKeys, AllEligible;
    victims' := victims;
    var slice := shard.dbs[db];
    Untouched(victims, dicts, db);
    var pool := new Pool();
    var sampled;
    sampled, window := FillPool(slice, volatile, samples * 4, score, pool);
    var chosen := pool.v;
    best := chosen;
    SampleKeys(best, window, dicts[db], volatile, samples * 4, score);
    for i := 0 to |chosen|
      invariant shard.Valid() && |victims'| <= maxKeys && victims' == victims + Taken(db, best, i)
      invariant forall j :: 0 <= j < |shard.dbs| ==> shard.dbs[j].dict == dicts[j] - VictimsOf(victims', j)
      invariant forall m :: i <= m < |best| ==> best[m].key in slice.dict
      invariant AllEligible(victims', dicts, volatile)
    {
      if |victims'| >= maxKeys {
        break;
      }
      var key := chosen[i].key;
      if key in slice.dict {
        TakeVictim(shard, db, key, victims', dicts, volatile);
        victims' := victims' + [(db, key)];
      }
    }
  }

  /** Evict one key. */
  method TakeVictim(shard: Shard, db: nat, key: Bytes, ghost victims: seq<(nat, Bytes)>, ghost dicts: seq<Dict>, ghost volatile: bool)
    requires shard.Valid() && db < |shard.dbs| == |dicts| && AllEligible(victims, dicts, volatile) && Eligible((db, key), dicts, volatile)
    requires forall j :: 0 <= j < |shard.dbs| ==> shard.dbs[j].dict == dicts[j] - VictimsOf(victims, j)
    modifies shard.dbs[db]
    ensures shard.Valid() && shard.dbs[db].dict == old(shard.dbs[db].dict) - {key}
    ensures forall j :: 0 <= j < |shard.dbs| ==> shard.dbs[j].dict == dicts[j] - VictimsOf(victims + [(db, key)], j)
    ensures AllEligible(victims + [(db, key)], dicts, volatile)
    ensures Told(old(shard.dbs[db].dict), old(shard.dbs[db].watch), shard.dbs[db].dict, shard.dbs[db].watch)
  {
    hide VictimsOf, AllEligible, Eligible;
    forall j
      ensures VictimsOf(victims + [(db, key)], j) == if j == db then VictimsOf(victims, j) + {key} else VictimsOf(victims, j)
    {
      OneMoreVictim(victims, db, key, j);
    }
    RemoveMore(dicts[db], VictimsOf(victims, db), key);
    var _ := shard.dbs[db].RemoveEntry(key);
    shard.dbs[db].SignalWatch(key);
    ToldOne(old(shard.dbs[db].dict), old(shard.dbs[db].watch), shard.dbs[db].dict, shard.dbs[db].watch, key);
    MoreEligible(victims, (db, key), dicts, volatile);
  }

  lemma MoreEligible(victims: seq<(nat, Bytes)>, victim: (nat, Bytes), dicts: seq<Dict>, volatile: bool)
    requires AllEligible(victims, dicts, volatile) && Eligible(victim, dicts, volatile)
    ensures AllEligible(victims + [victim], dicts, volatile)
  {
  }

  lemma Untouched(victims: seq<(nat, Bytes)>, dicts: seq<Dict>, db: nat)
    requires db < |dicts| && forall i :: 0 <= i < |victims| ==> victims[i].0 < db
    ensures dicts[db] - VictimsOf(victims, db) == dicts[db]
  {
    assert VictimsOf(victims, db) == {};
  }

  /** Log the victims in the order they were taken. */
  method LogVictims(shard: Shard, victims: seq<(nat, Bytes)>, unlink: bool)
    requires shard.Valid() && forall i :: 0 <= i < |shard.history| ==> ClockFree(shard.history[i].cmd)
    modifies shard`replBuf, shard`sequence, shard`history
    ensures shard.Valid()
    ensures forall j :: ReplayDb(shard.history, j) == old(ReplayDb(shard.history, j)) - VictimsOf(victims, j)
    ensures forall i :: 0 <= i < |shard.history| ==> ClockFree(shard.history[i].cmd)
  {
    hide ReplayDb, VictimsOf;
    NoVictims(victims);
    for k := 0 to |victims|
      invariant shard.Valid()
      invariant forall j :: ReplayDb(shard.history, j) == old(ReplayDb(shard.history, j)) - VictimsOf(victims[..k], j)
      invariant forall i :: 0 <= i < |shard.history| ==> ClockFree(shard.history[i].cmd)
    {
      var (db, key) := victims[k];
      assert victims[..k + 1] == victims[..k] + [(db, key)];
      ghost var p := Propagation(db, Del([key], unlink));
      assert KeySet([key]) == {key};
      forall j
        ensures ReplayDb(shard.history + [p], j) == old(ReplayDb(shard.history, j)) - VictimsOf(victims[..k + 1], j)
      {
        OneMoreVictim(victims[..k], db, key, j);
        ReplayAppend(shard.history, p, j);
        RemoveMore(old(ReplayDb(shard.history, j)), VictimsOf(victims[..k], j), key);
      }
      shard.Propagate(db, Del([key], unlink));
    }
    assert victims[..|victims|] == victims;
  }

  lemma NoVictims(victims: seq<(nat, Bytes)>)
    ensures forall j :: VictimsOf(victims[..0], j) == {}
  {
  }

  // --------------------------------------------------------------- whole runs

  /** What can happen to a shard, each under its lock. */
  datatype Event =
    | Client(db: nat, cmd: Command, lazyExpire: bool)
    | ExpireTick(db: nat, unlink: bool)
    | EvictTick(volatile: bool, samples: nat, maxKeys: nat, unlink: bool)
    | DrainTick

  ghost predicate EventOk(e: Event, databases: nat) {
    match e
    case Client(db, cmd, _) => db < databases && WellFormed(cmd)
    case ExpireTick(db, _) => db < databases
    case _ => true
  }

  /** (The log is complete) After any run from an empty shard, replaying all that
      was ever propagated gives every database, entry for entry. */
  method RunShard(databases: nat, events: seq<Event>, clock: nat -> nat, scores: nat -> nat -> (Bytes, Entry) -> nat)
    returns (shard: Shard, drained: seq<Propagation>)
    requires forall i :: 0 <= i < |events| ==> EventOk(events[i], databases)
    requires forall t :: clock(t) <= Decimal.I64_MAX
    ensures shard.Accounted() && |shard.dbs| == databases
    ensures forall j :: 0 <= j < databases ==> shard.dbs[j].dict == Replay(drained + shard.replBuf, seq(databases, _ => map[]))[j]
    ensures forall j :: 0 <= j < databases ==> shard.dbs[j].expires == Deadlines(shard.dbs[j].dict)
    ensures forall p :: p in drained + shard.replBuf ==> ClockFree(p.cmd)
  {
    shard := new Shard(databases);
    drained := [];
    for t := 0 to |events|
      invariant shard.Accounted() && |shard.dbs| == databases && fresh(shard) && fresh(shard.dbs)
      invariant drained == shard.taken
    {
      hide ReplayDb, Meaning, Live;
      match events[t] {
        case Client(db, cmd, lazyExpire) => var _ := Execute(shard, db, cmd, clock(t), lazyExpire);
        case ExpireTick(db, unlink) => var _, _, _ := ExpireRound(shard, db, clock(t), unlink);
        case EvictTick(volatile, samples, maxKeys, unlink) =>
          var _, _, _ := EvictBatch(shard, volatile, samples, maxKeys, scores(t), unlink);
        case DrainTick =>
          var batch := shard.Drain();
          drained := drained + batch;
      }
    }
    forall j | 0 <= j < databases
      ensures Replay(shard.history, seq(databases, _ => map[]))[j] == ReplayDb(shard.history, j)
    {
      ReplayByDb(shard.history, databases, j);
    }
  }
}
