/** A shard: its database slices and its propagation log. */
module Keyspace {
  import opened ByteStrings
  import opened Entries
  import opened Commands

  /** The deadlines in a dict. */
  function Deadlines(d: Dict): map<Bytes, nat> {
    map k | k in d && d[k].expireAt.Some? :: d[k].expireAt.value
  }

  type Watches = map<Bytes, nat>

  /** `key`, if anyone watches it, has a counter above all there were; the others
      have theirs. */
  ghost predicate Signalled(before: Watches, after: Watches, key: Bytes) {
    && after.Keys == before.Keys
    && (forall k :: k in before && k != key ==> after[k] == before[k])
    && (key in before ==> forall k :: k in before ==> after[key] > before[k])
  }

  /** Whoever watches a key whose entry has changed can tell. */
  ghost predicate Told(was: Dict, before: Watches, now: Dict, after: Watches) {
    && after.Keys == before.Keys
    && forall k :: k in before ==> after[k] >= before[k] && (after[k] == before[k] ==> SameEntry(was, now, k))
  }

  ghost predicate SameEntry(was: Dict, now: Dict, k: Bytes) {
    (k in was <==> k in now) && (k in was ==> now[k] == was[k])
  }

  lemma ToldOne(was: Dict, before: Watches, now: Dict, after: Watches, key: Bytes)
    requires Signalled(before, after, key) && forall k :: k != key ==> SameEntry(was, now, k)
    ensures Told(was, before, now, after)
  {
  }

  lemma ToldNothing(d: Dict, w: Watches)
    ensures Told(d, w, d, w)
  {
  }

  lemma ToldBoth(d0: Dict, w0: Watches, d1: Dict, w1: Watches, d2: Dict, w2: Watches)
    requires Told(d0, w0, d1, w1) && Told(d1, w1, d2, w2)
    ensures Told(d0, w0, d2, w2)
  {
  }

  class Db {
    var dict: Dict
    var expires: map<Bytes, nat>
    var watch: Watches
    var watchSeq: nat

    /** The TTL index holds exactly the deadlines in the dict, and no watch
        counter is ahead of the sequence. */
    ghost predicate Valid()
      reads this
    {
      && expires == Deadlines(dict)
      && forall k :: k in watch ==> watch[k] <= watchSeq
    }

    constructor ()
      ensures Valid() && dict == map[] && watch == map[]
    {
      dict, expires, watch, watchSeq := map[], map[], map[], 0;
    }

    /** Insert or replace. */
    method SetEntry(key: Bytes, entry: Entry)
      requires Valid()
      modifies `dict, `expires
      ensures Valid() && dict == old(dict)[key := entry]
    {
      match entry.expireAt {
        case Some(at) => expires := expires[key := at];
        case None => expires := expires - {key};
      }
      dict := dict[key := entry];
    }

    method RemoveEntry(key: Bytes) returns (gone: bool)
      requires Valid()
      modifies `dict, `expires
      ensures Valid() && dict == old(dict) - {key} && (gone <==> key in old(dict))
    {
      expires := expires - {key};
      gone := key in dict;
      dict := dict - {key};
    }

    method SetExpire(key: Bytes, at: Option<nat>) returns (ok: bool)
      requires Valid()
      modifies `dict, `expires
      ensures Valid() && (ok <==> key in old(dict))
      ensures dict == if key in old(dict) then WithDeadline(old(dict), key, at) else old(dict)
    {
      if key !in dict {
        return false;
      }
      dict := dict[key := dict[key].(expireAt := at)];
      match at {
        case Some(deadline) => expires := expires[key := deadline];
        case None => expires := expires - {key};
      }
      return true;
    }

    /** Tell whoever watches `key`: its counter moves to a value no counter had. */
    method SignalWatch(key: Bytes)
      requires Valid()
      modifies `watch, `watchSeq
      ensures Valid() && Signalled(old(watch), watch, key)
    {
      if watch == map[] {
        return;
      }
      watchSeq := watchSeq + 1;
      if key in watch {
        watch := watch[key := watchSeq];
      }
    }
  }

  class Shard {
    var dbs: seq<Db>
    var dirty: nat
    var replBuf: seq<Propagation>
    var sequence: nat
    /** What the aggregator has taken, and everything ever propagated. */
    ghost var taken: seq<Propagation>
    ghost var history: seq<Propagation>

    ghost predicate Valid()
      reads this, dbs
    {
      && (forall i, j :: 0 <= i < j < |dbs| ==> dbs[i] != dbs[j])
      && (forall i :: 0 <= i < |dbs| ==> dbs[i].Valid())
      && history == taken + replBuf
      && sequence == |history|
    }

    /** (The log accounts for everything) Every database is the replay of its
        entries, and the entries read the same at any time. */
    ghost predicate Accounted()
      reads this, dbs
    {
      && Valid()
      && (forall j :: 0 <= j < |dbs| ==> dbs[j].dict == ReplayDb(history, j))
      && (forall i :: 0 <= i < |history| ==> ClockFree(history[i].cmd))
    }

    constructor (databases: nat)
      ensures Accounted() && |dbs| == databases && fresh(dbs) && history == [] && taken == [] && dirty == 0
    {
      var slices: seq<Db> := [];
      for i := 0 to databases
        invariant |slices| == i && fresh(slices)
        invariant forall a, b :: 0 <= a < b < i ==> slices[a] != slices[b]
        invariant forall a :: 0 <= a < i ==> slices[a].Valid() && slices[a].dict == map[]
      {
        var db := new Db();
        slices := slices + [db];
      }
      dbs, dirty, replBuf, sequence, taken, history := slices, 0, [], 0, [], [];
    }

    /** Append to the log. */
    method Propagate(db: nat, cmd: Command)
      requires Valid()
      modifies `replBuf, `sequence, `history
      ensures Valid() && history == old(history) + [Propagation(db, cmd)]
    {
      sequence := sequence + 1;
      replBuf := replBuf + [Propagation(db, cmd)];
      history := history + [Propagation(db, cmd)];
    }

    /** The aggregator takes what has been buffered: each entry once, in order. */
    method Drain() returns (batch: seq<Propagation>)
      requires Accounted()
      modifies `replBuf, `taken
      ensures Accounted() && batch == old(replBuf) && replBuf == [] && taken == old(taken) + batch
    {
      batch := replBuf;
      taken := taken + replBuf;
      replBuf := [];
    }
  }
}
