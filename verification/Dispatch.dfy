/** Running one command: the handlers, and what ends up in the log. */
module Dispatch {
  import opened ByteStrings
  import opened Entries
  import opened Commands
  import opened Keyspace
  import Decimal

  datatype PropMode = Default | Explicit | Suppressed

  // ------------------------------------------------------------ live entries

  /** The dict once `key` has been looked at: an expired entry is gone. */
  function Reaped(d: Dict, key: Bytes, now: nat): Dict {
    if key in d && IsExpired(d[key], now) then d - {key} else d
  }

  lemma ReapedLive(d: Dict, key: Bytes, now: nat)
    ensures Live(Reaped(d, key, now), now) == Live(d, now)
    ensures key in Reaped(d, key, now) <==> key in Live(d, now)
    ensures key in Live(d, now) ==> Reaped(d, key, now)[key] == Live(d, now)[key] == d[key]
  {
  }

  /** Changing one key commutes with hiding the expired ones. */
  lemma LiveUpdate(d: Dict, key: Bytes, e: Entry, now: nat)
    ensures Live(d[key := e], now) == Live(Live(d, now)[key := e], now)
  {
  }

  lemma LiveRemove(d: Dict, keys: set<Bytes>, now: nat)
    ensures Live(d - keys, now) == Live(Live(d, now) - keys, now) == Live(d, now) - keys
  {
  }

  lemma LiveTwice(d: Dict, now: nat)
    ensures Live(Live(d, now), now) == Live(d, now)
  {
  }

  lemma {:induction false} LivePairs(words: seq<Bytes>, d: Dict, now: nat)
    ensures Live(SetPairs(words, d), now) == Live(SetPairs(words, Live(d, now)), now)
  {
    if |words| < 2 {
      LiveTwice(d, now);
    } else {
      hide Live;
      var init := words[..|words| - 2];
      var e := Entry(words[|words| - 1], STRING, None);
      LivePairs(init, d, now);
      LiveUpdate(SetPairs(init, d), words[|words| - 2], e, now);
      LiveUpdate(SetPairs(init, Live(d, now)), words[|words| - 2], e, now);
    }
  }

  /** Options that set no deadline mention none. */
  lemma {:induction false} NoDeadlineClockFree(tokens: seq<SetToken>, now: nat)
    requires Options(tokens, now).Ok? && !Options(tokens, now).value.hasExpire
    ensures forall i :: 0 <= i < |tokens| ==> !tokens[i].ExpiryToken?
  {
    if |tokens| > 0 {
      var init := tokens[..|tokens| - 1];
      NoDeadlineClockFree(init, now);
      forall i | 0 <= i < |tokens|
        ensures !tokens[i].ExpiryToken?
      {
        assert i < |tokens| - 1 ==> tokens[i] == init[i];
      }
    }
  }

  /** Replaying what SET logs does to the dict what SET did. */
  lemma SetReplays(cmd: Command, o: SetOptions, d: Dict, now: nat, at: Option<nat>)
    requires cmd.Set? && Options(cmd.options, now) == Ok(o) && SaneOptions(o)
    requires !(o.nx && cmd.key in d) && !(o.xx && cmd.key !in d)
    requires Stored(cmd, o, d)[cmd.key].expireAt == at
    ensures at.Some? ==>
      var logged := Set(cmd.key, cmd.value, [ExpiryToken(false, false, Int(at.value))]);
      ClockFree(logged) && Plain(logged, d) == Stored(cmd, o, d)
    ensures at == None ==> ClockFree(cmd) && Plain(cmd, d) == Stored(cmd, o, d)
  {
    if at.Some? {
      var tokens := [ExpiryToken(false, false, Int(at.value))];
      assert tokens[..0] == [];
      assert Options(tokens, 0) == Ok(NO_OPTIONS.(hasExpire := true, expireAt := at));
    } else {
      NoDeadlineClockFree(cmd.options, now);
      ClockFreeOptions(cmd.options, now, 0);
    }
  }

  lemma SetMeans(cmd: Command, o: SetOptions, d: Dict, now: nat)
    requires cmd.Set?
    ensures var d1 := Reaped(d, cmd.key, now);
      Live(Stored(cmd, o, d1), now) == Live(Stored(cmd, o, Live(d, now)), now)
  {
    hide Live, Reaped;
    var d1 := Reaped(d, cmd.key, now);
    ReapedLive(d, cmd.key, now);
    LiveUpdate(d1, cmd.key, Stored(cmd, o, d1)[cmd.key], now);
    LiveUpdate(Live(d, now), cmd.key, Stored(cmd, o, d1)[cmd.key], now);
    LiveTwice(d, now);
  }

  // ---------------------------------------------------------------- context

  /** Scale to milliseconds, then rebase, checking for overflow in that order.
      Nothing overflows exactly if the argument in milliseconds and its sum with
      the base are 64-bit, and the sum is then what PEXPIREAT, which is logged,
      resolves to at any later time. */
  method ResolveWhen(raw: int, unitMs: bool, absolute: bool, now: nat) returns (r: Result<int>)
    requires Decimal.IsI64(raw) && now <= Decimal.I64_MAX
    ensures r == When(raw, unitMs, absolute, now)
    ensures var ms, base := Millis(raw, unitMs), if absolute then 0 else now;
      && (r.Ok? <==> Decimal.IsI64(ms) && ms + base <= Decimal.I64_MAX)
      && (r.Ok? ==> r.value == ms + base)
    ensures r.Err? ==> r.error == InvalidExpire
    ensures r.Ok? ==> forall later :: When(r.value, true, true, later) == r
  {
    var when := raw;
    if !unitMs {
      if !Decimal.IsI64(when * 1000) {
        return Err(InvalidExpire);
      }
      when := when * 1000;
    }
    var base := if absolute then 0 else now;
    if when > Decimal.I64_MAX - base {
      return Err(InvalidExpire);
    }
    return Ok(when + base);
  }

  /** A command as a client can send it: the numbers in it are 64-bit. */
  ghost predicate WellFormed(cmd: Command) {
    && (cmd.Set? ==> SaneTokens(cmd.options))
    && (cmd.Expire? && cmd.raw.Int? ==> Decimal.IsI64(cmd.raw.v))
  }

  /** Entries of other databases, and what is logged, stay as they were. */
  ghost predicate LogsOnly(before: seq<Propagation>, after: seq<Propagation>, db: nat) {
    && (forall j :: j != db ==> ReplayDb(after, j) == ReplayDb(before, j))
    && ((forall i :: 0 <= i < |before| ==> ClockFree(before[i].cmd)) ==> forall i :: 0 <= i < |after| ==> ClockFree(after[i].cmd))
  }

  lemma LogsOnlyAppend(before: seq<Propagation>, after: seq<Propagation>, db: nat, cmd: Command)
    requires LogsOnly(before, after, db) && ClockFree(cmd)
    ensures LogsOnly(before, after + [Propagation(db, cmd)], db)
  {
    forall j | j != db
      ensures ReplayDb(after + [Propagation(db, cmd)], j) == ReplayDb(before, j)
    {
      ReplayAppend(after, Propagation(db, cmd), j);
    }
  }

  /** Everything a handler may touch. */
  class Ctx {
    const shard: Shard
    const db: nat
    const now: nat
    const lazyExpire: bool
    var dirty: nat
    var prop: PropMode
    var propBuf: seq<Command>

    ghost predicate Valid()
      reads this, shard, shard.dbs
    {
      shard.Valid() && db < |shard.dbs| && now <= Decimal.I64_MAX
    }

    constructor (shard: Shard, db: nat, now: nat, lazyExpire: bool)
      requires shard.Valid() && db < |shard.dbs| && now <= Decimal.I64_MAX
      ensures this.shard == shard && this.db == db && this.now == now && this.lazyExpire == lazyExpire
      ensures Valid() && Fresh()
    {
      this.shard, this.db, this.now, this.lazyExpire := shard, db, now, lazyExpire;
      dirty, prop, propBuf := 0, Default, [];
    }

    ghost predicate Fresh()
      reads this
    {
      dirty == 0 && prop == Default && propBuf == []
    }

    /** The selected database. */
    ghost function D(): Dict
      requires Valid()
      reads this, shard, shard.dbs
    {
      shard.dbs[db].dict
    }

    /** Who watches it. */
    ghost function W(): Watches
      requires Valid()
      reads this, shard, shard.dbs
    {
      shard.dbs[db].watch
    }

    /** What the log says the selected database holds. */
    ghost function Logged(): Dict
      reads this, shard
    {
      ReplayDb(shard.history, db)
    }

    /** Reap `key` if it is expired; the deletion goes straight to the log. */
    method ExpireIfNeeded(key: Bytes) returns (reaped: bool)
      requires Valid()
      modifies shard`dirty, shard`replBuf, shard`sequence, shard`history, shard.dbs[db]
      ensures Valid()
      ensures Told(old(D()), old(W()), D(), W())
      ensures D() == Reaped(old(D()), key, now)
      ensures Logged() == if reaped then old(Logged()) - {key} else old(Logged())
      ensures reaped <==> D() != old(D())
      ensures shard.dirty == old(shard.dirty) + if reaped then 1 else 0
      ensures !reaped ==> shard.history == old(shard.history)
      ensures LogsOnly(old(shard.history), shard.history, db)
    {
      hide ReplayDb, Live;
      var slice := shard.dbs[db];
      ToldNothing(D(), W());
      if key !in slice.dict || !IsExpired(slice.dict[key], now) {
        return false;
      }
      var _ := slice.RemoveEntry(key);
      slice.SignalWatch(key);
      shard.dirty := shard.dirty + 1;
      shard.Propagate(db, Del([key], false));
      ReplayAppend(old(shard.history), Propagation(db, Del([key], false)), db);
      LogsOnlyAppend(old(shard.history), old(shard.history), db, Del([key], false));
      assert KeySet([key]) == {key};
      assert key in old(D()) && key !in D();
      ToldOne(old(D()), old(W()), D(), W(), key);
      return true;
    }

    /** Expiry-aware read of the whole entry. */
    method Lookup(key: Bytes) returns (e: Option<Entry>)
      requires Valid()
      modifies shard`dirty, shard`replBuf, shard`sequence, shard`history, shard.dbs[db]
      ensures Valid()
      ensures Told(old(D()), old(W()), D(), W())
      ensures D() == Reaped(old(D()), key, now)
      ensures D() != old(D()) ==> D() == old(D()) - {key} && Logged() == old(Logged()) - {key}
      ensures D() == old(D()) ==> shard.history == old(shard.history)
      ensures LogsOnly(old(shard.history), shard.history, db)
      ensures e == if key in D() then Some(D()[key]) else None
    {
      hide ReplayDb, LogsOnly, Told;
      var _ := ExpireIfNeeded(key);
      e := if key in shard.dbs[db].dict then Some(shard.dbs[db].dict[key]) else None;
    }

    method SignalModified(key: Bytes)
      requires Valid()
      modifies `dirty, shard`dirty, shard.dbs[db]
      ensures Valid() && dirty == old(dirty) + 1 && D() == old(D()) && Signalled(old(W()), W(), key)
      ensures shard.dirty == old(shard.dirty) + 1
    {
      dirty := dirty + 1;
      shard.dirty := shard.dirty + 1;
      shard.dbs[db].SignalWatch(key);
    }

    /** Create or replace a key. */
    method Insert(key: Bytes, entry: Entry)
      requires Valid()
      modifies `dirty, shard`dirty, shard.dbs[db]
      ensures Valid() && dirty == old(dirty) + 1 && D() == old(D())[key := entry]
      ensures shard.dirty == old(shard.dirty) + 1
      ensures Told(old(D()), old(W()), D(), W())
    {
      dirty := dirty + 1;
      shard.dirty := shard.dirty + 1;
      shard.dbs[db].SignalWatch(key);
      shard.dbs[db].SetEntry(key, entry);
      ToldOne(old(D()), old(W()), D(), W(), key);
    }

    /** Delete a key; true if a live one was there. */
    method Remove(key: Bytes) returns (removed: bool)
      requires Valid()
      modifies `dirty, shard`dirty, shard`replBuf, shard`sequence, shard`history, shard.dbs[db]
      ensures Valid()
      ensures Told(old(D()), old(W()), D(), W())
      ensures removed <==> key in Live(old(D()), now)
      ensures D() == old(D()) - {key}
      ensures dirty == if removed then old(dirty) + 1 else old(dirty)
      ensures shard.dirty == old(shard.dirty) + if key in old(D()) then 1 else 0
      ensures Logged() == if key in old(D()) && !removed then old(Logged()) - {key} else old(Logged())
      ensures LogsOnly(old(shard.history), shard.history, db)
    {
      hide ReplayDb, LogsOnly, Told;
      var reaped := ExpireIfNeeded(key);
      ghost var d, w := D(), W();
      var slice := shard.dbs[db];
      removed := slice.RemoveEntry(key);
      if removed {
        shard.dirty := shard.dirty + 1;
        slice.SignalWatch(key);
        dirty := dirty + 1;
        ToldOne(d, w, D(), W(), key);
        ToldBoth(old(D()), old(W()), d, w, D(), W());
      } else {
        assert D() == d && W() == w;
      }
    }

    /** Set or clear a key's deadline. */
    method SetExpire(key: Bytes, at: Option<nat>) returns (ok: bool)
      requires Valid()
      modifies `dirty, shard`dirty, shard`replBuf, shard`sequence, shard`history, shard.dbs[db]
      ensures Valid() && LogsOnly(old(shard.history), shard.history, db)
      ensures Told(old(D()), old(W()), D(), W())
      ensures ok <==> key in Live(old(D()), now)
      ensures D() == if ok then WithDeadline(old(D()), key, at) else Reaped(old(D()), key, now)
      ensures Logged() == if Reaped(old(D()), key, now) != old(D()) then old(Logged()) - {key} else old(Logged())
      ensures Reaped(old(D()), key, now) == old(D()) ==> shard.history == old(shard.history)
      ensures dirty == if ok then old(dirty) + 1 else old(dirty)
      ensures shard.dirty == old(shard.dirty) + if key in old(D()) && (ok || D() != old(D())) then 1 else 0
    {
      var _ := ExpireIfNeeded(key);
      ghost var d, w := D(), W();
      ok := shard.dbs[db].SetExpire(key, at);
      if ok {
        SignalModified(key);
        ToldOne(d, w, D(), W(), key);
        ToldBoth(old(D()), old(W()), d, w, D(), W());
      }
    }

    method Propagate(cmd: Command)
      modifies `prop, `propBuf
      ensures prop == Explicit && propBuf == old(propBuf) + [cmd]
    {
      prop := Explicit;
      propBuf := propBuf + [cmd];
    }

    method PropagateNone()
      modifies `prop, `propBuf
      ensures prop == Suppressed && propBuf == []
    {
      prop, propBuf := Suppressed, [];
    }

    // --------------------------------------------------------------- handlers

    /** What dispatch will still log for this command. */
    function Pending(cmd: Command): seq<Command>
      reads this
    {
      match prop
      case Suppressed => []
      case Explicit => propBuf
      case Default => if IsWrite(cmd) && dirty > 0 then [cmd] else []
    }

    /** The contract of every handler: client-visible keys and reply are those of
        the command's meaning, replaying what is still to be logged closes the gap
        between the log and the dict, and watchers of changed keys can tell. */
    ghost predicate Promised(cmd: Command, r: Result<Reply>, before: Dict, watches: Watches, history: seq<Propagation>)
      requires Valid()
      reads this, shard, shard.dbs
    {
      && r == Meaning(cmd, Live(before, now), now).1
      && Live(D(), now) == Live(Meaning(cmd, Live(before, now), now).0, now)
      && (r.Err? ==> D() == Logged())
      && (r.Ok? ==> D() == PlainAll(Pending(cmd), Logged()))
      && (r.Ok? ==> forall c :: c in Pending(cmd) ==> ClockFree(c))
      && LogsOnly(history, shard.history, db)
      && Told(before, watches, D(), W())
    }

    method CmdGet(cmd: Command) returns (r: Result<Reply>)
      requires Valid() && Fresh() && D() == Logged() && cmd.Get?
      modifies this, shard`dirty, shard`replBuf, shard`sequence, shard`history, shard.dbs[db]
      ensures Valid()
      ensures Promised(cmd, r, old(D()), old(W()), old(shard.history))
    {
      hide ReplayDb, LogsOnly, Live, Reaped, Told;
      ReapedLive(D(), cmd.key, now);
      LiveTwice(D(), now);
      var e := Lookup(cmd.key);
      r := Ok(if e.Some? then Bulk(e.value.value) else Null);
    }

    method CmdPersist(cmd: Command) returns (r: Result<Reply>)
      requires Valid() && Fresh() && D() == Logged() && cmd.Persist?
      modifies this, shard`dirty, shard`replBuf, shard`sequence, shard`history, shard.dbs[db]
      ensures Valid()
      ensures Promised(cmd, r, old(D()), old(W()), old(shard.history))
    {
      hide ReplayDb, LogsOnly, Live, Reaped, Told;
      ghost var d := Reaped(D(), cmd.key, now);
      ReapedLive(D(), cmd.key, now);
      ReapedTwice(D(), cmd.key, now);
      LiveTwice(D(), now);
      var e := Lookup(cmd.key);
      if e == None || e.value.expireAt == None {
        PropagateNone();
        return Ok(Integer(0));
      }
      ghost var w := W();
      var _ := SetExpire(cmd.key, None);
      ToldBoth(old(D()), old(W()), d, w, D(), W());
      LiveUpdate(d, cmd.key, d[cmd.key].(expireAt := None), now);
      OnePlain(cmd, d);
      return Ok(Integer(1));
    }

    method CmdSet(cmd: Command) returns (r: Result<Reply>)
      requires Valid() && Fresh() && D() == Logged() && cmd.Set? && SaneTokens(cmd.options)
      modifies this, shard`dirty, shard`replBuf, shard`sequence, shard`history, shard.dbs[db]
      ensures Valid()
      ensures Promised(cmd, r, old(D()), old(W()), old(shard.history))
    {
      hide ReplayDb, LogsOnly, Live, Reaped, Options, Accepted, Reads, SaneTokens, Plain, PlainAll, ClockFree, Meaning, Shard.Valid, Told;
      MeaningOfOne(cmd, Live(D(), now), now);
      var key := cmd.key;
      ghost var d0 := D();
      ghost var d := Reaped(d0, key, now);
      ReapedLive(d0, key, now);
      ReapedTwice(d0, key, now);
      LiveTwice(d0, now);
      LogsOnlyNothing(shard.history, db);
      ToldNothing(D(), W());
      var parsed := ParseSetOptions(cmd.options, now);
      if parsed.Err? {
        return Err(parsed.error);
      }
      var o := parsed.value;
      OptionsSane(cmd.options, now);
      var e := Lookup(key);
      var reply := if o.get then (if e.Some? then Bulk(e.value.value) else Null) else if (o.nx && e.Some?) || (o.xx && e == None) then Null else Done;
      if (o.nx && e.Some?) || (o.xx && e == None) {
        OnePlain(cmd, d);
        PropagateNone();
        return Ok(reply);
      }
      var at := if o.keepTtl then (if e.Some? then e.value.expireAt else None) else o.expireAt;
      ghost var w := W();
      Insert(key, Entry(cmd.value, STRING, at));
      ToldBoth(d0, old(W()), d, w, D(), W());
      SetReplays(cmd, o, d, now, at);
      SetMeans(cmd, o, d0, now);
      if at.Some? {
        var logged := Set(key, cmd.value, [ExpiryToken(false, false, Int(at.value))]);
        Propagate(logged);
        assert propBuf == [logged];
        OnePlain(logged, d);
      } else {
        OnePlain(cmd, d);
      }
      return Ok(reply);
    }

    method CmdExpire(cmd: Command) returns (r: Result<Reply>)
      requires Valid() && Fresh() && D() == Logged() && cmd.Expire? && WellFormed(cmd)
      modifies this, shard`dirty, shard`replBuf, shard`sequence, shard`history, shard.dbs[db]
      ensures Valid()
      ensures Promised(cmd, r, old(D()), old(W()), old(shard.history))
    {
      hide ReplayDb, LogsOnly, Live, Reaped, Condition, PlainAll, Meaning, When, CondAllows, Shard.Valid, Told;
      MeaningOfOne(cmd, Live(D(), now), now);
      var key := cmd.key;
      ghost var d0 := D();
      ghost var d := Reaped(d0, key, now);
      ReapedLive(d0, key, now);
      ReapedTwice(d0, key, now);
      LiveTwice(d0, now);
      LogsOnlyNothing(shard.history, db);
      ToldNothing(D(), W());
      if !cmd.raw.Int? {
        return Err(NotAnInteger);
      }
      var cond := ParseExpireCond(cmd.conds);
      if cond.Err? {
        return Err(cond.error);
      }
      var resolved := ResolveWhen(cmd.raw.v, cmd.unitMs, cmd.absolute, now);
      if resolved.Err? {
        return Err(resolved.error);
      }
      var when := resolved.value;
      var e := Lookup(key);
      if e == None || !CondAllows(cond.value, e.value.expireAt, when) {
        OnePlain(cmd, d);
        PropagateNone();
        return Ok(Integer(0));
      }
      ghost var w := W();
      if when <= now {
        var _ := Remove(key);
        ToldBoth(d0, old(W()), d, w, D(), W());
        Propagate(Del([key], lazyExpire));
        assert propBuf == [Del([key], lazyExpire)];
        DelReplays(key, lazyExpire, d);
        LiveRemove(d, {key}, now);
        LiveTwice(d - {key}, now);
        return Ok(Integer(1));
      }
      var _ := SetExpire(key, Some(when));
      ToldBoth(d0, old(W()), d, w, D(), W());
      var logged := Expire(key, Int(when), true, true, []);
      Propagate(logged);
      assert propBuf == [logged];
      OnePlain(logged, d);
      LiveUpdate(d, key, d[key].(expireAt := Some(when)), now);
      return Ok(Integer(1));
    }

    method CmdDel(cmd: Command) returns (r: Result<Reply>)
      requires Valid() && Fresh() && D() == Logged() && cmd.Del?
      modifies this, shard`dirty, shard`replBuf, shard`sequence, shard`history, shard.dbs[db]
      ensures Valid()
      ensures Promised(cmd, r, old(D()), old(W()), old(shard.history))
    {
      hide ReplayDb, Live, LogsOnly, Shard.Valid, KeySet, Db.Valid, Told;
      var keys := cmd.keys;
      ghost var d0, live := D(), Live(D(), now);
      var removed := 0;
      LogsOnlyNothing(shard.history, db);
      ToldNothing(D(), W());
      NoKeys(keys, d0, live);
      for i := 0 to |keys|
        invariant Valid() && prop == Default && propBuf == []
        invariant LogsOnly(old(shard.history), shard.history, db)
        invariant D() == d0 - KeySet(keys[..i])
        invariant D() == Logged() - KeySet(keys[..i])
        invariant removed == dirty == |KeySet(keys[..i]) * live.Keys|
        invariant dirty == 0 ==> D() == Logged()
        invariant Told(d0, old(W()), D(), W())
      {
        ghost var before, w, logged, history := D(), W(), Logged(), shard.history;
        var gone := Remove(keys[i]);
        ToldBoth(d0, old(W()), before, w, D(), W());
        DelStep(keys, i, d0, before, logged, D(), Logged(), gone, now);
        LogsOnlyTrans(old(shard.history), history, shard.history, db);
        if gone {
          removed := removed + 1;
        }
      }
      assert keys[..|keys|] == keys;
      OnePlain(cmd, Logged());
      LiveRemove(d0, KeySet(keys), now);
      LiveTwice(D(), now);
      return Ok(Integer(removed));
    }

    method CmdMset(cmd: Command) returns (r: Result<Reply>)
      requires Valid() && Fresh() && D() == Logged() && cmd.Mset?
      modifies this, shard`dirty, shard`replBuf, shard`sequence, shard`history, shard.dbs[db]
      ensures Valid()
      ensures Promised(cmd, r, old(D()), old(W()), old(shard.history))
    {
      hide ReplayDb, Live, Told;
      var words := cmd.words;
      ghost var d := D();
      LiveTwice(d, now);
      ToldNothing(D(), W());
      if |words| < 2 || |words| % 2 != 0 {
        return Err(WrongArity);
      }
      var i := 0;
      NoPairs(words, d);
      while i + 1 < |words|
        invariant 0 <= i <= |words| && i % 2 == 0
        invariant Valid() && shard.history == old(shard.history)
        invariant prop == Default && propBuf == [] && (i > 0 ==> dirty > 0)
        invariant D() == SetPairs(words[..i], d) && Told(d, old(W()), D(), W())
      {
        MorePairs(words, i, d);
        ghost var before, w := D(), W();
        Insert(words[i], Entry(words[i + 1], STRING, None));
        ToldBoth(d, old(W()), before, w, D(), W());
        i := i + 2;
      }
      assert words[..i] == words;
      LivePairs(words, d, now);
      OnePlain(cmd, d);
      return Ok(Done);
    }
  }

  lemma MeaningOfOne(cmd: Command, live: Dict, now: nat)
    ensures cmd.Set? ==> Meaning(cmd, live, now) == SetMeaning(cmd, live, now)
    ensures cmd.Expire? ==> Meaning(cmd, live, now) == ExpireMeaning(cmd, live, now)
  {
  }

  lemma DelReplays(key: Bytes, unlink: bool, d: Dict)
    ensures PlainAll([Del([key], unlink)], d) == d - {key}
  {
    OnePlain(Del([key], unlink), d);
    assert KeySet([key]) == {key};
  }

  lemma LogsOnlyNothing(history: seq<Propagation>, db: nat)
    ensures LogsOnly(history, history, db)
  {
  }

  lemma LogsOnlyTrans(a: seq<Propagation>, b: seq<Propagation>, c: seq<Propagation>, db: nat)
    requires LogsOnly(a, b, db) && LogsOnly(b, c, db)
    ensures LogsOnly(a, c, db)
  {
    hide ReplayDb;
  }

  lemma NoKeys(keys: seq<Bytes>, d: Dict, live: Dict)
    ensures d - KeySet(keys[..0]) == d && |KeySet(keys[..0]) * live.Keys| == 0
  {
    assert KeySet(keys[..0]) == {};
  }

  lemma MoreKeys(keys: seq<Bytes>, i: nat)
    requires i < |keys|
    ensures KeySet(keys[..i + 1]) == KeySet(keys[..i]) + {keys[i]}
  {
  }

  lemma RemoveMore(d0: Dict, done: set<Bytes>, k: Bytes)
    ensures (d0 - done) - {k} == d0 - (done + {k})
    ensures (d0 - {k}) - (done + {k}) == d0 - (done + {k})
  {
  }

  lemma CountMore(done: set<Bytes>, live: set<Bytes>, k: Bytes)
    ensures |(done + {k}) * live| == |done * live| + if k in live && k !in done then 1 else 0
  {
    assert (done + {k}) * live == if k in live && k !in done then done * live + {k} else done * live;
  }

  lemma StillLive(d0: Dict, done: set<Bytes>, k: Bytes, now: nat)
    ensures k in Live(d0 - done, now) <==> k in Live(d0, now).Keys && k !in done
  {
  }

  /** One more key of a DEL: `d` and `logged` before, `d'` and `logged'` after. */
  lemma DelStep(keys: seq<Bytes>, i: nat, d0: Dict, d: Dict, logged: Dict, d': Dict, logged': Dict, gone: bool, now: nat)
    requires i < |keys| && d == d0 - KeySet(keys[..i]) && d == logged - KeySet(keys[..i])
    requires gone <==> keys[i] in Live(d, now)
    requires d' == d - {keys[i]}
    requires logged' == if keys[i] in d && !gone then logged - {keys[i]} else logged
    ensures d' == d0 - KeySet(keys[..i + 1]) && d' == logged' - KeySet(keys[..i + 1])
    ensures !gone && d == logged ==> d' == logged'
    ensures |KeySet(keys[..i + 1]) * Live(d0, now).Keys| == |KeySet(keys[..i]) * Live(d0, now).Keys| + if gone then 1 else 0
  {
    hide Live, KeySet;
    var k, done := keys[i], KeySet(keys[..i]);
    MoreKeys(keys, i);
    RemoveMore(d0, done, k);
    RemoveMore(logged, done, k);
    CountMore(done, Live(d0, now).Keys, k);
    StillLive(d0, done, k, now);
    if !gone && d == logged && k !in d {
      assert d - {k} == d;
    }
  }

  lemma ReapedTwice(d: Dict, key: Bytes, now: nat)
    ensures Reaped(Reaped(d, key, now), key, now) == Reaped(d, key, now)
  {
  }

  lemma OnePlain(cmd: Command, d: Dict)
    ensures PlainAll([cmd], d) == Plain(cmd, d) && PlainAll([], d) == d
  {
    assert [cmd][..0] == [];
  }

  lemma NoPairs(words: seq<Bytes>, d: Dict)
    ensures SetPairs(words[..0], d) == d
  {
  }

  lemma MorePairs(words: seq<Bytes>, i: nat, d: Dict)
    requires i + 1 < |words|
    ensures SetPairs(words[..i + 2], d) == SetPairs(words[..i], d)[words[i] := Entry(words[i + 1], STRING, None)]
  {
    assert words[..i + 2][..i] == words[..i];
  }

  // --------------------------------------------------------------- dispatch

  /** Run one command under the shard's lock: handler, then the log. */
  method Execute(shard: Shard, db: nat, cmd: Command, now: nat, lazyExpire: bool) returns (r: Result<Reply>)
    requires shard.Accounted() && db < |shard.dbs| && now <= Decimal.I64_MAX && WellFormed(cmd)
    modifies shard`dirty, shard`replBuf, shard`sequence, shard`history, shard.dbs[db]
    ensures shard.Accounted()
    ensures r == Meaning(cmd, Live(old(shard.dbs[db].dict), now), now).1
    ensures Live(shard.dbs[db].dict, now) == Live(Meaning(cmd, Live(old(shard.dbs[db].dict), now), now).0, now)
    ensures Told(old(shard.dbs[db].dict), old(shard.dbs[db].watch), shard.dbs[db].dict, shard.dbs[db].watch)
  {
    hide ReplayDb, Live, LogsOnly, Meaning, Plain, PlainAll, ClockFree, SaneTokens, Db.Valid, Told;
    var ctx := new Ctx(shard, db, now, lazyExpire);
    ghost var h0 := shard.history;
    match cmd {
      case Set(_, _, _) => r := ctx.CmdSet(cmd);
      case Mset(_) => r := ctx.CmdMset(cmd);
      case Del(_, _) => r := ctx.CmdDel(cmd);
      case Expire(_, _, _, _, _) => r := ctx.CmdExpire(cmd);
      case Persist(_) => r := ctx.CmdPersist(cmd);
      case Get(_) => r := ctx.CmdGet(cmd);
    }
    if r.Ok? {
      LogPending(shard, db, ctx, cmd, h0);
    }
    LogsOnlyMeans(h0, shard.history, db);
  }

  lemma LogsOnlyMeans(before: seq<Propagation>, after: seq<Propagation>, db: nat)
    requires LogsOnly(before, after, db)
    ensures forall j :: j != db ==> ReplayDb(after, j) == ReplayDb(before, j)
    ensures (forall i :: 0 <= i < |before| ==> ClockFree(before[i].cmd)) ==> forall i :: 0 <= i < |after| ==> ClockFree(after[i].cmd)
  {
  }

  /** The propagation step of dispatch. */
  method LogPending(shard: Shard, db: nat, ctx: Ctx, cmd: Command, ghost h0: seq<Propagation>)
    requires shard.Valid() && db < |shard.dbs|
    requires forall c :: c in ctx.Pending(cmd) ==> ClockFree(c)
    requires LogsOnly(h0, shard.history, db)
    modifies shard`dirty, shard`replBuf, shard`sequence, shard`history
    ensures shard.Valid()
    ensures LogsOnly(h0, shard.history, db)
    ensures ReplayDb(shard.history, db) == PlainAll(old(ctx.Pending(cmd)), old(ReplayDb(shard.history, db)))
  {
    hide ReplayDb, LogsOnly, Plain;
    match ctx.prop {
      case Suppressed =>
      case Explicit =>
        ghost var logged := ReplayDb(shard.history, db);
        var queue := ctx.propBuf;
        for k := 0 to |queue|
          invariant shard.Valid()
          invariant LogsOnly(h0, shard.history, db)
          invariant ReplayDb(shard.history, db) == PlainAll(queue[..k], logged)
        {
          assert queue[..k + 1][..k] == queue[..k];
          ReplayAppend(shard.history, Propagation(db, queue[k]), db);
          LogsOnlyAppend(h0, shard.history, db, queue[k]);
          shard.Propagate(db, queue[k]);
        }
        assert queue[..|queue|] == queue;
      case Default =>
        if IsWrite(cmd) && ctx.dirty > 0 {
          OnePlain(cmd, ReplayDb(shard.history, db));
          ReplayAppend(shard.history, Propagation(db, cmd), db);
          LogsOnlyAppend(h0, shard.history, db, cmd);
          shard.Propagate(db, cmd);
        }
    }
  }
}
