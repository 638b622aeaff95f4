/** From a command's arguments to the shards it locks. */
module LockSets {
  import opened ByteStrings
  import Arithmetic

  const U16: nat := 65536
  const SLOT_COUNT: nat := 16384

  type Args = seq<Bytes>

  /** The part of a command's entry that decides its keys. */
  datatype CommandSpec = CommandSpec(
    firstKey: int, lastKey: int, keyStep: int,
    allShards: bool, movableKeys: bool, getKeys: Option<Args -> seq<nat>>)

  // ------------------------------------------------------------ key positions

  /** The command declares the argument at `i` to be a key.  A negative last key
      says how many arguments, less one, are left out at the end. */
  ghost predicate Declares(spec: CommandSpec, args: Args, i: nat) {
    && i < |args|
    && if spec.movableKeys then spec.getKeys.Some? && i in spec.getKeys.value(args)
       else
         && spec.firstKey > 0 && spec.keyStep > 0
         && spec.firstKey <= i && (if spec.lastKey < 0 then |args| - i >= -spec.lastKey else i <= spec.lastKey)
         && (i - spec.firstKey) % spec.keyStep == 0
  }

  method KeyPositions(spec: CommandSpec, args: Args) returns (out: seq<nat>)
    ensures forall i: nat :: i in out <==> Declares(spec, args, i)
    ensures !spec.movableKeys ==> StrictlyAscending(out)
    ensures spec.firstKey >= 1 && spec.keyStep == 1 && !spec.movableKeys ==>
      && (spec.lastKey == -1 ==> forall i: nat :: i in out <==> spec.firstKey <= i < |args|)
      && (spec.lastKey < 0 ==> forall i: nat :: i in out <==> spec.firstKey <= i && i + (-spec.lastKey - 1) < |args|)
      && (spec.lastKey >= 0 ==> forall i: nat :: i in out <==> spec.firstKey <= i <= spec.lastKey && i < |args|)
  {
    out := [];
    if spec.movableKeys {
      if spec.getKeys.Some? {
        var found := spec.getKeys.value(args);
        for k := 0 to |found|
          invariant forall i: nat :: i in out <==> i < |args| && i in found[..k]
        {
          if found[k] < |args| {
            out := out + [found[k]];
          }
        }
        assert found[..|found|] == found;
      }
      return;
    }
    if spec.firstKey <= 0 || spec.keyStep <= 0 {
      return;
    }
    var last := if spec.lastKey < 0 then |args| + spec.lastKey else spec.lastKey;
    var i := spec.firstKey;
    ghost var m := 0;
    while i <= last && i < |args|
      invariant 0 <= m && i == spec.firstKey + m * spec.keyStep && i > 0
      invariant forall p: nat :: p in out <==> Declares(spec, args, p) && p < i
      invariant StrictlyAscending(out) && (|out| > 0 ==> out[|out| - 1] < i)
      decreases |args| - i
    {
      Multiple(m, spec.keyStep);
      forall p: nat | Declares(spec, args, p) && i <= p < i + spec.keyStep
        ensures p == i
      {
        NoneBetween(p - spec.firstKey, m, spec.keyStep);
      }
      AppendStrict(out, i);
      out := out + [i];
      NextMultiple(m, spec.keyStep);
      i := i + spec.keyStep;
      m := m + 1;
    }
  }

  lemma Multiple(m: nat, step: nat)
    requires step > 0
    ensures (m * step) % step == 0
  {
    Arithmetic.Division(m, 0, step);
  }

  lemma NextMultiple(m: nat, step: nat)
    ensures (m + 1) * step == m * step + step
  {
  }

  lemma NoneBetween(x: nat, m: nat, step: nat)
    requires step > 0 && x % step == 0 && m * step <= x < m * step + step
    ensures x == m * step
  {
    Arithmetic.Division(m, x - m * step, step);
  }

  // --------------------------------------------------------------- shard sets

  function ShardIndex(key: Bytes, slot: Bytes -> nat, n: nat): (i: nat)
    requires n > 0
    ensures i < n
  {
    slot(key) % n
  }

  function AllShards(n: nat): seq<nat> {
    seq(n % U16, i requires 0 <= i => i)
  }

  /** ALL_SHARDS really covers all shards exactly below 65536 of them. */
  lemma AllShardsCovers(n: nat)
    ensures (forall i: nat :: i < n ==> i in AllShards(n)) <==> n < U16
  {
    var all := AllShards(n);
    if n < U16 {
      forall i: nat | i < n
        ensures i in all
      {
        assert all[i] == i;
      }
    } else {
      var last: nat := n - 1;
      assert last < n && last !in all;
    }
  }

  class ShardSet {
    var v: seq<nat>

    constructor ()
      ensures v == []
    {
      v := [];
    }

    /** Every shard; the count goes through a 16-bit cast. */
    constructor All(n: nat)
      ensures v == AllShards(n)
    {
      v := AllShards(n);
    }

    method Insert(index: nat)
      modifies this
      ensures v == old(v) + [index % U16]
    {
      v := v + [index % U16];
    }

    /** Sort and drop repeats. */
    method Finish()
      modifies this
      ensures StrictlyAscending(v)
      ensures forall x: nat :: x in v <==> x in old(v)
    {
      var sorted := SortUnstable(v);
      v := Dedup(sorted);
    }
  }

  ghost predicate Sorted(v: seq<nat>) {
    forall i, j :: 0 <= i < j < |v| ==> v[i] <= v[j]
  }

  method SortUnstable(v: seq<nat>) returns (r: seq<nat>)
    ensures Sorted(r) && forall x: nat :: x in r <==> x in v
  {
    r := [];
    for k := 0 to |v|
      invariant Sorted(r) && forall x: nat :: x in r <==> x in v[..k]
    {
      var at: nat := |r|;
      while at > 0 && r[at - 1] > v[k]
        invariant at <= |r| && forall i :: at <= i < |r| ==> r[i] > v[k]
      {
        at := at - 1;
      }
      InsertedBetween(r, at, v[k]);
      r := r[..at] + [v[k]] + r[at..];
      assert v[..k + 1] == v[..k] + [v[k]];
    }
    assert v[..|v|] == v;
  }

  lemma InsertedBetween(r: seq<nat>, at: nat, x: nat)
    requires Sorted(r) && at <= |r| && (forall i :: at <= i < |r| ==> r[i] > x) && (at > 0 ==> r[at - 1] <= x)
    ensures var s := r[..at] + [x] + r[at..]; Sorted(s) && forall y: nat :: y in s <==> y in r || y == x
  {
    hide Sorted;
    var a, b := r[..at], r[at..];
    SortedParts(r, at);
    SortedJoin(a, [x]);
    assert a + [x] + b == (a + [x]) + b;
    SortedJoin(a + [x], b);
    assert r == a + b;
  }

  lemma SortedParts(r: seq<nat>, at: nat)
    requires Sorted(r) && at <= |r|
    ensures Sorted(r[..at]) && Sorted(r[at..]) && Sorted([0])
  {
  }

  lemma SortedJoin(a: seq<nat>, b: seq<nat>)
    requires Sorted(a) && Sorted(b) && (|a| > 0 && |b| > 0 ==> a[|a| - 1] <= b[0])
    ensures Sorted(a + b)
  {
  }

  lemma AppendStrict(r: seq<nat>, x: nat)
    requires StrictlyAscending(r) && (|r| > 0 ==> r[|r| - 1] < x)
    ensures StrictlyAscending(r + [x])
  {
  }

  method Dedup(v: seq<nat>) returns (r: seq<nat>)
    requires Sorted(v)
    ensures StrictlyAscending(r) && forall x: nat :: x in r <==> x in v
  {
    r := [];
    for k := 0 to |v|
      invariant StrictlyAscending(r) && forall x: nat :: x in r <==> x in v[..k]
      invariant if k == 0 then r == [] else |r| > 0 && r[|r| - 1] == v[k - 1]
    {
      if |r| == 0 || r[|r| - 1] != v[k] {
        AppendStrict(r, v[k]);
        r := r + [v[k]];
      }
      assert v[..k + 1] == v[..k] + [v[k]];
    }
    assert v[..|v|] == v;
  }

  /** The lock set of a command: strictly ascending, so every shard at most once,
      and exactly the shards of the declared keys. */
  method ShardSetFor(spec: CommandSpec, args: Args, n: nat, slot: Bytes -> nat) returns (locks: ShardSet)
    requires n > 0 && forall key :: slot(key) < SLOT_COUNT
    ensures fresh(locks) && StrictlyAscending(locks.v)
    ensures !spec.allShards ==>
      forall x: nat :: x in locks.v <==> exists i: nat :: Declares(spec, args, i) && ShardIndex(args[i], slot, n) == x
    ensures spec.allShards ==> forall x: nat :: x in locks.v <==> x in AllShards(n)
    ensures forall x: nat :: x in locks.v ==> x < n
    ensures spec.firstKey == spec.keyStep == 1 && spec.lastKey == -1 && !spec.movableKeys && !spec.allShards ==>
      forall i :: 1 <= i < |args| ==> ShardIndex(args[i], slot, n) in locks.v
  {
    if spec.allShards {
      locks := new ShardSet.All(n);
      locks.Finish();
      return;
    }
    locks := new ShardSet();
    var positions := KeyPositions(spec, args);
    for k := 0 to |positions|
      invariant fresh(locks)
      invariant forall x: nat :: x in locks.v <==> exists i: nat :: i in positions[..k] && i < |args| && ShardIndex(args[i], slot, n) == x
    {
      var pos := positions[k];
      assert pos in positions;
      var index := ShardIndex(args[pos], slot, n);
      ghost var before := locks.v;
      locks.Insert(index);
      assert index % U16 == index;
      assert positions[..k + 1] == positions[..k] + [pos];
    }
    assert positions[..|positions|] == positions;
    locks.Finish();
  }

  // ------------------------------------------------------------------ guards

  /** The shards a command has locked. */
  class ShardGuards {
    var guards: seq<nat>
    const n: nat
    const slot: Bytes -> nat

    /** Lock the shards of the set in its order. */
    constructor LockSet(locks: seq<nat>, n: nat, slot: Bytes -> nat)
      requires StrictlyAscending(locks)
      ensures this.n == n && this.slot == slot
      ensures StrictlyAscending(guards) && forall x: nat :: x in guards <==> x in locks && x < n
    {
      var got: seq<nat> := [];
      for k := 0 to |locks|
        invariant StrictlyAscending(got) && (|got| > 0 ==> got[|got| - 1] in locks[..k])
        invariant forall x: nat :: x in got <==> x in locks[..k] && x < n
      {
        if locks[k] < n {
          AppendStrict(got, locks[k]);
          got := got + [locks[k]];
        }
        assert locks[..k + 1] == locks[..k] + [locks[k]];
      }
      assert locks[..|locks|] == locks;
      guards := got;
      this.n, this.slot := n, slot;
    }

    method Shard(index: nat) returns (found: Option<nat>)
      ensures found == if index in guards then Some(index) else None
    {
      for k := 0 to |guards|
        invariant index !in guards[..k]
      {
        if guards[k] == index {
          return Some(index);
        }
      }
      assert guards[..|guards|] == guards;
      return None;
    }

    /** The locked shard that owns `key`. */
    method ForKey(key: Bytes) returns (found: Option<nat>)
      requires n > 0
      ensures found == if ShardIndex(key, slot, n) in guards then Some(ShardIndex(key, slot, n)) else None
    {
      found := Shard(ShardIndex(key, slot, n));
    }

    /** The least locked shard. */
    method Primary() returns (found: Option<nat>)
      requires StrictlyAscending(guards)
      ensures found == None <==> guards == []
      ensures found.Some? ==> found.value in guards && forall x: nat :: x in guards ==> found.value <= x
    {
      if |guards| == 0 {
        return None;
      }
      return Some(guards[0]);
    }
  }

  /** A handler reaches every key its command declares, and nothing it did not. */
  method ReachDeclared(spec: CommandSpec, args: Args, n: nat, slot: Bytes -> nat, key: Bytes) returns (found: Option<nat>)
    requires n > 0 && (forall k :: slot(k) < SLOT_COUNT) && (spec.allShards ==> n < U16)
    ensures found.Some? <==>
      spec.allShards || exists i: nat :: Declares(spec, args, i) && ShardIndex(args[i], slot, n) == ShardIndex(key, slot, n)
    ensures found.Some? ==> found.value == ShardIndex(key, slot, n)
    ensures spec.firstKey == spec.keyStep == 1 && spec.lastKey == -1 && !spec.movableKeys ==>
      forall i :: 1 <= i < |args| && args[i] == key ==> found.Some?
  {
    var locks := ShardSetFor(spec, args, n, slot);
    var guards := new ShardGuards.LockSet(locks.v, n, slot);
    AllShardsCovers(n);
    found := guards.ForKey(key);
  }
}
