/** The commands of the propagation log, their meaning and their replay. */
module Commands {
  import opened ByteStrings
  import opened Entries
  import Decimal

  const STRING: Bytes := [115, 116, 114, 105, 110, 103]

  // ------------------------------------------------------------- the commands

  /** A numeric argument as `string2ll` reads it. */
  datatype Number = Missing | Garbage | Int(v: int)

  datatype SetToken =
    | NxToken
    | XxToken
    | GetToken
    | KeepTtlToken
    | ExpiryToken(relative: bool, seconds: bool, arg: Number)
    | OtherToken

  datatype CondToken = CondNx | CondXx | CondGt | CondLt | CondOther

  /** All four spellings of EXPIRE are one command. */
  datatype Command =
    | Set(key: Bytes, value: Bytes, options: seq<SetToken>)
    | Mset(words: seq<Bytes>)
    | Del(keys: seq<Bytes>, unlink: bool)
    | Expire(key: Bytes, raw: Number, unitMs: bool, absolute: bool, conds: seq<CondToken>)
    | Persist(key: Bytes)
    | Get(key: Bytes)

  datatype CmdError = Syntax | NotAnInteger | InvalidExpire | WrongArity | UnsupportedOption | Incompatible

  datatype Result<+T> = Ok(value: T) | Err(error: CmdError)

  datatype Reply = Done | Null | Integer(n: int) | Bulk(b: Bytes)

  predicate IsWrite(cmd: Command) {
    !cmd.Get?
  }

  // ------------------------------------------------------------ SET's options

  datatype SetOptions = SetOptions(nx: bool, xx: bool, get: bool, keepTtl: bool, hasExpire: bool, expireAt: Option<nat>)

  const NO_OPTIONS: SetOptions := SetOptions(false, false, false, false, false, None)

  /** The deadline of an expiry option, clamped at the epoch. */
  function Deadline(relative: bool, seconds: bool, v: int, now: nat): Result<nat> {
    if relative && v <= 0 then Err(InvalidExpire)
    else if seconds && !Decimal.IsI64(v * 1000) then Err(InvalidExpire)
    else
      var ms := if seconds then v * 1000 else v;
      var at := if !relative then ms else if now + ms > Decimal.I64_MAX then Decimal.I64_MAX else now + ms;
      Ok(if at < 0 then 0 else at)
  }

  /** What one more token does to the options. */
  function AddOption(o: SetOptions, tok: SetToken, now: nat): Result<SetOptions> {
    match tok
    case NxToken => if o.xx then Err(Syntax) else Ok(o.(nx := true))
    case XxToken => if o.nx then Err(Syntax) else Ok(o.(xx := true))
    case GetToken => Ok(o.(get := true))
    case KeepTtlToken => if o.hasExpire then Err(Syntax) else Ok(o.(keepTtl := true))
    case ExpiryToken(relative, seconds, arg) =>
      if o.hasExpire || o.keepTtl || arg.Missing? then Err(Syntax)
      else if arg.Garbage? then Err(NotAnInteger)
      else
        (match Deadline(relative, seconds, arg.v, now)
         case Err(e) => Err(e)
         case Ok(at) => Ok(o.(hasExpire := true, expireAt := Some(at))))
    case OtherToken => Err(Syntax)
  }

  /** All tokens from left to right. */
  function Options(tokens: seq<SetToken>, now: nat): Result<SetOptions> {
    if |tokens| == 0 then Ok(NO_OPTIONS)
    else
      match Options(tokens[..|tokens| - 1], now)
      case Err(e) => Err(e)
      case Ok(o) => AddOption(o, tokens[|tokens| - 1], now)
  }

  /** The list makes sense: no stray word, not both NX and XX, and at most one
      deadline, which is a fitting number and excludes KEEPTTL. */
  ghost predicate Accepted(tokens: seq<SetToken>) {
    && OtherToken !in tokens && !(NxToken in tokens && XxToken in tokens)
    && (forall i, j :: 0 <= i < j < |tokens| && tokens[i].ExpiryToken? ==> !tokens[j].ExpiryToken?)
    && forall i :: 0 <= i < |tokens| && tokens[i].ExpiryToken? ==> KeepTtlToken !in tokens && GoodDeadline(tokens[i])
  }

  /** EX and PX take a positive number, and seconds are at most what an i64 holds in
      milliseconds. */
  ghost predicate GoodDeadline(t: SetToken)
    requires t.ExpiryToken?
  {
    t.arg.Int? && (t.relative ==> t.arg.v > 0) && (t.seconds ==> -9223372036854775 <= t.arg.v <= 9223372036854775)
  }

  function AtMost(x: int, bound: int): int {
    if x <= bound then x else bound
  }

  /** EX, PX, EXAT and PXAT in milliseconds since the epoch, kept within an i64. */
  ghost predicate MeansDeadline(t: SetToken, now: nat, at: nat)
    requires t.ExpiryToken? && t.arg.Int?
  {
    var v := t.arg.v;
    match (t.relative, t.seconds)
    case (true, true) => at == AtMost(now + 1000 * v, Decimal.I64_MAX)
    case (true, false) => at == AtMost(now + v, Decimal.I64_MAX)
    case (false, true) => if v < 0 then at == 0 else at == 1000 * v
    case (false, false) => if v < 0 then at == 0 else at == v
  }

  /** Every option is set exactly by its own word. */
  ghost predicate Reads(tokens: seq<SetToken>, now: nat, o: SetOptions) {
    && (o.nx <==> NxToken in tokens) && (o.xx <==> XxToken in tokens)
    && (o.get <==> GetToken in tokens) && (o.keepTtl <==> KeepTtlToken in tokens)
    && (o.hasExpire <==> exists i :: 0 <= i < |tokens| && tokens[i].ExpiryToken?)
    && (o.expireAt.Some? <==> o.hasExpire)
    && forall i :: 0 <= i < |tokens| && tokens[i].ExpiryToken? ==>
      tokens[i].arg.Int? && o.expireAt.Some? && MeansDeadline(tokens[i], now, o.expireAt.value)
  }

  /** What is wrong with the first token the list goes wrong at. */
  ghost predicate Blames(t: SetToken, e: CmdError) {
    match e
    case NotAnInteger => t.ExpiryToken? && t.arg.Garbage?
    case InvalidExpire => t.ExpiryToken? && t.arg.Int? && !GoodDeadline(t)
    case Syntax => true
    case _ => false
  }

  /** Exactly the lists that make sense are accepted, and read as they say. */
  lemma {:induction false} OptionsRead(tokens: seq<SetToken>, now: nat)
    requires now <= Decimal.I64_MAX
    ensures Options(tokens, now).Ok? <==> Accepted(tokens)
    ensures Options(tokens, now).Ok? ==> Reads(tokens, now, Options(tokens, now).value)
  {
    if |tokens| > 0 {
      var init, t := tokens[..|tokens| - 1], tokens[|tokens| - 1];
      OptionsRead(init, now);
      assert tokens == init + [t];
      if Options(init, now).Ok? {
        OneMoreOption(init, t, now, Options(init, now).value);
      } else {
        StillRefused(init, t);
      }
    }
  }

  lemma StillRefused(init: seq<SetToken>, t: SetToken)
    requires !Accepted(init)
    ensures !Accepted(init + [t])
  {
    var tokens := init + [t];
    assert forall i :: 0 <= i < |init| ==> tokens[i] == init[i];
    assert forall x :: x in init ==> x in tokens;
  }

  lemma OneMoreOption(init: seq<SetToken>, t: SetToken, now: nat, o: SetOptions)
    requires Accepted(init) && Reads(init, now, o) && now <= Decimal.I64_MAX
    ensures AddOption(o, t, now).Ok? <==> Accepted(init + [t])
    ensures AddOption(o, t, now).Ok? ==> Reads(init + [t], now, AddOption(o, t, now).value)
  {
    var tokens := init + [t];
    assert forall i :: 0 <= i < |init| ==> tokens[i] == init[i];
    assert forall x :: x in tokens <==> x in init || x == t;
    assert tokens[|init|] == t;
  }

  /** A refusal is that of the first token that does not fit. */
  lemma {:induction false} OptionsRefuse(tokens: seq<SetToken>, now: nat) returns (i: nat)
    requires Options(tokens, now).Err? && now <= Decimal.I64_MAX
    ensures i < |tokens| && Accepted(tokens[..i]) && !Accepted(tokens[..i + 1])
    ensures Blames(tokens[i], Options(tokens, now).error)
    ensures Options(tokens, now).error.Syntax? ==> !(tokens[i].ExpiryToken? && !tokens[i].arg.Missing? && Alone(tokens[..i]))
  {
    var init := tokens[..|tokens| - 1];
    if Options(init, now).Err? {
      i := OptionsRefuse(init, now);
      assert init[..i] == tokens[..i] && init[..i + 1] == tokens[..i + 1];
    } else {
      i := |tokens| - 1;
      OptionsRead(init, now);
      OptionsRead(tokens, now);
      assert tokens[..i + 1] == tokens;
    }
  }

  /** Nothing before it stands in the way of a deadline. */
  ghost predicate Alone(before: seq<SetToken>) {
    KeepTtlToken !in before && forall i :: 0 <= i < |before| ==> !before[i].ExpiryToken?
  }

  method ParseSetOptions(tokens: seq<SetToken>, now: nat) returns (r: Result<SetOptions>)
    requires now <= Decimal.I64_MAX
    ensures r == Options(tokens, now)
    ensures (r.Ok? <==> Accepted(tokens)) && (r.Ok? ==> Reads(tokens, now, r.value))
  {
    OptionsRead(tokens, now);
    var o := NO_OPTIONS;
    for i := 0 to |tokens|
      invariant Options(tokens[..i], now) == Ok(o)
    {
      assert tokens[..i + 1][..i] == tokens[..i];
      var step := AddOption(o, tokens[i], now);
      if step.Err? {
        OptionsStop(tokens, i + 1, now);
        return step;
      }
      o := step.value;
    }
    assert tokens[..|tokens|] == tokens;
    return Ok(o);
  }

  /** An error is final. */
  lemma {:induction false} OptionsStop(tokens: seq<SetToken>, i: nat, now: nat)
    requires i <= |tokens| && Options(tokens[..i], now).Err?
    ensures Options(tokens, now) == Options(tokens[..i], now)
    decreases |tokens|
  {
    if i < |tokens| {
      var init := tokens[..|tokens| - 1];
      assert init[..i] == tokens[..i];
      OptionsStop(init, i, now);
    } else {
      assert tokens[..i] == tokens;
    }
  }

  /** NX excludes XX, KEEPTTL excludes a deadline, and a deadline is an i64. */
  ghost predicate SaneOptions(o: SetOptions) {
    && !(o.nx && o.xx) && !(o.keepTtl && o.hasExpire)
    && (o.expireAt.Some? <==> o.hasExpire)
    && (o.expireAt.Some? ==> o.expireAt.value <= Decimal.I64_MAX)
  }

  ghost predicate SaneTokens(tokens: seq<SetToken>) {
    forall i :: 0 <= i < |tokens| && tokens[i].ExpiryToken? && tokens[i].arg.Int? ==> Decimal.IsI64(tokens[i].arg.v)
  }

  lemma {:induction false} OptionsSane(tokens: seq<SetToken>, now: nat)
    requires SaneTokens(tokens) && Options(tokens, now).Ok?
    ensures SaneOptions(Options(tokens, now).value)
  {
    if |tokens| > 0 {
      OptionsSane(tokens[..|tokens| - 1], now);
    }
  }

  // ---------------------------------------------------------- EXPIRE's options

  datatype ExpireCond = Always | IfNone | IfAny | IfLater | IfEarlier

  function Condition(conds: seq<CondToken>): Result<ExpireCond> {
    var nx, xx, gt, lt := CondNx in conds, CondXx in conds, CondGt in conds, CondLt in conds;
    if CondOther in conds then Err(UnsupportedOption)
    else if gt && lt then Err(Incompatible)
    else if nx && (xx || gt || lt) then Err(Incompatible)
    else Ok(if nx then IfNone else if xx then IfAny else if gt then IfLater else if lt then IfEarlier else Always)
  }

  method ParseExpireCond(conds: seq<CondToken>) returns (r: Result<ExpireCond>)
    ensures r == Condition(conds)
    ensures r.Err? <==>
      || CondOther in conds || (CondGt in conds && CondLt in conds)
      || (CondNx in conds && (CondXx in conds || CondGt in conds || CondLt in conds))
  {
    var nx, xx, gt, lt := false, false, false, false;
    for i := 0 to |conds|
      invariant nx <==> CondNx in conds[..i]
      invariant xx <==> CondXx in conds[..i]
      invariant gt <==> CondGt in conds[..i]
      invariant lt <==> CondLt in conds[..i]
      invariant CondOther !in conds[..i]
    {
      match conds[i] {
        case CondNx => nx := true;
        case CondXx => xx := true;
        case CondGt => gt := true;
        case CondLt => lt := true;
        case CondOther => return Err(UnsupportedOption);
      }
    }
    assert conds[..|conds|] == conds;
    if gt && lt {
      return Err(Incompatible);
    }
    if nx && (xx || gt || lt) {
      return Err(Incompatible);
    }
    return Ok(if nx then IfNone else if xx then IfAny else if gt then IfLater else if lt then IfEarlier else Always);
  }

  /** A key without deadline counts as expiring at infinity. */
  predicate CondAllows(cond: ExpireCond, current: Option<nat>, when: int) {
    match cond
    case Always => true
    case IfNone => current == None
    case IfAny => current.Some?
    case IfLater => current.Some? && when > current.value
    case IfEarlier => current == None || when < current.value
  }

  /** What the flags say, each for itself: NX asks for a key without a deadline,
      XX for one with, and GT and LT compare, no deadline being the latest. */
  ghost predicate EveryFlagHolds(conds: seq<CondToken>, current: Option<nat>, when: int) {
    && (CondNx in conds ==> current == None)
    && (CondXx in conds ==> current.Some?)
    && (CondGt in conds ==> current.Some? && when > current.value)
    && (CondLt in conds ==> current == None || when < current.value)
  }

  /** XX beside a comparison: the one accepted combination that is misread. */
  predicate XxWithComparison(conds: seq<CondToken>) {
    CondXx in conds && (CondGt in conds || CondLt in conds)
  }

  /** The accepted flags are tested as each of them says, for every deadline
      there can be, exactly unless XX stands beside GT or LT. */
  lemma FlagsHonoured(conds: seq<CondToken>)
    requires Condition(conds).Ok?
    ensures (forall current, when :: CondAllows(Condition(conds).value, current, when) <==> EveryFlagHolds(conds, current, when))
      <==> !XxWithComparison(conds)
  {
    if XxWithComparison(conds) {
      var when := if CondGt in conds then 3 else 7;
      assert CondAllows(Condition(conds).value, Some(5), when);
      assert !EveryFlagHolds(conds, Some(5), when);
    }
  }

  /** The argument of EXPIRE in milliseconds. */
  function Millis(raw: int, unitMs: bool): int {
    if unitMs then raw else raw * 1000
  }

  /** The absolute deadline EXPIRE asks for, or an overflow. */
  function When(raw: int, unitMs: bool, absolute: bool, now: nat): Result<int> {
    var ms, base := Millis(raw, unitMs), if absolute then 0 else now;
    if Decimal.IsI64(ms) && Decimal.IsI64(ms + base) then Ok(ms + base) else Err(InvalidExpire)
  }

  // -------------------------------------------------------- clock-free replay

  function WithDeadline(d: Dict, key: Bytes, at: Option<nat>): Dict
    requires key in d
  {
    d[key := d[key].(expireAt := at)]
  }

  function SetPairs(words: seq<Bytes>, d: Dict): Dict {
    if |words| < 2 then d
    else SetPairs(words[..|words| - 2], d)[words[|words| - 2] := Entry(words[|words| - 1], STRING, None)]
  }

  function Stored(cmd: Command, o: SetOptions, d: Dict): Dict
    requires cmd.Set?
  {
    var kept := if cmd.key in d then d[cmd.key].expireAt else None;
    d[cmd.key := Entry(cmd.value, STRING, if o.keepTtl then kept else o.expireAt)]
  }

  function KeySet(keys: seq<Bytes>): set<Bytes> {
    set k | k in keys
  }

  /** What a log entry does to a dict when it is replayed, whatever the time:
      nothing expires and deadlines are taken as they are. */
  function Plain(cmd: Command, d: Dict): Dict {
    match cmd
    case Set(key, value, options) =>
      (match Options(options, 0)
       case Err(_) => d
       case Ok(o) => if (o.nx && key in d) || (o.xx && key !in d) then d else Stored(cmd, o, d))
    case Mset(words) => if |words| % 2 == 0 then SetPairs(words, d) else d
    case Del(keys, _) => d - KeySet(keys)
    case Expire(key, raw, unitMs, absolute, conds) =>
      if key in d && raw.Int? && raw.v >= 0 && unitMs && absolute && conds == [] then WithDeadline(d, key, Some(raw.v)) else d
    case Persist(key) => if key in d then WithDeadline(d, key, None) else d
    case Get(_) => d
  }

  /** The entry reads the same at any time: no offsets, no conditions. */
  ghost predicate ClockFree(cmd: Command) {
    match cmd
    case Set(_, _, options) => forall i :: 0 <= i < |options| ==> !(options[i].ExpiryToken? && options[i].relative)
    case Expire(_, raw, unitMs, absolute, conds) => raw.Int? && 0 <= raw.v <= Decimal.I64_MAX && unitMs && absolute && conds == []
    case _ => true
  }

  lemma {:induction false} ClockFreeOptions(tokens: seq<SetToken>, now: nat, now': nat)
    requires forall i :: 0 <= i < |tokens| ==> !(tokens[i].ExpiryToken? && tokens[i].relative)
    ensures Options(tokens, now) == Options(tokens, now')
  {
    if |tokens| > 0 {
      ClockFreeOptions(tokens[..|tokens| - 1], now, now');
    }
  }

  datatype Propagation = Propagation(db: nat, cmd: Command)

  /** Replaying a log over all databases. */
  function Replay(log: seq<Propagation>, start: seq<Dict>): (r: seq<Dict>)
    ensures |r| == |start|
  {
    if |log| == 0 then start
    else
      var before := Replay(log[..|log| - 1], start);
      var p := log[|log| - 1];
      if p.db < |start| then before[p.db := Plain(p.cmd, before[p.db])] else before
  }

  /** The part of the replay that concerns one database. */
  function ReplayDb(log: seq<Propagation>, db: nat): Dict {
    if |log| == 0 then map[]
    else
      var before := ReplayDb(log[..|log| - 1], db);
      var p := log[|log| - 1];
      if p.db == db then Plain(p.cmd, before) else before
  }

  lemma {:induction false} ReplayByDb(log: seq<Propagation>, n: nat, db: nat)
    requires db < n
    ensures Replay(log, seq(n, _ => map[]))[db] == ReplayDb(log, db)
  {
    hide Plain;
    if |log| > 0 {
      ReplayByDb(log[..|log| - 1], n, db);
    }
  }

  lemma ReplayAppend(log: seq<Propagation>, p: Propagation, db: nat)
    ensures ReplayDb(log + [p], db) == if p.db == db then Plain(p.cmd, ReplayDb(log, db)) else ReplayDb(log, db)
  {
    assert (log + [p])[..|log|] == log;
  }

  function PlainAll(cmds: seq<Command>, d: Dict): Dict {
    if |cmds| == 0 then d else Plain(cmds[|cmds| - 1], PlainAll(cmds[..|cmds| - 1], d))
  }

  // ------------------------------------------------------------- the meaning

  /** The keys a client can see. */
  function Live(d: Dict, now: nat): Dict {
    map k | k in d && !IsExpired(d[k], now) :: d[k]
  }

  function OldValue(live: Dict, key: Bytes): Reply {
    if key in live then Bulk(live[key].value) else Null
  }

  /** What a command means for the keys a client can see at `now`, and its reply. */
  function Meaning(cmd: Command, live: Dict, now: nat): (Dict, Result<Reply>) {
    match cmd
    case Set(_, _, _) => SetMeaning(cmd, live, now)
    case Mset(words) => if |words| < 2 || |words| % 2 != 0 then (live, Err(WrongArity)) else (SetPairs(words, live), Ok(Done))
    case Del(keys, _) => (live - KeySet(keys), Ok(Integer(|KeySet(keys) * live.Keys|)))
    case Expire(_, _, _, _, _) => ExpireMeaning(cmd, live, now)
    case Persist(key) =>
      if key in live && live[key].expireAt.Some? then (WithDeadline(live, key, None), Ok(Integer(1))) else (live, Ok(Integer(0)))
    case Get(key) => (live, Ok(OldValue(live, key)))
  }

  function SetMeaning(cmd: Command, live: Dict, now: nat): (Dict, Result<Reply>)
    requires cmd.Set?
  {
    match Options(cmd.options, now)
    case Err(e) => (live, Err(e))
    case Ok(o) =>
      if (o.nx && cmd.key in live) || (o.xx && cmd.key !in live) then
        (live, Ok(if o.get then OldValue(live, cmd.key) else Null))
      else (Stored(cmd, o, live), Ok(if o.get then OldValue(live, cmd.key) else Done))
  }

  function ExpireMeaning(cmd: Command, live: Dict, now: nat): (Dict, Result<Reply>)
    requires cmd.Expire?
  {
    if !cmd.raw.Int? then (live, Err(NotAnInteger))
    else
      match Condition(cmd.conds)
      case Err(e) => (live, Err(e))
      case Ok(cond) =>
        match When(cmd.raw.v, cmd.unitMs, cmd.absolute, now)
        case Err(e) => (live, Err(e))
        case Ok(at) =>
          if cmd.key !in live || !CondAllows(cond, live[cmd.key].expireAt, at) then (live, Ok(Integer(0)))
          else if at <= now then (live - {cmd.key}, Ok(Integer(1)))
          else (WithDeadline(live, cmd.key, Some(at)), Ok(Integer(1)))
  }

  /** What EXPIRE would mean if every flag were tested. */
  ghost function FlagMeaning(cmd: Command, live: Dict, now: nat): (Dict, Result<Reply>)
    requires cmd.Expire?
  {
    if !cmd.raw.Int? then (live, Err(NotAnInteger))
    else
      match Condition(cmd.conds)
      case Err(e) => (live, Err(e))
      case Ok(_) =>
        match When(cmd.raw.v, cmd.unitMs, cmd.absolute, now)
        case Err(e) => (live, Err(e))
        case Ok(at) =>
          if cmd.key !in live || !EveryFlagHolds(cmd.conds, live[cmd.key].expireAt, at) then (live, Ok(Integer(0)))
          else if at <= now then (live - {cmd.key}, Ok(Integer(1)))
          else (WithDeadline(live, cmd.key, Some(at)), Ok(Integer(1)))
  }

  /** EXPIRE, PEXPIRE, EXPIREAT and PEXPIREAT do, on every keyspace and with every
      deadline, what their flags say, exactly unless XX stands beside GT or LT. */
  lemma ExpireHonoursFlags(conds: seq<CondToken>)
    requires Condition(conds).Ok?
    ensures (forall cmd: Command, live: Dict, now: nat :: cmd.Expire? && cmd.conds == conds ==>
              Meaning(cmd, live, now) == FlagMeaning(cmd, live, now))
      <==> !XxWithComparison(conds)
  {
    FlagsHonoured(conds);
    if XxWithComparison(conds) {
      var at := if CondGt in conds then 3 else 7;
      var cmd := Expire([], Int(at), true, true, conds);
      var live: Dict := map[[] := Entry([], STRING, Some(5))];
      XxMisread(cmd, live, 0, at);
      assert Meaning(cmd, live, 0) != FlagMeaning(cmd, live, 0);
    } else {
      forall cmd: Command, live: Dict, now: nat | cmd.Expire? && cmd.conds == conds
        ensures Meaning(cmd, live, now) == FlagMeaning(cmd, live, now)
      {
        if cmd.raw.Int? && When(cmd.raw.v, cmd.unitMs, cmd.absolute, now).Ok? && cmd.key in live {
          var at := When(cmd.raw.v, cmd.unitMs, cmd.absolute, now).value;
          assert CondAllows(Condition(conds).value, live[cmd.key].expireAt, at) <==> EveryFlagHolds(conds, live[cmd.key].expireAt, at);
        }
      }
    }
  }

  /** With both, a key that has a deadline gets the new one even where GT or LT
      forbids it: EXPIRE XX GT shortens a deadline, EXPIRE XX LT prolongs one. */
  lemma XxMisread(cmd: Command, live: Dict, now: nat, at: int)
    requires cmd.Expire? && XxWithComparison(cmd.conds) && Condition(cmd.conds).Ok? && cmd.raw.Int?
    requires When(cmd.raw.v, cmd.unitMs, cmd.absolute, now) == Ok(at) && at > now
    requires cmd.key in live && live[cmd.key].expireAt.Some? && at != live[cmd.key].expireAt.value
    requires if CondGt in cmd.conds then at < live[cmd.key].expireAt.value else at > live[cmd.key].expireAt.value
    ensures Meaning(cmd, live, now) == (live[cmd.key := live[cmd.key].(expireAt := Some(at))], Ok(Integer(1)))
    ensures FlagMeaning(cmd, live, now) == (live, Ok(Integer(0)))
    ensures Meaning(cmd, live, now).0 != live
  {
    assert Meaning(cmd, live, now).0[cmd.key].expireAt == Some(at);
  }

  /** PEXPIREAT k 3000 XX GT over a key that expires at 5000 makes it 3000. */
  lemma XxGtShortens(k: Bytes, v: Bytes, now: nat) returns (cmd: Command, live: Dict)
    requires now < 3000
    ensures cmd == Expire(k, Int(3000), true, true, [CondXx, CondGt]) && live == map[k := Entry(v, STRING, Some(5000))]
    ensures Meaning(cmd, live, now) == (map[k := Entry(v, STRING, Some(3000))], Ok(Integer(1)))
    ensures FlagMeaning(cmd, live, now) == (live, Ok(Integer(0)))
  {
    cmd, live := Expire(k, Int(3000), true, true, [CondXx, CondGt]), map[k := Entry(v, STRING, Some(5000))];
    assert CondXx in cmd.conds && CondGt in cmd.conds && CondNx !in cmd.conds && CondLt !in cmd.conds && CondOther !in cmd.conds;
    XxMisread(cmd, live, now, 3000);
    assert live[k := Entry(v, STRING, Some(3000))] == map[k := Entry(v, STRING, Some(3000))];
  }

  /** Where nothing has expired, replaying an entry is running it, for what a client
      can see. */
  lemma PlainIsMeaning(cmd: Command, d: Dict, now: nat)
    requires ClockFree(cmd) && forall k :: k in d ==> !IsExpired(d[k], now)
    ensures Live(Plain(cmd, d), now) == Live(Meaning(cmd, d, now).0, now)
  {
    match cmd
    case Set(_, _, options) => ClockFreeOptions(options, now, 0);
    case _ =>
  }

  // -------------------------------------------------------- what clients rely on

  /** A key is there until its deadline. */
  lemma LiveUntil(d: Dict, k: Bytes, now: nat)
    ensures k in Live(d, now) <==> k in d && (d[k].expireAt == None || now < d[k].expireAt.value)
    ensures k in Live(d, now) ==> Live(d, now)[k] == d[k]
  {
  }

  /** NX keeps a stored key from being written, XX an absent one. */
  ghost predicate Blocked(key: Bytes, tokens: seq<SetToken>, live: Dict) {
    (NxToken in tokens && key in live) || (XxToken in tokens && key !in live)
  }

  /** The deadline SET leaves: the old one under KEEPTTL, the one it names, or none. */
  ghost predicate LeavesDeadline(tokens: seq<SetToken>, before: Option<nat>, now: nat, at: Option<nat>) {
    && (KeepTtlToken in tokens ==> at == before)
    && (forall i :: 0 <= i < |tokens| && tokens[i].ExpiryToken? ==> at.Some? && tokens[i].arg.Int? && MeansDeadline(tokens[i], now, at.value))
    && (KeepTtlToken !in tokens && (forall i :: 0 <= i < |tokens| ==> !tokens[i].ExpiryToken?) ==> at == None)
  }

  /** SET, option by option: a refused list changes nothing; a blocked SET changes
      nothing; any other stores the value and its deadline, and touches no other
      key.  GET replies with the old value, whatever happens. */
  lemma SetLaw(key: Bytes, value: Bytes, tokens: seq<SetToken>, live: Dict, now: nat)
    requires now <= Decimal.I64_MAX
    ensures var (after, r) := Meaning(Set(key, value, tokens), live, now);
      && (r.Ok? <==> Accepted(tokens))
      && (!Accepted(tokens) || Blocked(key, tokens, live) ==> after == live)
      && (Accepted(tokens) && !Blocked(key, tokens, live) ==>
        && key in after && after[key].value == value && after - {key} == live - {key}
        && after[key].typeName == [115, 116, 114, 105, 110, 103]
        && LeavesDeadline(tokens, if key in live then live[key].expireAt else None, now, after[key].expireAt))
      && (Accepted(tokens) ==>
        r.value == if GetToken in tokens then (if key in live then Bulk(live[key].value) else Null)
                   else if Blocked(key, tokens, live) then Null else Done)
  {
    OptionsRead(tokens, now);
    if Accepted(tokens) {
      var o := Options(tokens, now).value;
      assert Stored(Set(key, value, tokens), o, live) - {key} == live - {key};
    }
  }

  /** EXPIRE, PEXPIRE, EXPIREAT and PEXPIREAT without flags: a deadline that is an
      i64 in milliseconds and passes no i64 is set, or deletes the key at once if it
      is not ahead. */
  lemma ExpireLaw(key: Bytes, v: int, unitMs: bool, absolute: bool, live: Dict, now: nat)
    requires now <= Decimal.I64_MAX
    ensures var (after, r) := Meaning(Expire(key, Int(v), unitMs, absolute, []), live, now);
      var ms := if unitMs then v else 1000 * v;
      var at := if absolute then ms else now + ms;
      var fits := -0x8000_0000_0000_0000 <= ms && ms < 0x8000_0000_0000_0000 && at < 0x8000_0000_0000_0000;
      && (!fits ==> after == live && r == Err(InvalidExpire))
      && (fits && key !in live ==> after == live && r == Ok(Integer(0)))
      && (fits && key in live && at <= now ==> after == live - {key} && r == Ok(Integer(1)))
      && (fits && key in live && at > now ==> after == live[key := live[key].(expireAt := Some(at))] && r == Ok(Integer(1)))
  {
  }

  /** The last pair of an MSET that names a key. */
  ghost predicate LastPair(words: seq<Bytes>, i: nat) {
    i % 2 == 0 && i + 1 < |words| && forall j :: i < j < |words| && j % 2 == 0 ==> words[j] != words[i]
  }

  /** MSET gives every key it names its last value and no deadline, */
  lemma {:induction false} MsetLaw(words: seq<Bytes>, live: Dict, i: nat)
    requires |words| % 2 == 0 && LastPair(words, i)
    ensures words[i] in SetPairs(words, live) && SetPairs(words, live)[words[i]] == Entry(words[i + 1], STRING, None)
    decreases |words|
  {
    var n := |words| - 2;
    if i < n {
      var init := words[..n];
      assert words[n] != words[i] == init[i];
      assert forall j :: 0 <= j < n ==> init[j] == words[j];
      MsetLaw(init, live, i);
    }
  }

  /** ... and touches no other. */
  lemma {:induction false} MsetOthers(words: seq<Bytes>, live: Dict, k: Bytes)
    requires |words| % 2 == 0 && forall i :: 0 <= i < |words| && i % 2 == 0 ==> words[i] != k
    ensures k in SetPairs(words, live) <==> k in live
    ensures k in live ==> SetPairs(words, live)[k] == live[k]
    decreases |words|
  {
    if |words| >= 2 {
      var n := |words| - 2;
      assert words[n] != k;
      MsetOthers(words[..n], live, k);
    }
  }
}
