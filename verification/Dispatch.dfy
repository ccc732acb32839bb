/**
 * Commands run on the store object. Each is proved to answer and to change the
 * live keys as `Commands.Exec` says, so lazy expiry and the two maps behind the
 * store stay invisible; `RunTrace` carries this over whole runs.
 */
module Dispatch {
  import opened Bytes
  import opened Resp
  import opened Keyspace
  import opened MemoryStore
  import opened Commands

  // ------------------------------------------------------------ SET options

  method ParseSetOptions(args: seq<bytes>) returns (r: Choice<SetOptions>)
    ensures r == SetOptionsOf(args, NO_OPTIONS)
  {
    hide TokenOf, TtlChoiceOf;
    var opts := NO_OPTIONS;
    var ttlSet, existenceSet := false, false;
    var i := 0;
    while i < |args|
      invariant i <= |args|
      invariant ttlSet == !opts.ttl.Default? && existenceSet == !opts.existence.Always?
      invariant SetOptionsOf(args, NO_OPTIONS) == SetOptionsOf(args[i..], opts)
    {
      assert args[i..][1..] == args[i + 1..];
      match TokenOf(args[i]) {
        case NX_TOKEN =>
          if existenceSet {
            return Rejected(Syntax);
          }
          opts, existenceSet, i := opts.(existence := OnlyIfMissing), true, i + 1;
        case XX_TOKEN =>
          if existenceSet {
            return Rejected(Syntax);
          }
          opts, existenceSet, i := opts.(existence := OnlyIfPresent), true, i + 1;
        case KEEPTTL_TOKEN =>
          if ttlSet {
            return Rejected(Syntax);
          }
          opts, ttlSet, i := opts.(ttl := Keep), true, i + 1;
        case GET_TOKEN =>
          if opts.get {
            return Rejected(Syntax);
          }
          opts, i := opts.(get := true), i + 1;
        case TTL_TOKEN(unit) =>
          if ttlSet || i + 1 >= |args| {
            return Rejected(Syntax);
          }
          assert args[i..][2..] == args[i + 2..];
          var t := TtlChoiceOf(unit, args[i + 1]);
          NeverDefault(unit, args[i + 1]);
          if t.Rejected? {
            return Rejected(t.why);
          }
          opts, ttlSet, i := opts.(ttl := t.value), true, i + 2;
        case OTHER_TOKEN =>
          return Rejected(Syntax);
      }
    }
    r := Picked(opts);
  }

  lemma NeverDefault(unit: bytes, arg: bytes)
    ensures TtlChoiceOf(unit, arg).Picked? ==> !TtlChoiceOf(unit, arg).value.Default?
  {
  }

  method ExecuteSet(store: Store, args: seq<bytes>, at: Clock) returns (r: Answer)
    requires store.Valid() && |args| >= 2
    modifies store
    ensures store.Valid()
    ensures var e := ExecSet(args, old(store.View(at.instant)), at);
            r == e.result && store.View(at.instant) == Live(e.keys, at.instant)
  {
    hide SetOptionsOf, ResolveTtl;
    LiveLater(store.data, at.instant, at.instant);
    if !IsUtf8(args[0]) {
      return Refused(NotText);
    }
    var o := ParseSetOptions(args[2..]);
    if o.Rejected? {
      return Refused(o.why);
    }
    var ttl := ResolveTtl(o.value.ttl, at);
    var outcome := store.SetWithOptions(args[0], Str(args[1]), ttl, o.value.existence, at.instant);
    r := SetReply(o.value.get, outcome.applied, outcome.previous);
  }

  // ------------------------------------------------- loops over arguments

  method ExecuteDel(store: Store, args: seq<bytes>, now: Instant) returns (r: Answer)
    requires store.Valid()
    modifies store
    ensures store.Valid()
    ensures var e := DelLoop(args, old(store.View(now)), 0);
            r == e.result && store.View(now) == e.keys
  {
    var deleted := 0;
    for i := 0 to |args|
      invariant store.Valid()
      invariant DelLoop(args, old(store.View(now)), 0) == DelLoop(args[i..], store.View(now), deleted)
    {
      assert args[i..][1..] == args[i + 1..];
      if !IsUtf8(args[i]) {
        return Refused(NotText);
      }
      var removed := store.DeleteKey(args[i], now);
      if removed {
        deleted := deleted + 1;
      }
    }
    r := Done(Count(deleted));
  }

  method ExecuteExists(store: Store, args: seq<bytes>, now: Instant) returns (r: Answer)
    requires store.Valid()
    modifies store
    ensures store.Valid() && store.View(now) == old(store.View(now))
    ensures r == ExistsLoop(args, store.View(now), 0)
  {
    var found := 0;
    for i := 0 to |args|
      invariant store.Valid() && store.View(now) == old(store.View(now))
      invariant ExistsLoop(args, store.View(now), 0) == ExistsLoop(args[i..], store.View(now), found)
    {
      assert args[i..][1..] == args[i + 1..];
      if !IsUtf8(args[i]) {
        return Refused(NotText);
      }
      var present := store.Exists(args[i], now);
      if present {
        found := found + 1;
      }
    }
    r := Done(Count(found));
  }

  method ExecuteMget(store: Store, args: seq<bytes>, now: Instant) returns (r: Answer)
    requires store.Valid()
    modifies store
    ensures store.Valid() && store.View(now) == old(store.View(now))
    ensures r == MgetLoop(args, store.View(now), [])
  {
    var out: seq<Option<bytes>> := [];
    for i := 0 to |args|
      invariant store.Valid() && store.View(now) == old(store.View(now))
      invariant MgetLoop(args, store.View(now), []) == MgetLoop(args[i..], store.View(now), out)
    {
      assert args[i..][1..] == args[i + 1..];
      if !IsUtf8(args[i]) {
        return Refused(NotText);
      }
      var found := store.Get(args[i], now);
      match found {
        case None => out := out + [None];
        case Some(e) =>
          match e.value {
            case Str(b) => out := out + [Some(b)];
            case Int(n) => out := out + [Some(Decimal(n))];
            case _ => out := out + [None];
          }
      }
    }
    r := Done(Values(out));
  }

  method ExecuteMset(store: Store, args: seq<bytes>, now: Instant) returns (r: Answer)
    requires store.Valid() && |args| % 2 == 0
    modifies store
    ensures store.Valid()
    ensures var e := MsetLoop(args, old(store.View(now)));
            r == e.result && store.View(now) == e.keys
  {
    var i := 0;
    while i < |args|
      invariant i <= |args| && i % 2 == 0
      invariant store.Valid()
      invariant MsetLoop(args, old(store.View(now))) == MsetLoop(args[i..], store.View(now))
    {
      assert args[i..][2..] == args[i + 2..];
      if !IsUtf8(args[i]) {
        return Refused(NotText);
      }
      store.Set(args[i], Str(args[i + 1]), now);
      i := i + 2;
    }
    r := OK_REPLY;
  }

  method ExecuteHset(store: Store, key: Key, args: seq<bytes>, now: Instant) returns (r: Answer)
    requires store.Valid() && |args| % 2 == 0
    modifies store
    ensures store.Valid()
    ensures var e := HsetLoop(key, args, old(store.View(now)), 0);
            r == e.result && store.View(now) == e.keys
  {
    hide SetField;
    var newFields := 0;
    var i := 0;
    while i < |args|
      invariant i <= |args| && i % 2 == 0
      invariant store.Valid()
      invariant HsetLoop(key, args, old(store.View(now)), 0) == HsetLoop(key, args[i..], store.View(now), newFields)
    {
      assert args[i..][2..] == args[i + 2..];
      if !IsUtf8(args[i]) || !IsUtf8(args[i + 1]) {
        return Refused(NotText);
      }
      ghost var before := store.View(now);
      var added := store.Hset(key, args[i], args[i + 1], now);
      if added.Err? {
        assert store.View(now) == before by { RefusedKeeps(before, key, args[i], args[i + 1]); }
        return Refused(WrongKind);
      }
      if added.value {
        newFields := newFields + 1;
      }
      i := i + 2;
    }
    r := Done(Count(newFields));
  }

  lemma RefusedKeeps(ks: Keys, key: Key, field: bytes, value: bytes)
    requires Fields(ks, key).Err?
    ensures SetField(ks, key, field, value) == ks && DeleteField(ks, key, field) == ks
  {
  }

  method ExecuteHdel(store: Store, key: Key, fields: seq<bytes>, now: Instant) returns (r: Answer)
    requires store.Valid()
    modifies store
    ensures store.Valid()
    ensures var e := HdelLoop(key, fields, old(store.View(now)), 0);
            r == e.result && store.View(now) == e.keys
  {
    hide DeleteField;
    var deleted := 0;
    for i := 0 to |fields|
      invariant store.Valid()
      invariant HdelLoop(key, fields, old(store.View(now)), 0) == HdelLoop(key, fields[i..], store.View(now), deleted)
    {
      assert fields[i..][1..] == fields[i + 1..];
      if !IsUtf8(fields[i]) {
        return Refused(NotText);
      }
      ghost var before := store.View(now);
      var removed := store.Hdel(key, fields[i], now);
      if removed.Err? {
        assert store.View(now) == before by { RefusedKeeps(before, key, fields[i], fields[i]); }
        return Refused(WrongKind);
      }
      if removed.value {
        deleted := deleted + 1;
      }
    }
    r := Done(Count(deleted));
  }

  method ExecuteHmget(store: Store, key: Key, fields: seq<bytes>, now: Instant) returns (r: Answer)
    requires store.Valid()
    modifies store
    ensures store.Valid() && store.View(now) == old(store.View(now))
    ensures r == HmgetLoop(key, fields, store.View(now), [])
  {
    var out: seq<Option<bytes>> := [];
    for i := 0 to |fields|
      invariant store.Valid() && store.View(now) == old(store.View(now))
      invariant HmgetLoop(key, fields, store.View(now), []) == HmgetLoop(key, fields[i..], store.View(now), out)
    {
      assert fields[i..][1..] == fields[i + 1..];
      if !IsUtf8(fields[i]) {
        return Refused(NotText);
      }
      var h := store.Hgetall(key, now);
      if h.Err? {
        return Refused(WrongKind);
      }
      out := out + [if fields[i] in h.value then Some(h.value[fields[i]]) else None];
    }
    r := Done(Values(out));
  }

  // ------------------------------------------------------------ one key

  method ExecuteExpire(store: Store, v: Verb, args: seq<bytes>, at: Clock) returns (r: Answer)
    requires store.Valid() && |args| >= 2
    modifies store
    ensures store.Valid()
    ensures var e := ExecExpire(v, args, old(store.View(at.instant)), at);
            r == e.result && store.View(at.instant) == Live(e.keys, at.instant)
  {
    hide ExpireFlagOf, ParseUnsigned, DeadlineOf;
    LiveLater(store.data, at.instant, at.instant);
    if !IsUtf8(args[0]) {
      return Refused(NotText);
    }
    if !IsUtf8(args[1]) {
      return Refused(BadInteger);
    }
    var n := ParseUnsigned(args[1], U64_MAX);
    if n.None? {
      return Refused(BadInteger);
    }
    var flag := ExpireFlagOf(args[2..]);
    if flag.Rejected? {
      return Refused(flag.why);
    }
    var applied := store.ExpireAtWithOptions(args[0], DeadlineOf(v, n.value, at), flag.value, at.instant);
    r := Done(Count(if applied then 1 else 0));
  }

  method ExecuteIncr(store: Store, key: bytes, delta: i64, now: Instant) returns (r: Answer)
    requires store.Valid()
    modifies store
    ensures store.Valid()
    ensures var e := ExecIncr(key, delta, old(store.View(now)));
            r == e.result && store.View(now) == e.keys
  {
    if !IsUtf8(key) {
      return Refused(NotText);
    }
    var n := store.IncrBy(key, delta, now);
    match n {
      case Ok(i) => r := Done(Count(i));
      case Err(e) => r := Refused(FailureOf(e));
    }
  }

  method ExecuteRead(store: Store, v: Verb, args: seq<bytes>, at: Clock) returns (r: Answer)
    requires store.Valid() && |args| >= 1
    modifies store
    ensures store.Valid() && store.View(at.instant) == old(store.View(at.instant))
    ensures r == ExecRead(v, args, store.View(at.instant), at)
  {
    if !IsUtf8(args[0]) {
      return Refused(NotText);
    }
    if v == GET || v == TYPE {
      var found := store.Get(args[0], at.instant);
      if v == TYPE {
        r := Done(TypeName(if found.None? then NoKey else KindOf(map[args[0] := found.value], args[0])));
      } else if found.None? {
        r := Done(Payload(None));
      } else if found.value.value.Str? {
        r := Done(Payload(Some(found.value.value.data)));
      } else {
        r := Done(Payload(Some(Display(found.value.value))));
      }
    } else if v == TTL {
      var left := store.Remaining(args[0], SECOND, at.instant);
      r := Done(Count(left));
    } else if v == PTTL {
      var left := store.Remaining(args[0], MS, at.instant);
      r := Done(Count(left));
    } else {
      var h := store.Hgetall(args[0], at.instant);
      r := if h.Err? then Refused(FailureOf(h.error)) else Done(HashReply(v, h.value));
    }
  }

  method ExecuteFieldRead(store: Store, v: Verb, args: seq<bytes>, now: Instant) returns (r: Answer)
    requires store.Valid() && |args| == 2
    modifies store
    ensures store.Valid() && store.View(now) == old(store.View(now))
    ensures r == ExecFieldRead(v, args, store.View(now))
  {
    if !IsUtf8(args[0]) || !IsUtf8(args[1]) {
      return Refused(NotText);
    }
    var h := store.Hgetall(args[0], now);
    r := if h.Err? then Refused(FailureOf(h.error)) else Done(FieldReply(v, h.value, args[1]));
  }

  method ExecuteQuiet(store: Store, v: Verb, args: seq<bytes>, at: Clock) returns (r: Answer)
    requires store.Valid() && ArityOk(v, |args| + 1) && !IsMutation(v)
    modifies store
    ensures store.Valid() && store.View(at.instant) == old(store.View(at.instant))
    ensures r == ExecQuiet(v, args, store.View(at.instant), at)
  {
    hide ExecPlain, ExecRead, ExecFieldRead, ExistsLoop, MgetLoop, HmgetLoop, IsUtf8, Live;
    if ReadsNoKeys(v) {
      return ExecPlain(v, args);
    }
    if v == EXISTS {
      r := ExecuteExists(store, args, at.instant);
    } else if v == MGET {
      r := ExecuteMget(store, args, at.instant);
    } else if v == HMGET {
      if !IsUtf8(args[0]) {
        return Refused(NotText);
      }
      r := ExecuteHmget(store, args[0], args[1..], at.instant);
    } else if v == HGET || v == HEXISTS {
      r := ExecuteFieldRead(store, v, args, at.instant);
    } else {
      r := ExecuteRead(store, v, args, at);
    }
  }

  method ExecuteMutation(store: Store, v: Verb, args: seq<bytes>, at: Clock) returns (r: Answer)
    requires store.Valid() && ArityOk(v, |args| + 1) && IsMutation(v)
    modifies store
    ensures store.Valid()
    ensures var e := ExecMutation(v, args, old(store.View(at.instant)), at);
            r == e.result && store.View(at.instant) == Live(e.keys, at.instant)
  {
    hide ExecSet, DelLoop, MsetLoop, HsetLoop, HdelLoop, ExecExpire, ExecIncr, IsUtf8;
    LiveLater(store.data, at.instant, at.instant);
    if v == SET {
      r := ExecuteSet(store, args, at);
    } else if v == DEL {
      r := ExecuteDel(store, args, at.instant);
      LiveLater(store.data, at.instant, at.instant);
    } else if v == MSET {
      if |args| % 2 == 1 {
        return Refused(WrongArity);
      }
      r := ExecuteMset(store, args, at.instant);
      LiveLater(store.data, at.instant, at.instant);
    } else if v == INCR {
      r := ExecuteIncr(store, args[0], 1, at.instant);
      LiveLater(store.data, at.instant, at.instant);
    } else if v == DECR {
      r := ExecuteIncr(store, args[0], -1, at.instant);
      LiveLater(store.data, at.instant, at.instant);
    } else if v == HSET {
      if |args| % 2 == 0 {
        return Refused(WrongArity);
      }
      if !IsUtf8(args[0]) {
        return Refused(NotText);
      }
      r := ExecuteHset(store, args[0], args[1..], at.instant);
      LiveLater(store.data, at.instant, at.instant);
    } else if v == HDEL {
      if !IsUtf8(args[0]) {
        return Refused(NotText);
      }
      r := ExecuteHdel(store, args[0], args[1..], at.instant);
      LiveLater(store.data, at.instant, at.instant);
    } else if v == FLUSHDB {
      var e := ExecFlush(args, map[]);
      if e.result.Done? {
        store.Clear();
      }
      r := e.result;
    } else {
      r := ExecuteExpire(store, v, args, at);
    }
  }

  /** One command through the registry: look the name up, check the arity, run it. */
  method Execute(store: Store, c: Command, at: Clock) returns (r: Answer)
    requires store.Valid()
    modifies store
    ensures store.Valid()
    ensures var e := Exec(c, old(store.View(at.instant)), at);
            r == e.result && store.View(at.instant) == Live(e.keys, at.instant)
  {
    hide Lookup, ExecMutation, ExecQuiet;
    LiveLater(store.data, at.instant, at.instant);
    var v := Lookup(c.name);
    if v == UNKNOWN {
      return Refused(NoSuchCommand);
    }
    if !ArityOk(v, |c.args| + 1) {
      return Refused(WrongArity);
    }
    if IsMutation(v) {
      r := ExecuteMutation(store, v, c.args, at);
    } else {
      r := ExecuteQuiet(store, v, c.args, at);
      LiveLater(store.data, at.instant, at.instant);
    }
  }

  // -------------------------------------------------------- whole runs

  /** What happens to a store: commands, and sweeps by the cleaner. */
  datatype Event = Do(command: Command, at: Clock) | Sweep(now: Instant)

  function TimeOf(e: Event): Instant {
    match e
    case Do(_, at) => at.instant
    case Sweep(now) => now
  }

  /** The clock never runs back. */
  predicate Ordered(trace: seq<Event>) {
    forall i, j :: 0 <= i < j < |trace| ==> TimeOf(trace[i]) <= TimeOf(trace[j])
  }

  datatype Ran = Ran(replies: seq<Answer>, keys: Keys)

  /** The ideal store: expired keys vanish before each command, sweeps do nothing. */
  function Run(ks: Keys, trace: seq<Event>): Ran
    decreases |trace|
  {
    if trace == [] then Ran([], ks)
    else
      match trace[0]
      case Sweep(_) => Run(ks, trace[1..])
      case Do(c, at) =>
        var e := Exec(c, Live(ks, at.instant), at);
        var rest := Run(Live(e.keys, at.instant), trace[1..]);
        Ran([e.result] + rest.replies, rest.keys)
  }

  /** No key has its deadline at this instant. */
  ghost predicate QuietAt(ks: Keys, now: Instant) {
    forall k :: k in ks ==> ks[k].deadline != Some(now)
  }

  /** Where something happens at the very instant of a sweep, no key has its deadline there. */
  ghost predicate SweepsUnseen(ks: Keys, trace: seq<Event>)
    decreases |trace|
  {
    trace == [] ||
    match trace[0]
    case Sweep(now) =>
      (|trace| > 1 && TimeOf(trace[1]) == now ==> QuietAt(ks, now)) && SweepsUnseen(ks, trace[1..])
    case Do(c, at) => SweepsUnseen(Live(Exec(c, Live(ks, at.instant), at).keys, at.instant), trace[1..])
  }

  /** From this moment on, or at it: the two stores agree wherever a sweep then does not show. */
  ghost predicate AgreeAt(data: Keys, ks: Keys, trace: seq<Event>, i: nat, t: Instant)
    requires i <= |trace|
  {
    (i == 0 || t > TimeOf(trace[i - 1]) || (t == TimeOf(trace[i - 1]) && (trace[i - 1].Do? || QuietAt(ks, t))))
    ==> Live(data, t) == Live(ks, t)
  }

  /** Seen from any moment the store may still be asked about, the two agree. */
  ghost predicate AgreeAfter(data: Keys, ks: Keys, trace: seq<Event>, i: nat)
    requires i <= |trace|
  {
    forall t :: AgreeAt(data, ks, trace, i, t)
  }

  lemma StillAgrees(a: Keys, b: Keys, now: Instant, t: Instant)
    requires now <= t && Live(a, now) == Live(b, now)
    ensures Live(a, t) == Live(b, t)
  {
    LiveLater(a, now, t);
    LiveLater(b, now, t);
  }

  lemma SweepAgrees(data: Keys, ks: Keys, now: Instant, t: Instant)
    requires t >= now && Live(data, t) == Live(ks, t) && (t == now ==> QuietAt(ks, now))
    ensures Live(data - Due(data, now), t) == Live(ks, t)
  {
    if t > now {
      SweepUnseen(data, now, t);
    } else {
      SweepSeenIff(data, now);
      assert forall k :: k in Live(ks, now) ==> ks[k].deadline != Some(now);
      assert forall k :: k in Live(data, now) ==> data[k].deadline != Some(now);
    }
  }

  /**
   * Lazy expiry is invisible: over any run, every reply is the one of the ideal
   * store, and so are the live keys at every later moment.
   */
  method RunTrace(store: Store, trace: seq<Event>) returns (replies: seq<Answer>)
    requires store.Valid() && Ordered(trace) && SweepsUnseen(store.data, trace)
    modifies store
    ensures store.Valid()
    ensures replies == Run(old(store.data), trace).replies
    ensures AgreeAfter(store.data, Run(old(store.data), trace).keys, trace, |trace|)
  {
    hide Exec, QuietAt;
    replies := [];
    ghost var ks := store.data;
    for i := 0 to |trace|
      invariant store.Valid()
      invariant AgreeAfter(store.data, ks, trace, i) && SweepsUnseen(ks, trace[i..])
      invariant 0 < i < |trace| && trace[i - 1].Sweep? && TimeOf(trace[i]) == TimeOf(trace[i - 1]) ==>
                  QuietAt(ks, TimeOf(trace[i]))
      invariant var rest := Run(ks, trace[i..]);
                Run(old(store.data), trace) == Ran(replies + rest.replies, rest.keys)
    {
      assert trace[i..][1..] == trace[i + 1..];
      assert i > 0 ==> TimeOf(trace[i - 1]) <= TimeOf(trace[i]);
      ghost var rest := Run(ks, trace[i..]);
      ghost var before, next := store.data, i + 1;
      match trace[i] {
        case Do(c, at) =>
          assert AgreeAt(store.data, ks, trace, i, at.instant);
          assert store.View(at.instant) == Live(ks, at.instant);
          var r := Execute(store, c, at);
          ghost var e := Exec(c, Live(ks, at.instant), at);
          replies := replies + [r];
          ks := Live(e.keys, at.instant);
          LiveLater(e.keys, at.instant, at.instant);
          forall t
            ensures AgreeAt(store.data, ks, trace, next, t)
          {
            if t >= at.instant {
              StillAgrees(store.data, ks, at.instant, t);
            }
          }
        case Sweep(now) =>
          var _ := store.CleanupExpired(now);
          forall t
            ensures AgreeAt(store.data, ks, trace, next, t)
          {
            assert AgreeAt(before, ks, trace, i, t);
            if t > now || (t == now && QuietAt(ks, now)) {
              SweepAgrees(before, ks, now, t);
            }
          }
      }
    }
    assert Run(ks, trace[|trace|..]).replies == [];
    assert replies + [] == replies;
  }
}
