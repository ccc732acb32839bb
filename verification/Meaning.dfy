/**
 * Laws of command execution: which stores no client can tell apart, what commands
 * can and cannot do to a store, and when replaying a command is running it.
 */
module Meaning {
  import opened Bytes
  import opened Resp
  import opened Keyspace
  import opened Commands

  // --------------------------------------------------------- similarity

  /** An integer and its decimal spelling are the same value to every command but TYPE. */
  predicate SimilarValue(a: Value, b: Value) {
    a == b
    || (a.Int? && b == Str(Decimal(a.i)))
    || (b.Int? && a == Str(Decimal(b.i)))
  }

  ghost predicate Similar(a: Keys, b: Keys) {
    a.Keys == b.Keys && forall k :: k in a ==> SimilarValue(a[k].value, b[k].value) && a[k].deadline == b[k].deadline
  }

  lemma SimilarSelf(a: Keys)
    ensures Similar(a, a)
  {
  }

  lemma DecimalReads(i: i64)
    ensures ToInteger(Str(Decimal(i))) == Ok(i) && Display(Str(Decimal(i))) == Decimal(i)
  {
    DecimalIsPlain(i);
    SignedRoundTrip(i, I64_MIN, I64_MAX);
  }

  lemma SimilarReads(a: Value, b: Value)
    requires SimilarValue(a, b)
    ensures ToInteger(a) == ToInteger(b)
    ensures Display(a) == Display(b)
    ensures a.Hash? == b.Hash? && (a.Hash? ==> a == b)
    ensures a.Items? == b.Items?
  {
    hide ToInteger, Display;
    if a != b {
      DecimalReads(if a.Int? then a.i else b.i);
      assert ToInteger(a) == ToInteger(b) && Display(a) == Display(b) by {
        PlainReads(if a.Int? then a.i else b.i);
      }
    }
  }

  lemma PlainReads(i: i64)
    ensures ToInteger(Int(i)) == Ok(i) && Display(Int(i)) == Decimal(i)
  {
  }

  lemma SimilarFields(a: Keys, b: Keys, key: Key)
    requires Similar(a, b)
    ensures Fields(a, key) == Fields(b, key)
  {
    if key in a {
      SimilarReads(a[key].value, b[key].value);
    }
  }

  lemma SimilarSetOrDelete(a: Keys, b: Keys, key: Key, value: Value, ttl: TtlOption, x: Existence)
    requires Similar(a, b)
    ensures Similar(SetKey(a, key, value, ttl, x), SetKey(b, key, value, ttl, x))
    ensures Similar(Delete(a, key), Delete(b, key))
  {
  }

  lemma SimilarHash(a: Keys, b: Keys, key: Key, field: bytes, value: bytes)
    requires Similar(a, b)
    ensures Similar(SetField(a, key, field, value), SetField(b, key, field, value))
    ensures Similar(DeleteField(a, key, field), DeleteField(b, key, field))
  {
    SimilarFields(a, b, key);
  }

  lemma SimilarExpire(a: Keys, b: Keys, key: Key, deadline: Instant, flag: ExpireFlag)
    requires Similar(a, b)
    ensures ExpireApplies(a, key, deadline, flag) == ExpireApplies(b, key, deadline, flag)
    ensures Similar(ExpireKey(a, key, deadline, flag), ExpireKey(b, key, deadline, flag))
  {
  }

  lemma SimilarIncr(a: Keys, b: Keys, key: Key, delta: i64)
    requires Similar(a, b)
    ensures Incremented(a, key, delta) == Incremented(b, key, delta)
    ensures Similar(Increment(a, key, delta), Increment(b, key, delta))
  {
    hide ToInteger;
    if key in a {
      SimilarReads(a[key].value, b[key].value);
    }
  }

  // ------------------------------------------------ loops, one by one

  lemma {:induction false} SimilarDelLoop(keys: seq<bytes>, a: Keys, b: Keys, n: nat)
    requires Similar(a, b)
    ensures DelLoop(keys, a, n).result == DelLoop(keys, b, n).result
    ensures Similar(DelLoop(keys, a, n).keys, DelLoop(keys, b, n).keys)
    decreases |keys|
  {
    if keys != [] && IsUtf8(keys[0]) {
      SimilarDelLoop(keys[1..], Delete(a, keys[0]), Delete(b, keys[0]), if keys[0] in a then n + 1 else n);
    }
  }

  lemma {:induction false} SimilarMsetLoop(args: seq<bytes>, a: Keys, b: Keys)
    requires Similar(a, b) && |args| % 2 == 0
    ensures MsetLoop(args, a).result == MsetLoop(args, b).result
    ensures Similar(MsetLoop(args, a).keys, MsetLoop(args, b).keys)
    decreases |args|
  {
    if args != [] && IsUtf8(args[0]) {
      var v := Str(args[1]);
      SimilarSetOrDelete(a, b, args[0], v, NoTtl, Always);
      hide SetKey;
      SimilarMsetLoop(args[2..], SetKey(a, args[0], v, NoTtl, Always), SetKey(b, args[0], v, NoTtl, Always));
    }
  }

  lemma {:induction false} SimilarHsetLoop(key: Key, args: seq<bytes>, a: Keys, b: Keys, n: nat)
    requires Similar(a, b) && |args| % 2 == 0
    ensures HsetLoop(key, args, a, n).result == HsetLoop(key, args, b, n).result
    ensures Similar(HsetLoop(key, args, a, n).keys, HsetLoop(key, args, b, n).keys)
    decreases |args|
  {
    hide SetField, Fields;
    SimilarFields(a, b, key);
    if args != [] && IsUtf8(args[0]) && IsUtf8(args[1]) && Fields(a, key).Ok? {
      SimilarHash(a, b, key, args[0], args[1]);
      SimilarHsetLoop(key, args[2..], SetField(a, key, args[0], args[1]), SetField(b, key, args[0], args[1]),
                      if args[0] in Fields(a, key).value then n else n + 1);
    }
  }

  lemma {:induction false} SimilarHdelLoop(key: Key, fields: seq<bytes>, a: Keys, b: Keys, n: nat)
    requires Similar(a, b)
    ensures HdelLoop(key, fields, a, n).result == HdelLoop(key, fields, b, n).result
    ensures Similar(HdelLoop(key, fields, a, n).keys, HdelLoop(key, fields, b, n).keys)
    decreases |fields|
  {
    hide DeleteField, Fields;
    SimilarFields(a, b, key);
    if fields != [] && IsUtf8(fields[0]) && Fields(a, key).Ok? {
      SimilarHash(a, b, key, fields[0], []);
      SimilarHdelLoop(key, fields[1..], DeleteField(a, key, fields[0]), DeleteField(b, key, fields[0]),
                      if fields[0] in Fields(a, key).value then n + 1 else n);
    }
  }

  lemma {:induction false} SimilarReadLoops(keys: seq<bytes>, a: Keys, b: Keys, n: nat, out: seq<Option<bytes>>)
    requires Similar(a, b)
    ensures ExistsLoop(keys, a, n) == ExistsLoop(keys, b, n)
    ensures MgetLoop(keys, a, out) == MgetLoop(keys, b, out)
    decreases |keys|
  {
    if keys != [] && IsUtf8(keys[0]) {
      if keys[0] in a {
        SimilarReads(a[keys[0]].value, b[keys[0]].value);
      }
      hide Slot;
      SimilarSlot(a, b, keys[0]);
      SimilarReadLoops(keys[1..], a, b, if keys[0] in a then n + 1 else n, out + [Slot(a, keys[0])]);
    }
  }

  lemma SimilarSlot(a: Keys, b: Keys, key: Key)
    requires Similar(a, b)
    ensures Slot(a, key) == Slot(b, key) && GetReply(a, key) == GetReply(b, key)
  {
    if key in a {
      SimilarReads(a[key].value, b[key].value);
    }
  }

  lemma {:induction false} SimilarHmgetLoop(key: Key, fields: seq<bytes>, a: Keys, b: Keys, out: seq<Option<bytes>>)
    requires Similar(a, b)
    ensures HmgetLoop(key, fields, a, out) == HmgetLoop(key, fields, b, out)
    decreases |fields|
  {
    SimilarFields(a, b, key);
    hide Fields;
    if fields != [] && IsUtf8(fields[0]) && Fields(a, key).Ok? {
      var h := Fields(a, key).value;
      SimilarHmgetLoop(key, fields[1..], a, b, out + [if fields[0] in h then Some(h[fields[0]]) else None]);
    }
  }

  // ----------------------------------------------------- bisimulation

  lemma SimilarSet(args: seq<bytes>, a: Keys, b: Keys, at: Clock)
    requires Similar(a, b) && |args| >= 2
    ensures ExecSet(args, a, at).result == ExecSet(args, b, at).result
    ensures Similar(ExecSet(args, a, at).keys, ExecSet(args, b, at).keys)
  {
    hide SetOptionsOf, ResolveTtl, Display;
    if args[0] in a {
      SimilarReads(a[args[0]].value, b[args[0]].value);
    }
  }

  lemma SimilarRead(v: Verb, args: seq<bytes>, a: Keys, b: Keys, at: Clock)
    requires Similar(a, b) && |args| >= 1 && v != TYPE
    ensures ExecRead(v, args, a, at) == ExecRead(v, args, b, at)
    ensures |args| == 2 ==> ExecFieldRead(v, args, a) == ExecFieldRead(v, args, b)
  {
    hide Fields, GetReply, IsUtf8;
    SimilarFields(a, b, args[0]);
    SimilarSlot(a, b, args[0]);
  }

  lemma SimilarQuiet(v: Verb, args: seq<bytes>, a: Keys, b: Keys, at: Clock)
    requires Similar(a, b) && ArityOk(v, |args| + 1) && !IsMutation(v) && v != TYPE
    ensures ExecQuiet(v, args, a, at) == ExecQuiet(v, args, b, at)
  {
    hide ExecPlain, ExecRead, ExecFieldRead, ExistsLoop, MgetLoop, HmgetLoop, IsUtf8, Similar;
    if v == EXISTS || v == MGET {
      SimilarReadLoops(args, a, b, 0, []);
    } else if v == HMGET {
      SimilarHmgetLoop(args[0], args[1..], a, b, []);
    } else if !ReadsNoKeys(v) {
      SimilarRead(v, args, a, b, at);
    }
  }

  lemma SimilarMutation(v: Verb, args: seq<bytes>, a: Keys, b: Keys, at: Clock)
    requires Similar(a, b) && ArityOk(v, |args| + 1) && IsMutation(v)
    ensures ExecMutation(v, args, a, at).result == ExecMutation(v, args, b, at).result
    ensures Similar(ExecMutation(v, args, a, at).keys, ExecMutation(v, args, b, at).keys)
  {
    hide ExecSet, DelLoop, MsetLoop, HsetLoop, HdelLoop, Incremented, Increment, ExecExpire, Similar;
    if v == SET {
      SimilarSet(args, a, b, at);
    } else if v == DEL {
      SimilarDelLoop(args, a, b, 0);
    } else if v == MSET && |args| % 2 == 0 {
      SimilarMsetLoop(args, a, b);
    } else if v == INCR {
      SimilarIncr(a, b, args[0], 1);
    } else if v == DECR {
      SimilarIncr(a, b, args[0], -1);
    } else if v == HSET && |args| % 2 == 1 {
      SimilarHsetLoop(args[0], args[1..], a, b, 0);
    } else if v == HDEL {
      SimilarHdelLoop(args[0], args[1..], a, b, 0);
    } else if v == FLUSHDB {
      SimilarSelf(map[]);
    } else if v in {EXPIRE, PEXPIRE, EXPIREAT, PEXPIREAT} {
      SimilarExecExpire(v, args, a, b, at);
    }
  }

  lemma SimilarExecExpire(v: Verb, args: seq<bytes>, a: Keys, b: Keys, at: Clock)
    requires Similar(a, b) && |args| >= 2
    ensures ExecExpire(v, args, a, at).result == ExecExpire(v, args, b, at).result
    ensures Similar(ExecExpire(v, args, a, at).keys, ExecExpire(v, args, b, at).keys)
  {
    hide IsUtf8, ParseUnsigned, ExpireFlagOf, DeadlineOf, ExpireApplies, ExpireKey, Similar;
    var n := ParseUnsigned(args[1], U64_MAX);
    var flag := ExpireFlagOf(args[2..]);
    if n.Some? && flag.Picked? {
      SimilarExpire(a, b, args[0], DeadlineOf(v, n.value, at), flag.value);
    }
  }

  /**
   * Similarity is a bisimulation: no command but TYPE answers differently on
   * similar stores, and every command, TYPE included, leaves them similar.
   */
  lemma Bisimulation(c: Command, a: Keys, b: Keys, at: Clock)
    requires Similar(a, b)
    ensures Lookup(c.name) != TYPE ==> Exec(c, a, at).result == Exec(c, b, at).result
    ensures Similar(Exec(c, a, at).keys, Exec(c, b, at).keys)
  {
    hide Lookup, ExecMutation, ExecQuiet;
    var v := Lookup(c.name);
    if v != UNKNOWN && ArityOk(v, |c.args| + 1) {
      if IsMutation(v) {
        SimilarMutation(v, c.args, a, b, at);
      } else if v != TYPE {
        SimilarQuiet(v, c.args, a, b, at);
      }
    }
  }

  // ------------------------------------------- what commands can store

  lemma {:induction false} DelLoopReachable(keys: seq<bytes>, ks: Keys, n: nat)
    requires Reachable(ks)
    ensures Reachable(DelLoop(keys, ks, n).keys)
    decreases |keys|
  {
    if keys != [] && IsUtf8(keys[0]) {
      DelLoopReachable(keys[1..], Delete(ks, keys[0]), if keys[0] in ks then n + 1 else n);
    }
  }

  lemma {:induction false} MsetLoopReachable(args: seq<bytes>, ks: Keys)
    requires Reachable(ks) && |args| % 2 == 0
    ensures Reachable(MsetLoop(args, ks).keys)
    decreases |args|
  {
    if args != [] && IsUtf8(args[0]) {
      MsetLoopReachable(args[2..], SetKey(ks, args[0], Str(args[1]), NoTtl, Always));
    }
  }

  lemma SetFieldReachable(ks: Keys, key: Key, field: bytes, value: bytes)
    requires Reachable(ks) && IsUtf8(key) && IsUtf8(field) && IsUtf8(value)
    ensures Reachable(SetField(ks, key, field, value))
  {
    hide IsUtf8;
    if Fields(ks, key).Ok? {
      var h := Fields(ks, key).value;
      assert ReachableValue(Hash(h[field := value])) by {
        assert field in h[field := value];
        assert key in ks ==> ReachableValue(ks[key].value);
      }
    }
  }

  lemma DeleteFieldReachable(ks: Keys, key: Key, field: bytes)
    requires Reachable(ks)
    ensures Reachable(DeleteField(ks, key, field))
  {
    hide IsUtf8;
    if key in ks && ks[key].value.Hash? {
      var h := ks[key].value.fields;
      assert ReachableValue(ks[key].value);
      if field in h && |h| != 1 {
        assert |h.Keys - {field}| == |h| - 1;
        assert (h - {field}).Keys == h.Keys - {field};
        assert ReachableValue(Hash(h - {field}));
      }
    }
  }

  lemma {:induction false} HsetLoopReachable(key: Key, args: seq<bytes>, ks: Keys, n: nat)
    requires Reachable(ks) && IsUtf8(key) && |args| % 2 == 0
    ensures Reachable(HsetLoop(key, args, ks, n).keys)
    decreases |args|
  {
    hide SetField, IsUtf8, Reachable;
    if args != [] && IsUtf8(args[0]) && IsUtf8(args[1]) && Fields(ks, key).Ok? {
      SetFieldReachable(ks, key, args[0], args[1]);
      HsetLoopReachable(key, args[2..], SetField(ks, key, args[0], args[1]),
                        if args[0] in Fields(ks, key).value then n else n + 1);
    }
  }

  lemma {:induction false} HdelLoopReachable(key: Key, fields: seq<bytes>, ks: Keys, n: nat)
    requires Reachable(ks)
    ensures Reachable(HdelLoop(key, fields, ks, n).keys)
    decreases |fields|
  {
    hide DeleteField, IsUtf8, Reachable;
    if fields != [] && IsUtf8(fields[0]) && Fields(ks, key).Ok? {
      DeleteFieldReachable(ks, key, fields[0]);
      HdelLoopReachable(key, fields[1..], DeleteField(ks, key, fields[0]),
                        if fields[0] in Fields(ks, key).value then n + 1 else n);
    }
  }

  /** No command ever stores a list, a hash without fields, or a key that is not text. */
  lemma StaysReachable(c: Command, ks: Keys, at: Clock)
    requires Reachable(ks)
    ensures Reachable(Exec(c, ks, at).keys)
  {
    hide Lookup, IsUtf8, SetOptionsOf, ResolveTtl, DelLoop, MsetLoop, HsetLoop, HdelLoop, ExpireFlagOf, ParseUnsigned;
    var v := Lookup(c.name);
    if v != UNKNOWN && ArityOk(v, |c.args| + 1) {
      if v == DEL {
        DelLoopReachable(c.args, ks, 0);
      } else if v == MSET && |c.args| % 2 == 0 {
        MsetLoopReachable(c.args, ks);
      } else if v == HSET && |c.args| % 2 == 1 && IsUtf8(c.args[0]) {
        HsetLoopReachable(c.args[0], c.args[1..], ks, 0);
      } else if v == HDEL {
        HdelLoopReachable(c.args[0], c.args[1..], ks, 0);
      }
    }
  }

  // ------------------------------------------------- no deadlines at all

  ghost predicate NoDeadlines(ks: Keys) {
    forall k :: k in ks ==> ks[k].deadline.None?
  }

  /** Commands that set no deadline. */
  predicate TtlFree(c: Command) {
    var v := Lookup(c.name);
    && v !in {EXPIRE, PEXPIRE, EXPIREAT, PEXPIREAT}
    && (v == SET && |c.args| >= 2 ==>
          var o := SetOptionsOf(c.args[2..], NO_OPTIONS);
          o.Picked? ==> o.value.ttl.Default? || o.value.ttl.Keep?)
  }

  lemma KeySetNoDeadline(ks: Keys, key: Key, field: bytes, value: bytes)
    requires NoDeadlines(ks)
    ensures NoDeadlines(Delete(ks, key)) && NoDeadlines(SetKey(ks, key, Str(value), NoTtl, Always))
    ensures NoDeadlines(SetField(ks, key, field, value)) && NoDeadlines(DeleteField(ks, key, field))
  {
  }

  lemma {:induction false} DelSetsNoDeadline(keys: seq<bytes>, ks: Keys, n: nat)
    requires NoDeadlines(ks)
    ensures NoDeadlines(DelLoop(keys, ks, n).keys)
    decreases |keys|
  {
    hide IsUtf8, NoDeadlines, Delete;
    if keys != [] && IsUtf8(keys[0]) {
      KeySetNoDeadline(ks, keys[0], [], []);
      DelSetsNoDeadline(keys[1..], Delete(ks, keys[0]), if keys[0] in ks then n + 1 else n);
    }
  }

  lemma {:induction false} MsetSetsNoDeadline(args: seq<bytes>, ks: Keys)
    requires NoDeadlines(ks) && |args| % 2 == 0
    ensures NoDeadlines(MsetLoop(args, ks).keys)
    decreases |args|
  {
    hide IsUtf8, NoDeadlines, SetKey;
    if args != [] && IsUtf8(args[0]) {
      KeySetNoDeadline(ks, args[0], [], args[1]);
      MsetSetsNoDeadline(args[2..], SetKey(ks, args[0], Str(args[1]), NoTtl, Always));
    }
  }

  lemma {:induction false} HsetSetsNoDeadline(key: Key, args: seq<bytes>, ks: Keys, n: nat)
    requires NoDeadlines(ks) && |args| % 2 == 0
    ensures NoDeadlines(HsetLoop(key, args, ks, n).keys)
    decreases |args|
  {
    hide IsUtf8, NoDeadlines, SetField, Fields;
    if args != [] && IsUtf8(args[0]) && IsUtf8(args[1]) && Fields(ks, key).Ok? {
      KeySetNoDeadline(ks, key, args[0], args[1]);
      HsetSetsNoDeadline(key, args[2..], SetField(ks, key, args[0], args[1]),
                         if args[0] in Fields(ks, key).value then n else n + 1);
    }
  }

  lemma {:induction false} HdelSetsNoDeadline(key: Key, fields: seq<bytes>, ks: Keys, n: nat)
    requires NoDeadlines(ks)
    ensures NoDeadlines(HdelLoop(key, fields, ks, n).keys)
    decreases |fields|
  {
    hide IsUtf8, NoDeadlines, DeleteField, Fields;
    if fields != [] && IsUtf8(fields[0]) && Fields(ks, key).Ok? {
      KeySetNoDeadline(ks, key, fields[0], []);
      HdelSetsNoDeadline(key, fields[1..], DeleteField(ks, key, fields[0]),
                         if fields[0] in Fields(ks, key).value then n + 1 else n);
    }
  }

  lemma NothingExpires(ks: Keys, now: Instant)
    requires NoDeadlines(ks)
    ensures Live(ks, now) == ks
  {
  }

  /** Without deadlines the clock does not matter: a command does the same whenever it runs. */
  lemma ClockDoesNotMatter(c: Command, ks: Keys, at: Clock, later: Clock)
    requires NoDeadlines(ks) && TtlFree(c)
    ensures Exec(c, ks, at) == Exec(c, ks, later)
    ensures NoDeadlines(Exec(c, ks, at).keys)
  {
    hide Lookup, IsUtf8, SetOptionsOf, DelLoop, MsetLoop, HsetLoop, HdelLoop, ExistsLoop, MgetLoop, HmgetLoop,
         ExecCommand, ToInteger;
    var v := Lookup(c.name);
    if v != UNKNOWN && ArityOk(v, |c.args| + 1) {
      if v == DEL {
        DelSetsNoDeadline(c.args, ks, 0);
      } else if v == MSET && |c.args| % 2 == 0 {
        MsetSetsNoDeadline(c.args, ks);
      } else if v == HSET && |c.args| % 2 == 1 {
        HsetSetsNoDeadline(c.args[0], c.args[1..], ks, 0);
      } else if v == HDEL {
        HdelSetsNoDeadline(c.args[0], c.args[1..], ks, 0);
      }
    }
  }

  // -------------------------------------------------------------- replay

  /** Recovery runs a command through its own, smaller registry. */
  function ReplayExec(c: Command, ks: Keys, at: Clock): Keys {
    if ReplayKnows(Lookup(c.name)) then Exec(c, ks, at).keys else ks
  }

  /** Whatever is logged, recovery knows how to run, and runs as the server did. */
  lemma ReplayRunsMutations(c: Command, ks: Keys, at: Clock)
    ensures IsMutation(Lookup(c.name)) ==> ReplayExec(c, ks, at) == Exec(c, ks, at).keys
    ensures !IsMutation(Lookup(c.name)) ==> ReplayExec(c, ks, at) == ks
  {
    hide Lookup, ExecMutation, ExecQuiet;
  }
}
