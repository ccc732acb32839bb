/**
 * The store object: a map of values, a second map indexing their deadlines, and
 * lazy removal of what has expired. Each method is proved to behave, at its clock
 * reading `now`, like the operation of `Keyspace` on the keys still alive, and to
 * keep the two maps in agreement.
 */
module MemoryStore {
  import opened Bytes
  import opened Keyspace

  /** The deadlines recorded in the values. */
  function Deadlines(data: Keys): map<Key, Instant> {
    map k | k in data && data[k].deadline.Some? :: data[k].deadline.value
  }

  lemma DeadlinesWithout(data: Keys, key: Key)
    ensures Deadlines(data - {key}) == Deadlines(data) - {key}
  {
  }

  /** Keys whose deadline is at or before `now`: one instant wider than expired. */
  function Due(data: Keys, now: Instant): set<Key> {
    set k | k in data && data[k].deadline.Some? && data[k].deadline.value <= now
  }

  lemma SweepUnseen(data: Keys, now: Instant, t: Instant)
    requires t > now
    ensures Live(data - Due(data, now), t) == Live(data, t)
  {
  }

  /** A sweep is seen at its own instant exactly when some key has its deadline then. */
  lemma SweepSeenIff(data: Keys, now: Instant)
    ensures Live(data - Due(data, now), now) != Live(data, now)
            <==> exists k :: k in data && data[k].deadline == Some(now)
  {
    if k :| k in data && data[k].deadline == Some(now) {
      assert k in Live(data, now) && k !in Live(data - Due(data, now), now);
    } else {
      assert Live(data - Due(data, now), now) == Live(data, now);
    }
  }

  datatype SetOutcome = SetOutcome(applied: bool, previous: Option<Entry>)

  class Store {
    var data: Keys
    var expirationIndex: map<Key, Instant>

    /** Index agreement: a key is indexed at `t` exactly when its value has deadline `t`. */
    ghost predicate Valid()
      reads this
    {
      expirationIndex == Deadlines(data)
    }

    /** The keys that have not expired at `now`. */
    ghost function View(now: Instant): Keys
      reads this
    {
      Live(data, now)
    }

    constructor ()
      ensures Valid() && data == map[]
    {
      data := map[];
      expirationIndex := map[];
    }

    /** Unconditional write, clearing any deadline. */
    method Set(key: Key, value: Value, now: Instant)
      requires Valid()
      modifies this
      ensures Valid()
      ensures View(now) == SetKey(old(View(now)), key, value, NoTtl, Always)
    {
      expirationIndex := expirationIndex - {key};
      data := data[key := Entry(value, None)];
    }

    /** Write a value and its deadline to both maps. */
    method Put(key: Key, value: Value, deadline: Option<Instant>)
      requires Valid()
      modifies this
      ensures Valid() && data == old(data)[key := Entry(value, deadline)]
    {
      if deadline.Some? {
        expirationIndex := expirationIndex[key := deadline.value];
      } else {
        expirationIndex := expirationIndex - {key};
      }
      data := data[key := Entry(value, deadline)];
    }

    method SetWithOptions(key: Key, value: Value, ttl: TtlOption, existence: Existence, now: Instant)
      returns (r: SetOutcome)
      requires Valid()
      modifies this
      ensures Valid()
      ensures r.applied == Allows(existence, key in old(View(now)))
      ensures r.previous == Find(old(View(now)), key)
      ensures View(now) == Live(SetKey(old(View(now)), key, value, ttl, existence), now)
    {
      hide Deadlines;
      ghost var before := data;
      var resolved: Option<Instant>;
      match ttl {
        case NoTtl => resolved := None;
        case At(t) => resolved := Some(t);
        case KeepTtl =>
          resolved := if key in data && !IsExpired(data[key], now) then data[key].deadline else None;
      }
      if key in data {
        var present := !IsExpired(data[key], now);
        var previous := if present then Some(data[key]) else None;
        if !Allows(existence, present) {
          return SetOutcome(false, previous);
        }
        Put(key, value, resolved);
        r := SetOutcome(true, previous);
      } else if existence.OnlyIfPresent? {
        r := SetOutcome(false, None);
      } else {
        Put(key, value, resolved);
        r := SetOutcome(true, None);
      }
    }

    method Get(key: Key, now: Instant) returns (r: Option<Entry>)
      requires Valid()
      modifies this
      ensures Valid() && View(now) == old(View(now))
      ensures r == Find(View(now), key)
    {
      if key in data {
        if IsExpired(data[key], now) {
          var _ := DeleteKey(key, now);
          return None;
        }
        return Some(data[key]);
      }
      r := None;
    }

    method DeleteKey(key: Key, now: Instant) returns (removed: bool)
      requires Valid()
      modifies this
      ensures Valid()
      ensures removed == (key in old(View(now)))
      ensures View(now) == Delete(old(View(now)), key)
      ensures data == old(data) - {key}
    {
      if key in data && IsExpired(data[key], now) {
        expirationIndex := expirationIndex - {key};
        data := data - {key};
        return false;
      }
      expirationIndex := expirationIndex - {key};
      removed := key in data;
      data := data - {key};
    }

    method Exists(key: Key, now: Instant) returns (r: bool)
      requires Valid()
      modifies this
      ensures Valid() && View(now) == old(View(now))
      ensures r == (key in View(now))
    {
      if key in data {
        if IsExpired(data[key], now) {
          var _ := DeleteKey(key, now);
          return false;
        }
        return true;
      }
      r := false;
    }

    method ExpireAtWithOptions(key: Key, deadline: Instant, flag: ExpireFlag, now: Instant) returns (r: bool)
      requires Valid()
      modifies this
      ensures Valid()
      ensures r == ExpireApplies(old(View(now)), key, deadline, flag)
      ensures View(now) == Live(ExpireKey(old(View(now)), key, deadline, flag), now)
    {
      if key !in data {
        return false;
      }
      if IsExpired(data[key], now) {
        var _ := DeleteKey(key, now);
        return false;
      }
      if !Replaces(flag, data[key].deadline, deadline) {
        return false;
      }
      data := data[key := data[key].(deadline := Some(deadline))];
      expirationIndex := expirationIndex[key := deadline];
      r := true;
    }

    method ExpireWithOptions(key: Key, ttlSeconds: nat, flag: ExpireFlag, now: Instant) returns (r: bool)
      requires Valid()
      modifies this
      ensures Valid()
      ensures r == ExpireApplies(old(View(now)), key, now + ttlSeconds * SECOND, flag)
      ensures View(now) == Live(ExpireKey(old(View(now)), key, now + ttlSeconds * SECOND, flag), now)
    {
      r := ExpireAtWithOptions(key, now + ttlSeconds * SECOND, flag, now);
    }

    method PersistKey(key: Key, now: Instant) returns (r: bool)
      requires Valid()
      modifies this
      ensures Valid()
      ensures r == (key in old(View(now)) && old(View(now))[key].deadline.Some?)
      ensures View(now) == Persist(old(View(now)), key)
    {
      if key !in data {
        return false;
      }
      if IsExpired(data[key], now) {
        var _ := DeleteKey(key, now);
        return false;
      }
      r := data[key].deadline.Some?;
      data := data[key := data[key].(deadline := None)];
      expirationIndex := expirationIndex - {key};
    }

    /** TTL with `per` one second, PTTL with `per` one millisecond. */
    method Remaining(key: Key, per: int, now: Instant) returns (r: int)
      requires Valid() && per > 0
      modifies this
      ensures Valid() && View(now) == old(View(now))
      ensures r == TimeLeft(View(now), key, now, per)
    {
      if key !in data {
        return -2;
      }
      if IsExpired(data[key], now) {
        var _ := DeleteKey(key, now);
        return -2;
      }
      match data[key].deadline {
        case None => r := -1;
        case Some(t) => r := if t > now then (t - now) / per else -2;
      }
    }

    method IncrBy(key: Key, delta: i64, now: Instant) returns (r: Result<i64>)
      requires Valid()
      modifies this
      ensures Valid()
      ensures r == Incremented(old(View(now)), key, delta)
      ensures View(now) == Increment(old(View(now)), key, delta)
    {
      if key !in data {
        data := data[key := Entry(Int(delta), None)];
        return Ok(delta);
      }
      if IsExpired(data[key], now) {
        data := data - {key};
        expirationIndex := expirationIndex - {key};
        data := data[key := Entry(Int(delta), None)];
        return Ok(delta);
      }
      var current := ToInteger(data[key].value);
      if current.Err? {
        return Err(current.error);
      }
      var sum := current.value + delta;
      if !(I64_MIN <= sum <= I64_MAX) {
        return Err(Overflow);
      }
      data := data[key := data[key].(value := Int(sum))];
      r := Ok(sum);
    }

    method Hset(key: Key, field: bytes, value: bytes, now: Instant) returns (r: Result<bool>)
      requires Valid()
      modifies this
      ensures Valid()
      ensures var h := Fields(old(View(now)), key);
              if h.Err? then r == Err(WrongType) else r == Ok(field !in h.value)
      ensures View(now) == SetField(old(View(now)), key, field, value)
    {
      if key in data && IsExpired(data[key], now) {
        var _ := DeleteKey(key, now);
      }
      if key !in data {
        assert map[field := value] == map[][field := value];
        data := data[key := Entry(Hash(map[field := value]), None)];
        return Ok(true);
      }
      if !data[key].value.Hash? {
        return Err(WrongType);
      }
      var h := data[key].value.fields;
      data := data[key := data[key].(value := Hash(h[field := value]))];
      r := Ok(field !in h);
    }

    /** All fields of a hash; HGET and HEXISTS look one up in it. */
    method Hgetall(key: Key, now: Instant) returns (r: Result<map<bytes, bytes>>)
      requires Valid()
      modifies this
      ensures Valid() && View(now) == old(View(now))
      ensures r == Fields(View(now), key)
    {
      if key !in data {
        return Ok(map[]);
      }
      if IsExpired(data[key], now) {
        var _ := DeleteKey(key, now);
        return Ok(map[]);
      }
      r := if data[key].value.Hash? then Ok(data[key].value.fields) else Err(WrongType);
    }

    method Hdel(key: Key, field: bytes, now: Instant) returns (r: Result<bool>)
      requires Valid()
      modifies this
      ensures Valid()
      ensures var h := Fields(old(View(now)), key);
              if h.Err? then r == Err(WrongType) else r == Ok(field in h.value)
      ensures View(now) == DeleteField(old(View(now)), key, field)
    {
      if key in data && IsExpired(data[key], now) {
        var _ := DeleteKey(key, now);
        return Ok(false);
      }
      if key !in data {
        return Ok(false);
      }
      if !data[key].value.Hash? {
        return Err(WrongType);
      }
      var h := data[key].value.fields;
      if field in h {
        if |h| == 1 {
          data := data - {key};
          expirationIndex := expirationIndex - {key};
        } else {
          data := data[key := data[key].(value := Hash(h - {field}))];
        }
      }
      r := Ok(field in h);
    }

    method Clear()
      modifies this
      ensures Valid() && data == map[]
    {
      data := map[];
      expirationIndex := map[];
    }

    /**
     * The periodic sweep takes the keys whose deadline is at or before `now`,
     * counts them, and is seen by no reader at any later time.
     */
    method CleanupExpired(now: Instant) returns (removed: nat)
      requires Valid()
      modifies this
      ensures Valid()
      ensures data == old(data) - Due(old(data), now)
      ensures removed == |Due(old(data), now)|
      ensures forall t :: t > now ==> View(t) == old(View(t))
    {
      removed := 0;
      var expired := set k | k in expirationIndex && expirationIndex[k] <= now;
      ghost var due := Due(data, now);
      assert expired == due;
      ghost var before := data;
      while expired != {}
        invariant expired <= due
        invariant Valid()
        invariant data == before - (due - expired)
        invariant removed + |expired| == |due|
        decreases expired
      {
        var key :| key in expired;
        DeadlinesWithout(data, key);
        expirationIndex := expirationIndex - {key};
        if key in data {
          removed := removed + 1;
        }
        data := data - {key};
        assert before - (due - (expired - {key})) == before - (due - expired) - {key};
        expired := expired - {key};
      }
      assert due - {} == due;
      forall t | t > now
        ensures View(t) == old(View(t))
      {
        SweepUnseen(before, now, t);
      }
    }

    /** Every live entry, once, in whatever order the table yields them. */
    method Snapshot(now: Instant) returns (entries: seq<(Key, Entry)>)
      ensures forall i, j :: 0 <= i < j < |entries| ==> entries[i].0 != entries[j].0
      ensures forall i :: 0 <= i < |entries| ==> entries[i].0 in View(now) && View(now)[entries[i].0] == entries[i].1
      ensures forall k :: k in View(now) ==> exists i :: 0 <= i < |entries| && entries[i].0 == k
    {
      entries := [];
      var todo := data.Keys;
      while todo != {}
        invariant todo <= data.Keys
        invariant forall i, j :: 0 <= i < j < |entries| ==> entries[i].0 != entries[j].0
        invariant forall i :: 0 <= i < |entries| ==>
                    entries[i].0 !in todo && entries[i].0 in View(now) && View(now)[entries[i].0] == entries[i].1
        invariant forall k :: k in View(now) && k !in todo ==> exists i :: 0 <= i < |entries| && entries[i].0 == k
        decreases todo
      {
        var key :| key in todo;
        todo := todo - {key};
        if !IsExpired(data[key], now) {
          ghost var before := entries;
          entries := entries + [(key, data[key])];
          assert forall i :: 0 <= i < |before| ==> entries[i] == before[i];
          assert entries[|before|].0 == key;
        }
      }
    }
  }
}
