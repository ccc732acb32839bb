/**
 * The store as its clients see it: one map from keys to values with deadlines,
 * in which a key whose deadline has passed simply is not there. Every operation
 * takes and gives such a map; `MemoryStore` refines them.
 */
module Keyspace {
  import opened Bytes

  type Key = bytes

  /** A reading of the monotonic clock, in nanoseconds. */
  type Instant = int

  const MS := 1_000_000
  const SECOND := 1_000_000_000

  datatype Value =
    | Str(data: bytes)
    | Int(i: i64)
    | Hash(fields: map<bytes, bytes>)
    | Items(items: seq<bytes>)

  datatype Entry = Entry(value: Value, deadline: Option<Instant>)

  type Keys = map<Key, Entry>

  /** Strictly past the deadline. */
  predicate IsExpired(e: Entry, now: Instant) {
    e.deadline.Some? && now > e.deadline.value
  }

  function Live(ks: Keys, now: Instant): Keys {
    map k | k in ks && !IsExpired(ks[k], now) :: ks[k]
  }

  /** Time only removes keys, and looking twice is looking at the later time. */
  lemma LiveLater(ks: Keys, now: Instant, later: Instant)
    requires now <= later
    ensures Live(Live(ks, now), later) == Live(ks, later)
  {
  }

  function Find(ks: Keys, key: Key): Option<Entry> {
    if key in ks then Some(ks[key]) else None
  }

  // ----------------------------------------------------------- set, delete

  datatype Existence = Always | OnlyIfMissing | OnlyIfPresent

  datatype TtlOption = NoTtl | At(deadline: Instant) | KeepTtl

  predicate Allows(x: Existence, present: bool) {
    match x
    case Always => true
    case OnlyIfMissing => !present
    case OnlyIfPresent => present
  }

  function DeadlineFor(ks: Keys, key: Key, ttl: TtlOption): Option<Instant> {
    match ttl
    case NoTtl => None
    case At(t) => Some(t)
    case KeepTtl => if key in ks then ks[key].deadline else None
  }

  function SetKey(ks: Keys, key: Key, value: Value, ttl: TtlOption, x: Existence): Keys {
    if Allows(x, key in ks) then ks[key := Entry(value, DeadlineFor(ks, key, ttl))] else ks
  }

  function Delete(ks: Keys, key: Key): Keys {
    ks - {key}
  }

  // --------------------------------------------------------------- expiry

  datatype ExpireFlag = Unconditional | Nx | Xx | Gt | Lt

  /** Whether a new deadline replaces the current one; no deadline counts as infinity. */
  predicate Replaces(flag: ExpireFlag, current: Option<Instant>, wanted: Instant) {
    match flag
    case Unconditional => true
    case Nx => current.None?
    case Xx => current.Some?
    case Gt => current.Some? && wanted > current.value
    case Lt => current.None? || wanted < current.value
  }

  predicate ExpireApplies(ks: Keys, key: Key, deadline: Instant, flag: ExpireFlag) {
    key in ks && Replaces(flag, ks[key].deadline, deadline)
  }

  function ExpireKey(ks: Keys, key: Key, deadline: Instant, flag: ExpireFlag): Keys {
    if ExpireApplies(ks, key, deadline, flag) then ks[key := ks[key].(deadline := Some(deadline))] else ks
  }

  function Persist(ks: Keys, key: Key): Keys {
    if key in ks then ks[key := ks[key].(deadline := None)] else ks
  }

  /** Whole units left; -2 without the key or at its very deadline, -1 without a deadline. */
  function TimeLeft(ks: Keys, key: Key, now: Instant, per: int): int
    requires per > 0
  {
    if key !in ks then -2
    else if ks[key].deadline.None? then -1
    else if ks[key].deadline.value > now then (ks[key].deadline.value - now) / per
    else -2
  }

  /** A key that is there answers as if it were not exactly at its deadline. */
  lemma GoneAtDeadline(ks: Keys, key: Key, now: Instant, per: int)
    requires per > 0
    ensures key in Live(ks, now) && TimeLeft(Live(ks, now), key, now, per) == -2
            <==> key in ks && ks[key].deadline == Some(now)
  {
    if key in ks && ks[key].deadline.Some? && ks[key].deadline.value > now {
      assert (ks[key].deadline.value - now) / per >= 0;
    }
  }

  // ------------------------------------------------------------- counters

  datatype Failure = WrongType | NotAnInteger | Overflow

  datatype Result<+T> = Ok(value: T) | Err(error: Failure)

  function ToInteger(v: Value): (r: Result<int>)
    ensures r.Ok? ==> I64_MIN <= r.value <= I64_MAX
  {
    match v
    case Int(i) => Ok(i)
    case Str(s) =>
      if !IsUtf8(s) then Err(NotAnInteger)
      else (match ParseSigned(s, I64_MIN, I64_MAX) case Some(i) => Ok(i) case None => Err(NotAnInteger))
    case _ => Err(NotAnInteger)
  }

  /** The counter after the increment; a missing key counts from zero. */
  function Incremented(ks: Keys, key: Key, delta: i64): (r: Result<i64>) {
    if key !in ks then Ok(delta)
    else
      match ToInteger(ks[key].value)
      case Err(e) => Err(e)
      case Ok(i) => if I64_MIN <= i + delta <= I64_MAX then Ok(i + delta) else Err(Overflow)
  }

  /** The deadline of an existing counter stays. */
  function Increment(ks: Keys, key: Key, delta: i64): Keys {
    match Incremented(ks, key, delta)
    case Err(_) => ks
    case Ok(n) => ks[key := Entry(Int(n), if key in ks then ks[key].deadline else None)]
  }

  // --------------------------------------------------------------- hashes

  /** The fields stored under a key: none for a missing key, an error for another type. */
  function Fields(ks: Keys, key: Key): Result<map<bytes, bytes>> {
    if key !in ks then Ok(map[])
    else if ks[key].value.Hash? then Ok(ks[key].value.fields)
    else Err(WrongType)
  }

  function SetField(ks: Keys, key: Key, field: bytes, value: bytes): Keys {
    match Fields(ks, key)
    case Err(_) => ks
    case Ok(h) => ks[key := Entry(Hash(h[field := value]), if key in ks then ks[key].deadline else None)]
  }

  /** Removing the last field removes the key. */
  function DeleteField(ks: Keys, key: Key, field: bytes): Keys {
    match Fields(ks, key)
    case Err(_) => ks
    case Ok(h) =>
      if field !in h then ks
      else if |h| == 1 then ks - {key}
      else ks[key := ks[key].(value := Hash(h - {field}))]
  }

  // ------------------------------------------------------ well-formedness

  /** What commands can ever store: no lists, no hash without a field, text as keys and in hashes. */
  ghost predicate Reachable(ks: Keys) {
    forall k :: k in ks ==> IsUtf8(k) && ReachableValue(ks[k].value)
  }

  ghost predicate ReachableValue(v: Value) {
    match v
    case Str(_) => true
    case Int(_) => true
    case Hash(h) => h != map[] && forall f :: f in h ==> IsUtf8(f) && IsUtf8(h[f])
    case Items(_) => false
  }
}
