/**
 * Recovery: running logged commands into a store, and the theorem that a rewrite
 * preserves meaning. Times are absolute nanoseconds on one clock that a process
 * reads as `Shared`, from its own boot.
 */
module Recovery {
  import opened Bytes
  import opened Resp
  import opened Keyspace
  import opened Commands
  import opened Meaning
  import opened Snapshot

  /** A logged command and the clock reading at which recovery runs it. */
  datatype Stamped = Stamped(command: Command, at: Clock)

  function ReplayOne(ks: Keys, s: Stamped): Keys {
    Live(ReplayExec(s.command, Live(ks, s.at.instant), s.at), s.at.instant)
  }

  function Replay(ks: Keys, log: seq<Stamped>): Keys
    decreases |log|
  {
    if log == [] then ks else Replay(ReplayOne(ks, log[0]), log[1..])
  }

  lemma {:induction false} ReplaySplit(ks: Keys, a: seq<Stamped>, b: seq<Stamped>)
    ensures Replay(ks, a + b) == Replay(Replay(ks, a), b)
    decreases |a|
  {
    hide ReplayOne;
    if a == [] {
      assert a + b == b;
    } else {
      assert (a + b)[1..] == a[1..] + b;
      ReplaySplit(ReplayOne(ks, a[0]), a[1..], b);
    }
  }

  // ------------------------------------------ the rewriter's three commands

  lemma NamesFound()
    ensures Lookup(PEXPIREAT_NAME) == PEXPIREAT && UpperName(PEXPIREAT_NAME) == PEXPIREAT_NAME
    ensures Lookup(HSET_NAME) == HSET && UpperName(HSET_NAME) == HSET_NAME
  {
    assert Lookup(PEXPIREAT_NAME) == PEXPIREAT && Lookup(HSET_NAME) == HSET;
    hide Lookup, UpperWide;
    assert UpperName(PEXPIREAT_NAME) == PEXPIREAT_NAME;
    assert UpperName(HSET_NAME) == HSET_NAME;
  }

  lemma RunSet(ks: Keys, key: Key, b: bytes, at: Clock)
    requires IsUtf8(key)
    ensures ReplayExec(CommandFrom([SET_NAME, key, b]), ks, at) == ks[key := Entry(Str(b), None)]
  {
    hide IsUtf8;
    assert UpperName(SET_NAME) == SET_NAME;
    assert [SET_NAME, key, b][1..] == [key, b];
    assert [key, b][2..] == [];
  }

  lemma RunPexpireat(ks: Keys, key: Key, target: nat, at: Clock)
    requires IsUtf8(key) && target <= U64_MAX && key in ks
    ensures ReplayExec(CommandFrom([PEXPIREAT_NAME, key, Digits(target)]), ks, at)
            == ks[key := ks[key].(deadline := Some(ResolveUnix(target, at)))]
  {
    hide IsUtf8, Digits, ParseUnsigned, Lookup, UpperName, ExecQuiet, ResolveUnix;
    NamesFound();
    var parts: seq<bytes> := [PEXPIREAT_NAME, key, Digits(target)];
    assert parts[1..] == [key, Digits(target)];
    assert parts[1..][2..] == [];
    UnsignedRoundTrip(target, U64_MAX);
    DecimalIsPlain(target);
    assert Decimal(target) == Digits(target);
  }

  function Part(h: map<bytes, bytes>, order: seq<bytes>): map<bytes, bytes>
    requires forall f :: f in order ==> f in h
  {
    map f | f in order :: h[f]
  }

  lemma HsetStep(key: Key, f: bytes, v: bytes, rest: seq<bytes>, ks: Keys, n: nat)
    requires IsUtf8(f) && IsUtf8(v) && Fields(ks, key).Ok? && |rest| % 2 == 0
    ensures HsetLoop(key, [f, v] + rest, ks, n)
            == HsetLoop(key, rest, SetField(ks, key, f, v), if f in Fields(ks, key).value then n else n + 1)
  {
    hide IsUtf8, SetField, Fields;
    assert ([f, v] + rest)[2..] == rest;
  }

  lemma SetFieldAt(ks: Keys, key: Key, f: bytes, v: bytes)
    requires Fields(ks, key).Ok? && (key in ks ==> ks[key].deadline.None?)
    ensures SetField(ks, key, f, v) == ks[key := Entry(Hash(Fields(ks, key).value[f := v]), None)]
  {
  }

  /** Setting fields one after another adds them to what is there. */
  lemma {:induction false} HsetRebuilds(key: Key, h: map<bytes, bytes>, order: seq<bytes>, ks: Keys, n: nat)
    requires forall f :: f in order ==> f in h
    requires forall f :: f in h ==> IsUtf8(f) && IsUtf8(h[f])
    requires Fields(ks, key).Ok? && (key in ks ==> ks[key].deadline.None?) && order != []
    ensures HsetLoop(key, FieldParts(h, order), ks, n).keys
            == ks[key := Entry(Hash(Fields(ks, key).value + Part(h, order)), None)]
    decreases |order|
  {
    hide HsetLoop, IsUtf8, SetField, Fields, Part;
    var f := order[0];
    var was := Fields(ks, key).value;
    var next := HashAt(ks, key, was[f := h[f]]);
    var more := if f in was then n else n + 1;
    HsetStep(key, f, h[f], FieldParts(h, order[1..]), ks, n);
    SetFieldAt(ks, key, f, h[f]);
    PartStep(was, h, order);
    if |order| == 1 {
      HsetNothing(key, next, more);
    } else {
      HsetRebuilds(key, h, order[1..], next, more);
    }
  }

  function HashAt(ks: Keys, key: Key, h: map<bytes, bytes>): (r: Keys)
    ensures Fields(r, key) == Ok(h) && key in r && r[key].deadline.None?
    ensures forall g :: r[key := Entry(Hash(g), None)] == ks[key := Entry(Hash(g), None)]
  {
    ks[key := Entry(Hash(h), None)]
  }

  lemma HsetNothing(key: Key, ks: Keys, n: nat)
    ensures HsetLoop(key, [], ks, n).keys == ks
  {
  }

  lemma PartStep(was: map<bytes, bytes>, h: map<bytes, bytes>, order: seq<bytes>)
    requires order != [] && forall f :: f in order ==> f in h
    ensures was[order[0] := h[order[0]]] + Part(h, order[1..]) == was + Part(h, order)
    ensures |order| == 1 ==> FieldParts(h, order[1..]) == [] && was[order[0] := h[order[0]]] == was + Part(h, order)
  {
  }

  lemma HsetRuns(key: Key, args: seq<bytes>, ks: Keys, at: Clock)
    requires IsUtf8(key) && |args| % 2 == 0 && |args| >= 2
    ensures ReplayExec(CommandFrom([HSET_NAME, key] + args), ks, at) == HsetLoop(key, args, ks, 0).keys
  {
    hide IsUtf8, HsetLoop, Lookup, UpperName, ExecQuiet;
    NamesFound();
    var parts := [HSET_NAME, key] + args;
    assert parts[1..] == [key] + args;
    assert ([key] + args)[1..] == args;
  }

  lemma RunHset(ks: Keys, key: Key, h: map<bytes, bytes>, order: seq<bytes>, at: Clock)
    requires IsUtf8(key) && key !in ks && ReachableValue(Hash(h)) && Enumerates(order, h)
    ensures ReplayExec(CommandFrom([HSET_NAME, key] + FieldParts(h, order)), ks, at) == ks[key := Entry(Hash(h), None)]
  {
    hide IsUtf8, HsetLoop, ReplayExec;
    assert forall f :: f in h ==> f in order;
    HsetRuns(key, FieldParts(h, order), ks, at);
    HsetRebuilds(key, h, order, ks, 0);
    assert map[] + Part(h, order) == h;
  }

  // ------------------------------------------------------- one entry back

  /** Both clocks read off one absolute time. */
  function Shared(t: nat, boot: int): Clock {
    Clock(t - boot, t / MS)
  }

  function Stamp(parts: seq<seq<bytes>>, times: seq<nat>, boot: int): seq<Stamped>
    requires |times| == |parts| && forall i :: 0 <= i < |parts| ==> parts[i] != []
  {
    seq(|parts|, i requires 0 <= i < |parts| => Stamped(CommandFrom(parts[i]), Shared(times[i], boot)))
  }

  predicate Sorted(times: seq<nat>) {
    forall i, j :: 0 <= i <= j < |times| ==> times[i] <= times[j]
  }

  /** A snapshot entry the store can hold. */
  ghost predicate Storable(s: Snap) {
    IsUtf8(s.key) && ReachableValue(s.entry.value) && WellOrdered(s)
  }

  /** Such an entry, encoded at an absolute time. */
  ghost predicate Encoded(s: Snap, enc: nat, boot: int) {
    Storable(s) && s.at == Shared(enc, boot)
  }

  /** Integers are written in decimal. */
  function Spelled(v: Value): Value {
    if v.Int? then Str(Decimal(v.i)) else v
  }

  /** What replay makes of an entry whose last command runs at this clock reading. */
  function Rewritten(s: Snap, at: Clock): Entry {
    Entry(Spelled(s.entry.value), if Ahead(s) then Some(ResolveUnix(Target(s), at)) else None)
  }

  /** The value alone, recreated in a store that does not have the key. */
  lemma ValueBack(ks: Keys, s: Snap, at: Clock)
    requires Storable(s) && s.key !in ks
    ensures |ValueParts(s)| == 1 && ValueParts(s)[0] != []
    ensures ReplayExec(CommandFrom(ValueParts(s)[0]), ks, at) == ks[s.key := Entry(Spelled(s.entry.value), None)]
  {
    hide ReplayExec, IsUtf8, Decimal, FieldParts;
    match s.entry.value
    case Str(b) => RunSet(ks, s.key, b, at);
    case Int(i) => RunSet(ks, s.key, Decimal(i), at);
    case Hash(h) => RunHset(ks, s.key, h, s.order, at);
  }

  lemma OneCommand(s: Snap)
    requires Storable(s)
    ensures |ValueParts(s)| == 1 && ValueParts(s)[0] != []
  {
  }

  /** Writing a live key or looking at live keys first comes to the same. */
  lemma LiveUpdate(ks: Keys, key: Key, e: Entry, before: Instant, now: Instant)
    requires before <= now
    ensures Live(Live(Live(ks, before), now)[key := e], now) == Live(ks[key := e], now)
  {
  }

  lemma ValueReplays(ks: Keys, s: Snap, t: nat, boot: int, before: Instant)
    requires Storable(s) && s.key !in ks && before <= Shared(t, boot).instant
    requires |ValueParts(s)| == 1 && ValueParts(s)[0] != []
    ensures var at := Shared(t, boot);
            ReplayOne(Live(ks, before), Stamped(CommandFrom(ValueParts(s)[0]), at))
            == Live(ks[s.key := Entry(Spelled(s.entry.value), None)], at.instant)
  {
    hide ReplayExec, IsUtf8, ValueParts, Decimal, Live;
    var at := Shared(t, boot);
    LiveKeys(ks, before);
    LiveKeys(Live(ks, before), at.instant);
    ValueBack(Live(Live(ks, before), at.instant), s, at);
    LiveUpdate(ks, s.key, Entry(Spelled(s.entry.value), None), before, at.instant);
  }

  lemma LiveKeys(ks: Keys, now: Instant)
    ensures forall k :: k in Live(ks, now) ==> k in ks
  {
  }

  lemma DeadlineReplays(ks: Keys, key: Key, value: Value, target: nat, t: nat, boot: int, before: Instant)
    requires IsUtf8(key) && target <= U64_MAX && before <= Shared(t, boot).instant
    ensures var at := Shared(t, boot);
            ReplayOne(Live(ks[key := Entry(value, None)], before),
                      Stamped(CommandFrom([PEXPIREAT_NAME, key, Digits(target)]), at))
            == Live(ks[key := Entry(value, Some(ResolveUnix(target, at)))], at.instant)
  {
    hide ReplayExec, IsUtf8, ResolveUnix, Digits;
    var at := Shared(t, boot);
    var with := ks[key := Entry(value, None)];
    var live := Live(Live(with, before), at.instant);
    assert key in live && live[key] == Entry(value, None);
    RunPexpireat(live, key, target, at);
    var e := Entry(value, Some(ResolveUnix(target, at)));
    LiveUpdate(with, key, e, before, at.instant);
    assert with[key := e] == ks[key := e];
  }

  /** One entry's commands, replayed beside whatever is there. */
  lemma EntryBack(ks: Keys, s: Snap, times: seq<nat>, boot: int, before: Instant)
    requires Storable(s) && s.key !in ks && |times| == |EntryParts(s)| > 0
    requires Sorted(times) && before <= Shared(times[0], boot).instant
    ensures var at := Shared(times[|times| - 1], boot);
            Replay(Live(ks, before), Stamp(EntryParts(s), times, boot))
                == Live(ks[s.key := Rewritten(s, at)], at.instant)
  {
    hide ReplayOne, IsUtf8, ResolveUnix, Digits, ValueParts, Live;
    OneCommand(s);
    var log := Stamp(EntryParts(s), times, boot);
    var value := Spelled(s.entry.value);
    assert log[0] == Stamped(CommandFrom(ValueParts(s)[0]), Shared(times[0], boot));
    ValueReplays(ks, s, times[0], boot, before);
    if Ahead(s) {
      assert log[1] == Stamped(CommandFrom([PEXPIREAT_NAME, s.key, Digits(Target(s))]), Shared(times[1], boot));
      assert times[0] <= times[1];
      DeadlineReplays(ks, s.key, value, Target(s), times[1], boot, Shared(times[0], boot).instant);
      ReplayTwo(Live(ks, before), log);
    } else {
      ReplaySingle(Live(ks, before), log);
    }
  }

  lemma ReplaySingle(ks: Keys, log: seq<Stamped>)
    requires |log| == 1
    ensures Replay(ks, log) == ReplayOne(ks, log[0])
  {
    hide ReplayOne;
    assert log[1..] == [];
  }

  lemma ReplayTwo(ks: Keys, log: seq<Stamped>)
    requires |log| == 2
    ensures Replay(ks, log) == ReplayOne(ReplayOne(ks, log[0]), log[1])
  {
    hide ReplayOne;
    ReplaySingle(ReplayOne(ks, log[0]), log[1..]);
  }

  // ----------------------------------------------------- a whole snapshot

  ghost predicate DistinctKeys(snaps: seq<Snap>) {
    forall i, j :: 0 <= i < j < |snaps| ==> snaps[i].key != snaps[j].key
  }

  lemma StampSplit(a: seq<seq<bytes>>, ta: seq<nat>, b: seq<seq<bytes>>, tb: seq<nat>, boot: int)
    requires |ta| == |a| && |tb| == |b|
    requires (forall i :: 0 <= i < |a| ==> a[i] != []) && (forall i :: 0 <= i < |b| ==> b[i] != [])
    ensures Stamp(a + b, ta + tb, boot) == Stamp(a, ta, boot) + Stamp(b, tb, boot)
  {
  }

  /** When the last of these commands runs. */
  function LastTime(times: seq<nat>): nat {
    if times == [] then 0 else times[|times| - 1]
  }

  /** When the last command of entry `i` runs. */
  function TimeOf(snaps: seq<Snap>, times: seq<nat>, i: nat): nat
    requires i < |snaps| && forall j :: 0 <= j < |snaps| ==> WellOrdered(snaps[j])
    requires |times| == |SnapshotParts(snaps)|
  {
    var n := |SnapshotParts(snaps[..i + 1])|;
    if 0 < n <= |times| then times[n - 1] else 0
  }

  /** The store a rewritten log describes, expiry aside. */
  function Described(snaps: seq<Snap>, times: seq<nat>, boot: int): Keys
    requires (forall j :: 0 <= j < |snaps| ==> WellOrdered(snaps[j])) && |times| == |SnapshotParts(snaps)|
  {
    if snaps == [] then map[]
    else
      var m := |snaps| - 1;
      Described(snaps[..m], times[..|SnapshotParts(snaps[..m])|], boot)
      [snaps[m].key := Rewritten(snaps[m], Shared(LastTime(times), boot))]
  }

  lemma {:induction false} DescribedKeys(snaps: seq<Snap>, times: seq<nat>, boot: int, k: Key)
    requires (forall j :: 0 <= j < |snaps| ==> WellOrdered(snaps[j])) && |times| == |SnapshotParts(snaps)|
    ensures k in Described(snaps, times, boot) <==> exists i :: 0 <= i < |snaps| && snaps[i].key == k
    decreases |snaps|
  {
    hide EntryParts, Rewritten;
    if snaps != [] {
      var m := |snaps| - 1;
      DescribedKeys(snaps[..m], times[..|SnapshotParts(snaps[..m])|], boot, k);
      if i :| 0 <= i < |snaps| && snaps[i].key == k {
        assert i < m ==> snaps[..m][i].key == k;
      }
    }
  }

  lemma PartsGrow(snaps: seq<Snap>, m: nat)
    requires m < |snaps| && forall j :: 0 <= j < |snaps| ==> WellOrdered(snaps[j]) && Storable(snaps[j])
    ensures |SnapshotParts(snaps[..m + 1])| > |SnapshotParts(snaps[..m])|
  {
    OneCommand(snaps[m]);
    assert snaps[..m + 1][..m] == snaps[..m];
  }

  lemma {:induction false} PartsPrefix(snaps: seq<Snap>, m: nat)
    requires m <= |snaps| && forall j :: 0 <= j < |snaps| ==> WellOrdered(snaps[j]) && Storable(snaps[j])
    ensures SnapshotParts(snaps[..m]) <= SnapshotParts(snaps)
    decreases |snaps|
  {
    hide EntryParts;
    if m < |snaps| {
      var init := snaps[..|snaps| - 1];
      PartsPrefix(init, m);
      assert init[..m] == snaps[..m];
    } else {
      assert snaps[..m] == snaps;
    }
  }

  /** Each entry, as described at the time its last command runs. */
  lemma {:induction false} DescribedAt(snaps: seq<Snap>, times: seq<nat>, boot: int, i: nat)
    requires DistinctKeys(snaps) && (forall j :: 0 <= j < |snaps| ==> WellOrdered(snaps[j]) && Storable(snaps[j]))
    requires |times| == |SnapshotParts(snaps)| && i < |snaps|
    ensures snaps[i].key in Described(snaps, times, boot)
    ensures Described(snaps, times, boot)[snaps[i].key] == Rewritten(snaps[i], Shared(TimeOf(snaps, times, i), boot))
    decreases |snaps|
  {
    hide EntryParts, SnapshotParts, Storable, WellOrdered, Rewritten, TimeOf;
    var m := |snaps| - 1;
    if i == m {
      TimeOfLast(snaps, times);
    } else {
      PartsPrefix(snaps, m);
      DescribedAt(snaps[..m], times[..|SnapshotParts(snaps[..m])|], boot, i);
      TimeOfEarlier(snaps, times, i);
      assert snaps[..m][i] == snaps[i];
    }
  }

  lemma TimeOfLast(snaps: seq<Snap>, times: seq<nat>)
    requires snaps != [] && forall j :: 0 <= j < |snaps| ==> WellOrdered(snaps[j]) && Storable(snaps[j])
    requires |times| == |SnapshotParts(snaps)|
    ensures TimeOf(snaps, times, |snaps| - 1) == LastTime(times)
  {
    hide EntryParts, Storable, WellOrdered;
    PartsGrow(snaps, |snaps| - 1);
    assert snaps[..|snaps|] == snaps;
  }

  lemma TimeOfEarlier(snaps: seq<Snap>, times: seq<nat>, i: nat)
    requires i < |snaps| - 1 && forall j :: 0 <= j < |snaps| ==> WellOrdered(snaps[j]) && Storable(snaps[j])
    requires |times| == |SnapshotParts(snaps)|
    requires var n := |SnapshotParts(snaps[..|snaps| - 1])|; n <= |times|
    ensures var init := snaps[..|snaps| - 1];
            TimeOf(init, times[..|SnapshotParts(init)|], i) == TimeOf(snaps, times, i)
  {
    hide EntryParts, SnapshotParts, Storable, WellOrdered;
    var init := snaps[..|snaps| - 1];
    assert init[..i + 1] == snaps[..i + 1];
    PartsPrefix(init, i + 1);
  }

  /**
   * What replaying a rewritten log into an empty store gives, to the letter:
   * whatever order the table yields keys and fields in, whenever each entry was
   * encoded, and at whatever times, not running back, the commands are run.
   */
  lemma {:induction false} RewriteReplays(snaps: seq<Snap>, times: seq<nat>, boot: int)
    requires DistinctKeys(snaps) && forall i :: 0 <= i < |snaps| ==> WellOrdered(snaps[i]) && Storable(snaps[i])
    requires |times| == |SnapshotParts(snaps)| && Sorted(times)
    ensures Replay(map[], Stamp(SnapshotParts(snaps), times, boot))
            == Live(Described(snaps, times, boot), Shared(LastTime(times), boot).instant)
    decreases |snaps|
  {
    hide EntryParts, Storable, Stamp, Replay, Rewritten, Live;
    if snaps == [] {
      NothingToReplay(times, boot);
    } else {
      var m := |snaps| - 1;
      var init, last := snaps[..m], snaps[m];
      var a, b := SnapshotParts(init), EntryParts(last);
      var ta, tb := times[..|a|], times[|a|..];
      assert SnapshotParts(snaps) == a + b && times == ta + tb;
      RewriteReplays(init, ta, boot);
      StampSplit(a, ta, b, tb, boot);
      ReplaySplit(map[], Stamp(a, ta, boot), Stamp(b, tb, boot));
      NotDescribed(snaps, ta, boot);
      SomeCommand(last);
      EntryBack(Described(init, ta, boot), last, tb, boot, Shared(LastTime(ta), boot).instant);
    }
  }

  lemma SomeCommand(s: Snap)
    requires Storable(s)
    ensures EntryParts(s) != []
  {
    OneCommand(s);
  }

  lemma NotDescribed(snaps: seq<Snap>, times: seq<nat>, boot: int)
    requires snaps != [] && DistinctKeys(snaps) && forall i :: 0 <= i < |snaps| ==>
        WellOrdered(snaps[i]) && Storable(snaps[i])
    requires |times| == |SnapshotParts(snaps[..|snaps| - 1])|
    ensures snaps[|snaps| - 1].key !in Described(snaps[..|snaps| - 1], times, boot)
  {
    hide EntryParts, Rewritten, Described;
    DescribedKeys(snaps[..|snaps| - 1], times, boot, snaps[|snaps| - 1].key);
  }

  lemma NothingToReplay(times: seq<nat>, boot: int)
    requires |times| == 0
    ensures Replay(map[], Stamp(SnapshotParts([]), times, boot)) == map[]
    ensures Live(Described([], times, boot), Shared(LastTime(times), boot).instant) == map[]
  {
  }

  // ------------------------------------------------- deadlines, in and out

  function Lesser(a: int, b: int): int {
    if a < b then a else b
  }

  /** The absolute deadline after encoding at `enc` and replaying at `t`, by the rewriter's arithmetic. */
  function Cycle(deadline: int, enc: nat, t: nat): int {
    var target := Lesser(enc / MS + (deadline - enc) / MS, U64_MAX);
    if target <= t / MS then t - MS else t + (target - t / MS) * MS
  }

  /** `Cycle` is what the snapshot entry and its replay do, seen in absolute time. */
  lemma CycleIsRewriteAndReplay(s: Snap, enc: nat, boot: int, t: nat, boot': int)
    requires s.at == Shared(enc, boot) && Ahead(s)
    ensures ResolveUnix(Target(s), Shared(t, boot')) + boot' == Cycle(s.entry.deadline.value + boot, enc, t)
  {
    var d := s.entry.deadline.value + boot;
    assert d - enc == s.entry.deadline.value - s.at.instant;
  }

  /** Not so far ahead that its millisecond target is cut to 64 bits. */
  predicate Representable(deadline: int, t: nat) {
    deadline < (U64_MAX + 2) * MS + t % MS
  }

  /**
   * One cycle on a deadline that is ahead at encoding. The key is alive after
   * replay exactly when the written target is ahead in milliseconds; and the
   * drift is above -2 ms and below +1 ms exactly when it is alive and
   * representable, or the deadline is within two milliseconds before and one
   * after the replay. Two milliseconds of life left at replay are enough.
   */
  lemma CycleDrift(deadline: int, enc: nat, t: nat)
    requires deadline > enc
    ensures var alive := t / MS < Lesser(enc / MS + (deadline - enc) / MS, U64_MAX);
            var near := -2 * MS < Cycle(deadline, enc, t) - deadline < MS;
            && (t <= Cycle(deadline, enc, t) <==> alive)
            && (near <==> (alive && Representable(deadline, t)) || t - 2 * MS < deadline < t + MS)
            && (alive && near ==> Representable(deadline, t))
            && (deadline >= t + 2 * MS && t / MS < U64_MAX ==> alive)
  {
    var u := enc / MS + (deadline - enc) / MS;
    assert u * MS <= deadline < (u + 2) * MS;
    var target := Lesser(u, U64_MAX);
    if t / MS < target {
      assert Cycle(deadline, enc, t) == target * MS + t % MS;
    }
  }

  /** With less than two milliseconds left the bound fails: 1.998 ms ahead, the key is already gone. */
  lemma CycleDriftTooClose()
    ensures var deadline, enc, t := 2_998_000, 999_000, 1_000_000;
            enc < t < deadline < t + 2 * MS && Cycle(deadline, enc, t) < t
                && Cycle(deadline, enc, t) - deadline < -2 * MS
  {
  }

  // ---------------------------------------------------- meaning preserved

  /** Same value to every client, and the same deadline up to the rounding of two clocks. */
  ghost predicate Faithful(e: Entry, boot: int, r: Entry, boot': int) {
    && SimilarValue(e.value, r.value)
    && match e.deadline
       case None => r.deadline.None?
       case Some(d) => r.deadline.Some? && -2 * MS < (r.deadline.value + boot') - (d + boot) < MS
  }

  /** The recovered store holds exactly the snapshot's keys, each faithfully. */
  ghost predicate Rebuilt(back: Keys, snaps: seq<Snap>, boot: int, boot': int) {
    && (forall k :: k in back <==> exists i :: 0 <= i < |snaps| && snaps[i].key == k)
    && (forall i :: 0 <= i < |snaps| ==>
        snaps[i].key in back && Faithful(snaps[i].entry, boot, back[snaps[i].key], boot'))
  }

  /** Ahead at encoding, representable, and its written target not reached before replay ends. */
  predicate Kept(s: Snap, enc: nat, boot: int, t: nat, end: nat) {
    s.entry.deadline.None? ||
    (var deadline := s.entry.deadline.value + boot;
     enc < deadline && Representable(deadline, t) && end <= Cycle(deadline, enc, t))
  }

  lemma SpelledIsSimilar(v: Value)
    ensures SimilarValue(v, Spelled(v))
  {
  }

  /** One entry comes through faithfully exactly when its deadline is kept. */
  lemma KeptIff(s: Snap, enc: nat, boot: int, t: nat, boot': int, end: nat)
    requires Encoded(s, enc, boot) && t <= end
    ensures var r := Rewritten(s, Shared(t, boot'));
            !IsExpired(r, Shared(end, boot').instant) && Faithful(s.entry, boot, r, boot')
            <==> Kept(s, enc, boot, t, end)
  {
    hide ResolveUnix, Cycle, Decimal, IsUtf8, Representable;
    SpelledIsSimilar(s.entry.value);
    if s.entry.deadline.Some? {
      var d := s.entry.deadline.value + boot;
      assert Ahead(s) <==> enc < d;
      if Ahead(s) {
        CycleIsRewriteAndReplay(s, enc, boot, t, boot');
        CycleDrift(d, enc, t);
      }
    }
  }

  /**
   * Rewrite preserves meaning, exactly when it does. Whatever order the table
   * yields keys and fields in, and whenever each entry is encoded and each command
   * replayed, replaying a rewritten log into an empty store gives the same keys,
   * the same contents up to the spelling of integers, and deadlines within two
   * milliseconds before and one after, if and only if every deadline is kept.
   */
  lemma RewritePreservesMeaning(snaps: seq<Snap>, encs: seq<nat>, boot: int, times: seq<nat>, boot': int)
    requires |encs| == |snaps| && DistinctKeys(snaps)
    requires forall i :: 0 <= i < |snaps| ==>
        WellOrdered(snaps[i]) && Storable(snaps[i]) && Encoded(snaps[i], encs[i], boot)
    requires |times| == |SnapshotParts(snaps)| && Sorted(times)
    ensures Rebuilt(Replay(map[], Stamp(SnapshotParts(snaps), times, boot')), snaps, boot, boot')
            <==> forall i :: 0 <= i < |snaps| ==>
                Kept(snaps[i], encs[i], boot, TimeOf(snaps, times, i), LastTime(times))
  {
    hide Replay, Stamp, Faithful, Kept, Rewritten, Described, Storable, Encoded, EntryParts, SnapshotParts;
    RewriteReplays(snaps, times, boot');
    var back := Replay(map[], Stamp(SnapshotParts(snaps), times, boot'));
    var now := Shared(LastTime(times), boot').instant;
    forall i | 0 <= i < |snaps|
      ensures snaps[i].key in back && Faithful(snaps[i].entry, boot, back[snaps[i].key], boot')
              <==> Kept(snaps[i], encs[i], boot, TimeOf(snaps, times, i), LastTime(times))
    {
      DescribedAt(snaps, times, boot', i);
      TimesEnd(snaps, times, i);
      KeptIff(snaps[i], encs[i], boot, TimeOf(snaps, times, i), boot', LastTime(times));
    }
    forall k
      ensures k in back ==> exists i :: 0 <= i < |snaps| && snaps[i].key == k
    {
      DescribedKeys(snaps, times, boot', k);
    }
  }

  lemma TimesEnd(snaps: seq<Snap>, times: seq<nat>, i: nat)
    requires i < |snaps| && forall j :: 0 <= j < |snaps| ==> WellOrdered(snaps[j]) && Storable(snaps[j])
    requires |times| == |SnapshotParts(snaps)| && Sorted(times)
    ensures TimeOf(snaps, times, i) <= LastTime(times)
  {
    PartsPrefix(snaps, i + 1);
  }

  /**
   * What becomes of one entry, seen at any moment from the end of the replay on:
   * it is there exactly while its new deadline has not passed, if it has one; and
   * it has one exactly when the old one was still ahead when the entry was
   * encoded. One that passed between the snapshot and the encoding leaves the
   * value without any deadline; one whose target passed before its replay is gone.
   */
  lemma DeadlineSurvives(snaps: seq<Snap>, enc: nat, boot: int, times: seq<nat>, boot': int, i: nat, later: nat)
    requires DistinctKeys(snaps) && forall j :: 0 <= j < |snaps| ==> WellOrdered(snaps[j]) && Storable(snaps[j])
    requires |times| == |SnapshotParts(snaps)| && Sorted(times) && LastTime(times) <= later
    requires i < |snaps| && Encoded(snaps[i], enc, boot) && snaps[i].entry.deadline.Some?
    ensures var seen := Live(Replay(map[], Stamp(SnapshotParts(snaps), times, boot')), Shared(later, boot').instant);
            var key := snaps[i].key;
            var deadline := snaps[i].entry.deadline.value + boot;
            && (key in seen <==> (enc < deadline ==> later <= Cycle(deadline, enc, TimeOf(snaps, times, i))))
            && (key in seen ==> SimilarValue(snaps[i].entry.value, seen[key].value)
                                && (seen[key].deadline.Some? <==> enc < deadline))
  {
    hide Replay, Stamp, Described, EntryParts, SnapshotParts, ResolveUnix, Cycle, Decimal, IsUtf8;
    RewriteReplays(snaps, times, boot');
    DescribedAt(snaps, times, boot', i);
    SpelledIsSimilar(snaps[i].entry.value);
    if Ahead(snaps[i]) {
      CycleIsRewriteAndReplay(snaps[i], enc, boot, TimeOf(snaps, times, i), boot');
    }
  }

  /** A key whose deadline passed between snapshot and encoding never expires again. */
  lemma PassedDeadlineBecomesNone(s: Snap, t: Clock)
    requires Storable(s) && s.entry.deadline.Some? && !Ahead(s)
    ensures |EntryParts(s)| == 1
    ensures var back := Replay(map[], [Stamped(CommandFrom(EntryParts(s)[0]), t)]);
            back == map[s.key := Entry(Spelled(s.entry.value), None)]
  {
    hide ReplayExec, IsUtf8, ValueParts;
    OneCommand(s);
    ValueBack(map[], s, t);
    var log := [Stamped(CommandFrom(EntryParts(s)[0]), t)];
    assert Live(map[], t.instant) == map[];
    ReplaySingle(map[], log);
  }

  // ------------------------------------------------- drift over many cycles

  datatype Restart = Restart(enc: nat, t: nat)

  function Cycles(deadline: int, rs: seq<Restart>): int
    decreases |rs|
  {
    if rs == [] then deadline else Cycles(Cycle(deadline, rs[0].enc, rs[0].t), rs[1..])
  }

  /** Every cycle meets the deadline ahead at encoding, and leaves the key alive when replaying. */
  ghost predicate StaysAlive(deadline: int, rs: seq<Restart>)
    decreases |rs|
  {
    rs == [] || (&& deadline > rs[0].enc && Representable(deadline, rs[0].t)
                 && rs[0].t <= Cycle(deadline, rs[0].enc, rs[0].t)
                 && StaysAlive(Cycle(deadline, rs[0].enc, rs[0].t), rs[1..]))
  }

  /** After n cycles a deadline has moved by more than -2n ms and less than +n ms. */
  lemma {:induction false} DriftOverCycles(deadline: int, rs: seq<Restart>)
    requires StaysAlive(deadline, rs)
    ensures -2 * MS * |rs| <= Cycles(deadline, rs) - deadline <= MS * |rs|
    ensures rs != [] ==> -2 * MS * |rs| < Cycles(deadline, rs) - deadline < MS * |rs|
    decreases |rs|
  {
    hide Cycle, Representable;
    if rs != [] {
      CycleDrift(deadline, rs[0].enc, rs[0].t);
      DriftOverCycles(Cycle(deadline, rs[0].enc, rs[0].t), rs[1..]);
    }
  }
}
