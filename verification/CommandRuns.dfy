/**
 * Laws of commands over whole runs: counters add up, and conditional deadlines
 * raced against each other end in the latest or the earliest.
 */
module CommandRuns {
  import opened Bytes
  import opened Resp
  import opened Keyspace
  import opened Commands
  import opened Dispatch
  import opened Server
  import opened ArgumentLoops
  import opened CommandLaws
  import opened ExpiryFolds

  // --------------------------------------------------------------- counters

  /** INCR or DECR of this key. */
  predicate Counts(e: Event, k: Key) {
    e.Do? && (Lookup(e.command.name) == INCR || Lookup(e.command.name) == DECR) && e.command.args == [k]
  }

  predicate Runs(e: Event, v: Verb) {
    e.Do? && Lookup(e.command.name) == v
  }

  /** Where in a run a command occurs. */
  function Times(trace: seq<Event>, v: Verb): set<int> {
    set i | 0 <= i < |trace| && Runs(trace[i], v)
  }

  /** Increments less decrements. */
  function Balance(trace: seq<Event>): int {
    |Times(trace, INCR)| - |Times(trace, DECR)|
  }

  lemma TimesSnoc(trace: seq<Event>, e: Event, v: Verb)
    ensures |Times(trace + [e], v)| == |Times(trace, v)| + if Runs(e, v) then 1 else 0
  {
    hide Times;
    OneMoreTime(trace, e, v);
    if Runs(e, v) {
      assert |Times(trace, v) + {|trace|}| == |Times(trace, v)| + 1;
    }
  }

  lemma OneMoreTime(trace: seq<Event>, e: Event, v: Verb)
    ensures Times(trace + [e], v) == if Runs(e, v) then Times(trace, v) + {|trace|} else Times(trace, v)
    ensures |trace| !in Times(trace, v)
  {
    hide Runs;
    var all := trace + [e];
    forall i
      ensures i in Times(all, v) <==> i in Times(trace, v) || (i == |trace| && Runs(e, v))
    {
      if 0 <= i < |trace| {
        assert all[i] == trace[i];
      }
    }
  }

  /** The key counts from this number: it is not there and the number is 0, or it holds it. */
  predicate StartsAt(ks: Keys, k: Key, start: i64) {
    if k in ks then HoldsNumber(ks, k, start) else start == 0
  }

  predicate InRange(n: int) {
    -0x8000_0000_0000_0000 <= n <= 0x7FFF_FFFF_FFFF_FFFF
  }

  /** No count on the way leaves the range of 64 bits. */
  predicate StaysInRange(start: i64, trace: seq<Event>) {
    forall i :: 0 <= i <= |trace| ==> InRange(start + Balance(trace[..i]))
  }

  /** The key as counting leaves it: with the count, and the deadline it had before. */
  predicate HoldsCount(ks: Keys, k: Key, was: Keys, count: int, trace: seq<Event>) {
    if trace == [] then Find(ks, k) == Find(was, k)
    else InRange(count) && Find(ks, k) == Some(Entry(Int(count), KeptDeadline(was, k)))
  }

  predicate Outlives(ks: Keys, k: Key, trace: seq<Event>) {
    k in ks ==> forall i :: 0 <= i < |trace| && trace[i].Do? ==> !IsExpired(ks[k], trace[i].at.instant)
  }

  lemma CounterStep(ks: Keys, was: Keys, start: i64, init: seq<Event>, e: Event, k: Key)
    requires IsUtf8(k) && Counts(e, k) && StartsAt(was, k, start) && Outlives(was, k, [e])
    requires InRange(start + Balance(init)) && HoldsCount(ks, k, was, start + Balance(init), init)
    ensures var r := Exec(e.command, Live(ks, e.at.instant), e.at);
            var count := start + Balance(init + [e]);
            && (InRange(count) ==> r.result == Done(Count(count))
                                   && HoldsCount(Live(r.keys, e.at.instant), k, was, count, init + [e]))
            && (!InRange(count) ==> r.result.Refused?)
  {
    hide Lookup, IsUtf8, Exec, Balance, HoldsNumber;
    var live := Live(ks, e.at.instant);
    BalanceSnoc(init, e, k);
    assert [e][0] == e;
    assert Find(live, k) == Find(ks, k);
    var n: i64 := start + Balance(init);
    if k in live {
      assert HoldsNumber(live, k, n) by { NumberStays(live, was, start, init, k); }
      CounterLaw(e.command, k, n, live, e.at);
    } else {
      NothingCounted();
      CounterStarts(e.command, k, live, e.at);
    }
  }

  lemma NumberStays(ks: Keys, was: Keys, start: i64, init: seq<Event>, k: Key)
    requires StartsAt(was, k, start) && InRange(start + Balance(init)) && k in ks
    requires HoldsCount(ks, k, was, start + Balance(init), init)
    ensures HoldsNumber(ks, k, start + Balance(init))
  {
    hide Balance;
    NothingCounted();
  }

  /**
   * Counting on a key, increments and decrements in any order, at any times it is
   * live: all are answered exactly when no count on the way leaves 64 bits; and then
   * each answer is the first number and the balance so far, and the key is left
   * with the last and with its deadline.
   */
  lemma {:induction false} CountersAddUp(ks: Keys, trace: seq<Event>, k: Key, start: i64)
    requires IsUtf8(k) && StartsAt(ks, k, start) && Outlives(ks, k, trace)
    requires forall i :: 0 <= i < |trace| ==> Counts(trace[i], k)
    ensures |Run(ks, trace).replies| == |trace|
    ensures StaysInRange(start, trace) <==> forall i :: 0 <= i < |trace| ==> Run(ks, trace).replies[i].Done?
    ensures StaysInRange(start, trace) ==>
              && HoldsCount(Run(ks, trace).keys, k, ks, start + Balance(trace), trace)
              && forall i :: 0 <= i < |trace| ==>
                   Run(ks, trace).replies[i] == Done(Count(start + Balance(trace[..i + 1])))
    decreases |trace|
  {
    hide Lookup, IsUtf8, Exec, Balance, Run, HoldsCount, Live, StartsAt, InRange;
    if trace == [] {
      NoEvents(ks);
      NothingCounted();
      NotYetCounted(ks, k, start);
    } else {
      var m := |trace| - 1;
      var init, e := trace[..m], trace[m];
      assert trace == init + [e] && trace[..m + 1] == trace;
      assert forall i :: 0 <= i <= m ==> trace[..i] == init[..i];
      CountersAddUp(ks, init, k, start);
      RunSnoc(ks, init, e.command, e.at);
      if StaysInRange(start, init) {
        assert init[..m] == init;
        CounterStep(Run(ks, init).keys, ks, start, init, e, k);
        OneMoreInRange(start, init, e);
        assert Run(ks, trace).replies[m].Done? <==> InRange(start + Balance(trace));
      } else {
        var i :| 0 <= i < m && !Run(ks, init).replies[i].Done?;
        assert Run(ks, trace).replies[i] == Run(ks, init).replies[i];
        OneMoreInRange(start, init, e);
      }
    }
  }

  lemma OneMoreInRange(start: i64, init: seq<Event>, e: Event)
    ensures StaysInRange(start, init + [e]) <==> StaysInRange(start, init) && InRange(start + Balance(init + [e]))
  {
    hide Balance, InRange;
    var trace := init + [e];
    assert forall i :: 0 <= i <= |init| ==> trace[..i] == init[..i];
    assert trace[..|trace|] == trace;
  }

  lemma NotYetCounted(ks: Keys, k: Key, start: i64)
    ensures HoldsCount(ks, k, ks, start, []) && StaysInRange(start, [])
  {
    hide Balance;
    NothingCounted();
    var none: seq<Event> := [];
    assert none[..0] == none;
  }

  lemma NothingCounted()
    ensures Balance([]) == 0
  {
    assert Times([], INCR) == {} && Times([], DECR) == {};
  }

  lemma NoEvents(ks: Keys)
    ensures Run(ks, []) == Ran([], ks)
  {
  }

  lemma BalanceSnoc(trace: seq<Event>, e: Event, k: Key)
    requires Counts(e, k)
    ensures Balance(trace + [e]) == Balance(trace) + if Runs(e, INCR) then 1 else -1
  {
    hide Lookup;
    TimesSnoc(trace, e, INCR);
    TimesSnoc(trace, e, DECR);
  }

  // --------------------------------------------------------------- deadlines

  /** One of the four commands that set deadlines, with its number, its last word and when it runs. */
  datatype Ask = Ask(name: bytes, count: bytes, n: nat, word: bytes, at: Clock)

  predicate IsAsk(a: Ask, w: bytes) {
    IsExpireVerb(Lookup(a.name)) && IsCount(a.count, a.n) && Upper(a.word) == w
  }

  function EventOf(a: Ask, k: Key): Event {
    Do(Command(a.name, [k, a.count, a.word]), a.at)
  }

  function Events(asks: seq<Ask>, k: Key): seq<Event> {
    seq(|asks|, i requires 0 <= i < |asks| => EventOf(asks[i], k))
  }

  predicate InTime(asks: seq<Ask>) {
    forall i, j :: 0 <= i < j < |asks| ==> asks[i].at.instant <= asks[j].at.instant
  }

  /** The calls these commands make: each at its time, for the deadline it asks for. */
  predicate AreCalls(calls: seq<Call>, asks: seq<Ask>) {
    && |calls| == |asks|
    && forall i :: 0 <= i < |calls| ==>
         calls[i].now == asks[i].at.instant
         && AsksFor(Lookup(asks[i].name), asks[i].n, asks[i].at, calls[i].deadline)
  }

  predicate IsFlag(flag: ExpireFlag, w: bytes) {
    (flag == Gt && w == Word("GT")) || (flag == Lt && w == Word("LT"))
  }

  lemma AskIsCall(a: Ask, k: Key, flag: ExpireFlag, w: bytes, ks: Keys) returns (d: Instant)
    requires IsFlag(flag, w) && IsAsk(a, w) && IsUtf8(k)
    ensures AsksFor(Lookup(a.name), a.n, a.at, d)
    ensures Exec(EventOf(a, k).command, ks, a.at).keys == ExpireKey(ks, k, d, flag)
  {
    FlagWords();
    hide Lookup, IsUtf8, Exec, IsCount, AsksFor, Word, Upper;
    d := ExpireIf(EventOf(a, k).command, k, a.count, a.n, a.word, ks, a.at);
  }

  lemma {:induction false} RunIsRace(ks: Keys, asks: seq<Ask>, k: Key, flag: ExpireFlag, w: bytes)
    returns (calls: seq<Call>)
    requires IsFlag(flag, w) && IsUtf8(k) && InTime(asks) && forall i :: 0 <= i < |asks| ==> IsAsk(asks[i], w)
    ensures AreCalls(calls, asks)
    ensures Run(ks, Events(asks, k)).keys
            == if asks == [] then ks else Live(Race(ks, k, calls, flag), asks[|asks| - 1].at.instant)
    decreases |asks|
  {
    hide Lookup, IsUtf8, Exec, Run, AsksFor, Race, ExpireKey, Live, IsCount, IsFlag;
    if asks == [] {
      calls := [];
      NoEvents(ks);
      assert Events(asks, k) == [];
    } else {
      var m := |asks| - 1;
      var init, a := asks[..m], asks[m];
      var earlier := RunIsRace(ks, init, k, flag, w);
      var now := a.at.instant;
      assert Events(asks, k) == Events(init, k) + [EventOf(a, k)];
      RunSnoc(ks, Events(init, k), EventOf(a, k).command, a.at);
      var before := Run(ks, Events(init, k)).keys;
      var d := AskIsCall(a, k, flag, w, Live(before, now));
      calls := earlier + [Call(d, now)];
      RaceSnoc(ks, k, earlier, Call(d, now), flag);
      if init == [] {
        RaceOfNone(ks, k, flag);
      } else {
        LiveLater(Race(ks, k, earlier, flag), init[|init| - 1].at.instant, now);
      }
    }
  }

  lemma RaceOfNone(ks: Keys, k: Key, flag: ExpireFlag)
    ensures Race(ks, k, [], flag) == ks
  {
  }

  lemma RaceSnoc(ks: Keys, k: Key, calls: seq<Call>, last: Call, flag: ExpireFlag)
    ensures Race(ks, k, calls + [last], flag)
            == ExpireKey(Live(Race(ks, k, calls, flag), last.now), k, last.deadline, flag)
  {
    hide ExpireKey, Live;
    assert (calls + [last])[..|calls|] == calls;
  }

  /**
   * Any run of EXPIRE k n GT, or of its kin, in any letter case, on a key that
   * would be live throughout: the key keeps its value and ends with the latest of
   * its own deadline and all asked for; without one it keeps none.
   */
  lemma GreatestAskWins(ks: Keys, asks: seq<Ask>, k: Key) returns (calls: seq<Call>)
    requires IsUtf8(k) && InTime(asks) && forall i :: 0 <= i < |asks| ==> IsAsk(asks[i], Word("GT"))
    requires k in ks && forall i :: 0 <= i < |asks| ==> !IsExpired(ks[k], asks[i].at.instant)
    ensures AreCalls(calls, asks)
    ensures var r := Run(ks, Events(asks, k)).keys;
            k in r && r[k].value == ks[k].value && IsLatest(r[k].deadline, ks[k].deadline, calls)
  {
    hide Lookup, IsUtf8, Run, AsksFor, Race, Word, IsAsk;
    calls := RunIsRace(ks, asks, k, Gt, Word("GT"));
    forall j | 0 <= j < |calls|
      ensures !IsExpired(ks[k], calls[j].now)
    {
      assert calls[j].now == asks[j].at.instant;
    }
    GreatestWins(ks, k, calls);
    if asks != [] {
      assert !IsExpired(ks[k], asks[|asks| - 1].at.instant);
    }
  }

  /** And of EXPIRE k n LT, where the deadlines asked for outlast the run too: the earliest. */
  lemma LeastAskWins(ks: Keys, asks: seq<Ask>, k: Key) returns (calls: seq<Call>)
    requires IsUtf8(k) && InTime(asks) && forall i :: 0 <= i < |asks| ==> IsAsk(asks[i], Word("LT"))
    requires k in ks && forall i :: 0 <= i < |asks| ==> !IsExpired(ks[k], asks[i].at.instant)
    requires forall i, j, d ::
               0 <= i < |asks| && 0 <= j < |asks| && AsksFor(Lookup(asks[i].name), asks[i].n, asks[i].at, d)
               ==> d >= asks[j].at.instant
    ensures AreCalls(calls, asks)
    ensures var r := Run(ks, Events(asks, k)).keys;
            k in r && r[k].value == ks[k].value && IsEarliest(r[k].deadline, ks[k].deadline, calls)
  {
    hide Lookup, IsUtf8, Run, AsksFor, Race, Word, IsAsk;
    calls := RunIsRace(ks, asks, k, Lt, Word("LT"));
    forall j | 0 <= j < |calls|
      ensures !IsExpired(ks[k], calls[j].now)
    {
      assert calls[j].now == asks[j].at.instant;
    }
    forall i, j | 0 <= i < |calls| && 0 <= j < |calls|
      ensures calls[i].deadline >= calls[j].now
    {
      assert AsksFor(Lookup(asks[i].name), asks[i].n, asks[i].at, calls[i].deadline);
      assert calls[j].now == asks[j].at.instant;
    }
    KeyStays(ks, k, calls, Lt);
    LeastWins(ks, k, calls);
    if asks != [] {
      StaysAlive(ks, calls, k, Race(ks, k, calls, Lt)[k].deadline);
    }
  }

  lemma StaysAlive(ks: Keys, calls: seq<Call>, k: Key, d: Option<Instant>)
    requires k in ks && calls != [] && Outlasts(ks[k], calls) && IsEarliest(d, ks[k].deadline, calls)
    ensures d.Some? && d.value >= calls[|calls| - 1].now
  {
    var now := calls[|calls| - 1].now;
    assert !IsExpired(ks[k], now);
    if d != ks[k].deadline {
      var i :| 0 <= i < |calls| && calls[i].deadline == d.value;
    }
  }
}
