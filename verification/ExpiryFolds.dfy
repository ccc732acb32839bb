/**
 * Conditional deadlines raced against each other. Each call is atomic on its key,
 * so any interleaving of callers is some sequence of calls.
 */
module ExpiryFolds {
  import opened Bytes
  import opened Keyspace

  /** One EXPIRE call: the deadline asked for, and when it runs. */
  datatype Call = Call(deadline: Instant, now: Instant)

  /** All calls in turn, each on what is alive when it runs. */
  function Race(ks: Keys, key: Key, calls: seq<Call>, flag: ExpireFlag): Keys {
    if calls == [] then ks
    else
      var m := |calls| - 1;
      ExpireKey(Live(Race(ks, key, calls[..m], flag), calls[m].now), key, calls[m].deadline, flag)
  }

  /** The key, as it is before the race, would outlast it. */
  ghost predicate KeyOutlasts(e: Entry, calls: seq<Call>) {
    forall j :: 0 <= j < |calls| ==> !IsExpired(e, calls[j].now)
  }

  /** And so does every deadline asked for. */
  ghost predicate Outlasts(e: Entry, calls: seq<Call>) {
    && KeyOutlasts(e, calls)
    && (forall i, j :: 0 <= i < |calls| && 0 <= j < |calls| ==> calls[i].deadline >= calls[j].now)
  }

  ghost predicate Asked(calls: seq<Call>, d: Instant) {
    exists i :: 0 <= i < |calls| && calls[i].deadline == d
  }

  /** The latest of the current deadline and all asked for; none stays none. */
  ghost predicate IsLatest(r: Option<Instant>, current: Option<Instant>, calls: seq<Call>) {
    match current
    case None => r.None?
    case Some(c) =>
      && r.Some? && (r.value == c || Asked(calls, r.value))
      && r.value >= c && forall i :: 0 <= i < |calls| ==> r.value >= calls[i].deadline
  }

  /** The earliest, where having no deadline counts as infinity. */
  ghost predicate IsEarliest(r: Option<Instant>, current: Option<Instant>, calls: seq<Call>) {
    if calls == [] then r == current
    else
      && r.Some? && (r == current || Asked(calls, r.value))
      && (current.Some? ==> r.value <= current.value) && forall i :: 0 <= i < |calls| ==> r.value <= calls[i].deadline
  }

  lemma OutlastsPrefix(e: Entry, calls: seq<Call>)
    requires calls != [] && Outlasts(e, calls)
    ensures Outlasts(e, calls[..|calls| - 1])
  {
  }

  lemma AskedMore(calls: seq<Call>, d: Instant)
    requires calls != [] && Asked(calls[..|calls| - 1], d)
    ensures Asked(calls, d)
  {
    var i :| 0 <= i < |calls| - 1 && calls[..|calls| - 1][i].deadline == d;
    assert calls[i].deadline == d;
  }

  /** The value and the key survive the race whatever the flag. */
  lemma {:induction false} KeyStays(ks: Keys, key: Key, calls: seq<Call>, flag: ExpireFlag)
    requires key in ks && Outlasts(ks[key], calls)
    ensures var r := Race(ks, key, calls, flag);
            && key in r && r[key].value == ks[key].value
            && (r[key].deadline == ks[key].deadline || (r[key].deadline.Some? && Asked(calls, r[key].deadline.value)))
    decreases |calls|
  {
    if calls != [] {
      var m := |calls| - 1;
      OutlastsPrefix(ks[key], calls);
      KeyStays(ks, key, calls[..m], flag);
      var before := Race(ks, key, calls[..m], flag);
      if before[key].deadline != ks[key].deadline {
        AskedMore(calls, before[key].deadline.value);
      }
      assert !IsExpired(before[key], calls[m].now);
      assert calls[m].deadline == calls[m].deadline && Asked(calls, calls[m].deadline);
    }
  }

  /**
   * All GT: the latest deadline wins, in any order; a key without a deadline keeps
   * none. Deadlines can only grow, so those asked for may be past at any call.
   */
  lemma {:induction false} GreatestWins(ks: Keys, key: Key, calls: seq<Call>)
    requires key in ks && KeyOutlasts(ks[key], calls)
    ensures var r := Race(ks, key, calls, Gt);
            && key in r && r[key].value == ks[key].value
            && IsLatest(r[key].deadline, ks[key].deadline, calls)
    decreases |calls|
  {
    if calls != [] {
      var m := |calls| - 1;
      GreatestWins(ks, key, calls[..m]);
      assert Race(ks, key, calls, Gt)
          == ExpireKey(Live(Race(ks, key, calls[..m], Gt), calls[m].now), key, calls[m].deadline, Gt);
      hide Race;
      var before := Race(ks, key, calls[..m], Gt);
      if before[key].deadline != ks[key].deadline {
        AskedMore(calls, before[key].deadline.value);
      }
      assert !IsExpired(ks[key], calls[m].now);
      assert !IsExpired(before[key], calls[m].now);
      assert Asked(calls, calls[m].deadline);
      forall i | 0 <= i < m
        ensures calls[i] == calls[..m][i]
      {
      }
    }
  }

  /** All LT: the earliest deadline wins, in any order. */
  lemma {:induction false} LeastWins(ks: Keys, key: Key, calls: seq<Call>)
    requires key in ks && Outlasts(ks[key], calls)
    ensures key in Race(ks, key, calls, Lt)
    ensures IsEarliest(Race(ks, key, calls, Lt)[key].deadline, ks[key].deadline, calls)
    decreases |calls|
  {
    KeyStays(ks, key, calls, Lt);
    if calls != [] {
      var m := |calls| - 1;
      OutlastsPrefix(ks[key], calls);
      KeyStays(ks, key, calls[..m], Lt);
      LeastWins(ks, key, calls[..m]);
      assert Race(ks, key, calls, Lt)
          == ExpireKey(Live(Race(ks, key, calls[..m], Lt), calls[m].now), key, calls[m].deadline, Lt);
      hide Race, Outlasts;
      var before := Race(ks, key, calls[..m], Lt);
      if before[key].deadline != ks[key].deadline {
        AskedMore(calls, before[key].deadline.value);
      }
      assert !IsExpired(before[key], calls[m].now);
      assert Asked(calls, calls[m].deadline);
      forall i | 0 <= i < m
        ensures calls[i] == calls[..m][i]
      {
      }
    }
  }

  /** What the key must outlast for its flag: for GT the calls, for LT also the deadlines asked for. */
  ghost predicate OutlastsFor(e: Entry, calls: seq<Call>, flag: ExpireFlag) {
    if flag.Gt? then KeyOutlasts(e, calls) else Outlasts(e, calls)
  }

  /** The outcome does not depend on the order, or on how often a deadline is asked for. */
  lemma OrderDoesNotMatter(ks: Keys, key: Key, a: seq<Call>, b: seq<Call>, flag: ExpireFlag)
    requires flag.Gt? || flag.Lt?
    requires key in ks && OutlastsFor(ks[key], a, flag) && OutlastsFor(ks[key], b, flag)
    requires forall d :: Asked(a, d) <==> Asked(b, d)
    ensures key in Race(ks, key, a, flag) && key in Race(ks, key, b, flag)
    ensures Race(ks, key, a, flag)[key] == Race(ks, key, b, flag)[key]
  {
    hide Race, Outlasts, KeyOutlasts;
    if flag.Gt? {
      GreatestWins(ks, key, a);
      GreatestWins(ks, key, b);
      OneLatest(Race(ks, key, a, flag)[key].deadline, Race(ks, key, b, flag)[key].deadline, ks[key].deadline, a, b);
    } else {
      KeyStays(ks, key, a, flag);
      KeyStays(ks, key, b, flag);
      LeastWins(ks, key, a);
      LeastWins(ks, key, b);
      OneEarliest(Race(ks, key, a, flag)[key].deadline, Race(ks, key, b, flag)[key].deadline, ks[key].deadline, a, b);
    }
  }

  lemma OneLatest(x: Option<Instant>, y: Option<Instant>, current: Option<Instant>, a: seq<Call>, b: seq<Call>)
    requires IsLatest(x, current, a) && IsLatest(y, current, b)
    requires forall d :: Asked(a, d) <==> Asked(b, d)
    ensures x == y
  {
  }

  lemma OneEarliest(x: Option<Instant>, y: Option<Instant>, current: Option<Instant>, a: seq<Call>, b: seq<Call>)
    requires IsEarliest(x, current, a) && IsEarliest(y, current, b)
    requires forall d :: Asked(a, d) <==> Asked(b, d)
    ensures x == y
  {
    if a != [] {
      assert Asked(a, a[0].deadline);
    }
    if b != [] {
      assert Asked(b, b[0].deadline);
    }
  }
}
