/**
 * The writer task: one owner of the append-only file, fed by a FIFO channel. The
 * file is what the operating system holds; `durable` is what a crash cannot take
 * away. I/O succeeds and rename is atomic.
 */
module AofWriter {
  import opened Bytes
  import opened Keyspace

  datatype Policy = AlwaysSync | EverySecond | NeverSync

  const FLUSH_THRESHOLD := 1024 * 1024

  /** Messages in arrival order; `Tick` is the writer's own timer. */
  datatype Message =
    | Record(frame: bytes)
    | Flush
    | FileSize
    | Swap(temp: bytes)
    | Tick
    | Shutdown

  /** The log a reader must see once these messages are handled: the last file swapped in, then later records. */
  function Logged(log: bytes, msgs: seq<Message>): bytes
    decreases |msgs|
  {
    if msgs == [] then log
    else
      match msgs[|msgs| - 1]
      case Record(f) => Logged(log, msgs[..|msgs| - 1]) + f
      case Swap(t) => t
      case _ => Logged(log, msgs[..|msgs| - 1])
  }

  /** Handling messages in two batches is handling them in one. */
  lemma {:induction false} LoggedSplit(log: bytes, a: seq<Message>, b: seq<Message>)
    ensures Logged(log, a + b) == Logged(Logged(log, a), b)
    decreases |b|
  {
    if b == [] {
      assert a + b == a;
    } else {
      assert (a + b)[..|a + b| - 1] == a + b[..|b| - 1];
      LoggedSplit(log, a, b[..|b| - 1]);
    }
  }

  /** Messages after which nothing may be left unsynced. */
  predicate SyncsAt(policy: Policy, msg: Message, lastFlush: Instant, now: Instant) {
    || msg.Flush? || msg.Swap? || msg.Shutdown?
    || (policy.AlwaysSync? && msg.Record?)
    || (policy.EverySecond? && (msg.Record? || msg.Tick?) && now - lastFlush >= SECOND)
  }

  class Writer {
    var file: bytes
    var durable: bytes
    var buffer: bytes
    var lastFlush: Instant
    const policy: Policy

    /** What a crash leaves is a beginning of the file. */
    ghost predicate Valid()
      reads this
    {
      durable <= file
    }

    ghost function Log(): bytes
      reads this
    {
      file + buffer
    }

    /** Everything logged is on disk for good. */
    ghost predicate Settled()
      reads this
    {
      buffer == [] && durable == file
    }

    constructor (existing: bytes, policy: Policy, now: Instant)
      ensures Valid() && Log() == existing && Settled() && this.policy == policy && lastFlush == now
    {
      file, durable, buffer := existing, existing, [];
      lastFlush := now;
      this.policy := policy;
    }

    method FlushToDisk(sync: bool, now: Instant)
      requires Valid()
      modifies this
      ensures Valid() && Log() == old(Log()) && buffer == [] && lastFlush == now
      ensures sync ==> Settled()
      ensures !sync ==> durable == old(durable)
    {
      if buffer != [] {
        file := file + buffer;
        buffer := [];
      }
      if sync {
        durable := file;
      }
      lastFlush := now;
    }

    method Append(frame: bytes, now: Instant)
      requires Valid()
      modifies this
      ensures Valid() && Log() == old(Log()) + frame
      ensures if SyncsAt(policy, Record(frame), old(lastFlush), now) then Settled() && lastFlush == now
              else durable == old(durable) && (lastFlush == old(lastFlush) || (policy.NeverSync? && lastFlush == now))
      ensures policy.NeverSync? ==> |buffer| < 1_048_576
    {
      buffer := buffer + frame;
      match policy {
        case AlwaysSync => FlushToDisk(true, now);
        case EverySecond =>
          if now - lastFlush >= SECOND {
            FlushToDisk(true, now);
          }
        case NeverSync =>
          if |buffer| >= FLUSH_THRESHOLD {
            FlushToDisk(false, now);
          }
      }
    }

    method PeriodicFlush(now: Instant)
      requires Valid()
      modifies this
      ensures Valid() && Log() == old(Log())
      ensures if SyncsAt(policy, Tick, old(lastFlush), now) then Settled() && lastFlush == now
              else unchanged(this)
    {
      if policy.EverySecond? && now - lastFlush >= SECOND {
        FlushToDisk(true, now);
      }
    }

    /** The rewritten file, already synced, takes the place of file and buffer. */
    method SwapFile(temp: bytes, now: Instant)
      modifies this
      ensures Valid() && Log() == temp && Settled() && lastFlush == now
    {
      buffer := [];
      file, durable := temp, temp;
      lastFlush := now;
    }
  }

  /** One message more. */
  lemma LoggedSnoc(log: bytes, msgs: seq<Message>, i: nat)
    requires i < |msgs|
    ensures Logged(log, msgs[..i + 1]) ==
            match msgs[i]
            case Record(f) => Logged(log, msgs[..i]) + f
            case Swap(t) => t
            case _ => Logged(log, msgs[..i])
  {
    assert msgs[..i + 1][..i] == msgs[..i];
  }

  /** Handle one message: the log it leaves, and whether all of it is synced or nothing more than before. */
  method HandleMessage(w: Writer, msg: Message, now: Instant) returns (size: nat)
    requires w.Valid()
    modifies w
    ensures w.Valid()
    ensures w.Log() == match msg
                       case Record(f) => old(w.Log()) + f
                       case Swap(t) => t
                       case _ => old(w.Log())
    ensures if SyncsAt(w.policy, msg, old(w.lastFlush), now) then w.Settled() && w.lastFlush == now
            else w.durable == old(w.durable)
                 && (w.lastFlush == old(w.lastFlush) || (w.policy.NeverSync? && w.lastFlush == now))
    ensures msg.FileSize? ==> size == |old(w.Log())|
  {
    size := |w.file| + |w.buffer|;
    match msg {
      case Record(f) => w.Append(f, now);
      case Flush => w.FlushToDisk(true, now);
      case FileSize =>
      case Swap(t) => w.SwapFile(t, now);
      case Tick => w.PeriodicFlush(now);
      case Shutdown => w.FlushToDisk(true, now);
    }
  }

  ghost predicate NeverRunsBack(clock: nat -> Instant) {
    forall i: nat, j: nat :: i <= j ==> clock(i) <= clock(j)
  }

  /**
   * A crash right after message `i` leaves the log as it stood after the first
   * `k` messages, and no file was swapped in since: all of them when the message
   * asked for it or the policy is the strictest; under the one-second policy every
   * record or tick leaves nothing out that was handled a second or more before it.
   */
  ghost predicate CrashLeaves(
    durable: bytes, k: nat, log: bytes, msgs: seq<Message>, i: nat, policy: Policy, clock: nat -> Instant)
    requires i < |msgs|
  {
    && k <= i + 1 && durable == Logged(log, msgs[..k]) && (forall j :: k <= j <= i ==> !msgs[j].Swap?)
    && (msgs[i].Flush? || msgs[i].Swap? || msgs[i].Shutdown? || (policy.AlwaysSync? && msgs[i].Record?) ==> k == i + 1)
    && (policy.EverySecond? && !msgs[i].FileSize? ==>
          forall j :: 0 <= j <= i && clock(j) + SECOND <= clock(i) ==> j < k)
  }

  /** Before message `i`: what is durable is the log after `k` messages, which is recent by the last flush. */
  ghost predicate SyncedTo(
    durable: bytes, lastFlush: Instant, k: nat, log: bytes, msgs: seq<Message>, i: nat, policy: Policy,
        clock: nat -> Instant)
    requires i <= |msgs|
  {
    && k <= i && durable == Logged(log, msgs[..k]) && (forall j :: k <= j < i ==> !msgs[j].Swap?)
    && lastFlush <= clock(i)
    && (policy.EverySecond? ==> forall j :: 0 <= j < i && clock(j) < lastFlush ==> j < k)
  }

  lemma SyncStep(
      durable: bytes, lastFlush: Instant, durable': bytes, lastFlush': Instant,
      k: nat, log: bytes, msgs: seq<Message>, i: nat, policy: Policy, clock: nat -> Instant)
    requires i < |msgs| && NeverRunsBack(clock) && SyncedTo(durable, lastFlush, k, log, msgs, i, policy, clock)
    requires if SyncsAt(policy, msgs[i], lastFlush, clock(i))
             then durable' == Logged(log, msgs[..i + 1]) && lastFlush' == clock(i)
             else durable' == durable && (lastFlush' == lastFlush || (policy.NeverSync? && lastFlush' == clock(i)))
    ensures var k' := if SyncsAt(policy, msgs[i], lastFlush, clock(i)) then i + 1 else k;
            && SyncedTo(durable', lastFlush', k', log, msgs, i + 1, policy, clock)
            && CrashLeaves(durable', k', log, msgs, i, policy, clock)
  {
    hide Logged;
    assert clock(i) <= clock(i + 1);
  }

  /** What was observed after each of the messages handled so far. */
  ghost predicate Chronicle(
    sizes: seq<nat>, durables: seq<bytes>, synced: seq<nat>,
    log: bytes, msgs: seq<Message>, handled: nat, policy: Policy, clock: nat -> Instant)
  {
    && |sizes| == |durables| == |synced| == handled <= |msgs|
    && (forall i :: 0 <= i < handled ==> CrashLeaves(durables[i], synced[i], log, msgs, i, policy, clock))
    && (forall i :: 0 <= i < handled && msgs[i].FileSize? ==> sizes[i] == |Logged(log, msgs[..i])|)
  }

  lemma ChronicleStep(
      sizes: seq<nat>, durables: seq<bytes>, synced: seq<nat>, size: nat, durable: bytes, k: nat,
      log: bytes, msgs: seq<Message>, handled: nat, policy: Policy, clock: nat -> Instant)
    requires Chronicle(sizes, durables, synced, log, msgs, handled, policy, clock) && handled < |msgs|
    requires CrashLeaves(durable, k, log, msgs, handled, policy, clock)
    requires msgs[handled].FileSize? ==> size == |Logged(log, msgs[..handled])|
    ensures Chronicle(sizes + [size], durables + [durable], synced + [k], log, msgs, handled + 1, policy, clock)
  {
    hide CrashLeaves, Logged;
  }

  /** Handled messages: all of them, or up to the first shutdown. */
  predicate StopsAt(msgs: seq<Message>, handled: nat) {
    && handled <= |msgs|
    && (forall i :: 0 <= i < handled - 1 ==> !msgs[i].Shutdown?)
    && (handled < |msgs| ==> handled > 0 && msgs[handled - 1].Shutdown?)
  }

  /** One turn of the loop, with what is known of the log and of its synced part. */
  method HandleNext(w: Writer, msgs: seq<Message>, i: nat, clock: nat -> Instant, ghost log: bytes, ghost k: nat)
    returns (size: nat, ghost k': nat)
    requires i < |msgs| && w.Valid() && NeverRunsBack(clock) && w.Log() == Logged(log, msgs[..i])
    requires SyncedTo(w.durable, w.lastFlush, k, log, msgs, i, w.policy, clock)
    modifies w
    ensures w.Valid() && w.Log() == Logged(log, msgs[..i + 1])
    ensures SyncedTo(w.durable, w.lastFlush, k', log, msgs, i + 1, w.policy, clock)
    ensures CrashLeaves(w.durable, k', log, msgs, i, w.policy, clock)
    ensures msgs[i].FileSize? ==> size == |Logged(log, msgs[..i])|
    ensures msgs[i].Shutdown? ==> w.Settled()
  {
    hide Logged, CrashLeaves, SyncedTo;
    LoggedSnoc(log, msgs, i);
    ghost var durable, lastFlush := w.durable, w.lastFlush;
    size := HandleMessage(w, msgs[i], clock(i));
    SyncStep(durable, lastFlush, w.durable, w.lastFlush, k, log, msgs, i, w.policy, clock);
    k' := if SyncsAt(w.policy, msgs[i], lastFlush, clock(i)) then i + 1 else k;
  }

  /**
   * The message loop. After each message the log is the last swapped-in content
   * followed by later records in order, and what a crash would leave is the log
   * at one of the messages before, how recent the policy says. Sizes reported
   * are the log's, and nothing is unsynced once the loop ends.
   */
  method RunWriterTask(w: Writer, msgs: seq<Message>, clock: nat -> Instant)
    returns (handled: nat, sizes: seq<nat>, ghost durables: seq<bytes>, ghost synced: seq<nat>)
    requires w.Valid() && w.Settled() && NeverRunsBack(clock) && w.lastFlush <= clock(0)
    modifies w
    ensures w.Valid() && w.Settled()
    ensures StopsAt(msgs, handled)
    ensures w.Log() == Logged(old(w.Log()), msgs[..handled])
    ensures Chronicle(sizes, durables, synced, old(w.Log()), msgs, handled, w.policy, clock)
  {
    hide Logged, Chronicle, CrashLeaves, SyncedTo, NeverRunsBack;
    handled, sizes, durables, synced := 0, [], [], [];
    ghost var log := w.Log();
    ghost var k: nat := 0;
    NothingHandled(log, msgs);
    SyncStart(w.durable, w.lastFlush, log, msgs, w.policy, clock);
    assert Chronicle([], [], [], log, msgs, 0, w.policy, clock) by { NothingObserved(log, msgs, w.policy, clock); }
    while handled < |msgs|
      invariant handled <= |msgs| && forall j :: 0 <= j < handled ==> !msgs[j].Shutdown?
      invariant w.Valid() && w.Log() == Logged(log, msgs[..handled])
      invariant SyncedTo(w.durable, w.lastFlush, k, log, msgs, handled, w.policy, clock)
      invariant Chronicle(sizes, durables, synced, log, msgs, handled, w.policy, clock)
    {
      var i := handled;
      var size;
      size, k := HandleNext(w, msgs, i, clock, log, k);
      ChronicleStep(sizes, durables, synced, size, w.durable, k, log, msgs, i, w.policy, clock);
      sizes, durables, synced := sizes + [size], durables + [w.durable], synced + [k];
      handled := handled + 1;
      if msgs[i].Shutdown? {
        return;
      }
    }
    w.FlushToDisk(true, clock(handled));
  }

  lemma NothingObserved(log: bytes, msgs: seq<Message>, policy: Policy, clock: nat -> Instant)
    ensures Chronicle([], [], [], log, msgs, 0, policy, clock)
  {
  }

  lemma SyncStart(durable: bytes, lastFlush: Instant, log: bytes, msgs: seq<Message>, policy: Policy,
      clock: nat -> Instant)
    requires durable == log && lastFlush <= clock(0)
    ensures SyncedTo(durable, lastFlush, 0, log, msgs, 0, policy, clock)
  {
  }

  lemma NothingHandled(log: bytes, msgs: seq<Message>)
    ensures Logged(log, msgs[..0]) == log
  {
  }
}
