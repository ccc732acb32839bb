/**
 * One client and its log. The client's commands run one after the other, each
 * success of a mutating command is queued for the writer, the writer handles the
 * queue at its own pace, and a rewrite queues the compacted file. Whatever the
 * interleaving, what would be recovered is what the client has.
 */
module Session {
  import opened Bytes
  import opened Resp
  import opened Stream
  import opened ReplayRoom
  import opened Keyspace
  import opened Commands
  import opened Meaning
  import opened Refusals
  import opened Snapshot
  import opened Recovery
  import opened AofWriter

  // --------------------------------------- replay without deadlines

  const ZERO := Clock(0, 0)

  /** Running logged commands when the clock does not matter. */
  function After(ks: Keys, cs: seq<Command>): Keys {
    if cs == [] then ks else ReplayExec(cs[|cs| - 1], After(ks, cs[..|cs| - 1]), ZERO)
  }

  predicate AllTtlFree(cs: seq<Command>) {
    forall i :: 0 <= i < |cs| ==> TtlFree(cs[i])
  }

  function WithClocks(cs: seq<Command>, clocks: seq<Clock>): seq<Stamped>
    requires |clocks| == |cs|
  {
    seq(|cs|, i requires 0 <= i < |cs| => Stamped(cs[i], clocks[i]))
  }

  lemma ReplayClockFree(c: Command, ks: Keys, at: Clock)
    requires NoDeadlines(ks) && TtlFree(c)
    ensures ReplayOne(ks, Stamped(c, at)) == ReplayExec(c, ks, ZERO) && NoDeadlines(ReplayExec(c, ks, ZERO))
  {
    hide Lookup, Exec, TtlFree;
    ClockDoesNotMatter(c, ks, at, ZERO);
    NothingExpires(ks, at.instant);
    NothingExpires(ReplayExec(c, ks, at), at.instant);
  }

  /** Recovery of a log that sets no deadline does not depend on when it runs. */
  lemma {:induction false} ReplayIsAfter(ks: Keys, cs: seq<Command>, clocks: seq<Clock>)
    requires NoDeadlines(ks) && AllTtlFree(cs) && |clocks| == |cs|
    ensures Replay(ks, WithClocks(cs, clocks)) == After(ks, cs) && NoDeadlines(After(ks, cs))
    decreases |cs|
  {
    hide ReplayOne, ReplayExec, TtlFree;
    if cs != [] {
      var m := |cs| - 1;
      var init, last := WithClocks(cs[..m], clocks[..m]), Stamped(cs[m], clocks[m]);
      assert WithClocks(cs, clocks) == init + [last];
      ReplaySplit(ks, init, [last]);
      ReplayIsAfter(ks, cs[..m], clocks[..m]);
      ReplayClockFree(cs[m], After(ks, cs[..m]), clocks[m]);
      assert Replay(Replay(ks, init), [last]) == Replay(ReplayOne(Replay(ks, init), last), [last][1..]);
    }
  }

  // ------------------------------------------------------------ the node

  /** The store, the messages the writer has not handled, and file plus buffer. */
  datatype Node = Node(keys: Keys, queue: seq<Message>, log: bytes)

  const START := Node(map[], [], [])

  datatype Act =
    | Serve(request: Request, at: Clock)
    | Handle
    | Rewrite(snaps: seq<Snap>)

  /** A rewrite in flight: the client that asked for it is still waiting. */
  predicate Rewriting(n: Node) {
    exists i :: 0 <= i < |n.queue| && n.queue[i].Swap?
  }

  /** The snapshot of a store, its entries and fields in any order. */
  ghost predicate IsSnapshot(snaps: seq<Snap>, ks: Keys) {
    && DistinctKeys(snaps)
    && (forall i :: 0 <= i < |snaps| ==>
        WellOrdered(snaps[i]) && snaps[i].key in ks && ks[snaps[i].key] == snaps[i].entry)
    && (forall k :: k in ks ==> exists i :: 0 <= i < |snaps| && snaps[i].key == k)
  }

  /** Recovery reads with default limits, whatever the connection's are, and must hold what it reads. */
  predicate Replayable(parts: seq<seq<bytes>>) {
    (forall i :: 0 <= i < |parts| ==> FrameFits(parts[i], DEFAULT_LIMITS)) && Roomy(Frames(parts), 0, DEFAULT_LIMITS)
  }

  /** The frames a log is read back as. */
  function FramesIn(log: bytes): seq<bytes> {
    Raws(Drain(log, DEFAULT_LIMITS, false).requests)
  }

  /** Whether a request is handed to the writer: a mutation that succeeds. */
  predicate IsLogged(n: Node, r: Request, at: Clock) {
    IsMutation(Lookup(r.command.name)) && Exec(r.command, Live(n.keys, at.instant), at).result.Done?
  }

  /**
   * What may happen. Requests come off a connection with some limits and set no
   * deadline; the client that asks for a rewrite waits for it.
   */
  ghost predicate Enabled(n: Node, act: Act, lim: Limits) {
    match act
    case Serve(r, _) => !Rewriting(n) && StandsAlone(r, lim) && TtlFree(r.command)
    case Handle => n.queue != []
    case Rewrite(snaps) => !Rewriting(n) && IsSnapshot(snaps, n.keys)
  }

  /**
   * What recovery can follow: logged requests it can read with its own limits and
   * hold, beside what is logged already; refused ones that changed nothing a client
   * can see; and rewritten frames it can read and hold.
   */
  ghost predicate Safe(n: Node, act: Act) {
    match act
    case Serve(r, at) =>
      && (IsLogged(n, r, at) ==>
            StandsAlone(r, DEFAULT_LIMITS) && Roomy(FramesIn(Pending(n)) + [r.raw], 0, DEFAULT_LIMITS))
      && !ReplacesHashWithGet(r.command, n.keys) && !PartlyWrites(r.command, n.keys, true)
    case Handle => true
    case Rewrite(snaps) => (forall i :: 0 <= i < |snaps| ==> WellOrdered(snaps[i])) && Replayable(SnapshotParts(snaps))
  }

  function CompactFile(snaps: seq<Snap>): bytes
    requires forall i :: 0 <= i < |snaps| ==> WellOrdered(snaps[i])
  {
    Concat(Frames(SnapshotParts(snaps)))
  }

  function Next(n: Node, act: Act): Node
    requires act.Handle? ==> n.queue != []
    requires act.Rewrite? ==> forall i :: 0 <= i < |act.snaps| ==> WellOrdered(act.snaps[i])
  {
    match act
    case Serve(r, at) =>
      Node(Exec(r.command, Live(n.keys, at.instant), at).keys,
           if IsLogged(n, r, at) then n.queue + [Record(r.raw)] else n.queue,
           n.log)
    case Handle => Node(n.keys, n.queue[1..], Logged(n.log, [n.queue[0]]))
    case Rewrite(snaps) => n.(queue := n.queue + [Swap(CompactFile(snaps))])
  }

  ghost predicate Steps(n: Node, act: Act, n': Node, lim: Limits) {
    Enabled(n, act, lim) && n' == Next(n, act)
  }

  /** Runs of the node, step by step. */
  ghost predicate IsRun(nodes: seq<Node>, acts: seq<Act>, lim: Limits) {
    && |nodes| == |acts| + 1 && nodes[0] == START
    && forall i :: 0 <= i < |acts| ==> Steps(nodes[i], acts[i], nodes[i + 1], lim)
  }

  /** The log as it will stand once the writer has caught up. */
  function Pending(n: Node): bytes {
    Logged(n.log, n.queue)
  }

  /** Reading the file in these pieces comes to its end, and running what was read gives these keys. */
  ghost predicate Restores(chunks: seq<bytes>, ks: Keys) {
    var c := FeedAll(chunks, DEFAULT_LIMITS, false);
    && c.status.Open? && AllTtlFree(Stream.Commands(c.dispatched))
    && Similar(After(map[], Stream.Commands(c.dispatched)), ks)
  }

  /** Every reading of the file does. */
  ghost predicate RestoresTo(log: bytes, ks: Keys) {
    forall chunks :: IsReading(chunks, log) ==> Restores(chunks, ks)
  }

  /** And leaves nothing over. */
  ghost predicate RecoversTo(log: bytes, ks: Keys) {
    && RestoresTo(log, ks)
    && forall chunks :: IsReading(chunks, log) ==> FeedAll(chunks, DEFAULT_LIMITS, false).buffer == []
  }

  /** The bytes, taken all at once, say so. */
  ghost predicate ReadsBack(log: bytes, ks: Keys) {
    var d := Drain(log, DEFAULT_LIMITS, false);
    && d.ending.Waiting? && AllTtlFree(Stream.Commands(d.requests))
    && Similar(After(map[], Stream.Commands(d.requests)), ks)
  }

  ghost predicate Exact(n: Node) {
    NoDeadlines(n.keys) && Reachable(n.keys) && RecoversTo(Pending(n), n.keys)
  }

  // ------------------------------------------- every reading, or all at once

  /** Every reading restores these keys exactly when the bytes say so and leave room to be read. */
  lemma RestoresIff(log: bytes, ks: Keys)
    ensures RestoresTo(log, ks)
            <==> ReadsBack(log, ks)
                 && Roomy(FramesIn(log), |Drain(log, DEFAULT_LIMITS, false).rest|, DEFAULT_LIMITS)
  {
    hide Drain, FeedAll, Roomy, Similar, After, AllTtlFree, IsReading;
    forall chunks | IsReading(chunks, log)
      ensures Restores(chunks, ks) <==> FeedAll(chunks, DEFAULT_LIMITS, false).status.Open? && ReadsBack(log, ks)
    {
      assert Concat(chunks) == log by { ReadingJoins(chunks, log); }
      FeedAllIsDrain(chunks, DEFAULT_LIMITS, false);
    }
    var one := SomeReading(log);
    if ReadsBack(log, ks) {
      RoomyIff(log, DEFAULT_LIMITS);
    }
  }

  lemma ReadingJoins(chunks: seq<bytes>, log: bytes)
    requires IsReading(chunks, log)
    ensures Concat(chunks) == log
  {
  }

  lemma SomeReading(log: bytes) returns (chunks: seq<bytes>)
    ensures IsReading(chunks, log)
  {
    chunks := Singles(log);
    SinglesJoin(log);
  }

  lemma RecoversIff(log: bytes, ks: Keys)
    ensures RecoversTo(log, ks)
            <==> && ReadsBack(log, ks) && Drain(log, DEFAULT_LIMITS, false).rest == []
                 && Roomy(FramesIn(log), 0, DEFAULT_LIMITS)
  {
    hide Drain, FeedAll, Roomy, ReadsBack, IsReading, Restores;
    RestoresIff(log, ks);
    if RestoresTo(log, ks) {
      forall chunks | IsReading(chunks, log)
        ensures FeedAll(chunks, DEFAULT_LIMITS, false).buffer == Drain(log, DEFAULT_LIMITS, false).rest
      {
        assert Concat(chunks) == log by { ReadingJoins(chunks, log); }
        assert FeedAll(chunks, DEFAULT_LIMITS, false).status.Open? by {
          assert Restores(chunks, ks);
          RestoresEndsOpen(chunks, ks);
        }
        FeedAllIsDrain(chunks, DEFAULT_LIMITS, false);
      }
      var one := SomeReading(log);
    }
  }

  lemma RestoresEndsOpen(chunks: seq<bytes>, ks: Keys)
    requires Restores(chunks, ks)
    ensures FeedAll(chunks, DEFAULT_LIMITS, false).status.Open?
  {
    hide FeedAll;
  }

  // ------------------------------------------------------ appending a frame

  lemma CommandsSnoc(rs: seq<Request>, r: Request)
    ensures Stream.Commands(rs + [r]) == Stream.Commands(rs) + [r.command]
  {
  }

  lemma DrainAppend(log: bytes, r: Request, lim: Limits)
    requires StandsAlone(r, lim)
    requires var d := Drain(log, lim, false); d.rest == [] && d.ending.Waiting?
    ensures Drain(log + r.raw, lim, false) == Drained(Drain(log, lim, false).requests + [r], [], Waiting)
  {
    hide NextCommand;
    DrainExtends(log, r.raw, lim, false);
    assert [] + r.raw == r.raw;
    assert Raws([r]) == [r.raw];
    ConcatOne(r.raw);
    assert Concat(Raws([r])) + [] == r.raw;
    DrainFrames([r], [], lim);
    EmptyDrain(lim, false);
  }

  lemma RecoversAppend(log: bytes, ks: Keys, r: Request, ks': Keys)
    requires RecoversTo(log, ks) && StandsAlone(r, DEFAULT_LIMITS) && TtlFree(r.command)
    requires Roomy(FramesIn(log) + [r.raw], 0, DEFAULT_LIMITS)
    requires forall back :: Similar(back, ks) ==> Similar(ReplayExec(r.command, back, ZERO), ks')
    ensures RecoversTo(log + r.raw, ks')
  {
    hide Drain, ReplayExec, Similar, TtlFree, Roomy, RecoversTo;
    RecoversIff(log, ks);
    RecoversIff(log + r.raw, ks');
    var rs := Drain(log, DEFAULT_LIMITS, false).requests;
    DrainAppend(log, r, DEFAULT_LIMITS);
    CommandsSnoc(rs, r);
    assert Raws(rs + [r]) == Raws(rs) + [r.raw];
    var cs := Stream.Commands(rs) + [r.command];
    assert cs[..|cs| - 1] == Stream.Commands(rs);
  }

  lemma ServeReplays(c: Command, back: Keys, ks: Keys, at: Clock)
    requires Similar(back, ks) && NoDeadlines(ks) && TtlFree(c) && IsMutation(Lookup(c.name))
    ensures Similar(ReplayExec(c, back, ZERO), Exec(c, ks, at).keys)
  {
    hide Exec, Lookup, TtlFree;
    ReplayRunsMutations(c, back, ZERO);
    Bisimulation(c, back, ks, ZERO);
    ClockDoesNotMatter(c, ks, ZERO, at);
  }

  function Widest(a: Limits, b: Limits): Limits {
    Limits(if a.maxBulk < b.maxBulk then b.maxBulk else a.maxBulk,
           if a.maxArray < b.maxArray then b.maxArray else a.maxArray,
           if a.maxBuffer < b.maxBuffer then b.maxBuffer else a.maxBuffer)
  }

  /** What two readers with different limits make of one frame, they make the same of it. */
  lemma ReadersAgree(r: Request, lim: Limits, other: Limits)
    requires StandsAlone(r, lim)
    ensures NextCommand(r.raw, other).Parsed? ==> StandsAlone(r, other)
  {
    hide ParseValue;
    var wide := Widest(lim, other);
    WiderLimits(r.raw, lim, wide);
    if NextCommand(r.raw, other).Parsed? {
      WiderLimits(r.raw, other, wide);
    }
  }

  /** A log can only grow by frames recovery can read and hold. */
  lemma ReadableOnly(log: bytes, ks: Keys, r: Request, lim: Limits, ks': Keys)
    requires RecoversTo(log, ks) && StandsAlone(r, lim) && RecoversTo(log + r.raw, ks')
    ensures StandsAlone(r, DEFAULT_LIMITS) && Roomy(FramesIn(log) + [r.raw], 0, DEFAULT_LIMITS)
  {
    hide NextCommand, ParseValue, Roomy, RecoversTo, Drain, StandsAlone;
    RecoversIff(log, ks);
    RecoversIff(log + r.raw, ks');
    DrainExtends(log, r.raw, DEFAULT_LIMITS, false);
    assert [] + r.raw == r.raw;
    ReadersAgree(r, lim, DEFAULT_LIMITS);
    if !NextCommand(r.raw, DEFAULT_LIMITS).Parsed? {
      NotEmpty(r, lim);
      DrainStops(r.raw, DEFAULT_LIMITS, false);
    } else {
      DrainAppend(log, r, DEFAULT_LIMITS);
      var rs := Drain(log, DEFAULT_LIMITS, false).requests;
      assert Raws(rs + [r]) == Raws(rs) + [r.raw];
    }
  }

  lemma NotEmpty(r: Request, lim: Limits)
    requires StandsAlone(r, lim)
    ensures r.raw != []
  {
    hide NextCommand;
  }

  lemma QuietKeeps(c: Command, ks: Keys, at: Clock)
    requires !IsMutation(Lookup(c.name))
    ensures Exec(c, ks, at).keys == ks
  {
    hide Lookup, ExecQuiet, ExecMutation;
  }

  /** Serving a request that is logged keeps recovery exact exactly when recovery can read its frame and find room. */
  lemma LoggedIff(n: Node, r: Request, at: Clock, lim: Limits)
    requires Exact(n) && StandsAlone(r, lim) && TtlFree(r.command) && IsLogged(n, r, at)
    ensures Exact(Next(n, Serve(r, at)))
            <==> StandsAlone(r, DEFAULT_LIMITS) && Roomy(FramesIn(Pending(n)) + [r.raw], 0, DEFAULT_LIMITS)
  {
    hide Exec, Lookup, TtlFree, StandsAlone, RecoversTo, Similar, Reachable, Drain, Roomy, FramesIn;
    var c := r.command;
    NothingExpires(n.keys, at.instant);
    var e := Exec(c, n.keys, at);
    ClockDoesNotMatter(c, n.keys, at, at);
    StaysReachable(c, n.keys, at);
    LoggedSplit(n.log, n.queue, [Record(r.raw)]);
    assert Logged(Pending(n), [Record(r.raw)]) == Pending(n) + r.raw;
    assert Pending(Next(n, Serve(r, at))) == Pending(n) + r.raw;
    if StandsAlone(r, DEFAULT_LIMITS) && Roomy(FramesIn(Pending(n)) + [r.raw], 0, DEFAULT_LIMITS) {
      forall back | Similar(back, n.keys)
        ensures Similar(ReplayExec(c, back, ZERO), e.keys)
      {
        ServeReplays(c, back, n.keys, at);
      }
      RecoversAppend(Pending(n), n.keys, r, e.keys);
    }
    if Exact(Next(n, Serve(r, at))) {
      ReadableOnly(Pending(n), n.keys, r, lim, e.keys);
    }
  }

  /** A request that is not logged keeps recovery exact exactly when it changed nothing a client can see. */
  lemma UnloggedIff(n: Node, r: Request, at: Clock)
    requires Exact(n) && TtlFree(r.command) && !IsLogged(n, r, at)
    ensures Exact(Next(n, Serve(r, at))) <==> Similar(n.keys, Exec(r.command, n.keys, at).keys)
  {
    hide Exec, Lookup, TtlFree, Similar, Reachable, Drain, After, RecoversTo, Roomy;
    NothingExpires(n.keys, at.instant);
    ClockDoesNotMatter(r.command, n.keys, at, at);
    StaysReachable(r.command, n.keys, at);
    RecoversIff(Pending(n), n.keys);
    RecoversIff(Pending(n), Exec(r.command, n.keys, at).keys);
    var back := After(map[], Stream.Commands(Drain(Pending(n), DEFAULT_LIMITS, false).requests));
    var ks' := Exec(r.command, n.keys, at).keys;
    if Similar(n.keys, ks') {
      SimilarTransitive(back, n.keys, ks');
    }
    if Similar(back, ks') {
      SimilarTransitive(back, n.keys, n.keys) by { SimilarSelf(n.keys); }
      SimilarTransitive(n.keys, back, ks');
    }
  }

  /** Serving a request keeps recovery exact exactly when it is safe. */
  lemma ServeExactIff(n: Node, r: Request, at: Clock, lim: Limits)
    requires Exact(n) && StandsAlone(r, lim) && TtlFree(r.command)
    ensures Exact(Next(n, Serve(r, at))) <==> Safe(n, Serve(r, at))
  {
    hide Exec, Lookup, TtlFree, StandsAlone, RecoversTo, Similar, Reachable, ReplacesHashWithGet, PartlyWrites,
        Roomy, FramesIn;
    NothingExpires(n.keys, at.instant);
    RefusedIff(r.command, n.keys, at, true);
    if IsLogged(n, r, at) {
      LoggedIff(n, r, at, lim);
    } else {
      UnloggedIff(n, r, at);
      if !IsMutation(Lookup(r.command.name)) {
        QuietKeeps(r.command, n.keys, at);
        SimilarSelf(n.keys);
      }
    }
  }

  lemma SimilarTransitive(a: Keys, b: Keys, c: Keys)
    requires Similar(a, b) && Similar(b, c)
    ensures Similar(a, c) && Similar(b, a)
  {
    hide Decimal;
    forall k | k in a
      ensures SimilarValue(a[k].value, c[k].value)
    {
      SimilarValueTransitive(a[k].value, b[k].value, c[k].value);
    }
  }

  lemma SimilarValueTransitive(a: Value, b: Value, c: Value)
    requires SimilarValue(a, b) && SimilarValue(b, c)
    ensures SimilarValue(a, c)
  {
    hide Decimal;
    if a.Int? && c.Int? {
      SignedRoundTrip(a.i, I64_MIN, I64_MAX);
      SignedRoundTrip(c.i, I64_MIN, I64_MAX);
    }
  }

  /**
   * A refused command is not logged, so recovery stays exact after it exactly
   * when it is neither SET with GET over a hash nor a loop over arguments that
   * changed something before it met one it cannot read.
   */
  lemma RefusedStaysExactIff(n: Node, r: Request, at: Clock)
    requires Exact(n) && TtlFree(r.command) && Exec(r.command, n.keys, at).result.Refused?
    ensures Exact(Next(n, Serve(r, at)))
            <==> !ReplacesHashWithGet(r.command, n.keys) && !PartlyWrites(r.command, n.keys, true)
  {
    hide Exec, Lookup, TtlFree, Similar, Exact, ReplacesHashWithGet, PartlyWrites;
    assert NoDeadlines(n.keys) by { ExactHasNoDeadlines(n); }
    NothingExpires(n.keys, at.instant);
    UnloggedIff(n, r, at);
    RefusedIff(r.command, n.keys, at, true);
  }

  lemma ExactHasNoDeadlines(n: Node)
    requires Exact(n)
    ensures NoDeadlines(n.keys)
  {
  }

  /** SET with GET over a hash always loses it: the live store has the string, recovery the hash. */
  lemma SetGetOverHashIsLost(n: Node, r: Request, at: Clock)
    requires Exact(n) && TtlFree(r.command) && ReplacesHashWithGet(r.command, n.keys)
    ensures !Exact(Next(n, Serve(r, at)))
  {
    hide Exec, Exact, TtlFree, Similar;
    SetRefusedAfterWriting(r.command, n.keys, at);
    RefusedStaysExactIff(n, r, at);
  }

  // ------------------------------------------------------------ a rewrite

  /** Without a deadline, an entry is written the same whenever it is encoded. */
  lemma {:induction false} EncodingTimeFree(snaps: seq<Snap>)
    requires forall i :: 0 <= i < |snaps| ==> WellOrdered(snaps[i]) && snaps[i].entry.deadline.None?
    ensures SnapshotParts(snaps) == SnapshotParts(AtOnce(snaps))
  {
    if snaps != [] {
      var m := |snaps| - 1;
      EncodingTimeFree(snaps[..m]);
      assert AtOnce(snaps)[..m] == AtOnce(snaps[..m]);
    }
  }

  function AtOnce(snaps: seq<Snap>): (r: seq<Snap>)
    ensures |r| == |snaps|
    ensures forall i :: 0 <= i < |r| ==> r[i] == snaps[i].(at := Shared(0, 0))
  {
    seq(|snaps|, i requires 0 <= i < |snaps| => snaps[i].(at := Shared(0, 0)))
  }

  function Requests(parts: seq<seq<bytes>>): seq<Request>
    requires forall i :: 0 <= i < |parts| ==> IsRewriteCommand(parts[i])
  {
    seq(|parts|, i requires 0 <= i < |parts| && IsRewriteCommand(parts[i]) => RequestOf(parts[i]))
  }

  lemma RewriteNamesAreText()
    ensures IsUtf8(SET_NAME) && IsUtf8(HSET_NAME) && IsUtf8(PEXPIREAT_NAME)
  {
    AsciiIsUtf8(SET_NAME);
    AsciiIsUtf8(HSET_NAME);
    AsciiIsUtf8(PEXPIREAT_NAME);
  }

  /** The compacted file is read back as the commands it was written from. */
  lemma CompactFileReads(parts: seq<seq<bytes>>, lim: Limits)
    requires forall i :: 0 <= i < |parts| ==> IsRewriteCommand(parts[i])
    requires forall i :: 0 <= i < |parts| ==> FrameFits(parts[i], lim)
    ensures Drain(Concat(Frames(parts)), lim, false) == Drained(Requests(parts), [], Waiting)
  {
    hide Drain, StandsAlone, FrameFits, FrameOf, IsUtf8;
    var rs := Requests(parts);
    RewriteNamesAreText();
    forall i | 0 <= i < |rs|
      ensures StandsAlone(rs[i], lim)
    {
      FrameStands(parts[i], lim);
    }
    assert Raws(rs) == Frames(parts);
    DrainFrames(rs, [], lim);
    EmptyDrain(lim, false);
    assert Concat(Frames(parts)) + [] == Concat(Frames(parts));
    assert rs + [] == rs;
  }

  lemma PlainSetIsTtlFree(key: Key, value: bytes)
    ensures TtlFree(CommandFrom([SET_NAME, key, value]))
  {
    assert UpperName(SET_NAME) == SET_NAME && Lookup(SET_NAME) == SET;
    assert [SET_NAME, key, value][1..] == [key, value];
    assert [key, value][2..] == [];
  }

  lemma HsetIsTtlFree(parts: seq<bytes>)
    requires parts != [] && parts[0] == HSET_NAME
    ensures TtlFree(CommandFrom(parts))
  {
    NamesFound();
    hide Lookup, UpperName;
  }

  lemma RewriteIsTtlFree(s: Snap)
    requires WellOrdered(s) && s.entry.deadline.None?
    ensures forall i :: 0 <= i < |EntryParts(s)| ==> TtlFree(CommandFrom(EntryParts(s)[i]))
  {
    hide TtlFree, CommandFrom, FieldParts, Decimal;
    match s.entry.value
    case Str(b) => PlainSetIsTtlFree(s.key, b);
    case Int(i) => PlainSetIsTtlFree(s.key, Decimal(i));
    case Hash(h) => if h != map[] { HsetIsTtlFree([HSET_NAME, s.key] + FieldParts(h, s.order)); }
    case Items(_) =>
  }

  lemma {:induction false} RewritesAreTtlFree(snaps: seq<Snap>)
    requires forall i :: 0 <= i < |snaps| ==> WellOrdered(snaps[i]) && snaps[i].entry.deadline.None?
    ensures forall i :: 0 <= i < |SnapshotParts(snaps)| ==> TtlFree(CommandFrom(SnapshotParts(snaps)[i]))
  {
    hide TtlFree, EntryParts;
    if snaps != [] {
      RewritesAreTtlFree(snaps[..|snaps| - 1]);
      RewriteIsTtlFree(snaps[|snaps| - 1]);
    }
  }

  /** One frame recovery cannot read, and it fails there. */
  lemma CompactFileFails(parts: seq<seq<bytes>>, lim: Limits)
    requires forall i :: 0 <= i < |parts| ==> IsRewriteCommand(parts[i])
    requires exists i :: 0 <= i < |parts| && !FrameFits(parts[i], lim)
    ensures Drain(Concat(Frames(parts)), lim, false).ending.Failed?
    decreases |parts|
  {
    hide Drain, FrameFits, FrameOf, IsUtf8, NextCommand, Concat;
    RewriteNamesAreText();
    var first, rest := parts[0], parts[1..];
    var tail := Concat(Frames(rest));
    assert Frames(parts) == [FrameOf(first)] + Frames(rest);
    ConcatSplit([FrameOf(first)], Frames(rest));
    ConcatOne(FrameOf(first));
    FrameDecodes(first, tail, lim);
    var all := FrameOf(first) + tail;
    if FrameFits(first, lim) {
      var i :| 0 <= i < |parts| && !FrameFits(parts[i], lim);
      assert !FrameFits(rest[i - 1], lim);
      CompactFileFails(rest, lim);
      DrainStep(all, lim, false);
      assert all[|FrameOf(first)|..] == tail;
    } else {
      DrainStops(all, lim, false);
    }
  }

  /** A compacted file alone gives the snapshotted store back exactly when recovery can read and hold its frames. */
  lemma RewriteRecovers(snaps: seq<Snap>, ks: Keys)
    requires IsSnapshot(snaps, ks) && NoDeadlines(ks) && Reachable(ks)
    ensures RecoversTo(CompactFile(snaps), ks) <==> Replayable(SnapshotParts(snaps))
  {
    hide Drain, TtlFree, FrameFits, Replay, Stamp, After, Similar, Reachable, ReachableValue, FrameOf, SnapshotParts,
        WellOrdered;
    hide RecoversTo, Roomy;
    var parts := SnapshotParts(snaps);
    RecoversIff(CompactFile(snaps), ks);
    if exists i :: 0 <= i < |parts| && !FrameFits(parts[i], DEFAULT_LIMITS) {
      CompactFileFails(parts, DEFAULT_LIMITS);
    } else {
      CompactFileReads(parts, DEFAULT_LIMITS);
      assert Raws(Requests(parts)) == Frames(parts);
      forall i | 0 <= i < |snaps|
        ensures WellOrdered(snaps[i]) && snaps[i].entry.deadline.None?
      {
        assert snaps[i].key in ks;
      }
      RewritesAreTtlFree(snaps);
      SnapshotBack(snaps, ks);
      RunsAsStamped(parts);
    }
  }

  /**
   * With deadlines or without: in every reading, a compacted file that can be read
   * and held is run as exactly the commands it was written from, so that at
   * whatever times, not running back, the store is what they describe.
   */
  lemma CompactFileReplays(snaps: seq<Snap>, chunks: seq<bytes>, times: seq<nat>, boot: int)
    requires DistinctKeys(snaps) && forall i :: 0 <= i < |snaps| ==> WellOrdered(snaps[i]) && Storable(snaps[i])
    requires Replayable(SnapshotParts(snaps)) && IsReading(chunks, CompactFile(snaps))
    requires |times| == |SnapshotParts(snaps)| && Sorted(times)
    ensures var cs := Stream.Commands(FeedAll(chunks, DEFAULT_LIMITS, false).dispatched);
            && |cs| == |times|
            && Replay(map[], WithClocks(cs, seq(|times|, i requires 0 <= i < |times| => Shared(times[i], boot))))
               == Live(Described(snaps, times, boot), Shared(LastTime(times), boot).instant)
  {
    hide Drain, FeedAll, FrameFits, Replay, FrameOf, SnapshotParts, WellOrdered, Storable, Roomy, Described, Live;
    var parts := SnapshotParts(snaps);
    CompactFileReads(parts, DEFAULT_LIMITS);
    assert Raws(Requests(parts)) == Frames(parts);
    RoomyIff(CompactFile(snaps), DEFAULT_LIMITS);
    FeedAllIsDrain(chunks, DEFAULT_LIMITS, false);
    var cs := Stream.Commands(FeedAll(chunks, DEFAULT_LIMITS, false).dispatched);
    assert forall i :: 0 <= i < |cs| ==> cs[i] == CommandFrom(parts[i]);
    var clocks := seq(|times|, i requires 0 <= i < |times| => Shared(times[i], boot));
    assert WithClocks(cs, clocks) == Stamp(parts, times, boot);
    RewriteReplays(snaps, times, boot);
  }

  lemma RunsAsStamped(parts: seq<seq<bytes>>)
    requires forall i :: 0 <= i < |parts| ==> IsRewriteCommand(parts[i]) && TtlFree(CommandFrom(parts[i]))
    ensures AllTtlFree(Stream.Commands(Requests(parts)))
    ensures var zeros := seq(|parts|, i => 0);
            After(map[], Stream.Commands(Requests(parts))) == Replay(map[], Stamp(parts, zeros, 0))
  {
    hide TtlFree, Replay, After, FrameOf;
    var zeros := seq(|parts|, i => 0);
    var cs := Stream.Commands(Requests(parts));
    assert forall i :: 0 <= i < |cs| ==> cs[i] == CommandFrom(parts[i]);
    var clocks := seq(|cs|, i => Shared(0, 0));
    assert Stamp(parts, zeros, 0) == WithClocks(cs, clocks);
    ReplayIsAfter(map[], cs, clocks);
  }

  lemma SnapshotBack(snaps: seq<Snap>, ks: Keys)
    requires IsSnapshot(snaps, ks) && NoDeadlines(ks) && Reachable(ks)
    ensures var zeros := seq(|SnapshotParts(snaps)|, i => 0);
            Similar(Replay(map[], Stamp(SnapshotParts(snaps), zeros, 0)), ks)
  {
    hide IsUtf8, Stamp, Replay, SnapshotParts, ReachableValue, WellOrdered;
    var once := AtOnce(snaps);
    forall i | 0 <= i < |once|
      ensures WellOrdered(once[i]) && Storable(once[i]) && Encoded(once[i], 0, 0)
    {
      assert snaps[i].key in ks;
      SameOrder(snaps[i], once[i]);
    }
    EncodingTimeFree(snaps);
    var zeros := seq(|SnapshotParts(snaps)|, i => 0);
    var encs := seq(|snaps|, i => 0);
    assert DistinctKeys(once);
    RewritePreservesMeaning(once, encs, 0, zeros, 0);
    RebuiltIsSimilar(Replay(map[], Stamp(SnapshotParts(once), zeros, 0)), once, ks);
  }

  lemma SameOrder(s: Snap, t: Snap)
    requires WellOrdered(s) && t == s.(at := t.at)
    ensures WellOrdered(t)
  {
  }

  lemma RebuiltIsSimilar(back: Keys, snaps: seq<Snap>, ks: Keys)
    requires Rebuilt(back, snaps, 0, 0) && NoDeadlines(ks)
    requires forall i :: 0 <= i < |snaps| ==> snaps[i].key in ks && ks[snaps[i].key] == snaps[i].entry
    requires forall k :: k in ks ==> exists i :: 0 <= i < |snaps| && snaps[i].key == k
    ensures Similar(back, ks)
  {
    forall k | k in ks
      ensures k in back && SimilarValue(back[k].value, ks[k].value) && back[k].deadline == ks[k].deadline
    {
      var i :| 0 <= i < |snaps| && snaps[i].key == k;
      assert Faithful(snaps[i].entry, 0, back[k], 0);
    }
    forall k | k in back
      ensures k in ks
    {
      var i :| 0 <= i < |snaps| && snaps[i].key == k;
    }
  }

  /** Whatever the log was before, a rewrite makes recovery exact, exactly when its frames can be read. */
  lemma RewriteExactIff(n: Node, snaps: seq<Snap>)
    requires NoDeadlines(n.keys) && Reachable(n.keys) && IsSnapshot(snaps, n.keys)
    ensures Exact(Next(n, Rewrite(snaps))) <==> Safe(n, Rewrite(snaps))
  {
    hide RecoversTo, CompactFile, SnapshotParts, WellOrdered, Roomy;
    var file := CompactFile(snaps);
    LoggedSplit(n.log, n.queue, [Swap(file)]);
    assert Logged(Pending(n), [Swap(file)]) == file;
    RewriteRecovers(snaps, n.keys);
  }

  lemma HandleKeepsExact(n: Node)
    requires Exact(n) && n.queue != []
    ensures Exact(Next(n, Handle)) && Pending(Next(n, Handle)) == Pending(n) && Safe(n, Handle)
  {
    hide RecoversTo;
    assert n.queue == [n.queue[0]] + n.queue[1..];
    LoggedSplit(n.log, [n.queue[0]], n.queue[1..]);
  }

  // ------------------------------------------------------------- theorem

  lemma StartIsExact()
    ensures Exact(START)
  {
    hide RecoversTo;
    RecoversIff([], map[]);
    EmptyDrain(DEFAULT_LIMITS, false);
    assert Stream.Commands([]) == [];
  }

  /** Every step of an exact node leaves it exact exactly when it is safe. */
  lemma StepExactIff(n: Node, act: Act, n': Node, lim: Limits)
    requires Exact(n) && Steps(n, act, n', lim)
    ensures Exact(n') <==> Safe(n, act)
  {
    hide RecoversTo, IsSnapshot, Next, TtlFree, StandsAlone, Reachable, Lookup, Exec, ReplacesHashWithGet,
        PartlyWrites, Safe;
    match act
    case Serve(r, at) => ServeExactIff(n, r, at, lim);
    case Handle => HandleKeepsExact(n);
    case Rewrite(snaps) => RewriteExactIff(n, snaps);
  }

  /**
   * Single-connection exactness: at every point of every run, across any number
   * of rewrites and with the writer anywhere behind, the log that is on file, in
   * the buffer and in the queue is whole frames, and recovering it gives the
   * client's store, as long as the steps so far were safe.
   */
  lemma {:induction false} AlwaysExact(nodes: seq<Node>, acts: seq<Act>, lim: Limits, k: nat)
    requires IsRun(nodes, acts, lim) && k < |nodes|
    requires forall i :: 0 <= i < k ==> Safe(nodes[i], acts[i])
    ensures Exact(nodes[k])
    decreases k
  {
    hide Exact, Steps, Safe;
    if k == 0 {
      StartIsExact();
    } else {
      AlwaysExact(nodes, acts, lim, k - 1);
      assert Steps(nodes[k - 1], acts[k - 1], nodes[k - 1 + 1], lim);
      StepExactIff(nodes[k - 1], acts[k - 1], nodes[k], lim);
    }
  }

  /** And a run is exact throughout exactly when all its steps are safe. */
  lemma AlwaysExactIff(nodes: seq<Node>, acts: seq<Act>, lim: Limits)
    requires IsRun(nodes, acts, lim)
    ensures (forall k :: 0 <= k < |nodes| ==> Exact(nodes[k]))
            <==> forall i :: 0 <= i < |acts| ==> Safe(nodes[i], acts[i])
  {
    hide Exact, Steps, Safe;
    if forall i :: 0 <= i < |acts| ==> Safe(nodes[i], acts[i]) {
      forall k | 0 <= k < |nodes|
        ensures Exact(nodes[k])
      {
        AlwaysExact(nodes, acts, lim, k);
      }
    }
    if forall k :: 0 <= k < |nodes| ==> Exact(nodes[k]) {
      forall i | 0 <= i < |acts|
        ensures Safe(nodes[i], acts[i])
      {
        assert Steps(nodes[i], acts[i], nodes[i + 1], lim) && Exact(nodes[i]) && Exact(nodes[i + 1]);
        StepExactIff(nodes[i], acts[i], nodes[i + 1], lim);
      }
    }
  }

  // ------------------------------------------------------ a run to know

  const GET_WORD: bytes := [71, 69, 84]

  lemma WordsAreText()
    ensures IsUtf8([104]) && IsUtf8([102]) && IsUtf8([118]) && IsUtf8(GET_WORD)
  {
    AsciiIsUtf8([104]);
    AsciiIsUtf8([102]);
    AsciiIsUtf8([118]);
    AsciiIsUtf8(GET_WORD);
  }

  lemma HsetOne(at: Clock)
    ensures var c := CommandFrom([HSET_NAME, [104], [102], [118]]);
            && Lookup(c.name) == HSET && c.args == [[104], [102], [118]]
            && Exec(c, map[], at) == Effect(Done(Count(1)), map[[104] := Entry(Hash(map[[102] := [118]]), None)])
  {
    WordsAreText();
    NamesFound();
    hide IsUtf8, Lookup, UpperName;
    var args := [[104], [102], [118]];
    assert [HSET_NAME, [104], [102], [118]][1..] == args;
    assert args[1..] == [[102], [118]];
    assert [[102], [118]][2..] == [];
  }

  lemma SetGetOptions()
    ensures SetOptionsOf([GET_WORD], NO_OPTIONS) == Picked(NO_OPTIONS.(get := true))
  {
    WordsAreText();
    assert Upper(GET_WORD) == GET_WORD;
    assert TokenOf(GET_WORD) == GET_TOKEN;
    assert [GET_WORD][1..] == [];
  }

  lemma SetGetOne()
    ensures var c := CommandFrom([SET_NAME, [104], [120], GET_WORD]);
            && TtlFree(c)
            && forall ks: Keys :: [104] in ks && ks[[104]].value.Hash? ==> ReplacesHashWithGet(c, ks)
  {
    WordsAreText();
    SetGetOptions();
    hide IsUtf8, SetOptionsOf;
    var args := [[104], [120], GET_WORD];
    assert UpperName(SET_NAME) == SET_NAME && Lookup(SET_NAME) == SET;
    assert [SET_NAME, [104], [120], GET_WORD][1..] == args;
    assert args[2..] == [GET_WORD];
  }

  lemma SmallFrame(parts: seq<bytes>)
    requires IsRewriteCommand(parts) && |parts| == 4 && forall i :: 0 <= i < 4 ==> |parts[i]| <= 4
    ensures StandsAlone(RequestOf(parts), DEFAULT_LIMITS) && |FrameOf(parts)| <= 100
  {
    hide StandsAlone, Digits;
    RewriteNamesAreText();
    FrameStands(parts, DEFAULT_LIMITS);
    FrameLength(parts);
    FourSize(parts);
    DigitsWithin(4, 1);
    forall i | 0 <= i < 4
      ensures PartSize(parts[i]) <= 10
    {
      DigitsWithin(|parts[i]|, 1);
    }
  }

  lemma FourSize(parts: seq<bytes>)
    requires |parts| == 4
    ensures PartsSize(parts) == PartSize(parts[0]) + PartSize(parts[1]) + PartSize(parts[2]) + PartSize(parts[3])
  {
    hide PartSize;
    var a, b, c := parts[1..], parts[2..], parts[3..];
    assert a[1..] == b && b[1..] == c && c[1..] == [];
    assert PartsSize(c) == PartSize(parts[3]);
    assert PartsSize(b) == PartSize(parts[2]) + PartsSize(c);
    assert PartsSize(a) == PartSize(parts[1]) + PartsSize(b);
  }

  lemma AfterHset(r: Request, at: Clock)
    requires r.command == CommandFrom([HSET_NAME, [104], [102], [118]]) && StandsAlone(r, DEFAULT_LIMITS)
    requires |r.raw| <= 100
    ensures var n := Next(START, Serve(r, at));
            && Steps(START, Serve(r, at), n, DEFAULT_LIMITS) && Exact(n) && !Rewriting(n)
            && n.keys == map[[104] := Entry(Hash(map[[102] := [118]]), None)]
  {
    HsetOne(at);
    HsetIsTtlFree([HSET_NAME, [104], [102], [118]]);
    hide Exec, StandsAlone, TtlFree, Exact, Lookup, CommandFrom;
    NothingExpires(map[], at.instant);
    StartIsExact();
    NothingLogged();
    ShortFramesHaveRoom(FramesIn(Pending(START)) + [r.raw], 0, DEFAULT_LIMITS);
    LoggedIff(START, r, at, DEFAULT_LIMITS);
  }

  lemma NothingLogged()
    ensures FramesIn(Pending(START)) == []
  {
    EmptyDrain(DEFAULT_LIMITS, false);
  }

  /** HSET h f v, then SET h x GET: after the first the log recovers the store, after the second it does not. */
  lemma HashLost(at: Clock) returns (nodes: seq<Node>, acts: seq<Act>)
    ensures IsRun(nodes, acts, DEFAULT_LIMITS) && |acts| == 2
    ensures Exact(nodes[1]) && !Exact(nodes[2])
  {
    hide StandsAlone, TtlFree, ReplacesHashWithGet, Exact, CommandFrom, FrameOf, Next;
    var first, second := [HSET_NAME, [104], [102], [118]], [SET_NAME, [104], [120], GET_WORD];
    var r, q := RequestOf(first), RequestOf(second);
    SmallFrame(first);
    SmallFrame(second);
    AfterHset(r, at);
    SetGetOne();
    var n1 := Next(START, Serve(r, at));
    assert ReplacesHashWithGet(q.command, n1.keys);
    var n2 := Next(n1, Serve(q, at));
    nodes, acts := [START, n1, n2], [Serve(r, at), Serve(q, at)];
    assert Steps(n1, Serve(q, at), n2, DEFAULT_LIMITS);
    SetGetOverHashIsLost(n1, q, at);
  }

  /** What this means for a restart: run what any reading brings, at any times, and the store is there again. */
  lemma ExactRecovery(log: bytes, ks: Keys, chunks: seq<bytes>, clocks: seq<Clock>)
    requires RestoresTo(log, ks) && IsReading(chunks, log)
    ensures FeedAll(chunks, DEFAULT_LIMITS, false).status.Open?
    ensures var cs := Stream.Commands(FeedAll(chunks, DEFAULT_LIMITS, false).dispatched);
            |clocks| == |cs| ==> Similar(Replay(map[], WithClocks(cs, clocks)), ks)
  {
    hide Similar, TtlFree, ReplayExec, FeedAll, IsReading;
    assert Restores(chunks, ks);
    var cs := Stream.Commands(FeedAll(chunks, DEFAULT_LIMITS, false).dispatched);
    if |clocks| == |cs| {
      ReplayIsAfter(map[], cs, clocks);
    }
  }
}
