/**
 * The two loops that drive everything: serving the bytes of one read from a
 * client, and replaying the append-only file at start-up.
 */
module Server {
  import opened Bytes
  import opened Resp
  import opened Stream
  import opened Codec
  import opened Keyspace
  import opened MemoryStore
  import opened Commands
  import opened Meaning
  import opened Dispatch
  import opened AofWriter
  import opened Recovery

  /** The sending side of the writer's channel. */
  class Channel {
    var queue: seq<Message>

    constructor ()
      ensures queue == []
    {
      queue := [];
    }

    method LogCommand(frame: bytes)
      modifies this
      ensures queue == old(queue) + [Record(frame)]
    {
      queue := queue + [Record(frame)];
    }

    method SendSwap(temp: bytes)
      modifies this
      ensures queue == old(queue) + [Swap(temp)]
    {
      queue := queue + [Swap(temp)];
    }
  }

  function Trace(rs: seq<Request>, clock: nat -> Clock): seq<Event> {
    seq(|rs|, i requires 0 <= i < |rs| => Do(rs[i].command, clock(i)))
  }

  ghost predicate Monotone(clock: nat -> Clock) {
    forall i, j :: 0 <= i <= j ==> clock(i).instant <= clock(j).instant
  }

  lemma {:induction false} RunSnoc(ks: Keys, trace: seq<Event>, c: Command, at: Clock)
    ensures var before := Run(ks, trace);
            var e := Exec(c, Live(before.keys, at.instant), at);
            Run(ks, trace + [Do(c, at)]) == Ran(before.replies + [e.result], Live(e.keys, at.instant))
    decreases |trace|
  {
    hide Exec;
    if trace == [] {
      var one := trace + [Do(c, at)];
      assert one[0] == Do(c, at) && one[1..] == [];
      var e := Exec(c, Live(ks, at.instant), at);
      assert Run(Live(e.keys, at.instant), []) == Ran([], Live(e.keys, at.instant));
      assert [] + [e.result] == [e.result] + [];
    } else {
      assert (trace + [Do(c, at)])[1..] == trace[1..] + [Do(c, at)];
      match trace[0]
      case Sweep(_) => RunSnoc(ks, trace[1..], c, at);
      case Do(c0, at0) =>
        var e0 := Exec(c0, Live(ks, at0.instant), at0);
        RunSnoc(Live(e0.keys, at0.instant), trace[1..], c, at);
        var rest := Run(Live(e0.keys, at0.instant), trace[1..]);
        var e := Exec(c, Live(rest.keys, at.instant), at);
        assert ([e0.result] + rest.replies) + [e.result] == [e0.result] + (rest.replies + [e.result]);
    }
  }

  /** Two stores no reader can tell apart from this moment on. */
  ghost predicate InStep(data: Keys, ks: Keys, from: Instant) {
    forall t :: t >= from ==> Live(data, t) == Live(ks, t)
  }

  /** Serve one request: execute it, then log it if it succeeded and mutates. */
  method ServeOne(store: Store, channel: Channel, r: Request, at: Clock, ghost ks: Keys) returns (answer: Answer)
    requires store.Valid() && InStep(store.data, ks, at.instant)
    modifies store, channel
    ensures store.Valid()
    ensures var e := Exec(r.command, Live(ks, at.instant), at);
            answer == e.result && InStep(store.data, Live(e.keys, at.instant), at.instant)
    ensures channel.queue == old(channel.queue) + Logs(r, answer)
  {
    hide Exec, Lookup;
    assert store.View(at.instant) == Live(ks, at.instant);
    answer := Execute(store, r.command, at);
    ghost var e := Exec(r.command, Live(ks, at.instant), at);
    forall t | t >= at.instant
      ensures Live(store.data, t) == Live(Live(e.keys, at.instant), t)
    {
      LiveLater(store.data, at.instant, t);
    }
    if answer.Done? && IsMutation(Lookup(r.command.name)) {
      channel.LogCommand(r.raw);
    }
  }

  function Logs(r: Request, answer: Answer): seq<Message> {
    if answer.Done? && IsMutation(Lookup(r.command.name)) then [Record(r.raw)] else []
  }

  /** What is logged for served requests: the frames of successful mutations, in order. */
  function Records(rs: seq<Request>, answers: seq<Answer>): seq<Message>
    requires |rs| == |answers|
  {
    if rs == [] then []
    else
      var m := |rs| - 1;
      Records(rs[..m], answers[..m]) + Logs(rs[m], answers[m])
  }

  lemma RecordsSnoc(rs: seq<Request>, answers: seq<Answer>, r: Request, answer: Answer)
    requires |rs| == |answers|
    ensures Records(rs + [r], answers + [answer]) == Records(rs, answers) + Logs(r, answer)
  {
    hide Logs;
    assert (rs + [r])[..|rs|] == rs && (answers + [answer])[..|answers|] == answers;
  }

  lemma TraceSnoc(ks: Keys, rs: seq<Request>, r: Request, clock: nat -> Clock)
    ensures var before := Run(ks, Trace(rs, clock));
            var at := clock(|rs|);
            var e := Exec(r.command, Live(before.keys, at.instant), at);
            Run(ks, Trace(rs + [r], clock)) == Ran(before.replies + [e.result], Live(e.keys, at.instant))
  {
    hide Exec;
    assert Trace(rs + [r], clock) == Trace(rs, clock) + [Do(r.command, clock(|rs|))];
    RunSnoc(ks, Trace(rs, clock), r.command, clock(|rs|));
  }

  lemma TraceStart(ks: Keys, clock: nat -> Clock)
    ensures Run(ks, Trace([], clock)) == Ran([], ks) && Records([], []) == []
  {
    assert Trace([], clock) == [];
  }

  /** Where draining stands: `done` handed out, `pending` not looked at yet. */
  ghost predicate DrainedSoFar(input: bytes, done: seq<Request>, pending: bytes, lim: Limits, live: bool) {
    Drain(input, lim, live) == Before(done, Drain(pending, lim, live))
  }

  lemma DrainStart(input: bytes, lim: Limits, live: bool)
    ensures DrainedSoFar(input, [], input, lim, live)
  {
    var d := Drain(input, lim, live);
    assert [] + d.requests == d.requests;
  }

  lemma DrainNext(input: bytes, done: seq<Request>, pending: bytes, lim: Limits, live: bool, r: Request)
    requires DrainedSoFar(input, done, pending, lim, live)
    requires NextCommand(pending, lim) == Parsed(r.command, |r.raw|) && r.raw <= pending
    ensures live && IsTerminal(r.command) ==> Drain(input, lim, live) == Drained(done + [r], pending[|r.raw|..], Quit)
    ensures !(live && IsTerminal(r.command)) ==> DrainedSoFar(input, done + [r], pending[|r.raw|..], lim, live)
  {
    hide NextCommand;
    DrainStep(pending, lim, live);
    assert pending[..|r.raw|] == r.raw;
    var more := Drain(pending[|r.raw|..], lim, live);
    assert done + ([r] + more.requests) == (done + [r]) + more.requests;
  }

  lemma DrainEnd(input: bytes, done: seq<Request>, pending: bytes, lim: Limits, live: bool)
    requires DrainedSoFar(input, done, pending, lim, live) && !NextCommand(pending, lim).Parsed?
    ensures Drain(input, lim, live)
            == Drained(done, pending, if NextCommand(pending, lim).Incomplete? then Waiting else Failed)
  {
    hide NextCommand;
    assert done + [] == done;
  }

  /**
   * One read from a client: feed the bytes once, then drain. The requests served
   * are those `Feed` dispatches, they are answered as the ideal store answers
   * them, and exactly the successful mutations are handed to the writer, raw and
   * in order.
   */
  method ProcessBuffer(codec: RespCodec, data: bytes, store: Store, channel: Channel, clock: nat -> Clock)
    returns (status: Status, answers: seq<Answer>, ghost served: seq<Request>)
    requires store.Valid() && Monotone(clock) && |codec.buffer| <= codec.limits.maxBuffer
    modifies codec, store, channel
    ensures store.Valid() && |codec.buffer| <= codec.limits.maxBuffer
    ensures Feed(Conn([], old(codec.buffer), Open), data, codec.limits, true) == Conn(served, codec.buffer, status)
    ensures answers == Run(old(store.data), Trace(served, clock)).replies && |answers| == |served|
    ensures channel.queue == old(channel.queue) + Records(served, answers)
    ensures InStep(store.data, Run(old(store.data), Trace(served, clock)).keys, clock(|served|).instant)
  {
    hide NextCommand, Exec, Lookup, Run, Records, Drain, InStep, DrainedSoFar, Logs, Trace;
    answers, served := [], [];
    TraceStart(store.data, clock);
    assert InStep(store.data, store.data, clock(0).instant) by { InStepSelf(store.data, clock(0).instant); }
    if |codec.buffer| + |data| > codec.limits.maxBuffer {
      return Overflowed, [], [];
    }
    var toFeed := data;
    ghost var input := codec.buffer + data;
    ghost var lim := codec.limits;
    ghost var ks := store.data;
    DrainStart(input, lim, true);
    while true
      invariant store.Valid()
      invariant |codec.buffer| + |toFeed| <= lim.maxBuffer
      invariant DrainedSoFar(input, served, codec.buffer + toFeed, lim, true)
      invariant Run(old(store.data), Trace(served, clock)) == Ran(answers, ks)
      invariant |answers| == |served|
      invariant InStep(store.data, ks, clock(|served|).instant)
      invariant channel.queue == old(channel.queue) + Records(served, answers)
      decreases |codec.buffer| + |toFeed|
    {
      ghost var pending := codec.buffer + toFeed;
      var decoded := codec.DecodeWithFrame(toFeed);
      if !decoded.Frame? {
        DrainEnd(input, served, pending, lim, true);
        status := if decoded.NeedMore? then Open else ProtocolError;
        return status, answers, served;
      }
      toFeed := [];
      var r := Request(decoded.command, decoded.raw);
      assert r.raw <= pending && pending[|r.raw|..] == codec.buffer;
      DrainNext(input, served, pending, lim, true, r);
      var at := clock(|answers|);
      TraceSnoc(old(store.data), served, r, clock);
      var answer := ServeOne(store, channel, r, at, ks);
      RecordsSnoc(served, answers, r, answer);
      ks := Run(old(store.data), Trace(served + [r], clock)).keys;
      InStepLater(store.data, ks, at.instant, clock(|served| + 1).instant);
      answers, served := answers + [answer], served + [r];
      if IsTerminal(r.command) {
        return Closed, answers, served;
      }
      assert codec.buffer + toFeed == codec.buffer;
    }
  }

  lemma InStepSelf(ks: Keys, from: Instant)
    ensures InStep(ks, ks, from)
  {
  }

  lemma InStepLater(data: Keys, ks: Keys, from: Instant, later: Instant)
    requires InStep(data, ks, from) && from <= later
    ensures InStep(data, ks, later)
  {
  }

  // ---------------------------------------------------------------- replay

  function Stamps(rs: seq<Request>, clock: nat -> Clock): seq<Stamped> {
    seq(|rs|, i requires 0 <= i < |rs| => Stamped(rs[i].command, clock(i)))
  }

  lemma StampsSnoc(ks: Keys, rs: seq<Request>, r: Request, clock: nat -> Clock)
    ensures Replay(ks, Stamps(rs + [r], clock))
            == ReplayOne(Replay(ks, Stamps(rs, clock)), Stamped(r.command, clock(|rs|)))
  {
    hide ReplayOne;
    var last := Stamped(r.command, clock(|rs|));
    assert Stamps(rs + [r], clock) == Stamps(rs, clock) + [last];
    ReplaySplit(ks, Stamps(rs, clock), [last]);
    var before := Replay(ks, Stamps(rs, clock));
    assert Replay(before, [last]) == Replay(ReplayOne(before, last), [last][1..]);
  }

  /** Run one recovered command through the recovery registry, ignoring its answer. */
  method ReplayCommand(store: Store, c: Command, at: Clock, ghost ks: Keys)
    requires store.Valid() && InStep(store.data, ks, at.instant)
    modifies store
    ensures store.Valid() && InStep(store.data, ReplayOne(ks, Stamped(c, at)), at.instant)
  {
    hide Exec, Lookup;
    assert store.View(at.instant) == Live(ks, at.instant);
    if ReplayKnows(Lookup(c.name)) {
      var _ := Execute(store, c, at);
    } else {
      LiveLater(store.data, at.instant, at.instant);
    }
    ghost var now := ReplayExec(c, Live(ks, at.instant), at);
    assert Live(store.data, at.instant) == Live(now, at.instant);
    forall t | t >= at.instant
      ensures Live(store.data, t) == Live(Live(now, at.instant), t)
    {
      LiveLater(store.data, at.instant, t);
    }
  }

  /** Between reads: `i` chunks taken, these requests out, this buffered, nothing complete in it. */
  ghost predicate AtRead(chunks: seq<bytes>, i: nat, done: seq<Request>, buffer: bytes, lim: Limits)
    requires i <= |chunks|
  {
    var c := FeedAll(chunks[..i], lim, false);
    && c.dispatched == done && c.buffer == buffer && |buffer| <= lim.maxBuffer
    && (if c.status.Open? then NextCommand(buffer, lim).Incomplete?
        else c.status.ProtocolError? && NextCommand(buffer, lim).Malformed?)
  }

  /** An unreadable buffer stays unreadable, so nothing more is ever dispatched. */
  lemma StopsHere(chunks: seq<bytes>, i: nat, done: seq<Request>, buffer: bytes, lim: Limits)
    requires i <= |chunks| && AtRead(chunks, i, done, buffer, lim)
    requires i < |chunks| ==> |buffer| + |chunks[i]| > lim.maxBuffer || NextCommand(buffer + chunks[i], lim).Malformed?
    ensures FeedAll(chunks, lim, false).dispatched == done
  {
    hide NextCommand;
    if i == |chunks| {
      assert chunks[..i] == chunks;
    } else if FeedAll(chunks[..i], lim, false).status.Open? {
      assert chunks[..i + 1][..i] == chunks[..i];
      assert done + [] == done;
      assert chunks == chunks[..i + 1] + chunks[i + 1..];
      EndingIsFinal(chunks[..i + 1], chunks[i + 1..], lim, false);
    } else {
      assert chunks == chunks[..i] + chunks[i..];
      EndingIsFinal(chunks[..i], chunks[i..], lim, false);
    }
  }

  lemma NextRead(chunks: seq<bytes>, i: nat, done: seq<Request>, buffer: bytes, lim: Limits, done': seq<Request>,
      buffer': bytes)
    requires i < |chunks| && AtRead(chunks, i, done, buffer, lim)
    requires |buffer| + |chunks[i]| <= lim.maxBuffer && !NextCommand(buffer + chunks[i], lim).Malformed?
    requires DrainedSoFar(buffer + chunks[i], done', buffer', lim, false) && !NextCommand(buffer', lim).Parsed?
    ensures AtRead(chunks, i + 1, done + done', buffer', lim)
  {
    hide NextCommand, Drain;
    if !FeedAll(chunks[..i], lim, false).status.Open? {
      NextCommandExtends(buffer, chunks[i], lim);
    }
    assert chunks[..i + 1][..i] == chunks[..i];
    DrainEnd(buffer + chunks[i], done', buffer', lim, false);
    DrainShrinks(buffer + chunks[i], lim, false);
  }

  /**
   * Recovery: read the file in chunks, decode, run, drain. What it runs is what
   * `FeedAll` dispatches, and the store ends as those commands leave it.
   */
  method ReplayAofFile(chunks: seq<bytes>, store: Store, clock: nat -> Clock) returns (replayed: nat)
    requires store.Valid() && Monotone(clock)
    modifies store
    ensures store.Valid()
    ensures var rs := FeedAll(chunks, DEFAULT_LIMITS, false).dispatched;
            && replayed == |rs|
            && InStep(store.data, Replay(old(store.data), Stamps(rs, clock)), clock(replayed).instant)
  {
    hide NextCommand, InStep, Stamps, Replay, ReplayOne, Drain, DrainedSoFar, AtRead, FeedAll;
    var codec := new RespCodec(DEFAULT_LIMITS);
    replayed := 0;
    ghost var done: seq<Request> := [];
    assert InStep(store.data, Replay(old(store.data), Stamps(done, clock)), clock(0).instant) by {
      InStepSelf(store.data, clock(0).instant);
      NothingReplayed(store.data, clock);
    }
    var i := 0;
    FirstRead(chunks);
    while true
      invariant fresh(codec) && codec.limits == DEFAULT_LIMITS
      invariant i <= |chunks| && AtRead(chunks, i, done, codec.buffer, DEFAULT_LIMITS)
      invariant store.Valid() && replayed == |done|
      invariant InStep(store.data, Replay(old(store.data), Stamps(done, clock)), clock(replayed).instant)
      decreases |chunks| - i
    {
      var atEnd := i == |chunks|;
      var data := if atEnd then [] else chunks[i];
      ghost var buffer, input, before := codec.buffer, codec.buffer + data, done;
      NothingComplete(chunks, i, done, buffer, DEFAULT_LIMITS);
      assert atEnd ==> input == buffer;
      var decoded := codec.DecodeWithFrame(data);
      if decoded.ParseError? || decoded.BufferOverflow? || (decoded.NeedMore? && atEnd) {
        StopsHere(chunks, i, done, buffer, DEFAULT_LIMITS);
        return;
      }
      DrainStart(input, DEFAULT_LIMITS, false);
      ghost var out: seq<Request> := [];
      ghost var pending := input;
      while decoded.Frame?
        invariant codec.limits == DEFAULT_LIMITS && done == before + out
        invariant store.Valid() && replayed == |done|
        invariant InStep(store.data, Replay(old(store.data), Stamps(done, clock)), clock(replayed).instant)
        invariant DrainedSoFar(input, out, pending, DEFAULT_LIMITS, false)
        invariant |codec.buffer| <= DEFAULT_LIMITS.maxBuffer
        invariant decoded.Frame? ==> NextCommand(pending, DEFAULT_LIMITS) == Parsed(decoded.command, |decoded.raw|)
                                     && pending == decoded.raw + codec.buffer
        invariant !decoded.Frame? ==> !NextCommand(pending, DEFAULT_LIMITS).Parsed? && pending == codec.buffer
        decreases |pending|
      {
        ghost var r := Request(decoded.command, decoded.raw);
        assert pending[|r.raw|..] == codec.buffer;
        DrainNext(input, out, pending, DEFAULT_LIMITS, false, r);
        StampsSnoc(old(store.data), done, r, clock);
        ReplayCommand(store, decoded.command, clock(replayed), Replay(old(store.data), Stamps(done, clock)));
        InStepLater(store.data, Replay(old(store.data), Stamps(done + [r], clock)), clock(replayed).instant,
            clock(replayed + 1).instant);
        replayed := replayed + 1;
        assert before + (out + [r]) == (before + out) + [r];
        done, out, pending := done + [r], out + [r], codec.buffer;
        assert codec.buffer + [] == codec.buffer;
        decoded := codec.DecodeWithFrame([]);
      }
      NextRead(chunks, i, before, buffer, DEFAULT_LIMITS, out, codec.buffer);
      i := i + 1;
    }
  }

  lemma NothingReplayed(ks: Keys, clock: nat -> Clock)
    ensures Replay(ks, Stamps([], clock)) == ks
  {
    assert Stamps([], clock) == [];
  }

  lemma FirstRead(chunks: seq<bytes>)
    ensures AtRead(chunks, 0, [], [], DEFAULT_LIMITS)
  {
    assert chunks[..0] == [];
    assert NextCommand([], DEFAULT_LIMITS).Incomplete?;
  }

  lemma NothingComplete(chunks: seq<bytes>, i: nat, done: seq<Request>, buffer: bytes, lim: Limits)
    requires i <= |chunks| && AtRead(chunks, i, done, buffer, lim)
    ensures !NextCommand(buffer, lim).Parsed? && |buffer| <= lim.maxBuffer
  {
  }
}
