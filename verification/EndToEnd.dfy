/**
 * From the bytes a client sends to the store a restart brings back: the serving
 * loop keeps recovery exact, and the replay loop then rebuilds the client's store.
 */
module EndToEnd {
  import opened Bytes
  import opened Resp
  import opened Stream
  import opened ReplayRoom
  import opened Codec
  import opened Keyspace
  import opened MemoryStore
  import opened Commands
  import opened Meaning
  import opened Dispatch
  import opened Snapshot
  import opened Recovery
  import opened AofWriter
  import opened Session
  import opened Crash
  import opened Server

  /** A request recovery can follow from here: it sets no deadline, and serving it is safe. */
  ghost predicate Follows(n: Node, r: Request, at: Clock) {
    TtlFree(r.command) && Safe(n, Serve(r, at))
  }

  /** The node after serving these requests. */
  function Served(n: Node, rs: seq<Request>, clock: nat -> Clock): Node {
    var ran := Run(n.keys, Trace(rs, clock));
    if |ran.replies| == |rs| then Node(ran.keys, n.queue + Records(rs, ran.replies), n.log) else n
  }

  /** Each request can be followed from where the ones before it led. */
  ghost predicate AllFollow(n: Node, rs: seq<Request>, clock: nat -> Clock) {
    forall i :: 0 <= i < |rs| ==> Follows(Served(n, rs[..i], clock), rs[i], clock(i))
  }

  lemma {:induction false} RecordsAreRecords(rs: seq<Request>, answers: seq<Answer>)
    requires |rs| == |answers|
    ensures forall i :: 0 <= i < |Records(rs, answers)| ==> Records(rs, answers)[i].Record?
  {
    hide Lookup;
    if rs != [] {
      RecordsAreRecords(rs[..|rs| - 1], answers[..|rs| - 1]);
    }
  }

  lemma StillServing(n: Node, rs: seq<Request>, answers: seq<Answer>)
    requires !Rewriting(n) && |rs| == |answers|
    ensures !Rewriting(n.(queue := n.queue + Records(rs, answers)))
  {
    hide Records;
    RecordsAreRecords(rs, answers);
  }

  /** Serving requests one by one is a run of the node, so it stays exact. */
  lemma {:induction false} ServingStaysExact(n: Node, rs: seq<Request>, clock: nat -> Clock, lim: Limits)
    requires Exact(n) && !Rewriting(n)
    requires forall i :: 0 <= i < |rs| ==> StandsAlone(rs[i], lim)
    requires AllFollow(n, rs, clock)
    ensures |Run(n.keys, Trace(rs, clock)).replies| == |rs|
    ensures Exact(Served(n, rs, clock))
    decreases |rs|
  {
    hide Run, Records, Follows, StandsAlone, Exec, Lookup, Reachable, RecoversTo, Trace, Logs;
    if rs == [] {
      TraceStart(n.keys, clock);
      assert n.queue + [] == n.queue;
    } else {
      var m := |rs| - 1;
      var init, r := rs[..m], rs[m];
      assert init + [r] == rs;
      forall i | 0 <= i < m
        ensures Follows(Served(n, init[..i], clock), init[i], clock(i))
      {
        assert init[..i] == rs[..i];
      }
      ServingStaysExact(n, init, clock, lim);
      TraceSnoc(n.keys, init, r, clock);
      var mid := Served(n, init, clock);
      var answers := Run(n.keys, Trace(init, clock)).replies;
      StillServing(n, init, answers);
      assert !Rewriting(mid);
      var at := clock(m);
      assert rs[..m] == init;
      assert Follows(mid, r, at);
      FollowsMeans(mid, r, at);
      ServeExactIff(mid, r, at, lim);
      var e := Exec(r.command, Live(mid.keys, at.instant), at);
      RecordsSnoc(init, answers, r, e.result);
      SameNode(n, mid, r, at, Records(init, answers));
      NothingExpires(e.keys, at.instant);
    }
  }

  lemma FollowsMeans(n: Node, r: Request, at: Clock)
    requires Follows(n, r, at)
    ensures TtlFree(r.command) && Safe(n, Serve(r, at))
  {
  }

  lemma SameNode(n: Node, mid: Node, r: Request, at: Clock, records: seq<Message>)
    requires mid.queue == n.queue + records && mid.log == n.log
    ensures var e := Exec(r.command, Live(mid.keys, at.instant), at);
            Next(mid, Serve(r, at)) == Node(e.keys, n.queue + (records + Logs(r, e.result)), n.log)
  {
    hide Exec, Lookup;
  }

  /** A store seen alive from some moment is run like what is seen. */
  lemma RunFromView(data: Keys, rs: seq<Request>, clock: nat -> Clock, t: Instant)
    requires Monotone(clock) && t >= clock(|rs|).instant
    ensures Run(Live(data, clock(0).instant), Trace(rs, clock)).replies == Run(data, Trace(rs, clock)).replies
    ensures Live(Run(Live(data, clock(0).instant), Trace(rs, clock)).keys, t)
            == Live(Run(data, Trace(rs, clock)).keys, t)
  {
    hide Exec;
    var start := clock(0).instant;
    if rs == [] {
      TraceStart(data, clock);
      TraceStart(Live(data, start), clock);
      LiveLater(data, start, t);
    } else {
      assert Trace(rs, clock)[0] == Do(rs[0].command, clock(0));
      LiveLater(data, start, start);
    }
  }

  /**
   * One read served from a node that is exact: if the requests served can be followed, the
   * node made of the store as seen afterwards, the queue with the new records and
   * the unchanged log is exact again.
   */
  method ServeRead(codec: RespCodec, data: bytes, store: Store, channel: Channel, clock: nat -> Clock, ghost log: bytes)
    returns (status: Status, answers: seq<Answer>, ghost served: seq<Request>)
    requires store.Valid() && Monotone(clock) && |codec.buffer| <= codec.limits.maxBuffer
    requires var n := Node(store.View(clock(0).instant), channel.queue, log);
             Exact(n) && !Rewriting(n)
    modifies codec, store, channel
    ensures store.Valid() && |codec.buffer| <= codec.limits.maxBuffer
    ensures AllFollow(Node(old(store.View(clock(0).instant)), old(channel.queue), log), served, clock) ==>
              var n := Node(store.View(clock(|served|).instant), channel.queue, log);
              Exact(n) && !Rewriting(n)
  {
    hide Exact, Rewriting, Run, Records, Trace, Drain, AllFollow, StandsAlone;
    ghost var n := Node(store.View(clock(0).instant), channel.queue, log);
    ghost var before, input := store.data, codec.buffer + data;
    status, answers, served := ProcessBuffer(codec, data, store, channel, clock);
    if AllFollow(n, served, clock) {
      ghost var end := clock(|served|).instant;
      DrainedStandAlone(input, codec.limits, true);
      assert [] + Drain(input, codec.limits, true).requests == Drain(input, codec.limits, true).requests;
      ServingStaysExact(n, served, clock, codec.limits);
      RunFromView(before, served, clock, end);
      ghost var ks := Run(n.keys, Trace(served, clock)).keys;
      assert Live(ks, end) == ks by { ExactHasNoDeadlines(Served(n, served, clock)); NothingExpires(ks, end); }
      assert store.View(end) == ks;
      StillServing(n, served, answers);
      assert Served(n, served, clock) == Node(store.View(end), channel.queue, log);
      NotRewriting(n.(queue := n.queue + Records(served, answers)), Node(store.View(end), channel.queue, log));
    }
  }

  lemma NotRewriting(n: Node, n': Node)
    requires !Rewriting(n) && n'.queue == n.queue
    ensures !Rewriting(n')
  {
  }

  // ----------------------------------------------------------- a rewrite

  /** The fields of a hash in some order. */
  method FieldOrder(h: map<bytes, bytes>) returns (order: seq<bytes>)
    ensures Enumerates(order, h)
  {
    order := [];
    var todo := h.Keys;
    while todo != {}
      invariant todo <= h.Keys
      invariant forall f :: f in order <==> f in h && f !in todo
      invariant forall i, j :: 0 <= i < j < |order| ==> order[i] != order[j]
      decreases todo
    {
      var f :| f in todo;
      todo := todo - {f};
      order := order + [f];
    }
  }

  /** Entries of the table, each with its fields in some order and the clock at which it is encoded. */
  method Arrange(entries: seq<(Key, Entry)>, clock: nat -> Clock) returns (snaps: seq<Snap>)
    ensures |snaps| == |entries|
    ensures forall i :: 0 <= i < |snaps| ==>
              WellOrdered(snaps[i]) && snaps[i].key == entries[i].0 && snaps[i].entry == entries[i].1
              && snaps[i].at == clock(i + 1)
  {
    hide Enumerates;
    snaps := [];
    for k := 0 to |entries|
      invariant |snaps| == k
      invariant forall i :: 0 <= i < k ==>
                  WellOrdered(snaps[i]) && snaps[i].key == entries[i].0 && snaps[i].entry == entries[i].1
                  && snaps[i].at == clock(i + 1)
    {
      var order := [];
      if entries[k].1.value.Hash? {
        order := FieldOrder(entries[k].1.value.fields);
      }
      snaps := snaps + [Snap(entries[k].0, entries[k].1, order, clock(k + 1))];
    }
  }

  /** Frames one after the other, as the temporary file takes them. */
  method WriteAll(frames: seq<bytes>) returns (file: bytes)
    ensures file == Concat(frames)
  {
    file := [];
    assert frames[..0] == [];
    for k := 0 to |frames|
      invariant file == Concat(frames[..k])
    {
      assert frames[..k + 1] == frames[..k] + [frames[k]];
      ConcatSnoc(frames[..k], frames[k]);
      file := file + frames[k];
    }
    assert frames[..|frames|] == frames;
  }

  /**
   * BGREWRITEAOF under the barrier: snapshot the store, encode it, write the file
   * and send it to the writer. The store is not touched; the log will be the
   * snapshot's file; and where no key has a deadline, recovery is exact from then
   * on, whatever the log was, exactly when it can read and hold that file.
   */
  method Bgrewriteaof(store: Store, channel: Channel, clock: nat -> Clock, ghost log: bytes) returns (snaps: seq<Snap>)
    requires store.Valid()
    modifies channel
    ensures IsSnapshot(snaps, store.View(clock(0).instant))
    ensures forall i :: 0 <= i < |snaps| ==> snaps[i].at == clock(i + 1)
    ensures channel.queue == old(channel.queue) + [Swap(CompactFile(snaps))]
    ensures var ks := store.View(clock(0).instant);
            NoDeadlines(ks) && Reachable(ks) ==>
              (Exact(Node(ks, channel.queue, log)) <==> Replayable(SnapshotParts(snaps)))
  {
    hide WellOrdered, Reachable, Exact, Replayable, SnapshotParts;
    var entries := store.Snapshot(clock(0).instant);
    snaps := Arrange(entries, clock);
    var frames := SnapshotToFrames(snaps);
    var file := WriteAll(frames);
    channel.SendSwap(file);
    ghost var ks := store.View(clock(0).instant);
    assert IsSnapshot(snaps, ks) by {
      forall k | k in ks
        ensures exists i :: 0 <= i < |snaps| && snaps[i].key == k
      {
        var i :| 0 <= i < |entries| && entries[i].0 == k;
        assert snaps[i].key == k;
      }
    }
    if NoDeadlines(ks) && Reachable(ks) {
      RewriteExactIff(Node(ks, old(channel.queue), log), snaps);
    }
  }

  /** A restart on a log that restores some keys: a fresh store, any reading of the file, and they are back. */
  method Restart(chunks: seq<bytes>, clock: nat -> Clock, ghost log: bytes, ghost ks: Keys)
    returns (store: Store, replayed: nat)
    requires Monotone(clock) && RestoresTo(log, ks) && NoDeadlines(ks) && IsReading(chunks, log)
    ensures fresh(store) && store.Valid()
    ensures Similar(store.View(clock(replayed).instant), ks)
  {
    hide RestoresTo, IsReading, Replay, Similar, FeedAll;
    store := new Store();
    replayed := ReplayAofFile(chunks, store, clock);
    ghost var rs := FeedAll(chunks, DEFAULT_LIMITS, false).dispatched;
    ghost var cs := Stream.Commands(rs);
    ghost var clocks := seq(|cs|, i requires 0 <= i < |cs| => clock(i));
    assert WithClocks(cs, clocks) == Stamps(rs, clock);
    ExactRecovery(log, ks, chunks, clocks);
    ghost var back := Replay(map[], Stamps(rs, clock));
    SimilarNoDeadlines(back, ks);
    NothingExpires(back, clock(replayed).instant);
  }

  /** In particular on the log of an exact node. */
  method RestartExact(chunks: seq<bytes>, clock: nat -> Clock, ghost n: Node) returns (store: Store, replayed: nat)
    requires Monotone(clock) && Exact(n) && IsReading(chunks, Pending(n))
    ensures fresh(store) && store.Valid()
    ensures Similar(store.View(clock(replayed).instant), n.keys)
  {
    hide RestoresTo, Similar, IsReading;
    store, replayed := Restart(chunks, clock, Pending(n), n.keys);
  }

  /**
   * And after a crash at any moment of a safe run, with any bytes beyond the
   * synced ones left: the store is one the run went through, no older than what
   * was synced.
   */
  method RestartAfterCrash(
      chunks: seq<bytes>, clock: nat -> Clock,
      ghost nodes: seq<Node>, ghost acts: seq<Act>, ghost lim: Limits, ghost msgs: seq<Message>, ghost i: nat,
      ghost durable: bytes, ghost k: nat, ghost policy: Policy, ghost times: nat -> Instant, ghost left: bytes)
      returns (store: Store, replayed: nat, ghost j: nat)
    requires Session.IsRun(nodes, acts, lim) && forall a :: 0 <= a < |acts| ==> Safe(nodes[a], acts[a])
    requires Data(msgs) <= Sent(nodes, acts, |acts|)
    requires i < |msgs| && CrashLeaves(durable, k, [], msgs, i, policy, times)
    requires durable <= left <= Logged([], msgs[..i + 1]) && IsReading(chunks, left)
    requires Monotone(clock)
    ensures fresh(store) && store.Valid()
    ensures j < |nodes| && Data(msgs[..k]) <= Sent(nodes, acts, j) <= Data(msgs[..i + 1])
    ensures Similar(store.View(clock(replayed).instant), nodes[j].keys)
  {
    hide Session.IsRun, Safe, Sent, Data, CrashLeaves, RestoresTo, Similar, Exact, Logged, IsReading;
    j := CrashRecovers(nodes, acts, lim, msgs, i, durable, k, policy, times, left);
    assert NoDeadlines(nodes[j].keys) by {
      RunLength(nodes, acts, lim);
      AlwaysExact(nodes, acts, lim, j);
      ExactHasNoDeadlines(nodes[j]);
    }
    store, replayed := Restart(chunks, clock, left, nodes[j].keys);
  }

  lemma SimilarNoDeadlines(a: Keys, b: Keys)
    requires Similar(a, b) && NoDeadlines(b)
    ensures NoDeadlines(a)
  {
  }
}
