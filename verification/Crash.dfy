/**
 * A crash at any moment. The writer has handled some of the messages one client's
 * run has sent it; what is left of the file is what was synced and any number of
 * the bytes after that. Recovery brings back the store as it was at an earlier
 * point of the run.
 */
module Crash {
  import opened Bytes
  import opened Resp
  import opened Stream
  import opened ReplayRoom
  import opened Keyspace
  import opened Commands
  import opened Meaning
  import Refusals
  import opened Snapshot
  import opened AofWriter
  import opened Session

  // -------------------------------------------------- what a run has sent

  /** What a step hands to the writer. */
  function Sends(n: Node, act: Act): seq<Message> {
    match act
    case Serve(r, at) => if IsLogged(n, r, at) then [Record(r.raw)] else []
    case Handle => []
    case Rewrite(snaps) =>
      if forall i :: 0 <= i < |snaps| ==> WellOrdered(snaps[i]) then [Swap(CompactFile(snaps))] else []
  }

  /** What the first `k` steps have handed to the writer. */
  function Sent(nodes: seq<Node>, acts: seq<Act>, k: nat): seq<Message>
    requires k <= |acts| < |nodes|
  {
    if k == 0 then [] else Sent(nodes, acts, k - 1) + Sends(nodes[k - 1], acts[k - 1])
  }

  lemma SendsPending(n: Node, act: Act, n': Node, lim: Limits)
    requires Steps(n, act, n', lim)
    ensures Pending(n') == Logged(Pending(n), Sends(n, act))
  {
    hide IsLogged, CompactFile, Exec, StandsAlone, TtlFree, WellOrdered;
    match act
    case Handle =>
      assert n.queue == [n.queue[0]] + n.queue[1..];
      LoggedSplit(n.log, [n.queue[0]], n.queue[1..]);
    case Serve(r, at) => LoggedSplit(n.log, n.queue, Sends(n, act)); assert n.queue + [] == n.queue;
    case Rewrite(snaps) => LoggedSplit(n.log, n.queue, Sends(n, act));
  }

  /** The log, once the writer has caught up, is what was sent. */
  lemma {:induction false} PendingIsSent(nodes: seq<Node>, acts: seq<Act>, lim: Limits, k: nat)
    requires IsRun(nodes, acts, lim) && k <= |acts|
    ensures Pending(nodes[k]) == Logged([], Sent(nodes, acts, k))
    decreases k
  {
    hide Logged, Sends, Steps, Pending;
    if k == 0 {
      StartPending();
    } else {
      PendingIsSent(nodes, acts, lim, k - 1);
      assert Steps(nodes[k - 1], acts[k - 1], nodes[k - 1 + 1], lim);
      SendsPending(nodes[k - 1], acts[k - 1], nodes[k], lim);
      LoggedSplit([], Sent(nodes, acts, k - 1), Sends(nodes[k - 1], acts[k - 1]));
    }
  }

  lemma StartPending()
    ensures Pending(START) == Logged([], [])
  {
  }

  /** Messages go out one at a time, so every beginning of them was all there was at some point. */
  lemma {:induction false} SentSoFar(nodes: seq<Node>, acts: seq<Act>, k: nat, part: seq<Message>) returns (j: nat)
    requires k <= |acts| < |nodes| && part <= Sent(nodes, acts, k)
    ensures j <= k && Sent(nodes, acts, j) == part
    decreases k
  {
    hide IsLogged, CompactFile, WellOrdered;
    if part == Sent(nodes, acts, k) {
      j := k;
    } else {
      assert |Sends(nodes[k - 1], acts[k - 1])| <= 1;
      assert part <= Sent(nodes, acts, k - 1);
      j := SentSoFar(nodes, acts, k - 1, part);
    }
  }

  /** Frames sent by safe steps can be read by recovery. */
  ghost predicate IsFrame(m: Message) {
    m.Record? ==> exists c :: StandsAlone(Request(c, m.frame), DEFAULT_LIMITS)
  }

  lemma FrameOfRequest(r: Request)
    requires StandsAlone(r, DEFAULT_LIMITS)
    ensures IsFrame(Record(r.raw))
  {
    hide StandsAlone;
    assert Request(r.command, r.raw) == r;
  }

  lemma SwapIsFrame(t: bytes)
    ensures IsFrame(Swap(t))
  {
  }

  lemma {:induction false} SentFrames(nodes: seq<Node>, acts: seq<Act>, k: nat)
    requires k <= |acts| < |nodes| && forall i :: 0 <= i < |acts| ==> Safe(nodes[i], acts[i])
    ensures forall i :: 0 <= i < |Sent(nodes, acts, k)| ==> IsFrame(Sent(nodes, acts, k)[i])
    decreases k
  {
    hide IsLogged, CompactFile, StandsAlone, WellOrdered, Replayable, SnapshotParts, IsFrame;
    hide Refusals.ReplacesHashWithGet, Refusals.PartlyWrites, Roomy, FramesIn;
    if k > 0 {
      SentFrames(nodes, acts, k - 1);
      var act := acts[k - 1];
      assert Safe(nodes[k - 1], act);
      if act.Serve? && IsLogged(nodes[k - 1], act.request, act.at) {
        FrameOfRequest(act.request);
      }
      if act.Rewrite? {
        forall t: bytes
          ensures IsFrame(Swap(t))
        {
          SwapIsFrame(t);
        }
      }
    }
  }

  // ------------------------------------------ what the writer makes of it

  /** The messages that make the log; flushes, size queries, ticks and the shutdown do not. */
  function Data(msgs: seq<Message>): seq<Message> {
    if msgs == [] then []
    else
      var m := msgs[|msgs| - 1];
      Data(msgs[..|msgs| - 1]) + if m.Record? || m.Swap? then [m] else []
  }

  lemma {:induction false} LoggedData(log: bytes, msgs: seq<Message>)
    ensures Logged(log, msgs) == Logged(log, Data(msgs))
  {
    if msgs != [] {
      var m := |msgs| - 1;
      LoggedData(log, msgs[..m]);
      var init := Data(msgs[..m]);
      if msgs[m].Record? || msgs[m].Swap? {
        assert Data(msgs) == init + [msgs[m]];
        assert (init + [msgs[m]])[..|init|] == init;
      } else {
        assert Data(msgs) == init + [];
        assert init + [] == init;
      }
    }
  }

  lemma {:induction false} DataPrefix(msgs: seq<Message>, k: nat)
    requires k <= |msgs|
    ensures Data(msgs[..k]) <= Data(msgs)
    ensures (forall j :: k <= j < |msgs| ==> !msgs[j].Swap?) ==>
              forall i :: |Data(msgs[..k])| <= i < |Data(msgs)| ==> Data(msgs)[i].Record?
    decreases |msgs|
  {
    if k == |msgs| {
      assert msgs[..k] == msgs;
    } else {
      var m := |msgs| - 1;
      DataPrefix(msgs[..m], k);
      assert msgs[..m][..k] == msgs[..k];
    }
  }

  /** Reading back to a torn frame reads what came before it, and has room if the whole frame would. */
  lemma TornFrame(log: bytes, ks: Keys, r: Request, cut: nat, ks': Keys)
    requires RecoversTo(log, ks) && StandsAlone(r, DEFAULT_LIMITS) && cut < |r.raw|
    requires RecoversTo(log + r.raw, ks')
    ensures RestoresTo(log + r.raw[..cut], ks)
  {
    hide NextCommand, TtlFree, After, Similar, RecoversTo, Drain, FeedAll, IsReading, Restores;
    var torn := r.raw[..cut];
    var left := log + torn;
    RecoversIff(log, ks);
    CutFrameWaits(r.raw, cut, DEFAULT_LIMITS);
    DrainStops(torn, DEFAULT_LIMITS, false);
    DrainExtends(log, torn, DEFAULT_LIMITS, false);
    assert [] + torn == torn;
    var rs := Drain(log, DEFAULT_LIMITS, false).requests;
    assert rs + [] == rs;
    assert ReadsBack(left, ks);
    forall chunks | IsReading(chunks, left)
      ensures FeedAll(chunks, DEFAULT_LIMITS, false).status.Open?
    {
      assert left + r.raw[cut..] == log + r.raw;
      BeginsOpen(chunks, left, r.raw[cut..], ks');
    }
    RoomyIff(left, DEFAULT_LIMITS);
    RestoresIff(left, ks);
  }

  /** A reading that would have come to the end of a longer file comes to the end of its beginning. */
  lemma BeginsOpen(chunks: seq<bytes>, left: bytes, more: bytes, ks: Keys)
    requires IsReading(chunks, left) && RecoversTo(left + more, ks)
    ensures FeedAll(chunks, DEFAULT_LIMITS, false).status.Open?
  {
    hide FeedAll, Restores;
    var all := chunks + Singles(more);
    SinglesJoin(more);
    ConcatSplit(chunks, Singles(more));
    assert IsReading(all, left + more);
    assert Restores(all, ks);
    RestoresEndsOpen(all, ks);
    if !FeedAll(chunks, DEFAULT_LIMITS, false).status.Open? {
      EndingIsFinal(chunks, Singles(more), DEFAULT_LIMITS, false);
    }
  }

  lemma OneMore(data: seq<Message>)
    requires data != [] && data[|data| - 1].Record?
    ensures Logged([], data) == Logged([], data[..|data| - 1]) + data[|data| - 1].frame
  {
  }

  lemma Whole(log: bytes, ks: Keys)
    requires RecoversTo(log, ks)
    ensures RestoresTo(log, ks)
  {
    hide RestoresTo;
  }

  /** Whatever is left between two moments without a rewrite restores the store of one in between. */
  lemma {:induction false} LeftBetween(
      nodes: seq<Node>, acts: seq<Act>, lim: Limits, data: seq<Message>, from: nat, left: bytes) returns (j: nat)
    requires IsRun(nodes, acts, lim) && forall i :: 0 <= i < |acts| ==> Safe(nodes[i], acts[i])
    requires data <= Sent(nodes, acts, |acts|) && from <= |data|
    requires forall i :: from <= i < |data| ==> data[i].Record?
    requires Logged([], data[..from]) <= left <= Logged([], data)
    ensures j < |nodes| && data[..from] <= Sent(nodes, acts, j) <= data
    ensures RestoresTo(left, nodes[j].keys)
    decreases |data|
  {
    hide Logged, Sent, Safe, Exact, IsFrame, RestoresTo, RecoversTo, IsRun;
    assert |nodes| == |acts| + 1 by { RunLength(nodes, acts, lim); }
    var last := |data| - 1;
    assert data[..|data|] == data;
    if left == Logged([], data) {
      j := At(nodes, acts, lim, data);
      Whole(left, nodes[j].keys);
    } else {
      var init := data[..last];
      OneMore(data);
      assert init[..from] == data[..from];
      if |left| <= |Logged([], init)| {
        assert left <= Logged([], init);
        j := LeftBetween(nodes, acts, lim, init, from, left);
      } else {
        j := At(nodes, acts, lim, init);
        var cut := |left| - |Logged([], init)|;
        SentFrames(nodes, acts, |acts|);
        assert IsFrame(data[last]);
        var r := FrameRequest(data[last]);
        assert left == Logged([], init) + r.raw[..cut];
        var whole := At(nodes, acts, lim, data);
        TornFrame(Logged([], init), nodes[j].keys, r, cut, nodes[whole].keys);
      }
    }
  }

  lemma RunLength(nodes: seq<Node>, acts: seq<Act>, lim: Limits)
    requires IsRun(nodes, acts, lim)
    ensures |nodes| == |acts| + 1
  {
  }

  lemma FrameRequest(m: Message) returns (r: Request)
    requires IsFrame(m) && m.Record?
    ensures r.raw == m.frame && StandsAlone(r, DEFAULT_LIMITS)
  {
    hide StandsAlone;
    var c :| StandsAlone(Request(c, m.frame), DEFAULT_LIMITS);
    r := Request(c, m.frame);
  }

  /** The point of the run at which exactly this had been sent. */
  lemma At(nodes: seq<Node>, acts: seq<Act>, lim: Limits, data: seq<Message>) returns (j: nat)
    requires IsRun(nodes, acts, lim) && forall i :: 0 <= i < |acts| ==> Safe(nodes[i], acts[i])
    requires |nodes| == |acts| + 1 && data <= Sent(nodes, acts, |acts|)
    ensures j < |nodes| && Sent(nodes, acts, j) == data
    ensures RecoversTo(Logged([], data), nodes[j].keys)
  {
    hide Logged, Sent, Safe, RecoversTo, IsRun, Pending;
    j := SentSoFar(nodes, acts, |acts|, data);
    AlwaysExact(nodes, acts, lim, j);
    PendingIsSent(nodes, acts, lim, j);
  }

  /**
   * Crash safety. Take any safe run of one client, any messages of it the writer
   * has handled among its own ticks and flushes, a crash after any of them, and
   * any number of bytes of the log beyond what was synced. Recovery restores the
   * store as it was at some point of the run: not before the messages that were
   * synced, and how recent those are `CrashLeaves` says for each policy.
   */
  lemma CrashRecovers(
      nodes: seq<Node>, acts: seq<Act>, lim: Limits,
      msgs: seq<Message>, i: nat, durable: bytes, k: nat, policy: Policy, clock: nat -> Instant, left: bytes)
      returns (j: nat)
    requires IsRun(nodes, acts, lim) && forall a :: 0 <= a < |acts| ==> Safe(nodes[a], acts[a])
    requires Data(msgs) <= Sent(nodes, acts, |acts|)
    requires i < |msgs| && CrashLeaves(durable, k, [], msgs, i, policy, clock)
    requires durable <= left <= Logged([], msgs[..i + 1])
    ensures j < |nodes| && Data(msgs[..k]) <= Sent(nodes, acts, j) <= Data(msgs[..i + 1])
    ensures RestoresTo(left, nodes[j].keys)
  {
    hide IsRun, Safe, Sent, Logged, Data, RestoresTo;
    var seen := msgs[..i + 1];
    DataPrefix(msgs, i + 1);
    DataPrefix(seen, k);
    assert seen[..k] == msgs[..k];
    assert forall j :: k <= j < |seen| ==> !seen[j].Swap?;
    LoggedData([], seen);
    LoggedData([], msgs[..k]);
    var from := |Data(msgs[..k])|;
    assert Data(seen)[..from] == Data(msgs[..k]);
    j := LeftBetween(nodes, acts, lim, Data(seen), from, left);
  }
}
