/**
 * Whether recovery finds room for a log. It reads the file in pieces of at most
 * `READ` bytes, of whatever sizes the system returns, into a codec whose buffer
 * is capped; a piece that does not fit ends the replay. What decides is the
 * length of each frame and how much follows it.
 */
module ReplayRoom {
  import opened Bytes
  import opened Resp
  import opened Stream

  const READ := 65536

  /** One way a file may be read back. */
  ghost predicate IsReading(chunks: seq<bytes>, log: bytes) {
    Concat(chunks) == log && forall i :: 0 <= i < |chunks| ==> |chunks[i]| <= 64 * 1024
  }

  function Least(a: int, b: int): int {
    if a < b then a else b
  }

  /** The whole frame but its last byte, and then a read as long as there is anything to read. */
  function Needs(frame: bytes, after: nat): int {
    |frame| - 1 + Least(READ, 1 + after)
  }

  /** Every frame, with what follows it, and the torn bytes at the end fit the buffer. */
  predicate Roomy(frames: seq<bytes>, torn: nat, lim: Limits) {
    && torn <= lim.maxBuffer
    && forall i :: 0 <= i < |frames| ==> Needs(frames[i], |Concat(frames[i + 1..])| + torn) <= lim.maxBuffer
  }

  // --------------------------------------------------------------- offsets

  lemma SplitAt(frames: seq<bytes>, w: nat)
    requires w <= |frames|
    ensures |Concat(frames[..w])| + |Concat(frames[w..])| == |Concat(frames)|
    ensures w < |frames| ==> |Concat(frames[w..])| == |frames[w]| + |Concat(frames[w + 1..])|
  {
    assert frames == frames[..w] + frames[w..];
    ConcatSplit(frames[..w], frames[w..]);
    if w < |frames| {
      assert frames[w..] == [frames[w]] + frames[w + 1..];
      ConcatSplit([frames[w]], frames[w + 1..]);
      ConcatOne(frames[w]);
    }
  }

  lemma RawsUpTo(rs: seq<Request>, w: nat)
    requires w <= |rs|
    ensures Raws(rs[..w]) == Raws(rs)[..w] && |Raws(rs)| == |rs|
  {
  }

  lemma {:induction false} WholeFramesAt(rs: seq<Request>, i: nat, into: nat)
    requires i < |rs| && into < |rs[i].raw|
    ensures WholeFrames(rs, |Concat(Raws(rs)[..i])| + into) == i
    decreases i
  {
    if i > 0 {
      WholeFramesAt(rs[1..], i - 1, into);
      assert Raws(rs)[..i] == [rs[0].raw] + Raws(rs[1..])[..i - 1];
      ConcatSplit([rs[0].raw], Raws(rs[1..])[..i - 1]);
      ConcatOne(rs[0].raw);
    } else {
      assert Raws(rs)[..0] == [];
    }
  }

  // ------------------------------------------------------------- enough

  /** In a roomy log every read finds room. */
  lemma RoomyFits(rs: seq<Request>, torn: nat, log: bytes, chunks: seq<bytes>, lim: Limits, k: nat)
    requires |log| == |Concat(Raws(rs))| + torn && IsReading(chunks, log) && Roomy(Raws(rs), torn, lim)
    requires k < |chunks|
    ensures Torn(rs, |Concat(chunks[..k])|) + |chunks[k]| <= lim.maxBuffer
  {
    hide Concat, Raws, WholeFrames;
    var p := |Concat(chunks[..k])|;
    ConcatPrefix(chunks, k + 1);
    assert chunks[..k + 1] == chunks[..k] + [chunks[k]];
    ConcatSnoc(chunks[..k], chunks[k]);
    WholeFramesIsLargest(rs, p);
    var w := WholeFrames(rs, p);
    RawsUpTo(rs, w);
    SplitAt(Raws(rs), w);
    if w < |rs| {
      RawsUpTo(rs, w + 1);
      SplitAt(Raws(rs), w + 1);
      assert Needs(Raws(rs)[w], |Concat(Raws(rs)[w + 1..])| + torn) <= lim.maxBuffer;
    } else {
      assert Raws(rs)[w..] == [] && Concat([]) == [] by { EmptyLog(); }
    }
  }

  // ---------------------------------------------------------- not enough

  function Singles(s: bytes): seq<bytes> {
    seq(|s|, i requires 0 <= i < |s| => [s[i]])
  }

  lemma {:induction false} SinglesJoin(s: bytes)
    ensures Concat(Singles(s)) == s
  {
    if s != [] {
      SinglesJoin(s[1..]);
      assert Singles(s) == [[s[0]]] + Singles(s[1..]);
    }
  }

  /** A reading that comes to a given place byte by byte and then takes a given piece. */
  lemma ReadAt(log: bytes, p: nat, n: nat) returns (chunks: seq<bytes>)
    requires p + n <= |log| && n <= READ
    ensures IsReading(chunks, log) && p < |chunks| && |Concat(chunks[..p])| == p && |chunks[p]| == n
  {
    var a, b, c := log[..p], log[p..p + n], log[p + n..];
    chunks := Singles(a) + [b] + Singles(c);
    SinglesJoin(a);
    SinglesJoin(c);
    ConcatSplit(Singles(a) + [b], Singles(c));
    ConcatSnoc(Singles(a), b);
    assert log == a + b + c;
    assert chunks[..p] == Singles(a);
  }

  /** In a log that is not roomy some read does not. */
  lemma NotRoomy(rs: seq<Request>, torn: nat, log: bytes, lim: Limits) returns (chunks: seq<bytes>, k: nat)
    requires |log| == |Concat(Raws(rs))| + torn && !Roomy(Raws(rs), torn, lim)
    requires forall i :: 0 <= i < |rs| ==> rs[i].raw != []
    ensures IsReading(chunks, log) && k < |chunks|
    ensures Torn(rs, |Concat(chunks[..k])|) + |chunks[k]| > lim.maxBuffer
  {
    hide Concat, WholeFrames, IsReading;
    var frames := Raws(rs);
    if torn > lim.maxBuffer {
      k := |Concat(frames)| + torn - 1;
      chunks := ReadAt(log, k, 1);
      AllFramesFitMore(rs, k);
      assert rs[..|rs|] == rs;
    } else {
      var i :| 0 <= i < |frames| && Needs(frames[i], |Concat(frames[i + 1..])| + torn) > lim.maxBuffer;
      SplitAt(frames, i);
      var into := |frames[i]| - 1;
      k := |Concat(frames[..i])| + into;
      chunks := ReadAt(log, k, Least(READ, 1 + |Concat(frames[i + 1..])| + torn));
      WholeFramesAt(rs, i, into);
      RawsUpTo(rs, i);
    }
  }

  /**
   * The exact condition: a log that drains without an error is read to its end in
   * every reading if and only if it is roomy.
   */
  lemma RoomyIff(log: bytes, lim: Limits)
    requires Drain(log, lim, false).ending.Waiting?
    ensures var d := Drain(log, lim, false);
            (forall chunks :: IsReading(chunks, log) ==> FeedAll(chunks, lim, false).status.Open?)
            <==> Roomy(Raws(d.requests), |d.rest|, lim)
  {
    hide Drain, FeedAll, Roomy, Raws, Trips, Torn;
    var d := Drain(log, lim, false);
    DrainConserves(log, lim, false);
    if Roomy(Raws(d.requests), |d.rest|, lim) {
      forall chunks | IsReading(chunks, log)
        ensures FeedAll(chunks, lim, false).status.Open?
      {
        forall k | 0 <= k < |chunks|
          ensures !Trips(chunks, k, lim, false)
        {
          RoomyFits(d.requests, |d.rest|, log, chunks, lim, k);
          TornTrips(log, chunks, lim, k);
        }
        TripsAreReads(chunks, lim);
        FeedAllIsDrain(chunks, lim, false);
      }
    } else {
      NoEmptyFrame(log, lim);
      var chunks, k := NotRoomy(d.requests, |d.rest|, log, lim);
      TornTrips(log, chunks, lim, k);
      FeedAllIsDrain(chunks, lim, false);
      assert Trips(chunks, k, lim, false);
    }
  }

  lemma NoEmptyFrame(log: bytes, lim: Limits)
    ensures var rs := Drain(log, lim, false).requests; forall i :: 0 <= i < |rs| ==> rs[i].raw != []
  {
    hide Drain, NextCommand;
    DrainedStandAlone(log, lim, false);
    var rs := Drain(log, lim, false).requests;
    forall i | 0 <= i < |rs|
      ensures rs[i].raw != []
    {
      assert StandsAlone(rs[i], lim);
    }
  }

  // --------------------------------------------- what is always and never

  /** Frames a whole read shorter than the cap always have room. */
  lemma ShortFramesHaveRoom(frames: seq<bytes>, torn: nat, lim: Limits)
    requires torn <= lim.maxBuffer && forall i :: 0 <= i < |frames| ==> |frames[i]| + READ <= lim.maxBuffer + 1
    ensures Roomy(frames, torn, lim)
  {
  }

  /** A frame is only dispatched out of a buffer that held all of it. */
  lemma {:induction false} DispatchedFit(chunks: seq<bytes>, lim: Limits, live: bool)
    ensures var c := FeedAll(chunks, lim, live);
            && (forall r :: r in c.dispatched ==> |r.raw| <= lim.maxBuffer)
            && c.dispatched <= Drain(Concat(chunks), lim, live).requests
  {
    hide NextCommand, Drain;
    if chunks != [] {
      var m := |chunks| - 1;
      var init, last := chunks[..m], chunks[m];
      assert chunks == init + [last];
      ConcatSnoc(init, last);
      DispatchedFit(init, lim, live);
      FeedAllIsDrain(init, lim, live);
      DrainExtends(Concat(init), last, lim, live);
      var before := FeedAll(init, lim, live);
      if Takes(before, last, lim) {
        DrainedWithin(before.buffer + last, lim, live);
      }
    }
  }

  lemma DrainedWithin(s: bytes, lim: Limits, live: bool)
    ensures forall r :: r in Drain(s, lim, live).requests ==> |r.raw| <= |s|
  {
    hide Drain;
    var rs := Drain(s, lim, live).requests;
    DrainConserves(s, lim, live);
    forall r | r in rs
      ensures |r.raw| <= |s|
    {
      var i :| 0 <= i < |rs| && rs[i] == r;
      RawsUpTo(rs, i);
      SplitAt(Raws(rs), i);
      assert Raws(rs)[i] == r.raw;
    }
  }

  /** A frame longer than the cap is never run, nor is anything after it, whatever the reads. */
  lemma LongFrameBlocks(rs: seq<Request>, torn: bytes, chunks: seq<bytes>, lim: Limits, i: nat)
    requires forall j :: 0 <= j < |rs| ==> StandsAlone(rs[j], lim)
    requires i < |rs| && |rs[i].raw| > lim.maxBuffer && Concat(chunks) == Concat(Raws(rs)) + torn
    ensures FeedAll(chunks, lim, false).dispatched <= rs[..i]
  {
    hide Drain, StandsAlone, FeedAll;
    DispatchedFit(chunks, lim, false);
    DrainFrames(rs, torn, lim);
    var done := FeedAll(chunks, lim, false).dispatched;
    var all := Drain(Concat(chunks), lim, false).requests;
    assert rs <= all;
    assert done == all[..|done|];
  }
}
