/**
 * Request streams: draining every complete request from the bytes at hand, and
 * feeding a byte stream to a codec chunk by chunk. The same reading serves a live
 * connection, which stops at QUIT, and replay of the append-only file, which does
 * not.
 */
module Stream {
  import opened Bytes
  import opened Resp

  /** A request together with the wire bytes it came from. */
  datatype Request = Request(command: Command, raw: bytes)

  datatype Ending = Waiting | Quit | Failed

  datatype Drained = Drained(requests: seq<Request>, rest: bytes, ending: Ending)

  const QUIT_NAME: bytes := [81, 85, 73, 84]

  /** Whether the connection closes once this request is answered. */
  predicate IsTerminal(c: Command) {
    c.name == QUIT_NAME
  }

  function Raws(rs: seq<Request>): seq<bytes> {
    seq(|rs|, i requires 0 <= i < |rs| => rs[i].raw)
  }

  function Commands(rs: seq<Request>): seq<Command> {
    seq(|rs|, i requires 0 <= i < |rs| => rs[i].command)
  }

  /** A frame that decodes, on its own and completely, to its command. */
  predicate StandsAlone(r: Request, lim: Limits) {
    NextCommand(r.raw, lim) == Parsed(r.command, |r.raw|)
  }

  /** Take requests off the front until more bytes are needed, QUIT is met or parsing fails. */
  function Drain(s: bytes, lim: Limits, live: bool): (d: Drained)
    decreases |s|
  {
    match NextCommand(s, lim)
    case Incomplete => Drained([], s, Waiting)
    case Malformed => Drained([], s, Failed)
    case Parsed(c, n) =>
      var r := Request(c, s[..n]);
      if live && IsTerminal(c) then Drained([r], s[n..], Quit)
      else Before([r], Drain(s[n..], lim, live))
  }

  function Before(rs: seq<Request>, d: Drained): Drained {
    d.(requests := rs + d.requests)
  }

  // -------------------------------------------------- draining in one go

  /** One step of draining, for an input that starts with a complete request. */
  lemma DrainStep(s: bytes, lim: Limits, live: bool)
    requires NextCommand(s, lim).Parsed?
    ensures var r := NextCommand(s, lim);
            var first := Request(r.value, s[..r.used]);
            Drain(s, lim, live)
            == if live && IsTerminal(r.value) then Drained([first], s[r.used..], Quit)
               else Before([first], Drain(s[r.used..], lim, live))
  {
    hide NextCommand;
  }

  /** Nothing to take off an input that does not start with a complete request. */
  lemma DrainStops(s: bytes, lim: Limits, live: bool)
    requires !NextCommand(s, lim).Parsed?
    ensures Drain(s, lim, live) == Drained([], s, if NextCommand(s, lim).Incomplete? then Waiting else Failed)
  {
    hide NextCommand;
  }

  lemma RawsOf(first: Request, rs: seq<Request>)
    ensures Concat(Raws([first] + rs)) == first.raw + Concat(Raws(rs))
    ensures Concat(Raws([first])) == first.raw
  {
    var all := Raws([first] + rs);
    assert all[1..] == Raws(rs);
    ConcatOne(first.raw);
    assert Raws([first]) == [first.raw];
  }

  /** Byte conservation: the frames handed out, then the unread rest, are the input. */
  lemma {:induction false} DrainConserves(s: bytes, lim: Limits, live: bool)
    ensures var d := Drain(s, lim, live);
            Concat(Raws(d.requests)) + d.rest == s
    decreases |s|
  {
    hide NextCommand, Drain;
    if NextCommand(s, lim).Parsed? {
      var c, n := NextCommand(s, lim).value, NextCommand(s, lim).used;
      DrainStep(s, lim, live);
      hide Concat, Raws;
      var tail := Drain(s[n..], lim, live);
      RawsOf(Request(c, s[..n]), tail.requests);
      DrainConserves(s[n..], lim, live);
      assert s == s[..n] + s[n..];
    } else {
      DrainStops(s, lim, live);
      EmptyLog();
    }
  }

  /** Every frame handed out decodes on its own to its command, with nothing left. */
  lemma {:induction false} DrainedStandAlone(s: bytes, lim: Limits, live: bool)
    ensures forall r :: r in Drain(s, lim, live).requests ==> StandsAlone(r, lim)
    decreases |s|
  {
    hide NextCommand, Drain;
    if NextCommand(s, lim).Parsed? {
      var n := NextCommand(s, lim).used;
      FrameStandsAlone(s, lim);
      DrainStep(s, lim, live);
      DrainedStandAlone(s[n..], lim, live);
    } else {
      DrainStops(s, lim, live);
    }
  }

  /** How draining a longer input relates to draining its beginning. */
  lemma {:induction false} DrainExtends(s: bytes, t: bytes, lim: Limits, live: bool)
    ensures var d := Drain(s, lim, live);
            Drain(s + t, lim, live)
            == if d.ending.Waiting? then Before(d.requests, Drain(d.rest + t, lim, live))
               else d.(rest := d.rest + t)
    decreases |s|
  {
    hide NextCommand, Drain;
    if NextCommand(s, lim).Parsed? {
      var c, n := NextCommand(s, lim).value, NextCommand(s, lim).used;
      NextCommandExtends(s, t, lim);
      assert (s + t)[..n] == s[..n];
      assert (s + t)[n..] == s[n..] + t;
      DrainStep(s, lim, live);
      DrainStep(s + t, lim, live);
      if !(live && IsTerminal(c)) {
        DrainExtends(s[n..], t, lim, live);
        var d := Drain(s[n..], lim, live);
        var more := Drain(d.rest + t, lim, live);
        assert [Request(c, s[..n])] + (d.requests + more.requests)
            == ([Request(c, s[..n])] + d.requests) + more.requests;
      }
    } else if NextCommand(s, lim).Malformed? {
      NextCommandExtends(s, t, lim);
      DrainStops(s, lim, live);
      DrainStops(s + t, lim, live);
    } else {
      DrainStops(s, lim, live);
      var whole := Drain(s + t, lim, live);
      assert [] + whole.requests == whole.requests;
    }
  }

  /** Frames written one after another are read back as the same frames. */
  lemma {:induction false} DrainFrames(rs: seq<Request>, tail: bytes, lim: Limits)
    requires forall i :: 0 <= i < |rs| ==> StandsAlone(rs[i], lim)
    ensures Drain(Concat(Raws(rs)) + tail, lim, false) == Before(rs, Drain(tail, lim, false))
  {
    hide NextCommand, Drain, Concat, Raws;
    var d := Drain(tail, lim, false);
    if rs == [] {
      EmptyLog();
      assert [] + tail == tail;
      assert rs + d.requests == d.requests;
    } else {
      var f := rs[0].raw;
      var more := Concat(Raws(rs[1..])) + tail;
      RawsOf(rs[0], rs[1..]);
      assert rs == [rs[0]] + rs[1..];
      assert Concat(Raws(rs)) + tail == f + more;
      NextCommandExtends(f, more, lim);
      DrainStep(f + more, lim, false);
      assert (f + more)[..|f|] == f && (f + more)[|f|..] == more;
      DrainFrames(rs[1..], tail, lim);
      assert [rs[0]] + (rs[1..] + d.requests) == rs + d.requests;
    }
  }

  // ------------------------------------------------------ chunk by chunk

  datatype Status = Open | Closed | ProtocolError | Overflowed

  /** One connection (or one replay): what it dispatched, what it still buffers, how it stands. */
  datatype Conn = Conn(dispatched: seq<Request>, buffer: bytes, status: Status)

  const FRESH := Conn([], [], Open)

  function StatusOf(e: Ending): Status {
    match e
    case Waiting => Open
    case Quit => Closed
    case Failed => ProtocolError
  }

  /** One read: refuse to outgrow the buffer, else drain what is now buffered. */
  function Feed(c: Conn, chunk: bytes, lim: Limits, live: bool): Conn {
    if !c.status.Open? then c
    else if |c.buffer| + |chunk| > lim.maxBuffer then c.(status := Overflowed)
    else
      var d := Drain(c.buffer + chunk, lim, live);
      Conn(c.dispatched + d.requests, d.rest, StatusOf(d.ending))
  }

  function FeedAll(chunks: seq<bytes>, lim: Limits, live: bool): Conn {
    if chunks == [] then FRESH
    else Feed(FeedAll(chunks[..|chunks| - 1], lim, live), chunks[|chunks| - 1], lim, live)
  }

  /** The reads that were taken: all up to the one that ended it, an overflowing one aside. */
  function Accepted(chunks: seq<bytes>, lim: Limits, live: bool): seq<bytes> {
    if chunks == [] then []
    else
      var before := FeedAll(chunks[..|chunks| - 1], lim, live);
      var last := chunks[|chunks| - 1];
      Accepted(chunks[..|chunks| - 1], lim, live)
      + if Takes(before, last, lim) then [last] else []
  }

  /**
   * Byte conservation over a whole connection, however it stands: the frames
   * dispatched and what is buffered are the bytes accepted, the buffer never
   * exceeds its cap, and only an ended connection has not accepted every read.
   */
  lemma {:induction false} FeedAllConserves(chunks: seq<bytes>, lim: Limits, live: bool)
    ensures var c := FeedAll(chunks, lim, live);
            && Concat(Raws(c.dispatched)) + c.buffer == Concat(Accepted(chunks, lim, live))
            && |c.buffer| <= lim.maxBuffer
            && Accepted(chunks, lim, live) <= chunks
            && (c.status.Open? ==> Accepted(chunks, lim, live) == chunks)
            && forall r :: r in c.dispatched ==> StandsAlone(r, lim)
  {
    hide Feed, StandsAlone, Concat, Raws;
    if chunks == [] {
      EmptyLog();
    } else {
      var m := |chunks| - 1;
      var init, last := chunks[..m], chunks[m];
      assert chunks == init + [last];
      FeedAllConserves(init, lim, live);
      FeedConserves(FeedAll(init, lim, live), last, lim, live);
      var taken := Accepted(init, lim, live);
      ConcatSnoc(taken, last);
      assert taken + [] == taken && Concat(taken) + [] == Concat(taken);
    }
  }

  predicate Takes(c: Conn, chunk: bytes, lim: Limits) {
    c.status.Open? && |c.buffer| + |chunk| <= lim.maxBuffer
  }

  lemma FeedConserves(c: Conn, chunk: bytes, lim: Limits, live: bool)
    requires |c.buffer| <= lim.maxBuffer && forall r :: r in c.dispatched ==> StandsAlone(r, lim)
    ensures var n := Feed(c, chunk, lim, live);
            && Concat(Raws(n.dispatched)) + n.buffer
               == Concat(Raws(c.dispatched)) + c.buffer + (if Takes(c, chunk, lim) then chunk else [])
            && |n.buffer| <= lim.maxBuffer && (n.status.Open? ==> Takes(c, chunk, lim))
            && forall r :: r in n.dispatched ==> StandsAlone(r, lim)
  {
    hide Drain, StandsAlone, Concat, Raws;
    var sofar := Concat(Raws(c.dispatched)) + c.buffer;
    assert sofar + [] == sofar;
    if Takes(c, chunk, lim) {
      var d := Drain(c.buffer + chunk, lim, live);
      DrainConserves(c.buffer + chunk, lim, live);
      DrainedStandAlone(c.buffer + chunk, lim, live);
      RawsSplit(c.dispatched, d.requests);
      assert Concat(Raws(c.dispatched)) + (Concat(Raws(d.requests)) + d.rest) == sofar + chunk;
    }
  }

  lemma RawsSplit(a: seq<Request>, b: seq<Request>)
    ensures Concat(Raws(a + b)) == Concat(Raws(a)) + Concat(Raws(b))
  {
    assert Raws(a + b) == Raws(a) + Raws(b);
    ConcatSplit(Raws(a), Raws(b));
  }

  /** The read that would outgrow the buffer: every byte before it left the connection open. */
  ghost predicate Trips(chunks: seq<bytes>, k: int, lim: Limits, live: bool) {
    0 <= k < |chunks|
    && var d := Drain(Concat(chunks[..k]), lim, live);
       d.ending.Waiting? && |d.rest| + |chunks[k]| > lim.maxBuffer
  }

  lemma EmptyDrain(lim: Limits, live: bool)
    ensures Drain([], lim, live) == Drained([], [], Waiting)
  {
    assert NextCommand([], lim).Incomplete?;
  }

  /**
   * The state after any chunking is the state after the whole stream at once,
   * unless a read outgrew the buffer; and it did exactly when some `Trips` read
   * exists.
   */
  lemma {:induction false} FeedAllIsDrain(chunks: seq<bytes>, lim: Limits, live: bool)
    ensures var c := FeedAll(chunks, lim, live);
            var d := Drain(Concat(chunks), lim, live);
            && (c.status.Overflowed? <==> exists k :: Trips(chunks, k, lim, live))
            && (!c.status.Overflowed? ==> c.dispatched == d.requests && c.status == StatusOf(d.ending))
            && (c.status.Open? ==> c.buffer == d.rest && |c.buffer| <= lim.maxBuffer)
  {
    hide NextCommand;
    if chunks == [] {
      EmptyDrain(lim, live);
    } else {
      var m := |chunks| - 1;
      var init, last := chunks[..m], chunks[m];
      assert chunks == init + [last];
      ConcatSnoc(init, last);
      FeedAllIsDrain(init, lim, live);
      var before := FeedAll(init, lim, live);
      var d := Drain(Concat(init), lim, live);
      DrainExtends(Concat(init), last, lim, live);
      TripsLast(chunks, lim, live);
      if before.status.Open? {
        DrainShrinks(before.buffer + last, lim, live);
      }
    }
  }

  lemma TripsLast(chunks: seq<bytes>, lim: Limits, live: bool)
    requires chunks != []
    ensures var m := |chunks| - 1;
            (exists k :: Trips(chunks, k, lim, live))
            <==> (exists k :: Trips(chunks[..m], k, lim, live)) || Trips(chunks, m, lim, live)
  {
    var m := |chunks| - 1;
    forall k | 0 <= k < m
      ensures Trips(chunks, k, lim, live) <==> Trips(chunks[..m], k, lim, live)
    {
      assert chunks[..m][..k] == chunks[..k];
    }
  }

  lemma DrainShrinks(s: bytes, lim: Limits, live: bool)
    ensures |Drain(s, lim, live).rest| <= |s|
  {
    DrainConserves(s, lim, live);
  }

  /**
   * Chunk invariance: two splittings of one byte stream, neither outgrowing the
   * buffer, dispatch the same requests and end in the same way.
   */
  lemma ChunkInvariance(a: seq<bytes>, b: seq<bytes>, lim: Limits, live: bool)
    requires Concat(a) == Concat(b)
    requires !FeedAll(a, lim, live).status.Overflowed? && !FeedAll(b, lim, live).status.Overflowed?
    ensures FeedAll(a, lim, live).dispatched == FeedAll(b, lim, live).dispatched
    ensures FeedAll(a, lim, live).status == FeedAll(b, lim, live).status
    ensures FeedAll(a, lim, live).status.Open? ==> FeedAll(a, lim, live).buffer == FeedAll(b, lim, live).buffer
  {
    FeedAllIsDrain(a, lim, live);
    FeedAllIsDrain(b, lim, live);
  }

  /** A status other than open is final: no later read is looked at. */
  lemma {:induction false} EndingIsFinal(chunks: seq<bytes>, more: seq<bytes>, lim: Limits, live: bool)
    requires !FeedAll(chunks, lim, live).status.Open?
    ensures FeedAll(chunks + more, lim, live) == FeedAll(chunks, lim, live)
    decreases |more|
  {
    if more == [] {
      assert chunks + more == chunks;
    } else {
      var m := |more| - 1;
      assert (chunks + more)[..|chunks + more| - 1] == chunks + more[..m];
      EndingIsFinal(chunks, more[..m], lim, live);
    }
  }

  lemma {:induction false} DrainEnds(s: bytes, lim: Limits, live: bool)
    ensures var d := Drain(s, lim, live);
            && (d.ending.Waiting? ==> NextCommand(d.rest, lim).Incomplete?)
            && (d.ending.Failed? ==> NextCommand(d.rest, lim).Malformed?)
    decreases |s|
  {
    hide NextCommand, Drain;
    if NextCommand(s, lim).Parsed? {
      DrainStep(s, lim, live);
      var r := NextCommand(s, lim);
      if !(live && IsTerminal(r.value)) {
        DrainEnds(s[r.used..], lim, live);
      }
    } else {
      DrainStops(s, lim, live);
    }
  }

  /** What the status of a connection says of the bytes it holds: it waits for more, or cannot read them. */
  lemma StatusMeans(chunks: seq<bytes>, lim: Limits, live: bool)
    ensures var c := FeedAll(chunks, lim, live);
            && (c.status.Open? ==> NextCommand(c.buffer, lim).Incomplete?)
            && (c.status.ProtocolError? ==> NextCommand(c.buffer, lim).Malformed?)
            && (c.status.Closed? ==> live)
  {
    hide NextCommand, Drain;
    if chunks == [] {
      EmptyDrain(lim, live);
      DrainEnds([], lim, live);
    } else {
      var before := FeedAll(chunks[..|chunks| - 1], lim, live);
      StatusMeans(chunks[..|chunks| - 1], lim, live);
      DrainEnds(before.buffer + chunks[|chunks| - 1], lim, live);
      OnlyLiveQuits(before.buffer + chunks[|chunks| - 1], lim);
    }
  }

  lemma {:induction false} OnlyLiveQuits(s: bytes, lim: Limits)
    ensures !Drain(s, lim, false).ending.Quit?
    decreases |s|
  {
    hide NextCommand;
    if NextCommand(s, lim).Parsed? {
      DrainStep(s, lim, false);
      OnlyLiveQuits(s[NextCommand(s, lim).used..], lim);
    }
  }

  // ------------------------------------------------------ crash recovery

  /** How many whole frames fit in the first `cut` bytes. */
  function WholeFrames(rs: seq<Request>, cut: nat): (k: nat)
    ensures k <= |rs|
  {
    if rs == [] || |rs[0].raw| > cut then 0
    else 1 + WholeFrames(rs[1..], cut - |rs[0].raw|)
  }

  /** `WholeFrames` is the largest prefix of the frames that the cut leaves intact. */
  lemma {:induction false} WholeFramesIsLargest(rs: seq<Request>, cut: nat)
    ensures var k := WholeFrames(rs, cut);
            |Concat(Raws(rs[..k]))| <= cut && (k < |rs| ==> |Concat(Raws(rs[..k + 1]))| > cut)
  {
    var k := WholeFrames(rs, cut);
    if rs != [] {
      var f := rs[0].raw;
      assert Raws(rs[..1]) == [f];
      ConcatOne(f);
      if k == 0 {
        assert Raws(rs[..0]) == [];
      } else {
        WholeFramesIsLargest(rs[1..], cut - |f|);
        assert Raws(rs[..k])[1..] == Raws(rs[1..][..k - 1]);
        assert k < |rs| ==> Raws(rs[..k + 1])[1..] == Raws(rs[1..][..k]);
      }
    } else {
      assert Raws(rs[..0]) == [];
    }
  }

  /** Draining a cut-off log yields the whole frames and waits for the rest of the torn one. */
  lemma {:induction false} DrainCut(rs: seq<Request>, cut: nat, lim: Limits)
    requires forall i :: 0 <= i < |rs| ==> StandsAlone(rs[i], lim)
    requires cut <= |Concat(Raws(rs))|
    ensures var k := WholeFrames(rs, cut);
            var d := Drain(Concat(Raws(rs))[..cut], lim, false);
            && d.requests == rs[..k] && d.ending.Waiting?
            && (d.rest != [] ==> k < |rs| && |d.rest| < |rs[k].raw|)
  {
    hide NextCommand, Drain, Concat, Raws;
    var log := Concat(Raws(rs));
    EmptyLog();
    if rs == [] {
      assert log[..cut] == [];
      EmptyDrain(lim, false);
    } else {
      var f := rs[0].raw;
      RawsOf(rs[0], rs[1..]);
      assert rs == [rs[0]] + rs[1..];
      if |f| > cut {
        assert log[..cut] == f[..cut];
        CutFrameWaits(f, cut, lim);
        DrainStops(f[..cut], lim, false);
      } else {
        var more := Concat(Raws(rs[1..]))[..cut - |f|];
        assert log[..cut] == f + more;
        NextCommandExtends(f, more, lim);
        DrainStep(f + more, lim, false);
        assert (f + more)[..|f|] == f && (f + more)[|f|..] == more;
        DrainCut(rs[1..], cut - |f|, lim);
        var k := WholeFrames(rs, cut);
        assert [rs[0]] + rs[1..][..k - 1] == rs[..k];
      }
    }
  }

  /** Bytes of the torn frame among the first `cut`. */
  function Torn(rs: seq<Request>, cut: nat): int {
    cut - |Concat(Raws(rs[..WholeFrames(rs, cut)]))|
  }

  /** Every read finds room beside what is torn when it arrives. */
  predicate ReplayFits(rs: seq<Request>, chunks: seq<bytes>, lim: Limits) {
    forall k :: 0 <= k < |chunks| ==> Torn(rs, |Concat(chunks[..k])|) + |chunks[k]| <= lim.maxBuffer
  }

  lemma {:induction false} ConcatPrefix(chunks: seq<bytes>, k: nat)
    requires k <= |chunks|
    ensures |Concat(chunks[..k])| <= |Concat(chunks)|
    ensures Concat(chunks)[..|Concat(chunks[..k])|] == Concat(chunks[..k])
  {
    assert chunks == chunks[..k] + chunks[k..];
    ConcatSplit(chunks[..k], chunks[k..]);
  }

  lemma TripsIff(rs: seq<Request>, cut: nat, chunks: seq<bytes>, lim: Limits, k: nat)
    requires forall i :: 0 <= i < |rs| ==> StandsAlone(rs[i], lim)
    requires cut <= |Concat(Raws(rs))| && Concat(chunks) == Concat(Raws(rs))[..cut] && k < |chunks|
    ensures Trips(chunks, k, lim, false) <==> Torn(rs, |Concat(chunks[..k])|) + |chunks[k]| > lim.maxBuffer
  {
    hide Drain, StandsAlone, Concat, Raws, WholeFrames;
    var log := Concat(Raws(rs));
    ConcatPrefix(chunks, k);
    var seen := |Concat(chunks[..k])|;
    assert log[..cut][..seen] == log[..seen];
    DrainCut(rs, seen, lim);
    DrainConserves(log[..seen], lim, false);
  }

  lemma EmptyLog()
    ensures Concat(Raws([])) == [] && Concat([]) == []
  {
  }

  /**
   * Crash truncation: whatever byte the log is cut at and however it is read
   * back, replay runs exactly the whole frames before the cut, in order, and
   * ends waiting, not failed, if and only if every read finds room.
   */
  lemma CrashTruncation(rs: seq<Request>, cut: nat, chunks: seq<bytes>, lim: Limits)
    requires forall i :: 0 <= i < |rs| ==> StandsAlone(rs[i], lim)
    requires cut <= |Concat(Raws(rs))| && Concat(chunks) == Concat(Raws(rs))[..cut]
    ensures var c := FeedAll(chunks, lim, false);
            && (c.status.Open? <==> ReplayFits(rs, chunks, lim))
            && (c.status.Open? ==> c.dispatched == rs[..WholeFrames(rs, cut)])
  {
    hide Drain, StandsAlone, Trips, Torn;
    FeedAllIsDrain(chunks, lim, false);
    DrainCut(rs, cut, lim);
    forall k | 0 <= k < |chunks|
      ensures Trips(chunks, k, lim, false) <==> Torn(rs, |Concat(chunks[..k])|) + |chunks[k]| > lim.maxBuffer
    {
      TripsIff(rs, cut, chunks, lim, k);
    }
    TripsAreReads(chunks, lim);
  }

  /** The same for any bytes that drain without an error, a torn frame at their end included. */
  lemma TornTrips(log: bytes, chunks: seq<bytes>, lim: Limits, k: nat)
    requires Drain(log, lim, false).ending.Waiting? && Concat(chunks) == log && k < |chunks|
    ensures var rs := Drain(log, lim, false).requests;
            Trips(chunks, k, lim, false) <==> Torn(rs, |Concat(chunks[..k])|) + |chunks[k]| > lim.maxBuffer
  {
    hide Drain, Concat, Raws, WholeFrames;
    ConcatPrefix(chunks, k);
    DrainPrefix(log, |Concat(chunks[..k])|, lim);
  }

  /** Draining the first bytes of a log that drains without an error. */
  lemma DrainPrefix(log: bytes, cut: nat, lim: Limits)
    requires Drain(log, lim, false).ending.Waiting? && cut <= |log|
    ensures var rs := Drain(log, lim, false).requests;
            var d := Drain(log[..cut], lim, false);
            d.ending.Waiting? && d.requests == rs[..WholeFrames(rs, cut)] && |d.rest| == Torn(rs, cut)
  {
    hide Drain, Concat, Raws, WholeFrames, StandsAlone;
    var d := Drain(log, lim, false);
    var rs := d.requests;
    var whole := Concat(Raws(rs));
    DrainConserves(log, lim, false);
    DrainedStandAlone(log, lim, false);
    DrainConserves(log[..cut], lim, false);
    if cut <= |whole| {
      assert log[..cut] == whole[..cut];
      DrainCut(rs, cut, lim);
    } else {
      var torn := d.rest[..cut - |whole|];
      assert log[..cut] == whole + torn;
      DrainFrames(rs, torn, lim);
      DrainFrames(rs, d.rest, lim);
      TornWaits(d.rest, torn, lim);
      AllFramesFitMore(rs, cut);
      assert rs[..|rs|] == rs;
    }
  }

  /** What waits for more bytes also waited with fewer. */
  lemma TornWaits(s: bytes, t: bytes, lim: Limits)
    requires Before([], Drain(s, lim, false)) == Drained([], s, Waiting) && t <= s
    ensures Drain(t, lim, false) == Drained([], t, Waiting)
  {
    hide NextCommand;
    assert s == t + s[|t|..];
    if !NextCommand(t, lim).Incomplete? {
      NextCommandExtends(t, s[|t|..], lim);
    }
  }

  lemma {:induction false} AllFramesFitMore(rs: seq<Request>, cut: nat)
    requires |Concat(Raws(rs))| <= cut
    ensures WholeFrames(rs, cut) == |rs|
  {
    if rs != [] {
      assert Raws(rs)[1..] == Raws(rs[1..]);
      AllFramesFitMore(rs[1..], cut - |rs[0].raw|);
    }
  }

  lemma TripsAreReads(chunks: seq<bytes>, lim: Limits)
    ensures forall k :: Trips(chunks, k, lim, false) ==> 0 <= k < |chunks|
  {
  }

  lemma {:induction false} AllFramesFit(rs: seq<Request>)
    ensures WholeFrames(rs, |Concat(Raws(rs))|) == |rs|
  {
    if rs != [] {
      assert Raws(rs)[1..] == Raws(rs[1..]);
      AllFramesFit(rs[1..]);
    }
  }

  /**
   * Restarting on a torn log: the file is reopened for append as it is, so frames
   * logged after the restart follow the torn bytes. The next recovery runs the
   * whole frames from before and all the later ones, in order and first of all,
   * exactly when the torn bytes followed by the later frames happen to begin with
   * those frames again.
   */
  lemma TornTail(rs: seq<Request>, cut: nat, later: seq<Request>, lim: Limits)
    requires forall i :: 0 <= i < |rs| ==> StandsAlone(rs[i], lim)
    requires forall i :: 0 <= i < |later| ==> StandsAlone(later[i], lim)
    requires cut <= |Concat(Raws(rs))|
    ensures var kept := rs[..WholeFrames(rs, cut)];
            var file := Concat(Raws(rs))[..cut];
            var torn := Drain(file, lim, false).rest;
            var added := Concat(Raws(later));
            && file == Concat(Raws(kept)) + torn
            && (kept + later <= Drain(file + added, lim, false).requests <==> added <= torn + added)
  {
    hide NextCommand, Drain, Concat, Raws, WholeFrames, StandsAlone;
    var kept := rs[..WholeFrames(rs, cut)];
    var log, added := Concat(Raws(rs)), Concat(Raws(later));
    var d := Drain(log[..cut], lim, false);
    DrainCut(rs, cut, lim);
    DrainConserves(log[..cut], lim, false);
    DrainExtends(log[..cut], added, lim, false);
    LaterFirst(d.rest, later, lim);
    var second := Drain(d.rest + added, lim, false).requests;
    assert kept + later <= kept + second <==> later <= second by {
      assert (kept + second)[|kept|..] == second;
      assert (kept + later)[|kept|..] == later;
      assert |later| <= |second| ==> (kept + second)[..|kept + later|] == kept + second[..|later|];
    }
  }

  lemma LaterFirst(torn: bytes, later: seq<Request>, lim: Limits)
    requires forall i :: 0 <= i < |later| ==> StandsAlone(later[i], lim)
    ensures var added := Concat(Raws(later));
            later <= Drain(torn + added, lim, false).requests <==> added <= torn + added
  {
    hide NextCommand, Drain, Concat, Raws, StandsAlone;
    var added := Concat(Raws(later));
    var all := torn + added;
    if added <= all {
      DrainFrames(later, all[|added|..], lim);
      assert added + all[|added|..] == all;
    }
    var rs := Drain(all, lim, false).requests;
    if later <= rs {
      DrainConserves(all, lim, false);
      assert rs == later + rs[|later|..];
      RawsSplit(later, rs[|later|..]);
    }
  }

  /** And it ends cleanly after them, with nothing more, exactly when nothing was torn. */
  lemma TornTailClean(rs: seq<Request>, cut: nat, later: seq<Request>, lim: Limits)
    requires forall i :: 0 <= i < |rs| ==> StandsAlone(rs[i], lim)
    requires forall i :: 0 <= i < |later| ==> StandsAlone(later[i], lim)
    requires cut <= |Concat(Raws(rs))|
    ensures var kept := rs[..WholeFrames(rs, cut)];
            Drain(Concat(Raws(rs))[..cut] + Concat(Raws(later)), lim, false) == Drained(kept + later, [], Waiting)
            <==> cut == |Concat(Raws(kept))|
  {
    hide NextCommand;
    var kept := rs[..WholeFrames(rs, cut)];
    var file := Concat(Raws(rs))[..cut];
    var d := Drain(file, lim, false);
    DrainCut(rs, cut, lim);
    DrainConserves(file, lim, false);
    DrainExtends(file, Concat(Raws(later)), lim, false);
    var second := Drain(d.rest + Concat(Raws(later)), lim, false);
    if d.rest == [] {
      assert d.rest + Concat(Raws(later)) == Concat(Raws(later)) + [];
      DrainFrames(later, [], lim);
      EmptyDrain(lim, false);
      assert later + [] == later;
    } else if second.requests == later && second.rest == [] {
      DrainConserves(d.rest + Concat(Raws(later)), lim, false);
      assert false;
    } else {
      assert (kept + second.requests)[|kept|..] == second.requests;
      assert (kept + later)[|kept|..] == later;
    }
  }
}
