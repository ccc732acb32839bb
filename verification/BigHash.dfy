/**
 * A hash too big to reload, reached by commands that are each recovered: the
 * rewrite puts all its fields into one frame, and recovery cannot hold it.
 */
module BigHash {
  import opened Bytes
  import opened Resp
  import opened Stream
  import opened ReplayRoom
  import opened Keyspace
  import opened Commands
  import opened Meaning
  import opened Refusals
  import opened Snapshot
  import opened Recovery
  import opened AofWriter
  import opened Session

  /** Two of these fit the buffer only one by one. */
  const BIG := 40 * 1024 * 1024

  function BigValue(): (v: bytes)
    ensures |v| == BIG && IsAscii(v)
  {
    seq(BIG, _ => 97)
  }

  lemma BigIsText()
    ensures IsUtf8(BigValue()) && IsUtf8([104]) && IsUtf8([97]) && IsUtf8([98])
  {
    hide IsUtf8, BigValue;
    AsciiIsUtf8(BigValue());
    AsciiIsUtf8([104]);
    AsciiIsUtf8([97]);
    AsciiIsUtf8([98]);
  }

  lemma BigDigits()
    ensures |Digits(BIG)| <= 8
  {
    assert TenTo(8) == 100_000_000 by {
      assert TenTo(2) == 100;
      assert TenTo(4) == 10_000;
      assert TenTo(6) == 1_000_000;
    }
    DigitsWithin(BIG, 8);
  }

  /** The request that sets one field of h to the big value. */
  function BigRequest(field: bytes): Request {
    RequestOf([HSET_NAME, [104], field, BigValue()])
  }

  lemma BigStands(field: bytes)
    requires |field| == 1
    ensures StandsAlone(BigRequest(field), DEFAULT_LIMITS)
  {
    hide StandsAlone, BigValue, FrameOf, CommandFrom, IsUtf8;
    RewriteNamesAreText();
    FrameStands([HSET_NAME, [104], field, BigValue()], DEFAULT_LIMITS);
  }

  lemma BigLength(parts: seq<bytes>)
    requires |parts| == 4 && |parts[0]| == 4 && |parts[1]| == 1 && |parts[2]| == 1 && |parts[3]| == BIG
    ensures BIG < |FrameOf(parts)| <= BIG + 100
  {
    hide Digits, FrameOf, PartsSize;
    FrameLength(parts);
    FourSize(parts);
    DigitsWithin(4, 1);
    DigitsWithin(1, 1);
    BigDigits();
  }

  lemma BigFrame(field: bytes)
    requires |field| == 1
    ensures StandsAlone(BigRequest(field), DEFAULT_LIMITS) && BIG < |BigRequest(field).raw| <= BIG + 100
  {
    hide StandsAlone, BigValue, FrameOf, CommandFrom;
    BigStands(field);
    BigLength([HSET_NAME, [104], field, BigValue()]);
  }

  lemma FieldSetCommand(key: Key, field: bytes, value: bytes)
    ensures var c := CommandFrom([HSET_NAME, key, field, value]);
            && c.args == [key, field, value] && Lookup(c.name) == HSET && TtlFree(c)
  {
    var parts: seq<bytes> := [HSET_NAME, key, field, value];
    HsetIsTtlFree(parts);
    NamesFound();
    hide Lookup, UpperName, TtlFree;
    assert parts[1..] == [key, field, value];
  }

  lemma FieldSetRuns(c: Command, ks: Keys, at: Clock)
    requires Lookup(c.name) == HSET && |c.args| == 3 && forall i :: 0 <= i < 3 ==> IsUtf8(c.args[i])
    requires Fields(ks, c.args[0]).Ok?
    ensures Exec(c, ks, at).result.Done? && Exec(c, ks, at).keys == SetField(ks, c.args[0], c.args[1], c.args[2])
  {
    hide IsUtf8, Lookup, SetField, Exec, Fields, HsetLoop;
    assert Loops(c);
    ExecIsLoop(c, ks, at);
    HsetPair(c.args[0], c.args[1..], ks);
  }

  lemma BigHset(field: bytes, ks: Keys, at: Clock)
    requires IsUtf8(field) && IsUtf8([104]) && IsUtf8(BigValue()) && Fields(ks, [104]).Ok?
    ensures var c := BigRequest(field).command;
            && Lookup(c.name) == HSET && TtlFree(c)
            && Exec(c, ks, at).result.Done? && Exec(c, ks, at).keys == SetField(ks, [104], field, BigValue())
  {
    hide IsUtf8, Lookup, BigValue, SetField, TtlFree, Exec, Fields, FrameOf, CommandFrom;
    FieldSetCommand([104], field, BigValue());
    FieldSetRuns(BigRequest(field).command, ks, at);
  }

  lemma HsetPair(key: Key, pair: seq<bytes>, ks: Keys)
    requires |pair| == 2 && IsUtf8(pair[0]) && IsUtf8(pair[1]) && Fields(ks, key).Ok?
    ensures HsetLoop(key, pair, ks, 0).result.Done?
    ensures HsetLoop(key, pair, ks, 0).keys == SetField(ks, key, pair[0], pair[1])
  {
    hide IsUtf8, SetField, Fields;
    assert pair[2..] == [];
  }

  /** Serving it keeps an exact node exact while the log is short. */
  lemma BigServed(n: Node, field: bytes, at: Clock)
    requires |field| == 1 && IsUtf8(field) && Exact(n) && !Rewriting(n) && Fields(n.keys, [104]).Ok?
    requires forall i :: 0 <= i < |FramesIn(Pending(n))| ==> |FramesIn(Pending(n))[i]| <= BIG + 100
    ensures var n' := Next(n, Serve(BigRequest(field), at));
            && Steps(n, Serve(BigRequest(field), at), n', DEFAULT_LIMITS) && Exact(n') && !Rewriting(n')
            && n'.keys == SetField(n.keys, [104], field, BigValue())
            && forall i :: 0 <= i < |FramesIn(Pending(n'))| ==> |FramesIn(Pending(n'))[i]| <= BIG + 100
  {
    hide Exec, Lookup, TtlFree, StandsAlone, IsUtf8, SetField, Fields, BigRequest, BigValue, RecoversTo, Roomy,
        Drain, Reachable;
    var r := BigRequest(field);
    NothingExpires(n.keys, at.instant);
    BigIsText();
    BigFrame(field);
    BigHset(field, n.keys, at);
    var frames := FramesIn(Pending(n)) + [r.raw];
    ShortFramesHaveRoom(frames, 0, DEFAULT_LIMITS);
    LoggedIff(n, r, at, DEFAULT_LIMITS);
    LoggedFrames(n, r, at);
  }

  lemma LoggedFrames(n: Node, r: Request, at: Clock)
    requires Exact(n) && IsLogged(n, r, at) && StandsAlone(r, DEFAULT_LIMITS)
    ensures FramesIn(Pending(Next(n, Serve(r, at)))) == FramesIn(Pending(n)) + [r.raw]
  {
    hide Exec, Lookup, StandsAlone, RecoversTo, Drain, Reachable, Roomy;
    RecoversIff(Pending(n), n.keys);
    LoggedSplit(n.log, n.queue, [Record(r.raw)]);
    assert Logged(Pending(n), [Record(r.raw)]) == Pending(n) + r.raw;
    DrainAppend(Pending(n), r, DEFAULT_LIMITS);
  }

  lemma AfterRewrite(n: Node, snaps: seq<Snap>)
    requires forall i :: 0 <= i < |snaps| ==> WellOrdered(snaps[i])
    ensures Pending(Next(n, Rewrite(snaps))) == CompactFile(snaps)
  {
    hide CompactFile, WellOrdered;
    LoggedSplit(n.log, n.queue, [Swap(CompactFile(snaps))]);
    assert Logged(Pending(n), [Swap(CompactFile(snaps))]) == CompactFile(snaps);
  }

  lemma OneEntry(s: Snap)
    requires WellOrdered(s)
    ensures SnapshotParts([s]) == EntryParts(s)
  {
    hide EntryParts;
    var snaps := [s];
    assert snaps[..0] == [];
    assert SnapshotParts(snaps[..0]) == [];
  }

  /** The rewritten hash: one frame beyond the buffer, so no reading of the file runs anything. */
  lemma BigRewrite(n: Node, s: Snap)
    requires IsSnapshot([s], n.keys) && NoDeadlines(n.keys) && Reachable(n.keys)
    requires s.entry == Entry(Hash(map[[97] := BigValue(), [98] := BigValue()]), None) && s.order == [[97], [98]]
    ensures !Exact(Next(n, Rewrite([s])))
    ensures forall chunks :: Concat(chunks) == Pending(Next(n, Rewrite([s]))) ==>
              FeedAll(chunks, DEFAULT_LIMITS, false).dispatched == []
  {
    BigParts(s);
    hide Exact, Reachable, FrameOf, BigValue, FeedAll, EntryParts, SnapshotParts, WellOrdered, IsSnapshot, Next,
        Replayable, Pending;
    OneEntry(s);
    assert [s][0] == s;
    AfterRewrite(n, [s]);
    RewriteExactIff(n, [s]);
    NotReplayable(EntryParts(s));
    forall chunks | Concat(chunks) == Pending(Next(n, Rewrite([s])))
      ensures FeedAll(chunks, DEFAULT_LIMITS, false).dispatched == []
    {
      NothingRun(EntryParts(s), chunks);
    }
  }

  lemma BigParts(s: Snap)
    requires s.entry == Entry(Hash(map[[97] := BigValue(), [98] := BigValue()]), None) && s.order == [[97], [98]]
    ensures WellOrdered(s) && |EntryParts(s)| == 1 && IsRewriteCommand(EntryParts(s)[0])
    ensures |FrameOf(EntryParts(s)[0])| > DEFAULT_LIMITS.maxBuffer
  {
    hide Digits, BigValue;
    var h := s.entry.value.fields;
    assert Enumerates(s.order, h);
    var rest := FieldParts(h, s.order);
    assert EntryParts(s) == [[HSET_NAME, s.key] + rest];
    FrameLength([HSET_NAME, s.key] + rest);
    PartsSizeSplit([HSET_NAME, s.key], rest);
    FieldPartsSize(h, s.order);
    var one: seq<bytes> := [[98]];
    assert s.order[1..] == one && one[1..] == [];
    assert FieldsSize(h, one) == PartSize([98]) + PartSize(BigValue()) + FieldsSize(h, one[1..]);
    assert FieldsSize(h, s.order) == PartSize([97]) + PartSize(BigValue()) + FieldsSize(h, one);
  }

  lemma NotReplayable(parts: seq<seq<bytes>>)
    requires |parts| == 1 && |FrameOf(parts[0])| > DEFAULT_LIMITS.maxBuffer
    ensures !Replayable(parts)
  {
    hide FrameOf, FrameFits;
    var frames := Frames(parts);
    assert Needs(frames[0], |Concat(frames[0 + 1..])| + 0) > DEFAULT_LIMITS.maxBuffer;
  }

  lemma NothingRun(parts: seq<seq<bytes>>, chunks: seq<bytes>)
    requires |parts| == 1 && IsRewriteCommand(parts[0]) && |FrameOf(parts[0])| > DEFAULT_LIMITS.maxBuffer
    requires Concat(chunks) == Concat(Frames(parts))
    ensures FeedAll(chunks, DEFAULT_LIMITS, false).dispatched == []
  {
    hide FrameOf, FeedAll, Drain, FrameFits, StandsAlone, Concat, IsUtf8;
    RewriteNamesAreText();
    var frame := FrameOf(parts[0]);
    assert Frames(parts) == [frame];
    ConcatOne(frame);
    if FrameFits(parts[0], DEFAULT_LIMITS) {
      var r := RequestOf(parts[0]);
      FrameStands(parts[0], DEFAULT_LIMITS);
      assert Raws([r]) == [frame];
      assert frame + [] == frame;
      LongFrameBlocks([r], [], chunks, DEFAULT_LIMITS, 0);
    } else {
      RefusedAtOnce(parts[0]);
      DispatchedFit(chunks, DEFAULT_LIMITS, false);
    }
  }

  lemma RefusedAtOnce(parts: seq<bytes>)
    requires IsRewriteCommand(parts) && IsUtf8(parts[0]) && !FrameFits(parts, DEFAULT_LIMITS)
    ensures Drain(FrameOf(parts), DEFAULT_LIMITS, false).requests == []
  {
    hide FrameOf, FrameFits, NextCommand, IsUtf8;
    FrameDecodes(parts, [], DEFAULT_LIMITS);
    assert FrameOf(parts) + [] == FrameOf(parts);
    DrainStops(FrameOf(parts), DEFAULT_LIMITS, false);
  }

  /**
   * Two fields of 40 MiB, set one by one, are recovered; after a rewrite, which
   * puts them into one frame, no reading of the log brings anything back.
   */
  lemma BigHashLost(at: Clock) returns (nodes: seq<Node>, acts: seq<Act>)
    ensures IsRun(nodes, acts, DEFAULT_LIMITS) && |acts| == 3
    ensures Exact(nodes[2]) && nodes[2].keys != map[] && nodes[3].keys == nodes[2].keys && !Exact(nodes[3])
    ensures forall chunks :: Concat(chunks) == Pending(nodes[3]) ==>
              FeedAll(chunks, DEFAULT_LIMITS, false).dispatched == []
  {
    hide Exact, Rewriting, Next, Steps, BigRequest, BigValue, FramesIn, Pending, FeedAll, Reachable, IsUtf8;
    BigIsText();
    StartIsExact();
    NothingLogged();
    NotRewritingAtStart();
    var a, b: bytes := [97], [98];
    BigServed(START, a, at);
    var n1 := Next(START, Serve(BigRequest(a), at));
    BigServed(n1, b, at);
    var n2 := Next(n1, Serve(BigRequest(b), at));
    var h := map[a := BigValue(), b := BigValue()];
    assert n2.keys == map[[104] := Entry(Hash(h), None)];
    var snap := Snap([104], Entry(Hash(h), None), [a, b], at);
    assert WellOrdered(snap) && [snap][0].key == [104];
    ExactMeans(n2);
    assert IsSnapshot([snap], n2.keys);
    BigRewrite(n2, snap);
    var n3 := Next(n2, Rewrite([snap]));
    RewriteStep(n2, [snap]);
    nodes := [START, n1, n2, n3];
    acts := [Serve(BigRequest(a), at), Serve(BigRequest(b), at), Rewrite([snap])];
  }

  lemma NotRewritingAtStart()
    ensures !Rewriting(START)
  {
  }

  lemma ExactMeans(n: Node)
    requires Exact(n)
    ensures NoDeadlines(n.keys) && Reachable(n.keys)
  {
  }

  lemma RewriteStep(n: Node, snaps: seq<Snap>)
    requires !Rewriting(n) && IsSnapshot(snaps, n.keys)
    ensures Steps(n, Rewrite(snaps), Next(n, Rewrite(snaps)), DEFAULT_LIMITS) && Next(n, Rewrite(snaps)).keys == n.keys
  {
    hide CompactFile;
  }
}
