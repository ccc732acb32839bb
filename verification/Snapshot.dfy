/**
 * The rewriter: a snapshot of the store compiled into command frames, and what
 * replaying those frames into an empty store gives.
 */
module Snapshot {
  import opened Bytes
  import opened Resp
  import opened Stream
  import opened Keyspace
  import opened Commands
  import opened Codec

  const SET_NAME: bytes := [83, 69, 84]
  const HSET_NAME: bytes := [72, 83, 69, 84]
  const PEXPIREAT_NAME: bytes := [80, 69, 88, 80, 73, 82, 69, 65, 84]

  // -------------------------------------------------------------- frames

  function Bulks(parts: seq<bytes>): seq<Response> {
    if parts == [] then [] else [Bulk(Some(parts[0]))] + Bulks(parts[1..])
  }

  /** A command and its arguments as one wire frame. */
  function FrameOf(parts: seq<bytes>): bytes {
    Encode(List(Bulks(parts)))
  }

  function CommandFrom(parts: seq<bytes>): Command
    requires parts != []
  {
    Command(UpperName(parts[0]), parts[1..])
  }

  function RequestOf(parts: seq<bytes>): Request
    requires parts != []
  {
    Request(CommandFrom(parts), FrameOf(parts))
  }

  predicate FrameFits(parts: seq<bytes>, lim: Limits) {
    |parts| <= lim.maxArray && |parts| <= I32_MAX
    && forall i :: 0 <= i < |parts| ==> |parts[i]| <= lim.maxBulk && |parts[i]| <= I32_MAX
  }

  lemma {:induction false} BulksSeen(parts: seq<bytes>)
    ensures |Bulks(parts)| == |parts| && |SeenAll(Bulks(parts))| == |parts|
    ensures forall i :: 0 <= i < |parts| ==> Bulks(parts)[i] == Bulk(Some(parts[i]))
    ensures forall i :: 0 <= i < |parts| ==> SeenAll(Bulks(parts))[i] == BulkString(Some(parts[i]))
  {
    if parts != [] {
      BulksSeen(parts[1..]);
      assert Bulks(parts)[1..] == Bulks(parts[1..]);
    }
  }

  lemma {:induction false} BulksRefused(parts: seq<bytes>, bad: nat, rest: bytes, lim: Limits)
    requires bad < |parts| && !(|parts[bad]| <= lim.maxBulk && |parts[bad]| <= I32_MAX)
    ensures ParseElements(EncodeAll(Bulks(parts)) + rest, |parts|, lim).Malformed?
    decreases bad
  {
    hide ParseValue, Encode;
    var first := Bulk(Some(parts[0]));
    var tail := EncodeAll(Bulks(parts[1..])) + rest;
    assert Bulks(parts)[1..] == Bulks(parts[1..]);
    assert EncodeAll(Bulks(parts)) + rest == Encode(first) + tail;
    BulkRoundTrip(parts[0], tail, lim);
    if |parts[0]| <= lim.maxBulk && |parts[0]| <= I32_MAX {
      assert (Encode(first) + tail)[|Encode(first)|..] == tail;
      BulksRefused(parts[1..], bad - 1, rest, lim);
    }
  }

  /**
   * A frame is read back as its command exactly when its parts fit the reader's
   * limits; otherwise the reader refuses the stream at this frame.
   */
  lemma FrameDecodes(parts: seq<bytes>, rest: bytes, lim: Limits)
    requires parts != [] && IsUtf8(parts[0])
    ensures FrameFits(parts, lim) ==>
            NextCommand(FrameOf(parts) + rest, lim) == Parsed(CommandFrom(parts), |FrameOf(parts)|)
    ensures !FrameFits(parts, lim) ==> NextCommand(FrameOf(parts) + rest, lim).Malformed?
  {
    hide ParseValue, Encode, ParseElements;
    var vs := Bulks(parts);
    BulksSeen(parts);
    if FrameFits(parts, lim) {
      RoundTrip(List(vs), rest, lim);
      var seen := SeenAll(vs);
      assert forall i :: 0 <= i < |seen| ==> Argument(seen[i]) == Some(parts[i]);
      assert Arguments(seen).value == parts;
    } else {
      ListHead(vs, rest, lim);
      if |parts| <= lim.maxArray && |parts| <= I32_MAX {
        var bad :| 0 <= bad < |parts| && !(|parts[bad]| <= lim.maxBulk && |parts[bad]| <= I32_MAX);
        BulksRefused(parts, bad, rest, lim);
      }
    }
  }

  lemma FrameStands(parts: seq<bytes>, lim: Limits)
    requires parts != [] && IsUtf8(parts[0])
    ensures StandsAlone(RequestOf(parts), lim) <==> FrameFits(parts, lim)
  {
    hide NextCommand, FrameOf;
    FrameDecodes(parts, [], lim);
    assert FrameOf(parts) + [] == FrameOf(parts);
  }

  /**
   * Torn bytes may happen to be completed by what is logged after them: SET k *3
   * cut after 24 bytes and logged again is recovered, though the cut fell inside it.
   */
  lemma TornAndCompleted()
    ensures var r := RequestOf([SET_NAME, [107], [42, 51]]);
            && StandsAlone(r, DEFAULT_LIMITS) && 24 < |r.raw|
            && [r] <= Drain(r.raw[..24] + r.raw, DEFAULT_LIMITS, false).requests
  {
    var r := RequestOf([SET_NAME, [107], [42, 51]]);
    SetFrame();
    assert r.raw <= r.raw[..24] + r.raw;
    hide Encode, FrameOf;
    AsciiIsUtf8(SET_NAME);
    FrameStands([SET_NAME, [107], [42, 51]], DEFAULT_LIMITS);
    assert Raws([r]) == [r.raw];
    ConcatOne(r.raw);
    LaterFirst(r.raw[..24], [r], DEFAULT_LIMITS);
  }

  lemma ShortBulk(b: bytes)
    requires |b| < 10
    ensures Encode(Bulk(Some(b))) == [36, 48 + |b|, 13, 10] + b + [13, 10]
  {
    assert Digits(|b|) == [48 + |b|];
  }

  lemma ThreeEncoded(a: bytes, b: bytes, c: bytes)
    ensures FrameOf([a, b, c])
            == [42, 51, 13, 10] + Encode(Bulk(Some(a))) + Encode(Bulk(Some(b))) + Encode(Bulk(Some(c)))
  {
    ThreeBulks(a, b, c);
    var z := [Bulk(Some(c))];
    var yz := [Bulk(Some(b))] + z;
    var xyz := [Bulk(Some(a))] + yz;
    assert Digits(3) == [51];
    assert Encode(List(xyz)) == [42] + [51] + CRLF + EncodeAll(xyz);
    hide Digits;
    assert z[1..] == [] && yz[1..] == z && xyz[1..] == yz;
    assert EncodeAll(z) == Encode(z[0]) + EncodeAll(z[1..]);
    assert EncodeAll(yz) == Encode(yz[0]) + EncodeAll(yz[1..]);
    assert EncodeAll(xyz) == Encode(xyz[0]) + EncodeAll(xyz[1..]);
    assert Bulks([a, b, c]) == xyz;
  }

  lemma SetFrame()
    ensures FrameOf([SET_NAME, [107], [42, 51]])
            == [42, 51, 13, 10] + [36, 51, 13, 10, 83, 69, 84, 13, 10] + [36, 49, 13, 10, 107, 13, 10]
               + [36, 50, 13, 10, 42, 51, 13, 10]
  {
    hide FrameOf, Encode;
    ThreeEncoded(SET_NAME, [107], [42, 51]);
    ShortBulk(SET_NAME);
    ShortBulk([107]);
    ShortBulk([42, 51]);
  }

  // --------------------------------------------------------- frame lengths

  /** Bytes of one part on the wire: marker, length line, the part, line end. */
  function PartSize(part: bytes): nat {
    5 + |Digits(|part|)| + |part|
  }

  function PartsSize(parts: seq<bytes>): nat {
    if parts == [] then 0 else PartSize(parts[0]) + PartsSize(parts[1..])
  }

  function FrameSize(parts: seq<bytes>): nat {
    3 + |Digits(|parts|)| + PartsSize(parts)
  }

  lemma {:induction false} BulksSize(parts: seq<bytes>)
    ensures |EncodeAll(Bulks(parts))| == PartsSize(parts)
  {
    hide Digits;
    if parts != [] {
      BulksSize(parts[1..]);
      assert Bulks(parts)[1..] == Bulks(parts[1..]);
    }
  }

  lemma FrameLength(parts: seq<bytes>)
    ensures |FrameOf(parts)| == FrameSize(parts)
  {
    hide Digits, Bulks, EncodeAll;
    BulksSize(parts);
    assert |Bulks(parts)| == |parts| by { BulksSeen(parts); }
  }

  lemma {:induction false} PartsSizeSplit(a: seq<bytes>, b: seq<bytes>)
    ensures PartsSize(a + b) == PartsSize(a) + PartsSize(b)
  {
    hide PartSize;
    if a == [] {
      assert a + b == b;
    } else {
      assert (a + b)[1..] == a[1..] + b;
      PartsSizeSplit(a[1..], b);
    }
  }

  // ------------------------------------------------------------ snapshot

  /** One snapshot entry as it is encoded: its fields in table order, and the clock then. */
  datatype Snap = Snap(key: Key, entry: Entry, order: seq<bytes>, at: Clock)

  function FieldParts(h: map<bytes, bytes>, order: seq<bytes>): (r: seq<bytes>)
    requires forall f :: f in order ==> f in h
    ensures |r| == 2 * |order|
  {
    if order == [] then [] else [order[0], h[order[0]]] + FieldParts(h, order[1..])
  }

  /** Every field, once, in some order. */
  predicate Enumerates(order: seq<bytes>, h: map<bytes, bytes>) {
    && (forall f :: f in order ==> f in h) && (forall f :: f in h ==> f in order)
    && (forall i, j :: 0 <= i < j < |order| ==> order[i] != order[j])
  }

  lemma {:induction false} EnumeratesAll(order: seq<bytes>, h: map<bytes, bytes>)
    requires Enumerates(order, h)
    ensures |order| == |h|
  {
    DistinctSize(order, h.Keys);
  }

  lemma {:induction false} DistinctSize(order: seq<bytes>, all: set<bytes>)
    requires forall f :: f in order <==> f in all
    requires forall i, j :: 0 <= i < j < |order| ==> order[i] != order[j]
    ensures |order| == |all|
    decreases |order|
  {
    if order == [] {
      assert all == {};
    } else {
      var m := |order| - 1;
      assert order == order[..m] + [order[m]];
      DistinctSize(order[..m], all - {order[m]});
    }
  }

  predicate WellOrdered(s: Snap) {
    s.entry.value.Hash? ==> Enumerates(s.order, s.entry.value.fields)
  }

  /** A command the rewriter writes. */
  predicate IsRewriteCommand(parts: seq<bytes>) {
    parts != [] && (parts[0] == SET_NAME || parts[0] == HSET_NAME || parts[0] == PEXPIREAT_NAME)
  }

  /** The command that recreates a value; nothing for an empty hash or a list. */
  function ValueParts(s: Snap): (r: seq<seq<bytes>>)
    requires WellOrdered(s)
    ensures forall i :: 0 <= i < |r| ==> IsRewriteCommand(r[i])
  {
    match s.entry.value
    case Str(b) => [[SET_NAME, s.key, b]]
    case Int(i) => [[SET_NAME, s.key, Decimal(i)]]
    case Hash(h) => if h == map[] then [] else [[HSET_NAME, s.key] + FieldParts(h, s.order)]
    case Items(_) => []
  }

  /** Still ahead when its entry is encoded. */
  predicate Ahead(s: Snap) {
    s.entry.deadline.Some? && s.entry.deadline.value > s.at.instant
  }

  function Target(s: Snap): nat
    requires Ahead(s)
  {
    var ms := s.at.unixMs + (s.entry.deadline.value - s.at.instant) / MS;
    if ms > U64_MAX then U64_MAX else ms
  }

  function DeadlineParts(s: Snap): (r: seq<seq<bytes>>)
    ensures forall i :: 0 <= i < |r| ==> IsRewriteCommand(r[i])
  {
    if Ahead(s) then [[PEXPIREAT_NAME, s.key, Digits(Target(s))]] else []
  }

  function EntryParts(s: Snap): (r: seq<seq<bytes>>)
    requires WellOrdered(s)
    ensures forall i :: 0 <= i < |r| ==> IsRewriteCommand(r[i])
  {
    ValueParts(s) + DeadlineParts(s)
  }

  function SnapshotParts(snaps: seq<Snap>): (r: seq<seq<bytes>>)
    requires forall i :: 0 <= i < |snaps| ==> WellOrdered(snaps[i])
    ensures forall i :: 0 <= i < |r| ==> IsRewriteCommand(r[i])
  {
    if snaps == [] then []
    else SnapshotParts(snaps[..|snaps| - 1]) + EntryParts(snaps[|snaps| - 1])
  }

  predicate PartFits(part: bytes, lim: Limits) {
    |part| <= lim.maxBulk && |part| <= I32_MAX
  }

  lemma {:induction false} FieldPartsFit(h: map<bytes, bytes>, order: seq<bytes>, lim: Limits)
    requires forall f :: f in order ==> f in h
    ensures (forall i :: 0 <= i < |FieldParts(h, order)| ==> PartFits(FieldParts(h, order)[i], lim))
            <==> forall f :: f in order ==> PartFits(f, lim) && PartFits(h[f], lim)
    decreases |order|
  {
    hide PartFits;
    if order != [] {
      var first, rest := [order[0], h[order[0]]], FieldParts(h, order[1..]);
      var all := FieldParts(h, order);
      FieldPartsFit(h, order[1..], lim);
      assert all == first + rest;
      assert forall i :: 0 <= i < |rest| ==> all[i + 2] == rest[i];
      assert all[0] == order[0] && all[1] == h[order[0]];
      assert forall i :: 2 <= i < |all| ==> all[i] == rest[i - 2];
      assert forall f :: f in order <==> f == order[0] || f in order[1..];
    }
  }

  lemma PairSize(a: bytes, b: bytes)
    ensures PartsSize([a, b]) == PartSize(a) + PartSize(b)
  {
    hide PartSize;
    var two: seq<bytes> := [a, b];
    var one: seq<bytes> := [b];
    assert two[1..] == one && one[1..] == [];
    assert PartsSize(one) == PartSize(b) + PartsSize(one[1..]);
    assert PartsSize(two) == PartSize(a) + PartsSize(two[1..]);
  }

  /** What the fields of a hash and their values take on the wire. */
  function FieldsSize(h: map<bytes, bytes>, order: seq<bytes>): nat
    requires forall f :: f in order ==> f in h
  {
    if order == [] then 0 else PartSize(order[0]) + PartSize(h[order[0]]) + FieldsSize(h, order[1..])
  }

  lemma {:induction false} FieldPartsSize(h: map<bytes, bytes>, order: seq<bytes>)
    requires forall f :: f in order ==> f in h
    ensures PartsSize(FieldParts(h, order)) == FieldsSize(h, order)
    decreases |order|
  {
    hide PartSize;
    if order != [] {
      FieldPartsSize(h, order[1..]);
      var two: seq<bytes> := [order[0], h[order[0]]];
      PartsSizeSplit(two, FieldParts(h, order[1..]));
      PairSize(order[0], h[order[0]]);
    }
  }

  /** A frame its reader accepts and can hold. */
  predicate Loadable(parts: seq<bytes>, lim: Limits) {
    FrameFits(parts, lim) && |FrameOf(parts)| <= lim.maxBuffer
  }

  /**
   * A rewritten hash can be read back exactly when its key, fields and values fit,
   * it has at most half as many fields, less one, as an array may have elements,
   * and all of them together fit the buffer.
   */
  lemma HashFits(s: Snap, lim: Limits)
    requires WellOrdered(s) && s.entry.value.Hash? && s.entry.value.fields != map[]
    ensures var h := s.entry.value.fields;
            Loadable(ValueParts(s)[0], lim)
            <==> && 2 + 2 * |h| <= lim.maxArray && 2 + 2 * |h| <= I32_MAX
                 && PartFits(HSET_NAME, lim) && PartFits(s.key, lim)
                 && (forall f :: f in h ==> PartFits(f, lim) && PartFits(h[f], lim))
                 && 3 + |Digits(2 + 2 * |h|)| + PartSize(HSET_NAME) + PartSize(s.key) + FieldsSize(h, s.order)
                    <= lim.maxBuffer
  {
    hide FieldParts, PartSize, FrameOf, Digits, FieldsSize, PartFits, FrameFits;
    var h := s.entry.value.fields;
    EnumeratesAll(s.order, h);
    var rest := FieldParts(h, s.order);
    HashPartsFit(s.key, h, s.order, lim);
    FrameLength([HSET_NAME, s.key] + rest);
    FieldPartsSize(h, s.order);
    PartsSizeSplit([HSET_NAME, s.key], rest);
    PairSize(HSET_NAME, s.key);
  }

  lemma HashPartsFit(key: Key, h: map<bytes, bytes>, order: seq<bytes>, lim: Limits)
    requires Enumerates(order, h)
    ensures FrameFits([HSET_NAME, key] + FieldParts(h, order), lim)
            <==> && 2 + 2 * |order| <= lim.maxArray && 2 + 2 * |order| <= I32_MAX
                 && PartFits(HSET_NAME, lim) && PartFits(key, lim)
                 && forall f :: f in h ==> PartFits(f, lim) && PartFits(h[f], lim)
  {
    hide FieldParts;
    FieldPartsFit(h, order, lim);
    var rest := FieldParts(h, order);
    var parts := [HSET_NAME, key] + rest;
    assert forall i :: 0 <= i < |rest| ==> parts[i + 2] == rest[i];
    assert forall i :: 2 <= i < |parts| ==> parts[i] == rest[i - 2];
    assert FrameFits(parts, lim)
      <==> |parts| <= lim.maxArray && |parts| <= I32_MAX && forall i :: 0 <= i < |parts| ==> PartFits(parts[i], lim);
    hide PartFits;
    if forall i :: 0 <= i < |parts| ==> PartFits(parts[i], lim) {
      assert PartFits(parts[0], lim) && PartFits(parts[1], lim);
      forall i | 0 <= i < |rest|
        ensures PartFits(rest[i], lim)
      {
        assert PartFits(parts[i + 2], lim);
      }
    }
  }

  function Frames(parts: seq<seq<bytes>>): seq<bytes> {
    seq(|parts|, i requires 0 <= i < |parts| => FrameOf(parts[i]))
  }

  lemma FramesSplit(a: seq<seq<bytes>>, b: seq<seq<bytes>>)
    ensures Frames(a + b) == Frames(a) + Frames(b)
  {
  }

  lemma {:induction false} BulksAppend(a: seq<bytes>, b: seq<bytes>)
    ensures Bulks(a + b) == Bulks(a) + Bulks(b)
  {
    if a == [] {
      assert a + b == b;
    } else {
      assert (a + b)[1..] == a[1..] + b;
      BulksAppend(a[1..], b);
    }
  }

  lemma {:induction false} FieldPartsSnoc(h: map<bytes, bytes>, order: seq<bytes>, f: bytes)
    requires f in h && forall g :: g in order ==> g in h
    ensures FieldParts(h, order + [f]) == FieldParts(h, order) + [f, h[f]]
  {
    if order == [] {
      assert FieldParts(h, [f]) == [f, h[f]] + FieldParts(h, []);
    } else {
      assert (order + [f])[1..] == order[1..] + [f];
      FieldPartsSnoc(h, order[1..], f);
    }
  }

  lemma ThreeBulks(a: bytes, b: bytes, c: bytes)
    ensures Bulks([a, b, c]) == [Bulk(Some(a)), Bulk(Some(b)), Bulk(Some(c))]
  {
    BulksSeen([a, b, c]);
  }

  /** The variadic HSET of a hash. */
  method HashCommand(key: Key, h: map<bytes, bytes>, order: seq<bytes>) returns (parts: seq<Response>)
    requires Enumerates(order, h)
    ensures parts == Bulks([HSET_NAME, key] + FieldParts(h, order))
  {
    parts := [Bulk(Some(HSET_NAME)), Bulk(Some(key))];
    BulksSeen([HSET_NAME, key]);
    assert [HSET_NAME, key] + FieldParts(h, order[..0]) == [HSET_NAME, key];
    assert parts == Bulks([HSET_NAME, key]);
    for k := 0 to |order|
      invariant parts == Bulks([HSET_NAME, key] + FieldParts(h, order[..k]))
    {
      var f := order[k];
      ghost var sofar := [HSET_NAME, key] + FieldParts(h, order[..k]);
      FieldPartsSnoc(h, order[..k], f);
      assert order[..k] + [f] == order[..k + 1];
      BulksAppend(sofar, [f, h[f]]);
      BulksSeen([f, h[f]]);
      assert [HSET_NAME, key] + FieldParts(h, order[..k + 1]) == sofar + [f, h[f]];
      parts := parts + [Bulk(Some(f)), Bulk(Some(h[f]))];
    }
    assert order[..|order|] == order;
  }

  /** Render one entry, pushing its frames. */
  method EncodeSnapshotEntry(s: Snap, frames: seq<bytes>) returns (out: seq<bytes>)
    requires WellOrdered(s)
    ensures out == frames + Frames(EntryParts(s))
  {
    hide Encode, Bulks, Decimal, Digits, FieldParts;
    var codec := new RespCodec(DEFAULT_LIMITS);
    out := frames;
    match s.entry.value {
      case Str(b) =>
        ThreeBulks(SET_NAME, s.key, b);
        var frame := codec.Encode(List([Bulk(Some(SET_NAME)), Bulk(Some(s.key)), Bulk(Some(b))]));
        out := out + [frame];
      case Int(i) =>
        ThreeBulks(SET_NAME, s.key, Decimal(i));
        var frame := codec.Encode(List([Bulk(Some(SET_NAME)), Bulk(Some(s.key)), Bulk(Some(Decimal(i)))]));
        out := out + [frame];
      case Hash(h) =>
        if h != map[] {
          var parts := HashCommand(s.key, h, s.order);
          var frame := codec.Encode(List(parts));
          out := out + [frame];
        }
      case Items(_) =>
    }
    assert out == frames + Frames(ValueParts(s));
    FramesSplit(ValueParts(s), DeadlineParts(s));
    if Ahead(s) {
      var target := Digits(Target(s));
      ThreeBulks(PEXPIREAT_NAME, s.key, target);
      var frame := codec.Encode(List([Bulk(Some(PEXPIREAT_NAME)), Bulk(Some(s.key)), Bulk(Some(target))]));
      out := out + [frame];
    }
  }

  /** Render a whole snapshot, entry by entry. */
  method SnapshotToFrames(snaps: seq<Snap>) returns (frames: seq<bytes>)
    requires forall i :: 0 <= i < |snaps| ==> WellOrdered(snaps[i])
    ensures frames == Frames(SnapshotParts(snaps))
  {
    hide EntryParts, FrameOf;
    frames := [];
    for k := 0 to |snaps|
      invariant frames == Frames(SnapshotParts(snaps[..k]))
    {
      frames := EncodeSnapshotEntry(snaps[k], frames);
      assert snaps[..k + 1][..k] == snaps[..k];
      FramesSplit(SnapshotParts(snaps[..k]), EntryParts(snaps[k]));
    }
    assert snaps[..|snaps|] == snaps;
  }
}
