/**
 * What the commands that loop over their arguments compute, all at once: which
 * keys or fields they write, remove or read, what the last of several writes to
 * one place leaves, and what they count. A loop stops at the first argument that
 * should be text and is not.
 */
module ArgumentLoops {
  import opened Bytes
  import opened Keyspace
  import opened Commands

  /** How far a loop gets that reads `width` arguments at a time and the first, or all, of them as text. */
  function Readable(args: seq<bytes>, width: nat, all: bool): (n: nat)
    requires width == 1 || width == 2
    ensures n <= |args| && n % width == 0
    decreases |args|
  {
    if |args| < width || !IsUtf8(args[0]) || (all && !IsUtf8(args[width - 1])) then 0
    else width + Readable(args[width..], width, all)
  }

  /** All of it is readable exactly when everything that should be text is. */
  lemma {:induction false} ReadableAll(args: seq<bytes>, width: nat, all: bool)
    requires (width == 1 || width == 2) && |args| % width == 0
    ensures Readable(args, width, all) == |args|
            <==> forall i :: 0 <= i < |args| && (all || i % width == 0) ==> IsUtf8(args[i])
    decreases |args|
  {
    hide IsUtf8;
    if args != [] {
      var rest := args[width..];
      ReadableAll(rest, width, all);
      assert forall i :: width <= i < |args| ==> args[i] == rest[i - width];
      assert forall i :: 0 <= i < |rest| ==> rest[i] == args[i + width];
      if forall i :: 0 <= i < |args| && (all || i % width == 0) ==> IsUtf8(args[i]) {
        assert IsUtf8(args[0]) && (all ==> IsUtf8(args[width - 1]));
      }
    }
  }

  lemma ReadableOnce(args: seq<bytes>, width: nat, all: bool)
    requires width == 1 || width == 2
    ensures Readable(args, width, all)
            == if |args| < width || !IsUtf8(args[0]) || (all && !IsUtf8(args[width - 1])) then 0
               else width + Readable(args[width..], width, all)
  {
  }

  function Elements(s: seq<bytes>): set<bytes> {
    set x | x in s
  }

  lemma ElementsStep(x: bytes, rest: seq<bytes>)
    ensures Elements([x] + rest) == {x} + Elements(rest)
  {
  }

  lemma CommonStep(x: bytes, rest: set<bytes>, there: set<bytes>)
    ensures |({x} + rest) * there| == |rest * (there - {x})| + if x in there then 1 else 0
  {
    var left := rest * (there - {x});
    assert ({x} + rest) * there == if x in there then {x} + left else left;
  }

  // ----------------------------------------------------------- one by one

  function Without(ks: Keys, gone: set<Key>): Keys {
    ks - gone
  }

  function Found(keys: seq<bytes>, ks: Keys): nat {
    |Elements(keys) * ks.Keys|
  }

  lemma DelOnce(keys: seq<bytes>, ks: Keys, n: nat)
    ensures DelLoop(keys, ks, n)
            == if keys == [] then Effect(Done(Count(n)), ks)
               else if !IsUtf8(keys[0]) then Effect(Refused(NotText), ks)
               else DelLoop(keys[1..], Without(ks, {keys[0]}), if keys[0] in ks then n + 1 else n)
  {
  }

  /** DEL removes the readable keys together, and counts the live ones among them once each. */
  lemma {:induction false} DelIs(keys: seq<bytes>, ks: Keys, n: nat)
    ensures var k := Readable(keys, 1, true);
            DelLoop(keys, ks, n)
            == Effect(if k == |keys| then Done(Count(n + Found(keys, ks))) else Refused(NotText),
                      Without(ks, Elements(keys[..k])))
    decreases |keys|
  {
    hide IsUtf8, Elements, DelLoop, Readable, Without, Found;
    var k := Readable(keys, 1, true);
    ReadableOnce(keys, 1, true);
    DelOnce(keys, ks, n);
    if k == 0 {
      assert keys[..0] == [];
      NoElements(ks);
    } else {
      var rest := keys[1..];
      DelIs(rest, Without(ks, {keys[0]}), if keys[0] in ks then n + 1 else n);
      assert keys[..k][1..] == rest[..k - 1];
      WithoutFirst(keys[..k], ks);
      FoundFirst(keys, ks);
    }
  }

  lemma WithoutFirst(keys: seq<bytes>, ks: Keys)
    requires keys != []
    ensures Without(ks, Elements(keys)) == Without(Without(ks, {keys[0]}), Elements(keys[1..]))
  {
    hide Elements;
    assert keys == [keys[0]] + keys[1..];
    ElementsStep(keys[0], keys[1..]);
  }

  lemma FoundFirst(keys: seq<bytes>, ks: Keys)
    requires keys != []
    ensures Found(keys, ks) == Found(keys[1..], Without(ks, {keys[0]})) + if keys[0] in ks then 1 else 0
  {
    hide Elements;
    assert keys == [keys[0]] + keys[1..];
    ElementsStep(keys[0], keys[1..]);
    CommonStep(keys[0], Elements(keys[1..]), ks.Keys);
    assert Without(ks, {keys[0]}).Keys == ks.Keys - {keys[0]};
  }

  lemma NoElements(ks: Keys)
    ensures Without(ks, Elements([])) == ks && Found([], ks) == 0
  {
    assert Elements([]) == {};
  }

  /** Positions, from some one on, at which a live key is asked for. */
  function Hits(keys: seq<bytes>, ks: Keys, from: nat): set<int> {
    set i | from <= i < |keys| && keys[i] in ks
  }

  lemma ExistsOnce(keys: seq<bytes>, ks: Keys, n: nat)
    ensures ExistsLoop(keys, ks, n)
            == if keys == [] then Done(Count(n))
               else if !IsUtf8(keys[0]) then Refused(NotText)
               else ExistsLoop(keys[1..], ks, if keys[0] in ks then n + 1 else n)
  {
  }

  lemma {:induction false} ExistsFrom(keys: seq<bytes>, ks: Keys, from: nat, n: nat)
    requires from <= |keys|
    ensures ExistsLoop(keys[from..], ks, n)
            == if Readable(keys[from..], 1, true) == |keys| - from then Done(Count(n + |Hits(keys, ks, from)|))
               else Refused(NotText)
    decreases |keys| - from
  {
    hide IsUtf8, ExistsLoop, Readable, Hits;
    ReadableOnce(keys[from..], 1, true);
    ExistsOnce(keys[from..], ks, n);
    HitsFirst(keys, ks, from);
    if from < |keys| {
      assert keys[from..][0] == keys[from] && keys[from..][1..] == keys[from + 1..];
      ExistsFrom(keys, ks, from + 1, if keys[from] in ks then n + 1 else n);
    }
  }

  lemma HitsFirst(keys: seq<bytes>, ks: Keys, from: nat)
    requires from <= |keys|
    ensures |Hits(keys, ks, from)|
            == if from == |keys| then 0 else |Hits(keys, ks, from + 1)| + if keys[from] in ks then 1 else 0
  {
    if from == |keys| {
      assert Hits(keys, ks, from) == {};
    } else {
      var later := Hits(keys, ks, from + 1);
      assert Hits(keys, ks, from) == if keys[from] in ks then {from} + later else later;
    }
  }

  /** EXISTS counts every mention of a live key. */
  lemma ExistsIs(keys: seq<bytes>, ks: Keys)
    ensures ExistsLoop(keys, ks, 0)
            == if Readable(keys, 1, true) == |keys| then Done(Count(|Hits(keys, ks, 0)|)) else Refused(NotText)
  {
    assert keys[0..] == keys;
    ExistsFrom(keys, ks, 0, 0);
  }

  /** MGET answers key by key. */
  lemma {:induction false} MgetIs(keys: seq<bytes>, ks: Keys, out: seq<Option<bytes>>)
    ensures MgetLoop(keys, ks, out)
            == if Readable(keys, 1, true) == |keys| then
                 Done(Values(out + seq(|keys|, i requires 0 <= i < |keys| => Slot(ks, keys[i]))))
               else Refused(NotText)
    decreases |keys|
  {
    hide IsUtf8, Slot;
    if keys == [] {
      assert out + seq(|keys|, i requires 0 <= i < |keys| => Slot(ks, keys[i])) == out;
    } else if IsUtf8(keys[0]) {
      var rest := keys[1..];
      MgetIs(rest, ks, out + [Slot(ks, keys[0])]);
      assert out + [Slot(ks, keys[0])] + seq(|rest|, i requires 0 <= i < |rest| => Slot(ks, rest[i]))
          == out + seq(|keys|, i requires 0 <= i < |keys| => Slot(ks, keys[i]));
    }
  }

  function FieldOf(h: map<bytes, bytes>, field: bytes): Option<bytes> {
    if field in h then Some(h[field]) else None
  }

  /** HMGET answers field by field; a key of another type is noticed at the first readable field. */
  lemma {:induction false} HmgetIs(key: Key, fields: seq<bytes>, ks: Keys, out: seq<Option<bytes>>)
    ensures var k := Readable(fields, 1, true);
            HmgetLoop(key, fields, ks, out)
            == if Fields(ks, key).Err? && k > 0 then Refused(FailureOf(Fields(ks, key).error))
               else if k < |fields| then Refused(NotText)
               else Done(Values(out + if fields == [] then [] else
                   seq(|fields|, i requires 0 <= i < |fields|
                       && Fields(ks, key).Ok? => FieldOf(Fields(ks, key).value, fields[i]))))
    decreases |fields|
  {
    hide IsUtf8, Fields;
    if fields != [] && IsUtf8(fields[0]) && Fields(ks, key).Ok? {
      var h, rest := Fields(ks, key).value, fields[1..];
      var next := out + [FieldOf(h, fields[0])];
      HmgetIs(key, rest, ks, next);
      var tail := if rest == [] then [] else
          seq(|rest|, i requires 0 <= i < |rest| && Fields(ks, key).Ok? => FieldOf(Fields(ks, key).value, rest[i]));
      assert next + tail
          == out + seq(|fields|, i requires 0 <= i < |fields|
              && Fields(ks, key).Ok? => FieldOf(Fields(ks, key).value, fields[i]));
    } else {
      assert out + [] == out;
    }
  }

  // --------------------------------------------------------- pair by pair

  /** What the last pair for a name says. */
  function LastValue(pairs: seq<bytes>, name: bytes): Option<bytes>
    requires |pairs| % 2 == 0
    decreases |pairs|
  {
    if pairs == [] then None
    else
      var later := LastValue(pairs[2..], name);
      if later.Some? then later else if pairs[0] == name then Some(pairs[1]) else None
  }

  predicate PairAt(pairs: seq<bytes>, i: nat, name: bytes) {
    2 * i + 1 < |pairs| && pairs[2 * i] == name
  }

  /** None without a pair for the name; else the value of a pair that no later one repeats. */
  lemma {:induction false} LastValueMeans(pairs: seq<bytes>, name: bytes)
    requires |pairs| % 2 == 0
    ensures var v := LastValue(pairs, name);
            && (v.None? <==> forall i: nat :: !PairAt(pairs, i, name))
            && (v.Some? ==> exists i: nat :: PairAt(pairs, i, name) && pairs[2 * i + 1] == v.value
                                             && forall j: nat :: i < j ==> !PairAt(pairs, j, name))
    decreases |pairs|
  {
    if pairs != [] {
      var rest := pairs[2..];
      LastValueMeans(rest, name);
      assert forall i: nat :: i > 0 ==> (PairAt(pairs, i, name) <==> PairAt(rest, i - 1, name));
      assert forall i: nat :: PairAt(rest, i, name) ==> PairAt(pairs, i + 1, name);
      var later := LastValue(rest, name);
      if later.Some? {
        var i: nat :| PairAt(rest, i, name) && rest[2 * i + 1] == later.value
                      && forall j: nat :: i < j ==> !PairAt(rest, j, name);
        assert PairAt(pairs, i + 1, name) && pairs[2 * (i + 1) + 1] == later.value;
      } else if pairs[0] == name {
        assert PairAt(pairs, 0, name);
      }
    }
  }

  /** Names some pair is for. */
  function Names(pairs: seq<bytes>): set<bytes>
    requires |pairs| % 2 == 0
  {
    set f | f in pairs && LastValue(pairs, f).Some?
  }

  lemma {:induction false} NamesAreThere(pairs: seq<bytes>, name: bytes)
    requires |pairs| % 2 == 0
    ensures name in Names(pairs) <==> LastValue(pairs, name).Some?
    decreases |pairs|
  {
    if LastValue(pairs, name).Some? {
      LastValueMeans(pairs, name);
    }
  }

  lemma NamesStep(a: bytes, b: bytes, rest: seq<bytes>)
    requires |rest| % 2 == 0
    ensures Names([a, b] + rest) == {a} + Names(rest)
  {
    var pairs := [a, b] + rest;
    assert pairs[2..] == rest;
    forall f
      ensures f in Names(pairs) <==> f in {a} + Names(rest)
    {
      NamesAreThere(pairs, f);
      NamesAreThere(rest, f);
    }
  }

  /** All pairs written, the last one for each key winning, deadlines cleared. */
  function Overwritten(ks: Keys, pairs: seq<bytes>): Keys
    requires |pairs| % 2 == 0
  {
    map k | k in ks.Keys + Names(pairs) ::
      if LastValue(pairs, k).Some? then Entry(Str(LastValue(pairs, k).value), None) else ks[k]
  }

  lemma OverwrittenStep(ks: Keys, a: bytes, b: bytes, rest: seq<bytes>)
    requires |rest| % 2 == 0
    ensures Overwritten(ks, [a, b] + rest) == Overwritten(ks[a := Entry(Str(b), None)], rest)
  {
    NamesStep(a, b, rest);
    var pairs := [a, b] + rest;
    assert pairs[2..] == rest;
    forall k | LastValue(rest, k).Some?
      ensures k in Names(rest)
    {
      NamesAreThere(rest, k);
    }
  }

  /** MSET writes the readable pairs, the last one for each key winning. */
  lemma {:induction false} MsetIs(args: seq<bytes>, ks: Keys)
    requires |args| % 2 == 0
    ensures var k := Readable(args, 2, false);
            MsetLoop(args, ks) == Effect(if k == |args| then OK_REPLY else Refused(NotText), Overwritten(ks, args[..k]))
    decreases |args|
  {
    hide IsUtf8, Overwritten, LastValue;
    var k := Readable(args, 2, false);
    if k == 0 {
      assert args[..0] == [];
      NothingWritten(ks);
    } else {
      var rest := args[2..];
      var next := ks[args[0] := Entry(Str(args[1]), None)];
      assert SetKey(ks, args[0], Str(args[1]), NoTtl, Always) == next;
      MsetIs(rest, next);
      assert args[..k] == [args[0], args[1]] + rest[..k - 2];
      OverwrittenStep(ks, args[0], args[1], rest[..k - 2]);
    }
  }

  lemma NothingWritten(ks: Keys)
    ensures Overwritten(ks, []) == ks
  {
    assert Names([]) == {};
  }

  /** The fields of a hash after these pairs, the last one for each field winning. */
  function Merged(h: map<bytes, bytes>, pairs: seq<bytes>): map<bytes, bytes>
    requires |pairs| % 2 == 0
  {
    map f | f in h.Keys + Names(pairs) :: if LastValue(pairs, f).Some? then LastValue(pairs, f).value else h[f]
  }

  lemma MergedStep(h: map<bytes, bytes>, a: bytes, b: bytes, rest: seq<bytes>)
    requires |rest| % 2 == 0
    ensures Merged(h, [a, b] + rest) == Merged(h[a := b], rest)
    ensures Names([a, b] + rest) - h.Keys == (Names(rest) - h[a := b].Keys) + ({a} - h.Keys)
  {
    NamesStep(a, b, rest);
    var pairs := [a, b] + rest;
    assert pairs[2..] == rest;
    forall k | LastValue(rest, k).Some?
      ensures k in Names(rest)
    {
      NamesAreThere(rest, k);
    }
  }

  function KeptDeadline(ks: Keys, key: Key): Option<Instant> {
    if key in ks then ks[key].deadline else None
  }

  /** A hash under a key, the deadline of the key kept; no pair leaves the store alone. */
  function WithFields(ks: Keys, key: Key, h: map<bytes, bytes>, pairs: seq<bytes>): Keys
    requires |pairs| % 2 == 0
  {
    if pairs == [] then ks else ks[key := Entry(Hash(Merged(h, pairs)), KeptDeadline(ks, key))]
  }

  /** How many fields these pairs add. */
  function Fresh(pairs: seq<bytes>, h: map<bytes, bytes>): nat
    requires |pairs| % 2 == 0
  {
    |Names(pairs) - h.Keys|
  }

  lemma FreshFirst(pairs: seq<bytes>, h: map<bytes, bytes>)
    requires |pairs| % 2 == 0 && pairs != []
    ensures Fresh(pairs, h) == Fresh(pairs[2..], h[pairs[0] := pairs[1]]) + if pairs[0] in h then 0 else 1
  {
    hide Names, Merged;
    var a, b, rest := pairs[0], pairs[1], pairs[2..];
    assert pairs == [a, b] + rest;
    MergedStep(h, a, b, rest);
    NewCount(Names(pairs) - h.Keys, Names(rest) - h[a := b].Keys, {a} - h.Keys);
    OneNew(a, h.Keys);
  }

  lemma HsetOnce(key: Key, args: seq<bytes>, ks: Keys, n: nat)
    requires |args| % 2 == 0 && Fields(ks, key).Ok?
    ensures var h := Fields(ks, key).value;
            HsetLoop(key, args, ks, n)
            == if args == [] then Effect(Done(Count(n)), ks)
               else if !IsUtf8(args[0]) || !IsUtf8(args[1]) then Effect(Refused(NotText), ks)
               else HsetLoop(key, args[2..], SetField(ks, key, args[0], args[1]), if args[0] in h then n else n + 1)
  {
  }

  /** HSET writes the readable pairs, the last one for each field winning, and counts the fields that are new. */
  lemma {:induction false} HsetIs(key: Key, args: seq<bytes>, ks: Keys, n: nat)
    requires |args| % 2 == 0 && Fields(ks, key).Ok?
    ensures var k := Readable(args, 2, true);
            var h := Fields(ks, key).value;
            HsetLoop(key, args, ks, n)
            == Effect(if k == |args| then Done(Count(n + Fresh(args, h))) else Refused(NotText),
                      WithFields(ks, key, h, args[..k]))
    decreases |args|
  {
    hide IsUtf8, Fresh, WithFields, SetField, Fields, HsetLoop, Readable;
    var k := Readable(args, 2, true);
    var h := Fields(ks, key).value;
    ReadableOnce(args, 2, true);
    HsetOnce(key, args, ks, n);
    if k == 0 {
      assert args[..0] == [];
      NoNames(ks, key, h);
    } else {
      var a, b, rest := args[0], args[1], args[2..];
      FieldSet(ks, key, a, b, rest[..k - 2]);
      HsetIs(key, rest, SetField(ks, key, a, b), if a in h then n else n + 1);
      assert args[..k] == [a, b] + rest[..k - 2];
      FreshFirst(args, h);
    }
  }

  /** Writing one field and then some pairs is writing all of them. */
  lemma FieldSet(ks: Keys, key: Key, a: bytes, b: bytes, rest: seq<bytes>)
    requires Fields(ks, key).Ok? && |rest| % 2 == 0
    ensures var h := Fields(ks, key).value;
            var next := SetField(ks, key, a, b);
            && Fields(next, key) == Ok(h[a := b])
            && WithFields(ks, key, h, [a, b] + rest) == WithFields(next, key, h[a := b], rest)
  {
    hide LastValue, Names, Merged;
    var h := Fields(ks, key).value;
    MergedStep(h, a, b, rest);
    var next := SetField(ks, key, a, b);
    assert next == ks[key := Entry(Hash(h[a := b]), KeptDeadline(ks, key))];
    NoNames(next, key, h[a := b]);
    assert next[key := Entry(Hash(Merged(h[a := b], rest)), KeptDeadline(next, key))]
        == ks[key := Entry(Hash(Merged(h[a := b], rest)), KeptDeadline(ks, key))];
  }

  lemma OneNew(a: bytes, there: set<bytes>)
    ensures |{a} - there| == if a in there then 0 else 1
  {
    assert {a} - there == if a in there then {} else {a};
  }

  lemma NewCount(all: set<bytes>, rest: set<bytes>, one: set<bytes>)
    requires all == rest + one && rest !! one
    ensures |all| == |rest| + |one|
  {
  }

  lemma NoNames(ks: Keys, key: Key, h: map<bytes, bytes>)
    ensures Names([]) == {} && Merged(h, []) == h && WithFields(ks, key, h, []) == ks
    ensures Fresh([], h) == 0
  {
  }

  /** HSET on a key of another type changes nothing. */
  lemma HsetWrongType(key: Key, args: seq<bytes>, ks: Keys, n: nat)
    requires |args| % 2 == 0 && Fields(ks, key).Err?
    ensures HsetLoop(key, args, ks, n)
            == Effect(if args == [] then Done(Count(n))
                      else if Readable(args, 2, true) == 0 then Refused(NotText)
                      else Refused(FailureOf(Fields(ks, key).error)), ks)
  {
    hide IsUtf8;
  }

  // ------------------------------------------------------- field by field

  /** A hash without some of its fields; the key goes with the last of them. */
  function WithoutFields(ks: Keys, key: Key, h: map<bytes, bytes>, gone: set<bytes>): Keys
    requires key !in ks ==> h == map[]
  {
    if h.Keys !! gone then ks
    else if h.Keys <= gone then ks - {key}
    else ks[key := ks[key].(value := Hash(h - gone))]
  }

  lemma WithoutStep(ks: Keys, key: Key, f: bytes, gone: set<bytes>)
    requires Fields(ks, key).Ok?
    ensures var h := Fields(ks, key).value;
            var next := DeleteField(ks, key, f);
            && Fields(next, key) == Ok(h - {f})
            && WithoutFields(ks, key, h, {f} + gone) == WithoutFields(next, key, h - {f}, gone)
  {
    var h := Fields(ks, key).value;
    if f !in h {
      assert h - {f} == h && h - ({f} + gone) == h - gone;
    } else if |h| == 1 {
      assert h.Keys == {f} by { Single(h.Keys, f); }
      assert h - {f} == map[];
    } else {
      if h.Keys <= {f} {
        Subset(h.Keys, {f});
      }
      WithoutRest(ks, key, h, f, gone);
    }
  }

  lemma WithoutRest(ks: Keys, key: Key, h: map<bytes, bytes>, f: bytes, gone: set<bytes>)
    requires key in ks && ks[key].value == Hash(h) && f in h && !(h.Keys <= {f})
    ensures var next := ks[key := ks[key].(value := Hash(h - {f}))];
            WithoutFields(ks, key, h, {f} + gone) == WithoutFields(next, key, h - {f}, gone)
  {
    var next := ks[key := ks[key].(value := Hash(h - {f}))];
    assert (h - {f}).Keys == h.Keys - {f};
    assert h - {f} - gone == h - ({f} + gone);
    assert next - {key} == ks - {key};
    if h.Keys - {f} !! gone {
      assert h - ({f} + gone) == h - {f};
    } else if !(h.Keys - {f} <= gone) {
      assert next[key := next[key].(value := Hash(h - {f} - gone))]
          == ks[key := ks[key].(value := Hash(h - {f} - gone))];
    }
  }

  lemma Single(s: set<bytes>, f: bytes)
    requires |s| == 1 && f in s
    ensures s == {f}
  {
    assert |s - {f}| == 0;
  }

  lemma Subset(a: set<bytes>, b: set<bytes>)
    requires a <= b
    ensures |a| <= |b|
  {
    assert |b| == |a| + |b - a| by { assert b == a + (b - a); }
  }

  lemma HdelOnce(key: Key, fields: seq<bytes>, ks: Keys, n: nat)
    requires Fields(ks, key).Ok?
    ensures var h := Fields(ks, key).value;
            HdelLoop(key, fields, ks, n)
            == if fields == [] then Effect(Done(Count(n)), ks)
               else if !IsUtf8(fields[0]) then Effect(Refused(NotText), ks)
               else HdelLoop(key, fields[1..], DeleteField(ks, key, fields[0]), if fields[0] in h then n + 1 else n)
  {
  }

  /** How many of these fields a hash has. */
  function Having(fields: seq<bytes>, h: map<bytes, bytes>): nat {
    |Elements(fields) * h.Keys|
  }

  lemma HavingFirst(fields: seq<bytes>, h: map<bytes, bytes>)
    requires fields != []
    ensures Having(fields, h) == Having(fields[1..], h - {fields[0]}) + if fields[0] in h then 1 else 0
  {
    hide Elements;
    assert fields == [fields[0]] + fields[1..];
    ElementsStep(fields[0], fields[1..]);
    CommonStep(fields[0], Elements(fields[1..]), h.Keys);
    assert (h - {fields[0]}).Keys == h.Keys - {fields[0]};
  }

  /** HDEL removes the readable fields together, the key with the last one, and counts those that were there. */
  lemma {:induction false} HdelIs(key: Key, fields: seq<bytes>, ks: Keys, n: nat)
    requires Fields(ks, key).Ok?
    ensures var k := Readable(fields, 1, true);
            var h := Fields(ks, key).value;
            HdelLoop(key, fields, ks, n)
            == Effect(if k == |fields| then Done(Count(n + Having(fields, h))) else Refused(NotText),
                      WithoutFields(ks, key, h, Elements(fields[..k])))
    decreases |fields|
  {
    hide IsUtf8, DeleteField, Fields, WithoutFields, Elements, Having, HdelLoop, Readable;
    var k := Readable(fields, 1, true);
    var h := Fields(ks, key).value;
    ReadableOnce(fields, 1, true);
    HdelOnce(key, fields, ks, n);
    if k == 0 {
      assert fields[..0] == [];
      NothingGone(ks, key);
    } else {
      var f, rest := fields[0], fields[1..];
      WithoutStep(ks, key, f, Elements(rest[..k - 1]));
      HdelIs(key, rest, DeleteField(ks, key, f), if f in h then n + 1 else n);
      assert fields[..k] == [f] + rest[..k - 1];
      ElementsStep(f, rest[..k - 1]);
      HavingFirst(fields, h);
    }
  }

  lemma NothingGone(ks: Keys, key: Key)
    requires Fields(ks, key).Ok?
    ensures WithoutFields(ks, key, Fields(ks, key).value, Elements([])) == ks
    ensures Having([], Fields(ks, key).value) == 0
  {
  }

  /** HDEL on a key of another type changes nothing. */
  lemma HdelWrongType(key: Key, fields: seq<bytes>, ks: Keys, n: nat)
    requires Fields(ks, key).Err?
    ensures HdelLoop(key, fields, ks, n)
            == Effect(if fields == [] then Done(Count(n))
                      else if Readable(fields, 1, true) == 0 then Refused(NotText)
                      else Refused(FailureOf(Fields(ks, key).error)), ks)
  {
    hide IsUtf8;
  }
}
