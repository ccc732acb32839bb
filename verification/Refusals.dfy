/**
 * Commands that answer an error after having changed the store: which ones, on
 * which inputs, and what they leave. An error keeps a command out of the log, so
 * these are the changes recovery does not know of.
 */
module Refusals {
  import opened Bytes
  import opened Resp
  import opened Keyspace
  import opened Commands
  import opened Meaning
  import opened ArgumentLoops

  /** SET with GET that replaces a hash: the write happens, then the reply is an error. */
  predicate ReplacesHashWithGet(c: Command, ks: Keys) {
    && Lookup(c.name) == SET && |c.args| >= 2 && IsUtf8(c.args[0])
    && c.args[0] in ks && !ks[c.args[0]].value.Str? && !ks[c.args[0]].value.Int?
    && var o := SetOptionsOf(c.args[2..], NO_OPTIONS);
       o.Picked? && o.value.get && Allows(o.value.existence, true)
  }

  /** SET answers an error after writing exactly when it replaces a hash with GET. */
  lemma SetRefusedAfterWriting(c: Command, ks: Keys, at: Clock)
    requires Lookup(c.name) == SET
    ensures var e := Exec(c, ks, at);
            e.result.Refused? && e.keys != ks <==> ReplacesHashWithGet(c, ks)
    ensures ReplacesHashWithGet(c, ks) ==>
            c.args[0] in Exec(c, ks, at).keys && Exec(c, ks, at).keys[c.args[0]].value.Str?
  {
    hide SetOptionsOf, ResolveTtl, Display;
  }

  // ------------------------------------------------ partly done commands

  /** Commands that loop over their arguments, with a number of them the loop accepts. */
  predicate Loops(c: Command) {
    LoopsOver(Lookup(c.name), c.args)
  }

  predicate LoopsOver(v: Verb, args: seq<bytes>) {
    && v in {DEL, MSET, HSET, HDEL} && ArityOk(v, |args| + 1)
    && (v == MSET ==> |args| % 2 == 0) && (v == HSET ==> |args| % 2 == 1)
  }

  /** Every argument such a loop reads as text is text. */
  predicate TextArguments(c: Command) {
    var v := Lookup(c.name);
    && (v in {DEL, HSET, HDEL} ==> forall i :: 0 <= i < |c.args| ==> IsUtf8(c.args[i]))
    && (v == MSET ==> forall i :: 0 <= i < |c.args| && i % 2 == 0 ==> IsUtf8(c.args[i]))
  }

  /** How many arguments the loop gets through. */
  function TextCount(c: Command): (n: nat)
    requires Loops(c)
    ensures n <= |c.args|
  {
    var v := Lookup(c.name);
    if v == DEL then Readable(c.args, 1, true)
    else if v == MSET then Readable(c.args, 2, false)
    else if !IsUtf8(c.args[0]) then 0
    else 1 + Readable(c.args[1..], if v == HSET then 2 else 1, true)
  }

  /** The same command cut before the first argument that should be text and is not. */
  function TextPart(c: Command): Command
    requires Loops(c)
  {
    c.(args := c.args[..TextCount(c)])
  }

  lemma {:induction false} ReadablePrefix(args: seq<bytes>, width: nat, all: bool)
    requires width == 1 || width == 2
    ensures var k := Readable(args, width, all); Readable(args[..k], width, all) == k
    decreases |args|
  {
    hide IsUtf8, Readable;
    var k := Readable(args, width, all);
    ReadableOnce(args, width, all);
    ReadableOnce(args[..k], width, all);
    if k > 0 {
      ReadablePrefix(args[width..], width, all);
      assert args[..k][width..] == args[width..][..k - width];
    }
  }

  lemma AllText(c: Command)
    requires Loops(c)
    ensures TextArguments(c) <==> TextCount(c) == |c.args|
  {
    hide Lookup, IsUtf8, Readable;
    var v := Lookup(c.name);
    if v == DEL {
      ReadableAll(c.args, 1, true);
    } else if v == MSET {
      ReadableAll(c.args, 2, false);
    } else {
      var rest := c.args[1..];
      ReadableAll(rest, if v == HSET then 2 else 1, true);
      assert forall i :: 0 < i < |c.args| ==> c.args[i] == rest[i - 1];
      assert forall i :: 0 <= i < |rest| ==> rest[i] == c.args[i + 1];
    }
  }

  /** The loop a command runs, on the arguments it loops over. */
  function LoopEffect(v: Verb, args: seq<bytes>, ks: Keys): Effect
    requires LoopsOver(v, args)
  {
    if v == DEL then DelLoop(args, ks, 0)
    else if v == MSET then MsetLoop(args, ks)
    else if !IsUtf8(args[0]) then Effect(Refused(NotText), ks)
    else if v == HSET then HsetLoop(args[0], args[1..], ks, 0)
    else HdelLoop(args[0], args[1..], ks, 0)
  }

  lemma ExecIsLoop(c: Command, ks: Keys, at: Clock)
    requires Loops(c)
    ensures Exec(c, ks, at) == LoopEffect(Lookup(c.name), c.args, ks)
  {
    hide Lookup, IsUtf8, DelLoop, MsetLoop, HsetLoop, HdelLoop, ExecQuiet;
  }

  /** Cut to too few arguments, a command does nothing. */
  lemma TooShort(c: Command, ks: Keys, at: Clock)
    requires Loops(c) && !Loops(TextPart(c))
    ensures Exec(TextPart(c), ks, at).keys == ks
  {
    hide IsUtf8, DelLoop, MsetLoop, HsetLoop, HdelLoop, ExecQuiet, Lookup, Readable;
  }

  /**
   * A loop over arguments stops at the first one that should be text and is not:
   * it answers an error, and what it leaves is what the command cut off there
   * would have left.
   */
  lemma PartlyDone(c: Command, ks: Keys, at: Clock)
    requires Loops(c)
    ensures Exec(TextPart(c), ks, at).keys == Exec(c, ks, at).keys
    ensures !TextArguments(c) ==> Exec(c, ks, at).result.Refused?
  {
    hide Lookup, IsUtf8, DelLoop, MsetLoop, HsetLoop, HdelLoop, Readable, Exec, Loops, TextArguments, TextPart,
        TextCount, Left;
    AllText(c);
    Leaves(c, ks, at);
    CutTwice(c);
    if Loops(TextPart(c)) {
      Leaves(TextPart(c), ks, at);
      LeftCut(c, ks);
    } else {
      TooShort(c, ks, at);
      ShortLeaves(c, ks, at);
    }
  }

  lemma CutTwice(c: Command)
    requires Loops(c)
    ensures var d := TextPart(c);
            d.name == c.name && (Loops(d) ==> TextCount(d) == |d.args|)
  {
    hide Lookup, IsUtf8, Readable;
    var v := Lookup(c.name);
    var d := TextPart(c);
    if v == DEL {
      ReadablePrefix(c.args, 1, true);
    } else if v == MSET {
      ReadablePrefix(c.args, 2, false);
    } else if Loops(d) {
      ReadablePrefix(c.args[1..], if v == HSET then 2 else 1, true);
      assert d.args[1..] == c.args[1..][..TextCount(c) - 1];
    }
  }

  lemma LeftCut(c: Command, ks: Keys)
    requires Loops(c) && Loops(TextPart(c)) && TextCount(TextPart(c)) == |TextPart(c).args|
    ensures Left(TextPart(c), ks) == Left(c, ks)
  {
    hide Lookup, Loops, TextCount, Without, Elements, Overwritten, WithFields, WithoutFields, Fields;
    var d, k := TextPart(c), TextCount(c);
    TextCountEven(c);
    TextCountEven(d);
    assert d.args[..k] == c.args[..k];
    assert d.args[1..k] == c.args[1..k] && d.args[0] == c.args[0];
  }

  lemma ShortMeans(c: Command)
    requires Loops(c) && !Loops(TextPart(c))
    ensures TextCount(c) <= 1 && (Lookup(c.name) in {DEL, MSET} ==> TextCount(c) == 0)
  {
    hide Lookup, IsUtf8, Readable;
  }

  lemma ShortLeaves(c: Command, ks: Keys, at: Clock)
    requires Loops(c) && !Loops(TextPart(c))
    ensures Left(c, ks) == ks
  {
    hide Lookup, Loops, TextCount, TextPart, Without, Elements, Overwritten, WithoutFields, Fields;
    ShortMeans(c);
    TextCountEven(c);
    var k := TextCount(c);
    NoElements(ks);
    NothingWritten(ks);
    assert c.args[..0] == [] && c.args[1..1] == [];
    if k == 1 && Fields(ks, c.args[0]).Ok? {
      NothingGone(ks, c.args[0]);
    }
  }

  /** What a loop leaves, in closed form. */
  function Left(c: Command, ks: Keys): Keys
    requires Loops(c)
  {
    var v := Lookup(c.name);
    var k := TextCount(c);
    if v == DEL then Without(ks, Elements(c.args[..k]))
    else if v == MSET then Overwritten(ks, c.args[..k])
    else if k == 0 || Fields(ks, c.args[0]).Err? then ks
    else
      var h := Fields(ks, c.args[0]).value;
      if v == HSET then WithFields(ks, c.args[0], h, c.args[1..k])
      else WithoutFields(ks, c.args[0], h, Elements(c.args[1..k]))
  }

  lemma Leaves(c: Command, ks: Keys, at: Clock)
    requires Loops(c)
    ensures Exec(c, ks, at).keys == Left(c, ks)
    ensures TextCount(c) < |c.args| ==> Exec(c, ks, at).result.Refused?
    ensures TextCount(c) == |c.args| && Exec(c, ks, at).result.Refused? ==> Exec(c, ks, at).keys == ks
  {
    hide Lookup, IsUtf8, DelLoop, MsetLoop, HsetLoop, HdelLoop, Readable, Exec;
    hide Without, Elements, Overwritten, WithFields, WithoutFields, Fields;
    ExecIsLoop(c, ks, at);
    var v := Lookup(c.name);
    var k := TextCount(c);
    if v == DEL {
      DelIs(c.args, ks, 0);
    } else if v == MSET {
      MsetIs(c.args, ks);
    } else if IsUtf8(c.args[0]) {
      var key, rest := c.args[0], c.args[1..];
      assert c.args[1..k] == rest[..k - 1];
      if Fields(ks, key).Ok? {
        if v == HSET {
          HsetIs(key, rest, ks, 0);
        } else {
          HdelIs(key, rest, ks, 0);
        }
      } else if v == HSET {
        HsetWrongType(key, rest, ks, 0);
      } else {
        HdelWrongType(key, rest, ks, 0);
      }
    }
  }

  // -------------------------------------------------- when it is a change

  /** The same store, or the same to every client. */
  ghost predicate Same(a: Keys, b: Keys, loosely: bool) {
    if loosely then Similar(a, b) else a == b
  }

  /** This key holds this string, with no deadline. */
  predicate Holds(ks: Keys, key: Key, v: bytes, loosely: bool) {
    key in ks && ks[key].deadline.None?
    && if loosely then SimilarValue(ks[key].value, Str(v)) else ks[key].value == Str(v)
  }

  /** Some readable key is live. */
  predicate DelChanges(keys: seq<bytes>, ks: Keys) {
    exists i :: 0 <= i < |keys| && keys[i] in ks
  }

  /** Some key does not hold yet what its last pair says. */
  predicate MsetChanges(pairs: seq<bytes>, ks: Keys, loosely: bool)
    requires |pairs| % 2 == 0
  {
    exists f :: f in pairs && LastValue(pairs, f).Some? && !Holds(ks, f, LastValue(pairs, f).value, loosely)
  }

  /** The key may hold a hash, and some field is missing or not yet what its last pair says. */
  predicate HsetChanges(key: Key, pairs: seq<bytes>, ks: Keys)
    requires |pairs| % 2 == 0
  {
    && Fields(ks, key).Ok?
    && exists f :: f in pairs && LastValue(pairs, f).Some? && FieldOf(Fields(ks, key).value, f) != LastValue(pairs, f)
  }

  /** The key holds a hash with one of the fields. */
  predicate HdelChanges(key: Key, fields: seq<bytes>, ks: Keys) {
    Fields(ks, key).Ok? && exists i :: 0 <= i < |fields| && fields[i] in Fields(ks, key).value
  }

  /** A loop that meets an argument it cannot read, after others that do change something. */
  predicate PartlyWrites(c: Command, ks: Keys, loosely: bool) {
    && Loops(c) && !TextArguments(c)
    && var v := Lookup(c.name);
       var k := TextCount(c);
       if v == DEL then DelChanges(c.args[..k], ks)
       else if v == MSET then MsetChanges(c.args[..k], ks, loosely)
       else if k == 0 then false
       else if v == HSET then HsetChanges(c.args[0], c.args[1..k], ks)
       else HdelChanges(c.args[0], c.args[1..k], ks)
  }

  lemma DelChangesIff(keys: seq<bytes>, ks: Keys, loosely: bool)
    ensures !Same(ks, Without(ks, Elements(keys)), loosely) <==> DelChanges(keys, ks)
  {
    var after := Without(ks, Elements(keys));
    if DelChanges(keys, ks) {
      var i :| 0 <= i < |keys| && keys[i] in ks;
      assert keys[i] !in after;
    } else {
      assert after == ks;
      SimilarSelf(ks);
    }
  }

  lemma MsetChangesIff(pairs: seq<bytes>, ks: Keys, loosely: bool)
    requires |pairs| % 2 == 0
    ensures !Same(ks, Overwritten(ks, pairs), loosely) <==> MsetChanges(pairs, ks, loosely)
  {
    hide LastValue, SimilarValue;
    var after := Overwritten(ks, pairs);
    forall f | LastValue(pairs, f).Some?
      ensures f in after && after[f] == Entry(Str(LastValue(pairs, f).value), None) && f in pairs
    {
      NamesAreThere(pairs, f);
    }
    forall k | k in ks && LastValue(pairs, k).None?
      ensures k in after && after[k] == ks[k] && SimilarValue(ks[k].value, ks[k].value)
    {
      SameIsSimilar(ks[k].value);
    }
    if !MsetChanges(pairs, ks, loosely) {
      forall k | k in after
        ensures k in ks && ks[k].deadline == after[k].deadline
        ensures if loosely then SimilarValue(ks[k].value, after[k].value) else ks[k].value == after[k].value
      {
        if LastValue(pairs, k).Some? {
          assert Holds(ks, k, LastValue(pairs, k).value, loosely);
        }
      }
      assert loosely || after == ks;
    }
  }

  lemma SameIsSimilar(v: Value)
    ensures SimilarValue(v, v)
  {
  }

  lemma HsetChangesIff(key: Key, pairs: seq<bytes>, ks: Keys, loosely: bool)
    requires |pairs| % 2 == 0 && Fields(ks, key).Ok?
    ensures !Same(ks, WithFields(ks, key, Fields(ks, key).value, pairs), loosely) <==> HsetChanges(key, pairs, ks)
  {
    hide LastValue;
    var h := Fields(ks, key).value;
    var after := WithFields(ks, key, h, pairs);
    if pairs == [] {
      SimilarSelf(ks);
    } else {
      MergedIff(h, pairs);
      FirstIsNamed(pairs);
      if key in ks && Merged(h, pairs) == h {
        assert after == ks;
        SimilarSelf(ks);
      }
    }
  }

  lemma FirstIsNamed(pairs: seq<bytes>)
    requires |pairs| % 2 == 0 && pairs != []
    ensures LastValue(pairs, pairs[0]).Some?
  {
  }

  lemma MergedIff(h: map<bytes, bytes>, pairs: seq<bytes>)
    requires |pairs| % 2 == 0
    ensures Merged(h, pairs) != h
            <==> exists f :: f in pairs && LastValue(pairs, f).Some? && FieldOf(h, f) != LastValue(pairs, f)
  {
    hide LastValue;
    var after := Merged(h, pairs);
    forall f | LastValue(pairs, f).Some?
      ensures f in after && after[f] == LastValue(pairs, f).value && f in pairs
    {
      NamesAreThere(pairs, f);
    }
    if f :| f in pairs && LastValue(pairs, f).Some? && FieldOf(h, f) != LastValue(pairs, f) {
      assert f in after && (f in h ==> after[f] != h[f]);
    } else {
      forall f | f in after
        ensures f in h && after[f] == h[f]
      {
        if LastValue(pairs, f).Some? {
          assert FieldOf(h, f) == LastValue(pairs, f);
        }
      }
      assert after == h;
    }
  }

  lemma HdelChangesIff(key: Key, fields: seq<bytes>, ks: Keys, loosely: bool)
    requires Fields(ks, key).Ok?
    ensures !Same(ks, WithoutFields(ks, key, Fields(ks, key).value, Elements(fields)), loosely)
            <==> HdelChanges(key, fields, ks)
  {
    var h, gone := Fields(ks, key).value, Elements(fields);
    if HdelChanges(key, fields, ks) {
      var i :| 0 <= i < |fields| && fields[i] in h;
      assert fields[i] in gone && fields[i] !in h - gone;
    } else {
      assert h.Keys !! gone;
      SimilarSelf(ks);
    }
  }

  /** Whether what a loop leaves is a change. */
  lemma LeftIff(c: Command, ks: Keys, loosely: bool)
    requires Loops(c) && !TextArguments(c)
    ensures !Same(ks, Left(c, ks), loosely) <==> PartlyWrites(c, ks, loosely)
  {
    hide Lookup, Loops, TextArguments, TextCount, Same;
    hide Without, Elements, Overwritten, WithFields, WithoutFields, DelChanges, MsetChanges;
    var v := Lookup(c.name);
    var k := TextCount(c);
    TextCountEven(c);
    if v == DEL {
      DelChangesIff(c.args[..k], ks, loosely);
    } else if v == MSET {
      MsetChangesIff(c.args[..k], ks, loosely);
    } else if k == 0 || Fields(ks, c.args[0]).Err? {
      SameItself(ks, loosely);
    } else if v == HSET {
      HsetChangesIff(c.args[0], c.args[1..k], ks, loosely);
    } else {
      HdelChangesIff(c.args[0], c.args[1..k], ks, loosely);
    }
  }

  lemma TextCountEven(c: Command)
    requires Loops(c)
    ensures Lookup(c.name) == MSET ==> TextCount(c) % 2 == 0
    ensures Lookup(c.name) == HSET && TextCount(c) > 0 ==> TextCount(c) % 2 == 1
    ensures Lookup(c.name) in {DEL, MSET, HSET, HDEL} && c.args != []
  {
  }

  lemma SameItself(ks: Keys, loosely: bool)
    ensures Same(ks, ks, loosely)
  {
    SimilarSelf(ks);
  }

  // ---------------------------------------------------------- the theorem

  lemma MutationRefused(v: Verb, args: seq<bytes>, ks: Keys, at: Clock)
    requires ArityOk(v, |args| + 1) && IsMutation(v) && v !in {SET, DEL, MSET, HSET, HDEL}
    ensures ExecMutation(v, args, ks, at).result.Refused? ==> ExecMutation(v, args, ks, at).keys == ks
  {
    hide IsUtf8, ExpireFlagOf, ParseUnsigned, ToInteger;
  }

  lemma OthersRefused(c: Command, ks: Keys, at: Clock)
    requires Lookup(c.name) != SET && !Loops(c)
    ensures Exec(c, ks, at).result.Refused? ==> Exec(c, ks, at).keys == ks
  {
    hide Lookup, IsUtf8, ExecQuiet, ExecExpire, ExecIncr, ExecFlush, DelLoop, MsetLoop, HsetLoop, HdelLoop;
    var v := Lookup(c.name);
    if v != UNKNOWN && ArityOk(v, |c.args| + 1) && IsMutation(v) && v !in {DEL, MSET, HSET, HDEL} {
      MutationRefused(v, c.args, ks, at);
    }
  }

  /**
   * Exactly which commands answer an error and have changed the store all the
   * same: SET with GET over a hash, and a loop over arguments that comes to one it
   * cannot read after others that change something. `loosely` asks for a change
   * that clients can see.
   */
  lemma RefusedIff(c: Command, ks: Keys, at: Clock, loosely: bool)
    ensures Exec(c, ks, at).result.Refused? && !Same(ks, Exec(c, ks, at).keys, loosely)
            <==> ReplacesHashWithGet(c, ks) || PartlyWrites(c, ks, loosely)
  {
    hide Lookup, IsUtf8, Exec, Loops, TextArguments, TextCount, Left, SetOptionsOf, DelChanges, MsetChanges;
    SameItself(ks, loosely);
    if Lookup(c.name) == SET {
      SetRefusedAfterWriting(c, ks, at);
      NotALoop(c);
    } else if !Loops(c) {
      OthersRefused(c, ks, at);
    } else {
      AllText(c);
      Leaves(c, ks, at);
      if !TextArguments(c) {
        LeftIff(c, ks, loosely);
      }
    }
  }

  lemma NotALoop(c: Command)
    requires Lookup(c.name) == SET
    ensures !Loops(c)
  {
    hide Lookup;
  }

  /** In particular, for any change at all. */
  lemma RefusedAfterWriting(c: Command, ks: Keys, at: Clock)
    ensures Exec(c, ks, at).result.Refused? && Exec(c, ks, at).keys != ks
            <==> ReplacesHashWithGet(c, ks) || PartlyWrites(c, ks, false)
  {
    hide Exec, ReplacesHashWithGet, PartlyWrites;
    RefusedIff(c, ks, at, false);
  }

  // ------------------------------------------------- one input for each

  const DEL_NAME: bytes := [68, 69, 76]
  const MSET_NAME: bytes := [77, 83, 69, 84]
  const HSET_WORD: bytes := [72, 83, 69, 84]
  const HDEL_NAME: bytes := [72, 68, 69, 76]

  lemma LoopNames()
    ensures Lookup(DEL_NAME) == DEL && Lookup(MSET_NAME) == MSET
    ensures Lookup(HSET_WORD) == HSET && Lookup(HDEL_NAME) == HDEL
  {
  }

  lemma TextOrNot()
    ensures IsUtf8([97]) && IsUtf8([98]) && IsUtf8([104]) && !IsUtf8([255])
  {
    assert [97][1..] == [] && [98][1..] == [] && [104][1..] == [];
  }

  /** DEL of a live key and of a name that is not text: an error, and the key is gone. */
  lemma DelThenError(at: Clock)
    ensures var ks := map[[97] := Entry(Str([1]), None)];
            Exec(Command(DEL_NAME, [[97], [255]]), ks, at) == Effect(Refused(NotText), map[])
  {
    TextOrNot();
    LoopNames();
    hide IsUtf8, Lookup, ExecQuiet;
    var ks := map[[97] := Entry(Str([1]), None)];
    assert [[97], [255]][1..] == [[255]];
    assert ks - {[97]} == map[];
  }

  /** MSET with a second key that is not text: an error, and the first is written. */
  lemma MsetThenError(at: Clock)
    ensures Exec(Command(MSET_NAME, [[97], [1], [255], [1]]), map[], at)
            == Effect(Refused(NotText), map[[97] := Entry(Str([1]), None)])
  {
    TextOrNot();
    LoopNames();
    hide IsUtf8, Lookup, ExecQuiet;
    assert [[97], [1], [255], [1]][2..] == [[255], [1]];
  }

  /** HSET with a second field that is not text: an error, and the first is written. */
  lemma HsetThenError(at: Clock)
    ensures Exec(Command(HSET_WORD, [[104], [97], [98], [255], [98]]), map[], at)
            == Effect(Refused(NotText), map[[104] := Entry(Hash(map[[97] := [98]]), None)])
  {
    TextOrNot();
    LoopNames();
    hide IsUtf8, Lookup, ExecQuiet;
    assert [[104], [97], [98], [255], [98]][1..] == [[97], [98], [255], [98]];
    assert [[97], [98], [255], [98]][2..] == [[255], [98]];
  }

  /** HDEL of the only field and of one that is not text: an error, and the key is gone. */
  lemma HdelThenError(at: Clock)
    ensures var ks := map[[104] := Entry(Hash(map[[97] := [98]]), None)];
            Exec(Command(HDEL_NAME, [[104], [97], [255]]), ks, at) == Effect(Refused(NotText), map[])
  {
    TextOrNot();
    LoopNames();
    hide IsUtf8, Lookup, ExecQuiet;
    var ks := map[[104] := Entry(Hash(map[[97] := [98]]), None)];
    assert [[104], [97], [255]][1..] == [[97], [255]];
    assert [[97], [255]][1..] == [[255]];
    assert ks - {[104]} == map[];
  }
}
