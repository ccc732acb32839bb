/**
 * Words on the wire: letter case does not matter in them, and which word names
 * which command.
 */
module Words {
  import opened Bytes
  import opened Resp
  import opened Stream
  import opened Keyspace
  import C = Commands
  import opened Snapshot

  type Verb = C.Verb

  // ------------------------------------------------------------ letter case

  predicate IsLower(b: byte) {
    Word("a")[0] <= b <= Word("z")[0]
  }

  /** The same byte, or the two cases of one ASCII letter. */
  predicate SameLetter(a: byte, b: byte) {
    a == b || (IsLower(a) && b == a - 32) || (IsLower(b) && a == b - 32)
  }

  predicate SameLetters(a: bytes, b: bytes) {
    |a| == |b| && forall i :: 0 <= i < |a| ==> SameLetter(a[i], b[i])
  }

  /** Upper case has no small letters, and differs from the word only in case. */
  lemma UpperMeans(s: bytes)
    ensures |Upper(s)| == |s| && forall i :: 0 <= i < |s| ==> !IsLower(Upper(s)[i])
    ensures SameLetters(s, Upper(s))
    ensures forall i :: 0 <= i < |s| ==> Upper(s)[i] == if IsLower(s[i]) then s[i] - 32 else s[i]
  {
  }

  /** Two words have the same capitals exactly when they differ in case only. */
  lemma SameCapitals(a: bytes, b: bytes)
    ensures Upper(a) == Upper(b) <==> SameLetters(a, b)
  {
    UpperMeans(a);
    UpperMeans(b);
    if Upper(a) == Upper(b) {
      forall i | 0 <= i < |a|
        ensures SameLetter(a[i], b[i])
      {
        assert Upper(a)[i] == Upper(b)[i];
      }
    }
  }

  lemma SameFirst(a: bytes, b: bytes)
    requires SameLetters(a, b) && a != []
    ensures SameLetters(a[1..], b[1..]) && (a[0] >= 128 ==> a[0] == b[0]) && (a[0] < 128 <==> b[0] < 128)
    ensures |a| >= 2 ==> SameLetters(a[2..], b[2..]) && SameLetter(a[1], b[1])
    ensures |a| >= 3 ==> SameLetters(a[3..], b[3..]) && SameLetter(a[2], b[2])
  {
  }

  lemma {:induction false} WideCapitalsAgree(a: bytes, b: bytes)
    requires SameLetters(a, b)
    ensures UpperWide(a) == UpperWide(b)
    decreases |a|
  {
    hide SameLetters, Upper;
    assert |a| == |b| by { SameLength(a, b); }
    if a != [] {
      SameFirst(a, b);
      WideCapitalsAgree(a[1..], b[1..]);
      SameCapitals(a[..1], b[..1]);
      assert SameLetters(a[..1], b[..1]) by { SamePrefix(a, b); }
      if |a| >= 2 {
        WideCapitalsAgree(a[2..], b[2..]);
      }
      if |a| >= 3 {
        WideCapitalsAgree(a[3..], b[3..]);
      }
    }
  }

  lemma SameLength(a: bytes, b: bytes)
    requires SameLetters(a, b)
    ensures |a| == |b|
  {
  }

  lemma SamePrefix(a: bytes, b: bytes)
    requires SameLetters(a, b) && a != []
    ensures SameLetters(a[..1], b[..1])
  {
  }

  /** A name and its capitals, whatever else is in it, are one name. */
  lemma NamesAgree(a: bytes, b: bytes)
    requires SameLetters(a, b)
    ensures UpperName(a) == UpperName(b)
  {
    WideCapitalsAgree(a, b);
    SameCapitals(a, b);
    assert IsAscii(a) <==> IsAscii(b);
  }

  /** The letters outside ASCII whose capitals are ASCII: sharp s, dotless i, long s and the ligatures. */
  lemma WideLetters()
    ensures WideCapital(0xC3, 0x9F) == Word("SS") && WideCapital(0xC4, 0xB1) == Word("I")
    ensures WideCapital(0xC5, 0xBF) == Word("S")
    ensures LigatureCapital(0xEF, 0xAC, 0x80) == Word("FF") && LigatureCapital(0xEF, 0xAC, 0x81) == Word("FI")
    ensures LigatureCapital(0xEF, 0xAC, 0x82) == Word("FL") && LigatureCapital(0xEF, 0xAC, 0x83) == Word("FFI")
    ensures LigatureCapital(0xEF, 0xAC, 0x84) == Word("FFL") && LigatureCapital(0xEF, 0xAC, 0x85) == Word("ST")
    ensures LigatureCapital(0xEF, 0xAC, 0x86) == Word("ST")
  {
  }

  /** Such a letter becomes its capitals wherever it stands. */
  lemma WideLetterFolds(rest: bytes, a: byte, b: byte, c: byte)
    ensures WideCapital(a, b) != [] ==> UpperWide([a, b] + rest) == WideCapital(a, b) + UpperWide(rest)
    ensures LigatureCapital(a, b, c) != [] ==> UpperWide([a, b, c] + rest) == LigatureCapital(a, b, c) + UpperWide(rest)
  {
    assert ([a, b] + rest)[2..] == rest && ([a, b, c] + rest)[3..] == rest;
  }

  // ---------------------------------------------------------- case and text

  lemma {:induction false} TextAgrees(a: bytes, b: bytes)
    requires SameLetters(a, b)
    ensures IsUtf8(a) <==> IsUtf8(b)
    decreases |a|
  {
    if a != [] {
      SameWidth(a, b);
      var w := ScalarWidth(a);
      if w > 0 {
        TextAgrees(a[w..], b[w..]);
      }
    }
  }

  lemma SameWidth(a: bytes, b: bytes)
    requires SameLetters(a, b) && a != []
    ensures ScalarWidth(a) == ScalarWidth(b)
    ensures SameLetters(a[ScalarWidth(a)..], b[ScalarWidth(a)..])
  {
  }

  // ------------------------------------------------------------ the commands

  /** The name each command is registered under. */
  function NameOf(v: Verb): string
    requires v != C.UNKNOWN
  {
    match v
    case SET => "SET"
    case GET => "GET"
    case DEL => "DEL"
    case EXISTS => "EXISTS"
    case MGET => "MGET"
    case MSET => "MSET"
    case INCR => "INCR"
    case DECR => "DECR"
    case EXPIRE => "EXPIRE"
    case PEXPIRE => "PEXPIRE"
    case EXPIREAT => "EXPIREAT"
    case PEXPIREAT => "PEXPIREAT"
    case TTL => "TTL"
    case PTTL => "PTTL"
    case TYPE => "TYPE"
    case FLUSHDB => "FLUSHDB"
    case HSET => "HSET"
    case HGET => "HGET"
    case HDEL => "HDEL"
    case HGETALL => "HGETALL"
    case HMGET => "HMGET"
    case HKEYS => "HKEYS"
    case HVALS => "HVALS"
    case HLEN => "HLEN"
    case HEXISTS => "HEXISTS"
    case PING => "PING"
    case ECHO => "ECHO"
    case DBSIZE => "DBSIZE"
    case KEYS => "KEYS"
    case INFO => "INFO"
    case COMMAND => "COMMAND"
    case BGREWRITEAOF => "BGREWRITEAOF"
    case QUIT => "QUIT"
  }

  lemma NamesAreAscii(v: Verb)
    requires v != C.UNKNOWN
    ensures forall i :: 0 <= i < |NameOf(v)| ==> 'A' <= NameOf(v)[i] <= 'Z'
  {
  }

  /** The word a command is looked up by. */
  function NameBytes(v: Verb): bytes
    requires v != C.UNKNOWN
  {
    NamesAreAscii(v);
    Word(NameOf(v))
  }

  lemma Spelled0()
    ensures NameBytes(C.SET) == [83, 69, 84]
    ensures NameBytes(C.GET) == [71, 69, 84]
    ensures NameBytes(C.DEL) == [68, 69, 76]
    ensures NameBytes(C.TTL) == [84, 84, 76]
  {
  }

  lemma Found0()
    ensures C.Lookup([83, 69, 84]) == C.SET
    ensures C.Lookup([71, 69, 84]) == C.GET
    ensures C.Lookup([68, 69, 76]) == C.DEL
    ensures C.Lookup([84, 84, 76]) == C.TTL
  {
  }

  lemma Spelled1()
    ensures NameBytes(C.MGET) == [77, 71, 69, 84]
    ensures NameBytes(C.MSET) == [77, 83, 69, 84]
    ensures NameBytes(C.INCR) == [73, 78, 67, 82]
    ensures NameBytes(C.DECR) == [68, 69, 67, 82]
  {
  }

  lemma Found1()
    ensures C.Lookup([77, 71, 69, 84]) == C.MGET
    ensures C.Lookup([77, 83, 69, 84]) == C.MSET
    ensures C.Lookup([73, 78, 67, 82]) == C.INCR
    ensures C.Lookup([68, 69, 67, 82]) == C.DECR
  {
  }

  lemma Spelled2()
    ensures NameBytes(C.PTTL) == [80, 84, 84, 76]
    ensures NameBytes(C.TYPE) == [84, 89, 80, 69]
    ensures NameBytes(C.HSET) == [72, 83, 69, 84]
    ensures NameBytes(C.HGET) == [72, 71, 69, 84]
  {
  }

  lemma Found2()
    ensures C.Lookup([80, 84, 84, 76]) == C.PTTL
    ensures C.Lookup([84, 89, 80, 69]) == C.TYPE
    ensures C.Lookup([72, 83, 69, 84]) == C.HSET
    ensures C.Lookup([72, 71, 69, 84]) == C.HGET
  {
  }

  lemma Spelled3()
    ensures NameBytes(C.HDEL) == [72, 68, 69, 76]
    ensures NameBytes(C.HLEN) == [72, 76, 69, 78]
    ensures NameBytes(C.PING) == [80, 73, 78, 71]
    ensures NameBytes(C.ECHO) == [69, 67, 72, 79]
  {
  }

  lemma Found3()
    ensures C.Lookup([72, 68, 69, 76]) == C.HDEL
    ensures C.Lookup([72, 76, 69, 78]) == C.HLEN
    ensures C.Lookup([80, 73, 78, 71]) == C.PING
    ensures C.Lookup([69, 67, 72, 79]) == C.ECHO
  {
  }

  lemma Spelled4()
    ensures NameBytes(C.KEYS) == [75, 69, 89, 83]
    ensures NameBytes(C.INFO) == [73, 78, 70, 79]
    ensures NameBytes(C.QUIT) == [81, 85, 73, 84]
    ensures NameBytes(C.HMGET) == [72, 77, 71, 69, 84]
  {
  }

  lemma Found4()
    ensures C.Lookup([75, 69, 89, 83]) == C.KEYS
    ensures C.Lookup([73, 78, 70, 79]) == C.INFO
    ensures C.Lookup([81, 85, 73, 84]) == C.QUIT
    ensures C.Lookup([72, 77, 71, 69, 84]) == C.HMGET
  {
  }

  lemma Spelled5()
    ensures NameBytes(C.HKEYS) == [72, 75, 69, 89, 83]
    ensures NameBytes(C.HVALS) == [72, 86, 65, 76, 83]
    ensures NameBytes(C.EXISTS) == [69, 88, 73, 83, 84, 83]
    ensures NameBytes(C.EXPIRE) == [69, 88, 80, 73, 82, 69]
  {
  }

  lemma Found5()
    ensures C.Lookup([72, 75, 69, 89, 83]) == C.HKEYS
    ensures C.Lookup([72, 86, 65, 76, 83]) == C.HVALS
    ensures C.Lookup([69, 88, 73, 83, 84, 83]) == C.EXISTS
    ensures C.Lookup([69, 88, 80, 73, 82, 69]) == C.EXPIRE
  {
  }

  lemma Spelled6()
    ensures NameBytes(C.DBSIZE) == [68, 66, 83, 73, 90, 69]
    ensures NameBytes(C.PEXPIRE) == [80, 69, 88, 80, 73, 82, 69]
    ensures NameBytes(C.FLUSHDB) == [70, 76, 85, 83, 72, 68, 66]
    ensures NameBytes(C.HGETALL) == [72, 71, 69, 84, 65, 76, 76]
  {
  }

  lemma Found6()
    ensures C.Lookup([68, 66, 83, 73, 90, 69]) == C.DBSIZE
    ensures C.Lookup([80, 69, 88, 80, 73, 82, 69]) == C.PEXPIRE
    ensures C.Lookup([70, 76, 85, 83, 72, 68, 66]) == C.FLUSHDB
    ensures C.Lookup([72, 71, 69, 84, 65, 76, 76]) == C.HGETALL
  {
  }

  lemma Spelled7()
    ensures NameBytes(C.HEXISTS) == [72, 69, 88, 73, 83, 84, 83]
    ensures NameBytes(C.COMMAND) == [67, 79, 77, 77, 65, 78, 68]
    ensures NameBytes(C.EXPIREAT) == [69, 88, 80, 73, 82, 69, 65, 84]
    ensures NameBytes(C.PEXPIREAT) == [80, 69, 88, 80, 73, 82, 69, 65, 84]
  {
  }

  lemma Found7()
    ensures C.Lookup([72, 69, 88, 73, 83, 84, 83]) == C.HEXISTS
    ensures C.Lookup([67, 79, 77, 77, 65, 78, 68]) == C.COMMAND
    ensures C.Lookup([69, 88, 80, 73, 82, 69, 65, 84]) == C.EXPIREAT
    ensures C.Lookup([80, 69, 88, 80, 73, 82, 69, 65, 84]) == C.PEXPIREAT
  {
  }

  lemma Spelled8()
    ensures NameBytes(C.BGREWRITEAOF) == [66, 71, 82, 69, 87, 82, 73, 84, 69, 65, 79, 70]
  {
  }

  lemma Found8()
    ensures C.Lookup([66, 71, 82, 69, 87, 82, 73, 84, 69, 65, 79, 70]) == C.BGREWRITEAOF
  {
  }

  predicate Short(v: Verb) {
    v == C.SET || v == C.GET || v == C.DEL || v == C.TTL || v == C.MGET
    || v == C.MSET || v == C.INCR || v == C.DECR || v == C.PTTL || v == C.TYPE
    || v == C.HSET || v == C.HGET || v == C.HDEL || v == C.HLEN || v == C.PING
    || v == C.ECHO || v == C.KEYS || v == C.INFO || v == C.QUIT || v == C.HMGET
  }

  predicate Long(v: Verb) {
    v == C.HKEYS || v == C.HVALS || v == C.EXISTS || v == C.EXPIRE || v == C.DBSIZE
    || v == C.PEXPIRE || v == C.FLUSHDB || v == C.HGETALL || v == C.HEXISTS || v == C.COMMAND
    || v == C.EXPIREAT || v == C.PEXPIREAT || v == C.BGREWRITEAOF
  }

  lemma ShortFound(v: Verb)
    requires Short(v)
    ensures v != C.UNKNOWN && C.Lookup(NameBytes(v)) == v
  {
    hide NameBytes, C.Lookup;
    Spelled0();
    Found0();
    Spelled1();
    Found1();
    Spelled2();
    Found2();
    Spelled3();
    Found3();
    Spelled4();
    Found4();
  }

  lemma LongFound(v: Verb)
    requires Long(v)
    ensures v != C.UNKNOWN && C.Lookup(NameBytes(v)) == v
  {
    hide NameBytes, C.Lookup;
    Spelled5();
    Found5();
    Spelled6();
    Found6();
    Spelled7();
    Found7();
    Spelled8();
    Found8();
  }

  lemma NamedIsFound(v: Verb)
    requires v != C.UNKNOWN
    ensures C.Lookup(NameBytes(v)) == v
  {
    hide NameBytes, C.Lookup;
    if Short(v) {
      ShortFound(v);
    } else {
      LongFound(v);
    }
  }

  /** A name that is found has the length and the bytes of the name of what is found. */
  lemma FoundIsNamed(name: bytes, v: Verb)
    requires v != C.UNKNOWN && C.Lookup(name) == v
    ensures name == NameBytes(v)
  {
    NamedIsFound(v);
    hide NameBytes;
    OneNamePerVerb(name, NameBytes(v));
  }

  function LengthOf(v: Verb): nat {
    if v == C.SET || v == C.GET || v == C.DEL || v == C.TTL then 3
    else if v == C.HMGET || v == C.HKEYS || v == C.HVALS then 5
    else if v == C.EXISTS || v == C.EXPIRE || v == C.DBSIZE then 6
    else if v == C.PEXPIRE || v == C.FLUSHDB || v == C.HGETALL || v == C.HEXISTS || v == C.COMMAND then 7
    else if v == C.EXPIREAT then 8
    else if v == C.PEXPIREAT then 9
    else if v == C.BGREWRITEAOF then 12
    else 4
  }

  lemma FoundLength(name: bytes)
    requires C.Lookup(name) != C.UNKNOWN
    ensures |name| == LengthOf(C.Lookup(name))
  {
  }

  lemma OneNamePerVerb(a: bytes, b: bytes)
    requires C.Lookup(a) == C.Lookup(b) != C.UNKNOWN
    ensures a == b
  {
    hide LengthOf;
    FoundLength(a);
    FoundLength(b);
    hide C.Lookup3, C.Lookup4, C.Lookup5, C.Lookup6, C.Lookup7, C.Lookup8, C.Lookup9, C.Lookup12;
    if |a| == 4 {
      OneOfFour(a, b);
    } else {
      OneOfOthers(a, b);
    }
  }

  lemma OneOfFour(a: bytes, b: bytes)
    requires |a| == |b| == 4 && C.Lookup4(a) == C.Lookup4(b) != C.UNKNOWN
    ensures a == b
  {
  }

  lemma OneOfOthers(a: bytes, b: bytes)
    requires |a| == |b| && |a| != 4 && C.Lookup(a) == C.Lookup(b) != C.UNKNOWN
    ensures a == b
  {
    hide C.Lookup4;
  }

  /** Every command is found under its name and under no other. */
  lemma LookupIs(name: bytes, v: Verb)
    requires v != C.UNKNOWN
    ensures C.Lookup(name) == v <==> name == NameBytes(v)
  {
    hide NameBytes, C.Lookup;
    NamedIsFound(v);
    if C.Lookup(name) == v {
      FoundIsNamed(name, v);
    }
  }

  // --------------------------------------------------------- from the wire

  lemma CapitalsAreTheName(w: bytes, v: Verb)
    requires v != C.UNKNOWN && SameLetters(w, NameBytes(v))
    ensures UpperName(w) == NameBytes(v) && IsUtf8(w)
  {
    var name := NameBytes(v);
    NamesAreAscii(v);
    assert forall i :: 0 <= i < |name| ==> !IsLower(name[i]) && name[i] < 128;
    UpperMeans(name);
    SameCapitals(w, name);
    assert Upper(name) == name;
    assert IsAscii(w);
    AsciiIsUtf8(w);
  }

  /** Any spelling of a command's name, in small or capital letters, reaches that command. */
  lemma SpellingReaches(w: bytes, args: seq<bytes>, v: Verb)
    requires v != C.UNKNOWN && SameLetters(w, NameBytes(v))
    ensures C.Lookup(CommandFrom([w] + args).name) == v && CommandFrom([w] + args).args == args
  {
    hide NameBytes, C.Lookup, UpperName;
    CapitalsAreTheName(w, v);
    NamedIsFound(v);
    assert ([w] + args)[1..] == args;
  }

  /** A frame whose first part is not text is refused. */
  lemma NameMustBeText(parts: seq<bytes>, rest: bytes, lim: Limits)
    requires parts != [] && !IsUtf8(parts[0])
    ensures NextCommand(FrameOf(parts) + rest, lim).Malformed?
  {
    hide ParseValue, Encode, ParseElements, IsUtf8;
    var vs := Bulks(parts);
    BulksSeen(parts);
    if FrameFits(parts, lim) {
      RoundTrip(List(vs), rest, lim);
      var seen := SeenAll(vs);
      assert forall i :: 0 <= i < |seen| ==> Argument(seen[i]) == Some(parts[i]);
      assert Arguments(seen).value == parts;
    } else {
      ListHead(vs, rest, lim);
      if |parts| <= lim.maxArray && |parts| <= I32_MAX {
        var bad :| 0 <= bad < |parts| && !(|parts[bad]| <= lim.maxBulk && |parts[bad]| <= I32_MAX);
        BulksRefused(parts, bad, rest, lim);
      }
    }
  }

  /** Two frames whose names differ only in letter case are the same request. */
  lemma CaseDoesNotMatter(name: bytes, other: bytes, args: seq<bytes>, rest: bytes, lim: Limits)
    requires SameLetters(name, other)
    ensures NextCommand(FrameOf([name] + args) + rest, lim) == NextCommand(FrameOf([other] + args) + rest, lim)
  {
    hide NextCommand, FrameOf, IsUtf8, UpperName, SameLetters, FrameFits;
    var a, b := [name] + args, [other] + args;
    TextAgrees(name, other);
    NamesAgree(name, other);
    SameLength(name, other);
    if IsUtf8(name) {
      FrameDecodes(a, rest, lim);
      FrameDecodes(b, rest, lim);
      assert a[1..] == args && b[1..] == args;
      SameFit(name, other, args, lim);
      FrameLength(a);
      FrameLength(b);
      SameSize(name, other, args);
    } else {
      NameMustBeText(a, rest, lim);
      NameMustBeText(b, rest, lim);
    }
  }

  lemma SameFit(a: bytes, b: bytes, args: seq<bytes>, lim: Limits)
    requires |a| == |b|
    ensures FrameFits([a] + args, lim) <==> FrameFits([b] + args, lim)
  {
    var x, y := [a] + args, [b] + args;
    assert forall i :: 0 <= i < |x| ==> |x[i]| == |y[i]|;
  }

  lemma SameSize(a: bytes, b: bytes, args: seq<bytes>)
    requires |a| == |b|
    ensures FrameSize([a] + args) == FrameSize([b] + args)
  {
    hide Digits;
    assert ([a] + args)[1..] == args && ([b] + args)[1..] == args;
  }

  /** So the request a spelling of a command's name makes, with these arguments, is that command on them. */
  lemma RequestReaches(w: bytes, args: seq<bytes>, rest: bytes, lim: Limits, v: Verb)
    requires v != C.UNKNOWN && SameLetters(w, NameBytes(v)) && FrameFits([w] + args, lim)
    ensures var r := NextCommand(FrameOf([w] + args) + rest, lim);
            r.Parsed? && C.Lookup(r.value.name) == v && r.value.args == args
  {
    hide NextCommand, FrameOf, IsUtf8, UpperName, NameBytes, C.Lookup, FrameFits, SameLetters;
    CapitalsAreTheName(w, v);
    SpellingReaches(w, args, v);
    FrameDecodes([w] + args, rest, lim);
  }

  // ------------------------------------------------------------ the last one

  /** The request that closes a connection is QUIT and no other. */
  lemma QuitIsTerminal(c: Command)
    ensures IsTerminal(c) <==> C.Lookup(c.name) == C.QUIT
  {
    LookupIs(c.name, C.QUIT);
    assert QUIT_NAME == Word("QUIT");
  }

  /** Draining stops for good at the first QUIT, and only there. */
  lemma {:induction false} DrainQuits(s: bytes, lim: Limits)
    ensures var d := Drain(s, lim, true);
            && (d.ending.Quit? <==> d.requests != [] && C.Lookup(d.requests[|d.requests| - 1].command.name) == C.QUIT)
            && forall i :: 0 <= i < |d.requests| - 1 ==> C.Lookup(d.requests[i].command.name) != C.QUIT
    decreases |s|
  {
    hide NextCommand, C.Lookup, IsTerminal, Drain;
    if NextCommand(s, lim).Parsed? {
      DrainStep(s, lim, true);
      var r := NextCommand(s, lim);
      QuitIsTerminal(r.value);
      if !IsTerminal(r.value) {
        DrainQuits(s[r.used..], lim);
      }
    } else {
      DrainStops(s, lim, true);
    }
  }

  /**
   * Over a whole connection, however it is read: it is closed exactly when the
   * last request dispatched is QUIT, and no earlier one is.
   */
  lemma {:induction false} ClosedByQuit(chunks: seq<bytes>, lim: Limits)
    ensures var c := FeedAll(chunks, lim, true);
            && (c.status.Closed?
                <==> c.dispatched != [] && C.Lookup(c.dispatched[|c.dispatched| - 1].command.name) == C.QUIT)
            && forall i :: 0 <= i < |c.dispatched| - 1 ==> C.Lookup(c.dispatched[i].command.name) != C.QUIT
  {
    hide C.Lookup, Drain;
    if chunks != [] {
      var m := |chunks| - 1;
      ClosedByQuit(chunks[..m], lim);
      var before := FeedAll(chunks[..m], lim, true);
      if Takes(before, chunks[m], lim) {
        DrainQuits(before.buffer + chunks[m], lim);
        var d := Drain(before.buffer + chunks[m], lim, true);
        var all := before.dispatched + d.requests;
        assert d.requests == [] ==> all == before.dispatched;
      }
    }
  }
}
