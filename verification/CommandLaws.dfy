/**
 * What each command answers and leaves, said outright: from the words and numbers
 * a client sends to the reply and the keys.
 */
module CommandLaws {
  import opened Bytes
  import opened Resp
  import opened Keyspace
  import opened Commands
  import opened Meaning
  import opened ArgumentLoops
  import opened Refusals
  import opened SetOptionLaws

  const NIL := Done(Payload(None))

  lemma OkReads()
    ensures OK_REPLY == Done(Status(Word("OK")))
  {
    assert Word("OK") == [79, 75];
  }

  // ------------------------------------------------------------ deadlines

  /** A deadline that many milliseconds after 1970: at the same distance from now, or past if the time is. */
  predicate IsUnixDeadline(d: Instant, targetMs: nat, at: Clock) {
    if targetMs > at.unixMs then d - at.instant == (targetMs - at.unixMs) * 1_000_000 else d < at.instant
  }

  /** Seconds as milliseconds, within 64 bits. */
  function SecondsInMs(n: nat): nat {
    if n <= 0xFFFF_FFFF_FFFF_FFFF / 1000 then n * 1000 else 0xFFFF_FFFF_FFFF_FFFF
  }

  lemma UnixDeadlines(n: nat, at: Clock)
    ensures IsUnixDeadline(ResolveUnix(n, at), n, at)
    ensures IsUnixDeadline(ResolveUnix(SaturatingSeconds(n), at), SecondsInMs(n), at)
  {
  }

  // ------------------------------------------------------------------ SET

  /** Whether the condition of SET holds. */
  predicate Admits(o: SetOptions, present: bool) {
    && (o.existence == OnlyIfMissing ==> !present)
    && (o.existence == OnlyIfPresent ==> present)
  }

  /** The deadline SET leaves. */
  predicate LeavesDeadline(d: Option<Instant>, t: TtlChoice, before: Option<Entry>, at: Clock) {
    match t
    case Default => d == None
    case Keep => d == if before.Some? then before.value.deadline else None
    case Seconds(n) => d == Some(at.instant + n * 1_000_000_000)
    case Milliseconds(n) => d == Some(at.instant + n * 1_000_000)
    case UnixSeconds(n) => d.Some? && IsUnixDeadline(d.value, SecondsInMs(n), at)
    case UnixMilliseconds(n) => d.Some? && IsUnixDeadline(d.value, n, at)
  }

  /** SET with options that are accepted: what it stores, and what it answers with and without GET. */
  lemma SetLaw(c: Command, ks: Keys, at: Clock, o: SetOptions) returns (d: Option<Instant>)
    requires Lookup(c.name) == SET && |c.args| >= 2 && IsUtf8(c.args[0])
    requires SetOptionsOf(c.args[2..], NO_OPTIONS) == Picked(o)
    ensures LeavesDeadline(d, o.ttl, Find(ks, c.args[0]), at)
    ensures var k := c.args[0];
            var e := Exec(c, ks, at);
            && e.keys == (if Admits(o, k in ks) then ks[k := Entry(Str(c.args[1]), d)] else ks)
            && (!o.get ==> e.result == if Admits(o, k in ks) then Done(Status(Word("OK"))) else NIL)
            && (o.get && k !in ks ==> e.result == NIL)
            && (o.get && k in ks && ks[k].value.Int? ==> e.result == Done(Payload(Some(Decimal(ks[k].value.i)))))
            && (o.get && k in ks && ks[k].value.Str? ==> e.result == Done(Payload(Some(Lossy(ks[k].value.data)))))
            && (o.get && k in ks && !ks[k].value.Int? && !ks[k].value.Str? ==> e.result == Refused(WrongKind))
  {
    OkReads();
    hide Lookup, IsUtf8, SetOptionsOf, Lossy, Decimal, ExecQuiet, Word;
    d := DeadlineFor(ks, c.args[0], ResolveTtl(o.ttl, at));
    if o.ttl.UnixSeconds? || o.ttl.UnixMilliseconds? {
      UnixDeadlines(o.ttl.n, at);
    }
  }

  /** SET with options that are not accepted leaves the keys alone. */
  lemma SetRefused(c: Command, ks: Keys, at: Clock)
    requires Lookup(c.name) == SET && |c.args| >= 2 && IsUtf8(c.args[0])
    ensures !Acceptable(Groups(c.args[2..])) ==> Exec(c, ks, at).result.Refused? && Exec(c, ks, at).keys == ks
  {
    OptionsMean(c.args[2..]);
    hide Lookup, IsUtf8, SetOptionsOf, Acceptable, Groups, ExecQuiet;
  }

  lemma OneWord(w: bytes)
    ensures Upper(w) == Word("NX") ==> SetOptionsOf([w], NO_OPTIONS) == Picked(NO_OPTIONS.(existence := OnlyIfMissing))
    ensures Upper(w) == Word("XX") ==> SetOptionsOf([w], NO_OPTIONS) == Picked(NO_OPTIONS.(existence := OnlyIfPresent))
    ensures Upper(w) == Word("GET") ==> SetOptionsOf([w], NO_OPTIONS) == Picked(NO_OPTIONS.(get := true))
    ensures Upper(w) == Word("KEEPTTL") ==> SetOptionsOf([w], NO_OPTIONS) == Picked(NO_OPTIONS.(ttl := Keep))
    ensures TokenOf(w).OTHER_TOKEN? || TokenOf(w).TTL_TOKEN? ==> SetOptionsOf([w], NO_OPTIONS) == Rejected(Syntax)
  {
    TokenMeans(w);
    hide TokenOf, Word, Upper;
    assert [w][1..] == [];
  }

  /** A number as SET and EXPIRE take it: 64 bits without a sign, in decimal. */
  predicate IsCount(b: bytes, n: nat) {
    IsUtf8(b) && ParseUnsigned(b, 0xFFFF_FFFF_FFFF_FFFF) == Some(n)
  }

  lemma OneTimed(w: bytes, b: bytes, n: nat)
    requires IsCount(b, n)
    ensures Upper(w) == Word("EX") ==>
              SetOptionsOf([w, b], NO_OPTIONS)
              == if n == 0 then Rejected(BadExpire) else Picked(NO_OPTIONS.(ttl := Seconds(n)))
    ensures Upper(w) == Word("PX") ==>
              SetOptionsOf([w, b], NO_OPTIONS)
              == if n == 0 then Rejected(BadExpire) else Picked(NO_OPTIONS.(ttl := Milliseconds(n)))
    ensures Upper(w) == Word("EXAT") ==>
              SetOptionsOf([w, b], NO_OPTIONS) == Picked(NO_OPTIONS.(ttl := UnixSeconds(n)))
    ensures Upper(w) == Word("PXAT") ==>
              SetOptionsOf([w, b], NO_OPTIONS) == Picked(NO_OPTIONS.(ttl := UnixMilliseconds(n)))
  {
    TokenMeans(w);
    OptionWords();
    hide TokenOf, Word, Upper, IsUtf8, ParseUnsigned;
    assert [w, b][2..] == [];
  }

  /** Every such number has its decimal form. */
  lemma NumberReads(n: nat)
    requires n <= 0xFFFF_FFFF_FFFF_FFFF
    ensures IsCount(Digits(n), n)
  {
    hide Digits, IsUtf8, ParseUnsigned;
    UnsignedRoundTrip(n, U64_MAX);
    DecimalIsPlain(n);
    assert Decimal(n) == Digits(n);
  }

  /** SET k v stores v without a deadline. */
  lemma SetPlain(c: Command, k: Key, v: bytes, ks: Keys, at: Clock)
    requires Lookup(c.name) == SET && c.args == [k, v] && IsUtf8(k)
    ensures Exec(c, ks, at) == Effect(Done(Status(Word("OK"))), ks[k := Entry(Str(v), None)])
  {
    hide Lookup, IsUtf8, Word, Exec;
    assert c.args[2..] == [];
    var d := SetLaw(c, ks, at, NO_OPTIONS);
  }

  /** SET k v NX, in any letter case, only for a key that is not there; XX only for one that is. */
  lemma SetIfMissing(c: Command, k: Key, v: bytes, w: bytes, ks: Keys, at: Clock)
    requires Lookup(c.name) == SET && c.args == [k, v, w] && IsUtf8(k)
    ensures Upper(w) == Word("NX") ==>
              Exec(c, ks, at) == if k in ks then Effect(NIL, ks)
                                 else Effect(Done(Status(Word("OK"))), ks[k := Entry(Str(v), None)])
    ensures Upper(w) == Word("XX") ==>
              Exec(c, ks, at) == if k !in ks then Effect(NIL, ks)
                                 else Effect(Done(Status(Word("OK"))), ks[k := Entry(Str(v), None)])
  {
    hide Lookup, IsUtf8, Word, Upper, Exec;
    assert c.args[2..] == [w];
    OneWord(w);
    if Upper(w) == Word("NX") {
      var d := SetLaw(c, ks, at, NO_OPTIONS.(existence := OnlyIfMissing));
    } else if Upper(w) == Word("XX") {
      var d := SetLaw(c, ks, at, NO_OPTIONS.(existence := OnlyIfPresent));
    }
  }

  /** SET k v KEEPTTL leaves the deadline as it is; SET k v GET answers what was there. */
  lemma SetKeepOrGet(c: Command, k: Key, v: bytes, w: bytes, ks: Keys, at: Clock)
    requires Lookup(c.name) == SET && c.args == [k, v, w] && IsUtf8(k)
    ensures Upper(w) == Word("KEEPTTL") ==>
              Exec(c, ks, at) == Effect(Done(Status(Word("OK"))),
                                        ks[k := Entry(Str(v), if k in ks then ks[k].deadline else None)])
    ensures Upper(w) == Word("GET") && (k in ks ==> ks[k].value.Str? && IsUtf8(ks[k].value.data)) ==>
              Exec(c, ks, at) == Effect(Done(Payload(if k in ks then Some(ks[k].value.data) else None)),
                                        ks[k := Entry(Str(v), None)])
  {
    hide Lookup, IsUtf8, Word, Upper, Exec, Lossy;
    assert c.args[2..] == [w];
    OneWord(w);
    if Upper(w) == Word("KEEPTTL") {
      var d := SetLaw(c, ks, at, NO_OPTIONS.(ttl := Keep));
    } else if Upper(w) == Word("GET") {
      var d := SetLaw(c, ks, at, NO_OPTIONS.(get := true));
      if k in ks && ks[k].value.Str? && IsUtf8(ks[k].value.data) {
        LossyKeepsText(ks[k].value.data);
      }
    }
  }

  /** SET k v EX n and PX n: a deadline that many seconds or milliseconds from now, and zero is refused. */
  lemma SetForAWhile(c: Command, k: Key, v: bytes, w: bytes, b: bytes, n: nat, ks: Keys, at: Clock)
    requires Lookup(c.name) == SET && c.args == [k, v, w, b] && IsUtf8(k) && IsCount(b, n)
    ensures n == 0 && (Upper(w) == Word("EX") || Upper(w) == Word("PX")) ==>
              Exec(c, ks, at) == Effect(Refused(BadExpire), ks)
    ensures n > 0 && Upper(w) == Word("EX") ==>
              Exec(c, ks, at) == Effect(Done(Status(Word("OK"))),
                                        ks[k := Entry(Str(v), Some(at.instant + n * 1_000_000_000))])
    ensures n > 0 && Upper(w) == Word("PX") ==>
              Exec(c, ks, at) == Effect(Done(Status(Word("OK"))),
                                        ks[k := Entry(Str(v), Some(at.instant + n * 1_000_000))])
  {
    hide Lookup, IsUtf8, Word, Upper, Exec, IsCount, SetOptionsOf;
    assert c.args[2..] == [w, b];
    OneTimed(w, b, n);
    if n == 0 {
      RejectedIsRefused(c, ks, at);
    } else if Upper(w) == Word("EX") {
      var d := SetLaw(c, ks, at, NO_OPTIONS.(ttl := Seconds(n)));
    } else if Upper(w) == Word("PX") {
      var d := SetLaw(c, ks, at, NO_OPTIONS.(ttl := Milliseconds(n)));
    }
  }

  lemma RejectedIsRefused(c: Command, ks: Keys, at: Clock)
    requires Lookup(c.name) == SET && |c.args| >= 2 && IsUtf8(c.args[0])
    ensures var o := SetOptionsOf(c.args[2..], NO_OPTIONS);
            o.Rejected? ==> Exec(c, ks, at) == Effect(Refused(o.why), ks)
  {
    hide Lookup, IsUtf8, SetOptionsOf, ExecQuiet;
  }

  /** SET k v EXAT n and PXAT n: a deadline at that time of the wall clock; a past one makes the key gone at once. */
  lemma SetUntil(c: Command, k: Key, v: bytes, w: bytes, b: bytes, n: nat, ks: Keys, at: Clock)
    returns (d: Instant)
    requires Lookup(c.name) == SET && c.args == [k, v, w, b] && IsUtf8(k) && IsCount(b, n)
    requires Upper(w) == Word("EXAT") || Upper(w) == Word("PXAT")
    ensures IsUnixDeadline(d, if Upper(w) == Word("EXAT") then SecondsInMs(n) else n, at)
    ensures Exec(c, ks, at) == Effect(Done(Status(Word("OK"))), ks[k := Entry(Str(v), Some(d))])
    ensures (if Upper(w) == Word("EXAT") then SecondsInMs(n) else n) <= at.unixMs ==>
              k !in Live(Exec(c, ks, at).keys, at.instant)
  {
    WordsApart();
    hide Lookup, IsUtf8, Word, Upper, Exec, IsCount, SetOptionsOf, SecondsInMs;
    assert c.args[2..] == [w, b];
    OneTimed(w, b, n);
    var choice := if Upper(w) == Word("EXAT") then UnixSeconds(n) else UnixMilliseconds(n);
    var x := SetLaw(c, ks, at, NO_OPTIONS.(ttl := choice));
    d := x.value;
  }

  /** A number that is none is refused. */
  lemma SetNeedsNumber(c: Command, k: Key, v: bytes, w: bytes, n: bytes, ks: Keys, at: Clock)
    requires Lookup(c.name) == SET && c.args == [k, v, w, n] && IsUtf8(k) && IsTtlWord(w)
    requires !IsUtf8(n) || ParseUnsigned(n, 0xFFFF_FFFF_FFFF_FFFF).None?
    ensures Exec(c, ks, at) == Effect(Refused(BadInteger), ks)
  {
    PlainMeans(w);
    hide Lookup, IsUtf8, ParseUnsigned, Exec, TokenOf, IsTtlWord;
    assert c.args[2..] == [w, n];
    RejectedIsRefused(c, ks, at);
  }

  /** A word SET does not know, or one that wants a number and has none, is a syntax error. */
  lemma SetUnknownOption(c: Command, k: Key, v: bytes, w: bytes, ks: Keys, at: Clock)
    requires Lookup(c.name) == SET && c.args == [k, v, w] && IsUtf8(k)
    requires Upper(w) !in {Word("NX"), Word("XX"), Word("GET"), Word("KEEPTTL")}
    ensures Exec(c, ks, at) == Effect(Refused(Syntax), ks)
  {
    TokenMeans(w);
    hide Lookup, IsUtf8, Word, Upper, Exec, TokenOf, SetOptionsOf;
    assert c.args[2..] == [w];
    OneWord(w);
    RejectedIsRefused(c, ks, at);
  }

  // ---------------------------------------------------------------- reading

  /** GET answers a string as it is stored, a number in decimal, and nothing for a key that is not there. */
  lemma GetAnswers(c: Command, k: Key, ks: Keys, at: Clock)
    requires Lookup(c.name) == GET && c.args == [k] && IsUtf8(k)
    ensures Exec(c, ks, at).keys == ks
    ensures k !in ks ==> Exec(c, ks, at).result == NIL
    ensures k in ks && ks[k].value.Str? ==> Exec(c, ks, at).result == Done(Payload(Some(ks[k].value.data)))
    ensures k in ks && ks[k].value.Int? ==> Exec(c, ks, at).result == Done(Payload(Some(Decimal(ks[k].value.i))))
    ensures k in ks && ks[k].value.Hash? ==> Exec(c, ks, at).result == Done(Payload(Some(Word("(hash)"))))
  {
    assert Word("(hash)") == [40, 104, 97, 115, 104, 41];
    hide Lookup, IsUtf8, Decimal, Word, ExecMutation;
  }

  /** What SET stored, GET answers, byte for byte, until something else happens to the key. */
  lemma GetAfterSet(write: Command, read: Command, k: Key, v: bytes, ks: Keys, at: Clock, later: Clock)
    requires Lookup(write.name) == SET && write.args == [k, v] && IsUtf8(k)
    requires Lookup(read.name) == GET && read.args == [k]
    ensures Exec(read, Live(Exec(write, ks, at).keys, later.instant), later).result == Done(Payload(Some(v)))
  {
    hide Lookup, IsUtf8, Exec, Word;
    SetPlain(write, k, v, ks, at);
    GetAnswers(read, k, Live(Exec(write, ks, at).keys, later.instant), later);
  }

  /** What is left of a deadline, in whole units, rounded down. */
  predicate IsLeft(r: int, d: Instant, now: Instant, per: int) {
    r >= 0 && r * per <= d - now < (r + 1) * per
  }

  lemma TimeLeftIs(ks: Keys, key: Key, now: Instant, per: int)
    requires per > 0
    ensures var r := TimeLeft(ks, key, now, per);
            && (key !in ks ==> r == -2)
            && (key in ks && ks[key].deadline.None? ==> r == -1)
            && (key in ks && ks[key].deadline.Some? && ks[key].deadline.value > now ==>
                  IsLeft(r, ks[key].deadline.value, now, per))
            && (key in ks && ks[key].deadline.Some? && ks[key].deadline.value <= now ==> r == -2)
  {
    if key in ks && ks[key].deadline.Some? && ks[key].deadline.value > now {
      var left := ks[key].deadline.value - now;
      var r := left / per;
      assert left == r * per + left % per && 0 <= left % per < per;
      assert (r + 1) * per == r * per + per;
    }
  }

  /** TTL counts whole seconds left and PTTL milliseconds; -1 without a deadline, -2 without the key. */
  lemma TtlAnswers(c: Command, k: Key, ks: Keys, at: Clock) returns (r: int)
    requires (Lookup(c.name) == TTL || Lookup(c.name) == PTTL) && c.args == [k] && IsUtf8(k)
    ensures Exec(c, ks, at) == Effect(Done(Count(r)), ks)
    ensures k !in ks ==> r == -2
    ensures k in ks && ks[k].deadline.None? ==> r == -1
    ensures k in ks && ks[k].deadline.Some? && ks[k].deadline.value > at.instant ==>
              IsLeft(r, ks[k].deadline.value, at.instant, if Lookup(c.name) == TTL then 1_000_000_000 else 1_000_000)
  {
    hide Lookup, IsUtf8, TimeLeft, ExecMutation;
    var per := if Lookup(c.name) == TTL then 1_000_000_000 else 1_000_000;
    TimeLeftIs(ks, k, at.instant, per);
    r := TimeLeft(ks, k, at.instant, per);
  }

  /** TYPE tells the kind of value. */
  lemma TypeAnswers(c: Command, k: Key, ks: Keys, at: Clock)
    requires Lookup(c.name) == TYPE && c.args == [k] && IsUtf8(k)
    ensures Exec(c, ks, at) == Effect(Done(TypeName(
              if k !in ks then NoKey else if ks[k].value.Str? then StringKind else if ks[k].value.Int? then IntegerKind
              else if ks[k].value.Hash? then HashKind else ListKind)), ks)
  {
    hide Lookup, IsUtf8, ExecMutation;
  }

  // --------------------------------------------------------------- counters

  /** A stored number, as an integer or as text that reads as one. */
  predicate HoldsNumber(ks: Keys, k: Key, i: i64) {
    k in ks && match ks[k].value
               case Int(j) => i == j
               case Str(s) => IsUtf8(s) && ParseSigned(s, -0x8000_0000_0000_0000, 0x7FFF_FFFF_FFFF_FFFF) == Some(i)
               case _ => false
  }

  lemma NumberHeld(ks: Keys, k: Key, i: i64)
    requires HoldsNumber(ks, k, i)
    ensures ToInteger(ks[k].value) == Ok(i)
  {
    hide IsUtf8, ParseSigned;
  }

  /** INCR adds one and DECR takes one away, within 64 bits; the key keeps its deadline, other keys stay. */
  lemma CounterLaw(c: Command, k: Key, i: i64, ks: Keys, at: Clock)
    requires (Lookup(c.name) == INCR || Lookup(c.name) == DECR) && c.args == [k] && IsUtf8(k) && HoldsNumber(ks, k, i)
    ensures Lookup(c.name) == INCR ==>
              Exec(c, ks, at) == if i == 0x7FFF_FFFF_FFFF_FFFF then Effect(Refused(WouldOverflow), ks)
                                 else Effect(Done(Count(i + 1)), ks[k := Entry(Int(i + 1), ks[k].deadline)])
    ensures Lookup(c.name) == DECR ==>
              Exec(c, ks, at) == if i == -0x8000_0000_0000_0000 then Effect(Refused(WouldOverflow), ks)
                                 else Effect(Done(Count(i - 1)), ks[k := Entry(Int(i - 1), ks[k].deadline)])
  {
    hide Lookup, IsUtf8, ToInteger, Exec, HoldsNumber;
    CounterRuns(c, k, ks, at);
    NumberHeld(ks, k, i);
    assert k in ks by { NumberThere(ks, k, i); }
  }

  lemma NumberThere(ks: Keys, k: Key, i: i64)
    requires HoldsNumber(ks, k, i)
    ensures k in ks
  {
  }

  lemma CounterRuns(c: Command, k: Key, ks: Keys, at: Clock)
    requires (Lookup(c.name) == INCR || Lookup(c.name) == DECR) && c.args == [k]
    ensures Exec(c, ks, at) == ExecIncr(k, if Lookup(c.name) == INCR then 1 else -1, ks)
  {
    hide Lookup, ExecIncr, ExecQuiet;
  }

  /** From a missing key they give 1 and -1. */
  lemma CounterStarts(c: Command, k: Key, ks: Keys, at: Clock)
    requires (Lookup(c.name) == INCR || Lookup(c.name) == DECR) && c.args == [k] && IsUtf8(k) && k !in ks
    ensures var one := if Lookup(c.name) == INCR then 1 else -1;
            Exec(c, ks, at) == Effect(Done(Count(one)), ks[k := Entry(Int(one), None)])
  {
    hide Lookup, IsUtf8, ToInteger, Exec;
    CounterRuns(c, k, ks, at);
  }

  /** On a key that holds no number they change nothing. */
  lemma CounterRefused(c: Command, k: Key, ks: Keys, at: Clock)
    requires (Lookup(c.name) == INCR || Lookup(c.name) == DECR) && c.args == [k] && IsUtf8(k) && k in ks
    requires forall i: i64 :: !HoldsNumber(ks, k, i)
    ensures Exec(c, ks, at) == Effect(Refused(BadInteger), ks)
  {
    hide Lookup, IsUtf8, ParseSigned, Exec, HoldsNumber;
    CounterRuns(c, k, ks, at);
    if ToInteger(ks[k].value).Ok? {
      NumberRead(ks, k);
      assert false;
    }
  }

  lemma NumberRead(ks: Keys, k: Key)
    requires k in ks && ToInteger(ks[k].value).Ok?
    ensures HoldsNumber(ks, k, ToInteger(ks[k].value).value)
  {
    hide IsUtf8, ParseSigned;
  }

  // --------------------------------------------------------------- deadlines

  predicate IsExpireVerb(v: Verb) {
    v == EXPIRE || v == PEXPIRE || v == EXPIREAT || v == PEXPIREAT
  }

  /** The deadline each of the four asks for with this number. */
  predicate AsksFor(v: Verb, n: nat, at: Clock, d: Instant) {
    && (v == EXPIRE ==> d == at.instant + n * 1_000_000_000)
    && (v == PEXPIRE ==> d == at.instant + n * 1_000_000)
    && (v == EXPIREAT ==> IsUnixDeadline(d, SecondsInMs(n), at))
    && (v == PEXPIREAT ==> IsUnixDeadline(d, n, at))
  }

  lemma FlagWords()
    ensures Word("NX") == [78, 88] && Word("XX") == [88, 88] && Word("GT") == [71, 84] && Word("LT") == [76, 84]
  {
  }

  /** The condition a last word puts on the current deadline; no deadline counts as infinity. */
  predicate Permits(w: bytes, current: Option<Instant>, d: Instant) {
    if Upper(w) == Word("NX") then current.None?
    else if Upper(w) == Word("XX") then current.Some?
    else if Upper(w) == Word("GT") then current.Some? && d > current.value
    else Upper(w) == Word("LT") && (current.None? || d < current.value)
  }

  predicate IsFlagWord(w: bytes) {
    Upper(w) == Word("NX") || Upper(w) == Word("XX") || Upper(w) == Word("GT") || Upper(w) == Word("LT")
  }

  lemma FlagMeans(w: bytes, current: Option<Instant>, d: Instant)
    ensures ExpireFlagOf([w]).Picked? <==> IsFlagWord(w)
    ensures ExpireFlagOf([w]).Rejected? ==> ExpireFlagOf([w]) == Rejected(Syntax)
    ensures IsFlagWord(w) ==> (Replaces(ExpireFlagOf([w]).value, current, d) <==> Permits(w, current, d))
  {
    FlagWords();
    hide Word, IsUtf8, Upper;
    if IsAscii(Upper(w)) {
      CapitalsOfText(w);
    }
  }

  lemma AskedDeadline(v: Verb, n: nat, at: Clock)
    requires IsExpireVerb(v)
    ensures AsksFor(v, n, at, DeadlineOf(v, n, at))
  {
    UnixDeadlines(n, at);
    hide ResolveUnix, SaturatingSeconds, SecondsInMs;
  }

  lemma ExpireRuns(c: Command, k: Key, n: nat, ks: Keys, at: Clock)
    requires IsExpireVerb(Lookup(c.name)) && 2 <= |c.args| <= 3 && c.args[0] == k && IsUtf8(k)
    requires IsCount(c.args[1], n)
    ensures var flag := ExpireFlagOf(c.args[2..]);
            var d := DeadlineOf(Lookup(c.name), n, at);
            Exec(c, ks, at)
            == if flag.Rejected? then Effect(Refused(flag.why), ks)
               else Effect(Done(Count(if ExpireApplies(ks, k, d, flag.value) then 1 else 0)),
                           ExpireKey(ks, k, d, flag.value))
  {
    hide Lookup, IsUtf8, ParseUnsigned, ExpireFlagOf, DeadlineOf, ExpireKey, ExpireApplies, ExecQuiet;
  }

  /** EXPIRE and its kin without a condition: a key gets the deadline, and the answer says whether it was there. */
  lemma ExpireLaw(c: Command, k: Key, b: bytes, n: nat, ks: Keys, at: Clock) returns (d: Instant)
    requires IsExpireVerb(Lookup(c.name)) && c.args == [k, b] && IsUtf8(k) && IsCount(b, n)
    ensures AsksFor(Lookup(c.name), n, at, d)
    ensures Exec(c, ks, at) == if k in ks then Effect(Done(Count(1)), ks[k := Entry(ks[k].value, Some(d))])
                               else Effect(Done(Count(0)), ks)
  {
    hide Lookup, IsUtf8, IsCount, Exec, DeadlineOf, AsksFor;
    d := DeadlineOf(Lookup(c.name), n, at);
    AskedDeadline(Lookup(c.name), n, at);
    ExpireRuns(c, k, n, ks, at);
    assert c.args[2..] == [];
  }

  /** With NX, XX, GT or LT, in any letter case: only where the word permits; and any other word is refused. */
  lemma ExpireIf(c: Command, k: Key, b: bytes, n: nat, w: bytes, ks: Keys, at: Clock) returns (d: Instant)
    requires IsExpireVerb(Lookup(c.name)) && c.args == [k, b, w] && IsUtf8(k) && IsCount(b, n)
    ensures AsksFor(Lookup(c.name), n, at, d)
    ensures !IsFlagWord(w) ==> Exec(c, ks, at) == Effect(Refused(Syntax), ks)
    ensures IsFlagWord(w) ==>
              Exec(c, ks, at) == if k in ks && Permits(w, ks[k].deadline, d)
                                 then Effect(Done(Count(1)), ks[k := Entry(ks[k].value, Some(d))])
                                 else Effect(Done(Count(0)), ks)
  {
    hide Lookup, IsUtf8, IsCount, Exec, DeadlineOf, AsksFor, ExpireFlagOf, IsFlagWord, Permits, Replaces, Upper, Word;
    d := DeadlineOf(Lookup(c.name), n, at);
    AskedDeadline(Lookup(c.name), n, at);
    ExpireRuns(c, k, n, ks, at);
    assert c.args[2..] == [w];
    FlagMeans(w, if k in ks then ks[k].deadline else None, d);
  }

  /** EXPIRE k n GT spelled out: a later deadline replaces, an earlier one does not, and none stays none. */
  lemma ExpireGreater(c: Command, k: Key, b: bytes, n: nat, w: bytes, ks: Keys, at: Clock)
    requires Lookup(c.name) == EXPIRE && c.args == [k, b, w] && IsUtf8(k) && IsCount(b, n)
    requires Upper(w) == Word("GT") && k in ks
    ensures var d := at.instant + n * 1_000_000_000;
            Exec(c, ks, at) == if ks[k].deadline.Some? && d > ks[k].deadline.value
                               then Effect(Done(Count(1)), ks[k := Entry(ks[k].value, Some(d))])
                               else Effect(Done(Count(0)), ks)
  {
    FlagWords();
    hide Lookup, IsUtf8, IsCount, Exec, Upper, Word;
    var d := ExpireIf(c, k, b, n, w, ks, at);
  }

  /** A number that is none is refused. */
  lemma ExpireNeedsNumber(c: Command, ks: Keys, at: Clock)
    requires IsExpireVerb(Lookup(c.name)) && 2 <= |c.args| <= 3 && IsUtf8(c.args[0])
    requires !IsUtf8(c.args[1]) || ParseUnsigned(c.args[1], 0xFFFF_FFFF_FFFF_FFFF).None?
    ensures Exec(c, ks, at) == Effect(Refused(BadInteger), ks)
  {
    hide Lookup, IsUtf8, ParseUnsigned, ExecQuiet;
  }

  /** A key that is made persistent has no deadline any more, and nothing else changes. */
  lemma PersistMeans(ks: Keys, key: Key, now: Instant)
    requires key in ks
    ensures TimeLeft(Persist(ks, key), key, now, 1_000_000_000) == -1
    ensures key in Persist(ks, key) && Persist(ks, key)[key].value == ks[key].value
    ensures Persist(ks, key) - {key} == ks - {key}
  {
  }

  // ------------------------------------------------------------------ hashes

  predicate IsHashVerb(v: Verb) {
    v == HGETALL || v == HKEYS || v == HVALS || v == HLEN
  }

  /** The commands that list a hash: a missing key is an empty one. */
  lemma HashAnswers(c: Command, k: Key, ks: Keys, at: Clock)
    requires IsHashVerb(Lookup(c.name)) && c.args == [k] && IsUtf8(k) && (k in ks ==> ks[k].value.Hash?)
    ensures var h := if k in ks then ks[k].value.fields else map[];
            && Exec(c, ks, at).keys == ks
            && (Lookup(c.name) == HGETALL ==> Exec(c, ks, at).result == Done(FieldMap(h)))
            && (Lookup(c.name) == HKEYS ==> Exec(c, ks, at).result == Done(FieldNames(h.Keys)))
            && (Lookup(c.name) == HVALS ==> Exec(c, ks, at).result == Done(FieldValues(h)))
            && (Lookup(c.name) == HLEN ==> Exec(c, ks, at).result == Done(Count(|h|)))
  {
    hide Lookup, IsUtf8, ExecMutation;
  }

  /** HGET and HEXISTS. */
  lemma FieldAnswers(c: Command, k: Key, f: bytes, ks: Keys, at: Clock)
    requires (Lookup(c.name) == HGET || Lookup(c.name) == HEXISTS) && c.args == [k, f] && IsUtf8(k) && IsUtf8(f)
    requires k in ks ==> ks[k].value.Hash?
    ensures var there := k in ks && f in ks[k].value.fields;
            && Exec(c, ks, at).keys == ks
            && (Lookup(c.name) == HGET ==>
                  Exec(c, ks, at).result == if there then Done(Payload(Some(ks[k].value.fields[f]))) else NIL)
            && (Lookup(c.name) == HEXISTS ==> Exec(c, ks, at).result == Done(Count(if there then 1 else 0)))
  {
    hide Lookup, IsUtf8, ExecMutation;
  }

  /** Any of them on a key that holds no hash is an error of kind, and changes nothing. */
  lemma NotAHash(c: Command, ks: Keys, at: Clock)
    requires c.args != [] && IsUtf8(c.args[0]) && c.args[0] in ks && !ks[c.args[0]].value.Hash?
    requires || (IsHashVerb(Lookup(c.name)) && |c.args| == 1)
             || ((Lookup(c.name) == HGET || Lookup(c.name) == HEXISTS) && |c.args| == 2 && IsUtf8(c.args[1]))
             || (Lookup(c.name) == HMGET && |c.args| >= 2 && IsUtf8(c.args[1]))
    ensures Exec(c, ks, at) == Effect(Refused(WrongKind), ks)
  {
    hide Lookup, IsUtf8, ExecMutation;
  }

  /** HSET and HDEL likewise, once they have read what they would write or remove first. */
  lemma NoHashToChange(c: Command, ks: Keys, at: Clock)
    requires Loops(c) && (Lookup(c.name) == HSET || Lookup(c.name) == HDEL)
    requires IsUtf8(c.args[0]) && c.args[0] in ks && !ks[c.args[0]].value.Hash?
    requires IsUtf8(c.args[1]) && (Lookup(c.name) == HSET ==> IsUtf8(c.args[2]))
    ensures Exec(c, ks, at) == Effect(Refused(WrongKind), ks)
  {
    hide Lookup, IsUtf8, Exec, HsetLoop, HdelLoop, Readable;
    ExecIsLoop(c, ks, at);
    var rest := c.args[1..];
    if Lookup(c.name) == HSET {
      HsetWrongType(c.args[0], rest, ks, 0);
      ReadableOnce(rest, 2, true);
    } else {
      HdelWrongType(c.args[0], rest, ks, 0);
      ReadableOnce(rest, 1, true);
    }
  }

  /** What HSET stored in a field, HGET answers; the key keeps its deadline. */
  lemma HgetAfterHset(write: Command, read: Command, k: Key, f: bytes, v: bytes, ks: Keys, at: Clock)
    requires Lookup(write.name) == HSET && write.args == [k, f, v] && Lookup(read.name) == HGET && read.args == [k, f]
    requires IsUtf8(k) && IsUtf8(f) && IsUtf8(v) && (k in ks ==> ks[k].value.Hash?)
    ensures Exec(write, ks, at).result == Done(Count(if k in ks && f in ks[k].value.fields then 0 else 1))
    ensures Exec(read, Exec(write, ks, at).keys, at).result == Done(Payload(Some(v)))
    ensures Exec(write, ks, at).keys - {k} == ks - {k}
    ensures k in Exec(write, ks, at).keys && Exec(write, ks, at).keys[k].deadline == KeptDeadline(ks, k)
  {
    var e := Exec(write, ks, at);
    HsetOneField(write, k, f, v, ks, at);
    hide Lookup, IsUtf8, Exec;
    FieldAnswers(read, k, f, e.keys, at);
  }

  lemma HsetOneField(c: Command, k: Key, f: bytes, v: bytes, ks: Keys, at: Clock)
    requires Lookup(c.name) == HSET && c.args == [k, f, v] && IsUtf8(k) && IsUtf8(f) && IsUtf8(v)
    requires k in ks ==> ks[k].value.Hash?
    ensures var h := if k in ks then ks[k].value.fields else map[];
            Exec(c, ks, at) == Effect(Done(Count(if f in h then 0 else 1)),
                                      ks[k := Entry(Hash(h[f := v]), KeptDeadline(ks, k))])
  {
    hide Lookup, IsUtf8, Exec, HsetLoop;
    var pair: seq<bytes> := [f, v];
    assert c.args[1..] == pair && pair[2..] == [];
    ExecIsLoop(c, ks, at);
    HsetOnce(k, pair, ks, 0);
    HsetOnce(k, [], SetField(ks, k, f, v), 0);
    HsetOnce(k, [], SetField(ks, k, f, v), 1);
  }

  // ------------------------------------------------------- loops and the rest

  /** EXISTS, MGET and HMGET are the loops over their arguments. */
  lemma ReadLoops(c: Command, ks: Keys, at: Clock)
    requires c.args != []
    ensures Lookup(c.name) == EXISTS ==> Exec(c, ks, at) == Effect(ExistsLoop(c.args, ks, 0), ks)
    ensures Lookup(c.name) == MGET ==> Exec(c, ks, at) == Effect(MgetLoop(c.args, ks, []), ks)
    ensures Lookup(c.name) == HMGET && |c.args| >= 2 && IsUtf8(c.args[0]) ==>
              Exec(c, ks, at) == Effect(HmgetLoop(c.args[0], c.args[1..], ks, []), ks)
  {
    hide Lookup, IsUtf8, ExistsLoop, MgetLoop, HmgetLoop, ExecMutation;
  }

  /** MGET answers like GET for strings and numbers, and null for anything else. */
  lemma SlotIs(ks: Keys, k: Key)
    ensures k !in ks ==> Slot(ks, k) == None
    ensures k in ks && ks[k].value.Str? ==> Slot(ks, k) == Some(ks[k].value.data)
    ensures k in ks && ks[k].value.Int? ==> Slot(ks, k) == Some(Decimal(ks[k].value.i))
    ensures k in ks && !ks[k].value.Str? && !ks[k].value.Int? ==> Slot(ks, k) == None
  {
  }

  lemma FlushWords()
    ensures Word("SYNC") == [83, 89, 78, 67] && Word("ASYNC") == [65, 83, 89, 78, 67]
  {
  }

  /** FLUSHDB, alone or with SYNC or ASYNC, leaves no key; with another word it leaves them all. */
  lemma FlushLaw(c: Command, ks: Keys, at: Clock)
    requires Lookup(c.name) == FLUSHDB && |c.args| <= 1
    ensures Exec(c, ks, at)
            == if c.args == [] || Upper(c.args[0]) == Word("SYNC") || Upper(c.args[0]) == Word("ASYNC")
               then Effect(Done(Status(Word("OK"))), map[])
               else Effect(Refused(Syntax), ks)
  {
    OkReads();
    FlushWords();
    hide Lookup, Word, Upper, ExecQuiet;
  }

  lemma PlainWords()
    ensures Word("PONG") == [80, 79, 78, 71]
    ensures Word("COUNT") == [67, 79, 85, 78, 84] && Word("LIST") == [76, 73, 83, 84]
    ensures Word("DOCS") == [68, 79, 67, 83] && Word("INFO") == [73, 78, 70, 79]
  {
  }

  /** PING answers PONG or its argument, ECHO its argument, QUIT OK. */
  lemma PlainAnswers(c: Command, ks: Keys, at: Clock)
    ensures Lookup(c.name) == PING && c.args == [] ==> Exec(c, ks, at) == Effect(Done(Status(Word("PONG"))), ks)
    ensures (Lookup(c.name) == PING || Lookup(c.name) == ECHO) && |c.args| == 1 ==>
              Exec(c, ks, at) == Effect(Done(Payload(Some(c.args[0]))), ks)
    ensures Lookup(c.name) == QUIT && c.args == [] ==> Exec(c, ks, at) == Effect(Done(Status(Word("OK"))), ks)
  {
    OkReads();
    PlainWords();
    hide Lookup, Word, ExecMutation;
  }

  /** COMMAND knows COUNT, LIST, DOCS and INFO. */
  lemma CommandAnswers(c: Command, w: bytes, ks: Keys, at: Clock)
    requires Lookup(c.name) == COMMAND && c.args != [] && c.args[0] == w && IsUtf8(w)
    ensures Exec(c, ks, at)
            == Effect(if Upper(w) == Word("COUNT") || Upper(w) == Word("LIST") || Upper(w) == Word("DOCS")
                         || Upper(w) == Word("INFO") then Done(Report) else Refused(Syntax), ks)
  {
    PlainWords();
    hide Lookup, Word, Upper, IsUtf8, ExecMutation;
  }

  /** Commands whose first argument is a key, or the first of several. */
  predicate TakesKey(v: Verb) {
    v !in {PING, ECHO, DBSIZE, KEYS, INFO, COMMAND, BGREWRITEAOF, QUIT, FLUSHDB, UNKNOWN}
  }

  /** A key that is not text is refused, and nothing is done. */
  lemma KeyMustBeText(c: Command, ks: Keys, at: Clock)
    requires TakesKey(Lookup(c.name)) && ArityOk(Lookup(c.name), |c.args| + 1) && !IsUtf8(c.args[0])
    requires Lookup(c.name) == MSET ==> |c.args| % 2 == 0
    requires Lookup(c.name) == HSET ==> |c.args| % 2 == 1
    requires (Lookup(c.name) == HGET || Lookup(c.name) == HEXISTS) ==> |c.args| == 2
    ensures Exec(c, ks, at) == Effect(Refused(NotText), ks)
  {
    if IsMutation(Lookup(c.name)) {
      hide Lookup, IsUtf8, ExecQuiet;
    } else {
      hide Lookup, IsUtf8, ExecMutation;
    }
  }

  // ------------------------------------------------------- the wrong number

  /** How many arguments, the name not counted, each command takes at least, and at most if there is a most. */
  function Fewest(v: Verb): nat {
    if v in {PING, FLUSHDB, INFO, COMMAND, DBSIZE, BGREWRITEAOF, QUIT} then 0
    else if v in {SET, MSET, EXPIRE, PEXPIRE, EXPIREAT, PEXPIREAT, HGET, HDEL, HMGET, HEXISTS} then 2
    else if v == HSET then 3
    else 1
  }

  function Most(v: Verb): Option<nat> {
    if v in {SET, DEL, EXISTS, MGET, MSET, HSET, HDEL, HMGET, COMMAND} then None
    else if v in {DBSIZE, BGREWRITEAOF, QUIT} then Some(0)
    else if v in {EXPIRE, PEXPIRE, EXPIREAT, PEXPIREAT} then Some(3)
    else if v in {HGET, HEXISTS} then Some(2)
    else Some(1)
  }

  lemma ArityIs(v: Verb, n: nat)
    requires v != UNKNOWN
    ensures ArityOk(v, n + 1) <==> Fewest(v) <= n && (Most(v).Some? ==> n <= Most(v).value)
  {
  }

  /** An unknown name or a wrong number of arguments is refused before anything is done. */
  lemma WrongNumber(c: Command, ks: Keys, at: Clock)
    ensures Lookup(c.name) == UNKNOWN ==> Exec(c, ks, at) == Effect(Refused(NoSuchCommand), ks)
    ensures var v := Lookup(c.name);
            v != UNKNOWN && (|c.args| < Fewest(v) || (Most(v).Some? && |c.args| > Most(v).value)) ==>
              Exec(c, ks, at) == Effect(Refused(WrongArity), ks)
  {
    hide Lookup, ArityOk, ExecQuiet, ExecMutation;
    var v := Lookup(c.name);
    if v != UNKNOWN {
      ArityIs(v, |c.args|);
    }
  }
}
