/**
 * Command execution on the live keys: argument checks, option parsing, the loops
 * over multi-argument commands, and the registry's tables. `Exec` is what one
 * command does at one clock reading; `Dispatch.dfy` runs it on the store object.
 */
module Commands {
  import opened Bytes
  import opened Resp
  import opened Keyspace

  /** One reading of the monotonic clock and of the wall clock (milliseconds since 1970). */
  datatype Clock = Clock(instant: Instant, unixMs: nat)

  // ------------------------------------------------------------- registry

  datatype Verb =
    | SET | GET | DEL | EXISTS | MGET | MSET | INCR | DECR
    | EXPIRE | PEXPIRE | EXPIREAT | PEXPIREAT | TTL | PTTL | TYPE | FLUSHDB
    | HSET | HGET | HDEL | HGETALL | HMGET | HKEYS | HVALS | HLEN
    | HEXISTS | PING | ECHO | DBSIZE | KEYS | INFO | COMMAND | BGREWRITEAOF
    | QUIT
    | UNKNOWN

  /** The registered commands, by the length of their names. */
  function Lookup(name: bytes): Verb {
    if |name| == 3 then Lookup3(name)
    else if |name| == 4 then Lookup4(name)
    else if |name| == 5 then Lookup5(name)
    else if |name| == 6 then Lookup6(name)
    else if |name| == 7 then Lookup7(name)
    else if |name| == 8 then Lookup8(name)
    else if |name| == 9 then Lookup9(name)
    else if |name| == 12 then Lookup12(name)
    else UNKNOWN
  }

  function Lookup3(name: bytes): Verb {
    if name == [83, 69, 84] then SET
    else if name == [71, 69, 84] then GET
    else if name == [68, 69, 76] then DEL
    else if name == [84, 84, 76] then TTL
    else UNKNOWN
  }

  function Lookup4(name: bytes): Verb
    requires |name| == 4
  {
    if name[0] == 72 then LookupH4(name) else if name[0] < 75 then LookupLow4(name) else LookupHigh4(name)
  }

  function LookupH4(name: bytes): Verb {
    if name == [72, 83, 69, 84] then HSET
    else if name == [72, 71, 69, 84] then HGET
    else if name == [72, 68, 69, 76] then HDEL
    else if name == [72, 76, 69, 78] then HLEN
    else UNKNOWN
  }

  function LookupLow4(name: bytes): Verb {
    if name == [73, 78, 67, 82] then INCR
    else if name == [68, 69, 67, 82] then DECR
    else if name == [69, 67, 72, 79] then ECHO
    else if name == [73, 78, 70, 79] then INFO
    else UNKNOWN
  }

  function LookupHigh4(name: bytes): Verb {
    if name == [77, 71, 69, 84] then MGET
    else if name == [77, 83, 69, 84] then MSET
    else if name == [80, 84, 84, 76] then PTTL
    else if name == [84, 89, 80, 69] then TYPE
    else if name == [80, 73, 78, 71] then PING
    else if name == [75, 69, 89, 83] then KEYS
    else if name == [81, 85, 73, 84] then QUIT
    else UNKNOWN
  }

  function Lookup5(name: bytes): Verb {
    if name == [72, 77, 71, 69, 84] then HMGET
    else if name == [72, 75, 69, 89, 83] then HKEYS
    else if name == [72, 86, 65, 76, 83] then HVALS
    else UNKNOWN
  }

  function Lookup6(name: bytes): Verb {
    if name == [69, 88, 73, 83, 84, 83] then EXISTS
    else if name == [69, 88, 80, 73, 82, 69] then EXPIRE
    else if name == [68, 66, 83, 73, 90, 69] then DBSIZE
    else UNKNOWN
  }

  function Lookup7(name: bytes): Verb {
    if name == [80, 69, 88, 80, 73, 82, 69] then PEXPIRE
    else if name == [70, 76, 85, 83, 72, 68, 66] then FLUSHDB
    else if name == [72, 71, 69, 84, 65, 76, 76] then HGETALL
    else if name == [72, 69, 88, 73, 83, 84, 83] then HEXISTS
    else if name == [67, 79, 77, 77, 65, 78, 68] then COMMAND
    else UNKNOWN
  }

  function Lookup8(name: bytes): Verb {
    if name == [69, 88, 80, 73, 82, 69, 65, 84] then EXPIREAT
    else UNKNOWN
  }

  function Lookup9(name: bytes): Verb {
    if name == [80, 69, 88, 80, 73, 82, 69, 65, 84] then PEXPIREAT
    else UNKNOWN
  }

  function Lookup12(name: bytes): Verb {
    if name == [66, 71, 82, 69, 87, 82, 73, 84, 69, 65, 79, 70] then BGREWRITEAOF
    else UNKNOWN
  }

  /** Accepted totals, the command name included. */
  predicate ArityOk(v: Verb, total: nat) {
    match v
    case SET => total >= 3
    case DEL => total >= 2
    case EXISTS => total >= 2
    case MGET => total >= 2
    case MSET => total >= 3
    case EXPIRE => 3 <= total <= 4
    case PEXPIRE => 3 <= total <= 4
    case EXPIREAT => 3 <= total <= 4
    case PEXPIREAT => 3 <= total <= 4
    case FLUSHDB => 1 <= total <= 2
    case HSET => total >= 4
    case HGET => total == 3
    case HDEL => total >= 3
    case HMGET => total >= 3
    case HEXISTS => total == 3
    case PING => 1 <= total <= 2
    case INFO => 1 <= total <= 2
    case COMMAND => total >= 1
    case DBSIZE => total == 1
    case BGREWRITEAOF => total == 1
    case QUIT => total == 1
    case UNKNOWN => false
    case _ => total == 2
  }

  /** Commands recorded in the append-only file when they succeed. */
  predicate IsMutation(v: Verb) {
    v in {SET, DEL, MSET, INCR, DECR, EXPIRE, PEXPIRE, EXPIREAT, PEXPIREAT, HSET, HDEL, FLUSHDB}
  }

  /** Commands the recovery registry knows. */
  predicate ReplayKnows(v: Verb) {
    v in {SET, GET, DEL, EXISTS, MSET, EXPIRE, TTL, PEXPIRE, EXPIREAT, PEXPIREAT, INCR, DECR,
          HSET, HGET, HDEL, HGETALL, HEXISTS, FLUSHDB}
  }

  // -------------------------------------------------------------- replies

  datatype Kind = NoKey | StringKind | IntegerKind | HashKind | ListKind

  /**
   * Replies. Those that list a hash are unordered, like the table they come from;
   * HVALS is kept per field, finer than what the client gets to see. `Report`
   * stands for the administrative texts of DBSIZE, KEYS, INFO, COMMAND and
   * BGREWRITEAOF.
   */
  datatype Reply =
    | Status(text: bytes)
    | Payload(data: Option<bytes>)
    | Count(n: int)
    | Values(values: seq<Option<bytes>>)
    | FieldMap(fields: map<bytes, bytes>)
    | FieldNames(names: set<bytes>)
    | FieldValues(byField: map<bytes, bytes>)
    | TypeName(kind: Kind)
    | Report

  datatype Refusal =
    WrongArity | NotText | Syntax | BadInteger | BadExpire | WrongKind | WouldOverflow | NoSuchCommand

  datatype Answer = Done(reply: Reply) | Refused(why: Refusal)

  /** What a command answers and the keys it leaves. */
  datatype Effect = Effect(result: Answer, keys: Keys)

  const OK_REPLY := Done(Status([79, 75]))

  function FailureOf(f: Failure): Refusal {
    match f
    case WrongType => WrongKind
    case NotAnInteger => BadInteger
    case Overflow => WouldOverflow
  }

  /** A value as text, the way the server prints it. */
  function Display(v: Value): bytes {
    match v
    case Str(b) => Lossy(b)
    case Int(i) => Decimal(i)
    case Hash(_) => [40, 104, 97, 115, 104, 41]
    case Items(_) => [40, 108, 105, 115, 116, 41]
  }

  // ------------------------------------------------------------------ SET

  datatype TtlChoice =
    | Default
    | Keep
    | Seconds(n: nat)
    | Milliseconds(n: nat)
    | UnixSeconds(n: nat)
    | UnixMilliseconds(n: nat)

  datatype SetOptions = SetOptions(ttl: TtlChoice, existence: Existence, get: bool)

  datatype Choice<+T> = Picked(value: T) | Rejected(why: Refusal)

  const NO_OPTIONS := SetOptions(Default, Always, false)

  datatype Token = NX_TOKEN | XX_TOKEN | KEEPTTL_TOKEN | GET_TOKEN | TTL_TOKEN(unit: bytes) | OTHER_TOKEN

  const EX: bytes := [69, 88]
  const PX: bytes := [80, 88]
  const EXAT: bytes := [69, 88, 65, 84]
  const PXAT: bytes := [80, 88, 65, 84]

  function TokenOf(arg: bytes): Token {
    if !IsUtf8(arg) then OTHER_TOKEN
    else
      var t := Upper(arg);
      if t == [78, 88] then NX_TOKEN
      else if t == [88, 88] then XX_TOKEN
      else if t == [75, 69, 69, 80, 84, 84, 76] then KEEPTTL_TOKEN
      else if t == [71, 69, 84] then GET_TOKEN
      else if t == EX || t == PX || t == EXAT || t == PXAT then TTL_TOKEN(t)
      else OTHER_TOKEN
  }

  /** The deadline option `unit n`. */
  function TtlChoiceOf(unit: bytes, arg: bytes): Choice<TtlChoice> {
    if !IsUtf8(arg) then Rejected(BadInteger)
    else
      match ParseUnsigned(arg, U64_MAX)
      case None => Rejected(BadInteger)
      case Some(n) =>
        if (unit == EX || unit == PX) && n == 0 then Rejected(BadExpire)
        else if unit == EX then Picked(Seconds(n))
        else if unit == PX then Picked(Milliseconds(n))
        else if unit == EXAT then Picked(UnixSeconds(n))
        else Picked(UnixMilliseconds(n))
  }

  /** Options after key and value; each group (existence, deadline, GET) at most once. */
  function SetOptionsOf(args: seq<bytes>, sofar: SetOptions): Choice<SetOptions>
    decreases |args|
  {
    if args == [] then Picked(sofar)
    else
      match TokenOf(args[0])
      case NX_TOKEN =>
        if !sofar.existence.Always? then Rejected(Syntax)
        else SetOptionsOf(args[1..], sofar.(existence := OnlyIfMissing))
      case XX_TOKEN =>
        if !sofar.existence.Always? then Rejected(Syntax)
        else SetOptionsOf(args[1..], sofar.(existence := OnlyIfPresent))
      case KEEPTTL_TOKEN =>
        if !sofar.ttl.Default? then Rejected(Syntax) else SetOptionsOf(args[1..], sofar.(ttl := Keep))
      case GET_TOKEN =>
        if sofar.get then Rejected(Syntax) else SetOptionsOf(args[1..], sofar.(get := true))
      case TTL_TOKEN(unit) =>
        if !sofar.ttl.Default? || |args| == 1 then Rejected(Syntax)
        else
          (match TtlChoiceOf(unit, args[1])
           case Rejected(e) => Rejected(e)
           case Picked(t) => SetOptionsOf(args[2..], sofar.(ttl := t)))
      case OTHER_TOKEN => Rejected(Syntax)
  }

  /** A wall-clock target as an instant; a target not ahead becomes an instant just past. */
  function ResolveUnix(targetMs: nat, at: Clock): Instant {
    if targetMs <= at.unixMs then at.instant - MS else at.instant + (targetMs - at.unixMs) * MS
  }

  function SaturatingSeconds(n: nat): nat {
    if n * 1000 > U64_MAX then U64_MAX else n * 1000
  }

  function ResolveTtl(t: TtlChoice, at: Clock): TtlOption {
    match t
    case Default => NoTtl
    case Keep => KeepTtl
    case Seconds(n) => At(at.instant + n * SECOND)
    case Milliseconds(n) => At(at.instant + n * MS)
    case UnixSeconds(n) => At(ResolveUnix(SaturatingSeconds(n), at))
    case UnixMilliseconds(n) => At(ResolveUnix(n, at))
  }

  /** The reply to SET, given what was stored before. */
  function SetReply(get: bool, applied: bool, previous: Option<Entry>): Answer {
    if get then
      match previous
      case None => Done(Payload(None))
      case Some(e) =>
        if e.value.Str? || e.value.Int? then Done(Payload(Some(Display(e.value)))) else Refused(WrongKind)
    else if applied then OK_REPLY
    else Done(Payload(None))
  }

  function ExecSet(args: seq<bytes>, ks: Keys, at: Clock): Effect
    requires |args| >= 2
  {
    if !IsUtf8(args[0]) then Effect(Refused(NotText), ks)
    else
      match SetOptionsOf(args[2..], NO_OPTIONS)
      case Rejected(e) => Effect(Refused(e), ks)
      case Picked(o) =>
        Effect(SetReply(o.get, Allows(o.existence, args[0] in ks), Find(ks, args[0])),
               SetKey(ks, args[0], Str(args[1]), ResolveTtl(o.ttl, at), o.existence))
  }

  // --------------------------------------------------- loops over arguments

  function DelLoop(keys: seq<bytes>, ks: Keys, n: nat): Effect
    decreases |keys|
  {
    if keys == [] then Effect(Done(Count(n)), ks)
    else if !IsUtf8(keys[0]) then Effect(Refused(NotText), ks)
    else DelLoop(keys[1..], Delete(ks, keys[0]), if keys[0] in ks then n + 1 else n)
  }

  function ExistsLoop(keys: seq<bytes>, ks: Keys, n: nat): Answer
    decreases |keys|
  {
    if keys == [] then Done(Count(n))
    else if !IsUtf8(keys[0]) then Refused(NotText)
    else ExistsLoop(keys[1..], ks, if keys[0] in ks then n + 1 else n)
  }

  /** One slot of MGET: values of other kinds read as null. */
  function Slot(ks: Keys, key: Key): Option<bytes> {
    if key !in ks then None
    else
      match ks[key].value
      case Str(b) => Some(b)
      case Int(i) => Some(Decimal(i))
      case _ => None
  }

  function MgetLoop(keys: seq<bytes>, ks: Keys, out: seq<Option<bytes>>): Answer
    decreases |keys|
  {
    if keys == [] then Done(Values(out))
    else if !IsUtf8(keys[0]) then Refused(NotText)
    else MgetLoop(keys[1..], ks, out + [Slot(ks, keys[0])])
  }

  function MsetLoop(args: seq<bytes>, ks: Keys): Effect
    requires |args| % 2 == 0
    decreases |args|
  {
    if args == [] then Effect(OK_REPLY, ks)
    else if !IsUtf8(args[0]) then Effect(Refused(NotText), ks)
    else MsetLoop(args[2..], SetKey(ks, args[0], Str(args[1]), NoTtl, Always))
  }

  function HsetLoop(key: Key, args: seq<bytes>, ks: Keys, n: nat): Effect
    requires |args| % 2 == 0
    decreases |args|
  {
    if args == [] then Effect(Done(Count(n)), ks)
    else if !IsUtf8(args[0]) || !IsUtf8(args[1]) then Effect(Refused(NotText), ks)
    else
      match Fields(ks, key)
      case Err(e) => Effect(Refused(FailureOf(e)), ks)
      case Ok(h) =>
        HsetLoop(key, args[2..], SetField(ks, key, args[0], args[1]), if args[0] in h then n else n + 1)
  }

  function HdelLoop(key: Key, fields: seq<bytes>, ks: Keys, n: nat): Effect
    decreases |fields|
  {
    if fields == [] then Effect(Done(Count(n)), ks)
    else if !IsUtf8(fields[0]) then Effect(Refused(NotText), ks)
    else
      match Fields(ks, key)
      case Err(e) => Effect(Refused(FailureOf(e)), ks)
      case Ok(h) =>
        HdelLoop(key, fields[1..], DeleteField(ks, key, fields[0]), if fields[0] in h then n + 1 else n)
  }

  function HmgetLoop(key: Key, fields: seq<bytes>, ks: Keys, out: seq<Option<bytes>>): Answer
    decreases |fields|
  {
    if fields == [] then Done(Values(out))
    else if !IsUtf8(fields[0]) then Refused(NotText)
    else
      match Fields(ks, key)
      case Err(e) => Refused(FailureOf(e))
      case Ok(h) => HmgetLoop(key, fields[1..], ks, out + [if fields[0] in h then Some(h[fields[0]]) else None])
  }

  // ----------------------------------------------------------- deadlines

  function ExpireFlagOf(args: seq<bytes>): Choice<ExpireFlag> {
    if args == [] then Picked(Unconditional)
    else if |args| > 1 || !IsUtf8(args[0]) then Rejected(Syntax)
    else
      var t := Upper(args[0]);
      if t == [78, 88] then Picked(Nx)
      else if t == [88, 88] then Picked(Xx)
      else if t == [71, 84] then Picked(Gt)
      else if t == [76, 84] then Picked(Lt)
      else Rejected(Syntax)
  }

  function DeadlineOf(v: Verb, n: nat, at: Clock): Instant {
    match v
    case EXPIRE => at.instant + n * SECOND
    case PEXPIRE => at.instant + n * MS
    case EXPIREAT => ResolveUnix(SaturatingSeconds(n), at)
    case _ => ResolveUnix(n, at)
  }

  function ExecExpire(v: Verb, args: seq<bytes>, ks: Keys, at: Clock): Effect
    requires |args| >= 2
  {
    if !IsUtf8(args[0]) then Effect(Refused(NotText), ks)
    else if !IsUtf8(args[1]) then Effect(Refused(BadInteger), ks)
    else
      match ParseUnsigned(args[1], U64_MAX)
      case None => Effect(Refused(BadInteger), ks)
      case Some(n) =>
        match ExpireFlagOf(args[2..])
        case Rejected(e) => Effect(Refused(e), ks)
        case Picked(flag) =>
          var deadline := DeadlineOf(v, n, at);
          Effect(Done(Count(if ExpireApplies(ks, args[0], deadline, flag) then 1 else 0)),
                 ExpireKey(ks, args[0], deadline, flag))
  }

  // --------------------------------------------------------------- others

  function ExecIncr(key: bytes, delta: i64, ks: Keys): Effect {
    if !IsUtf8(key) then Effect(Refused(NotText), ks)
    else
      Effect((match Incremented(ks, key, delta) case Ok(n) => Done(Count(n)) case Err(e) => Refused(FailureOf(e))),
             Increment(ks, key, delta))
  }

  /** FLUSHDB, alone or with SYNC or ASYNC. */
  function ExecFlush(args: seq<bytes>, ks: Keys): Effect {
    if args == [] || (|args| == 1 && (Upper(args[0]) == [83, 89, 78, 67] || Upper(args[0]) == [65, 83, 89, 78, 67]))
    then Effect(OK_REPLY, map[])
    else Effect(Refused(Syntax), ks)
  }

  function KindOf(ks: Keys, key: Key): Kind {
    if key !in ks then NoKey
    else
      match ks[key].value
      case Str(_) => StringKind
      case Int(_) => IntegerKind
      case Hash(_) => HashKind
      case Items(_) => ListKind
  }

  function GetReply(ks: Keys, key: Key): Reply {
    if key !in ks then Payload(None)
    else if ks[key].value.Str? then Payload(Some(ks[key].value.data))
    else Payload(Some(Display(ks[key].value)))
  }

  function HashReply(v: Verb, h: map<bytes, bytes>): Reply {
    match v
    case HGETALL => FieldMap(h)
    case HKEYS => FieldNames(h.Keys)
    case HVALS => FieldValues(h)
    case _ => Count(|h|)
  }

  /** HGET and HEXISTS. */
  function FieldReply(v: Verb, h: map<bytes, bytes>, field: bytes): Reply {
    if v == HEXISTS then Count(if field in h then 1 else 0)
    else Payload(if field in h then Some(h[field]) else None)
  }

  /** Commands that look at one key. */
  function ExecRead(v: Verb, args: seq<bytes>, ks: Keys, at: Clock): Answer
    requires |args| >= 1
  {
    if !IsUtf8(args[0]) then Refused(NotText)
    else if v == GET then Done(GetReply(ks, args[0]))
    else if v == TTL then Done(Count(TimeLeft(ks, args[0], at.instant, SECOND)))
    else if v == PTTL then Done(Count(TimeLeft(ks, args[0], at.instant, MS)))
    else if v == TYPE then Done(TypeName(KindOf(ks, args[0])))
    else
      match Fields(ks, args[0])
      case Err(e) => Refused(FailureOf(e))
      case Ok(h) => Done(HashReply(v, h))
  }

  /** Commands that look at one field of a hash. */
  function ExecFieldRead(v: Verb, args: seq<bytes>, ks: Keys): Answer
    requires |args| == 2
  {
    if !IsUtf8(args[0]) || !IsUtf8(args[1]) then Refused(NotText)
    else
      match Fields(ks, args[0])
      case Err(e) => Refused(FailureOf(e))
      case Ok(h) => Done(FieldReply(v, h, args[1]))
  }

  /** COMMAND: no subcommand, or one of COUNT, LIST, DOCS and INFO. */
  function ExecCommand(args: seq<bytes>): Answer {
    if args == [] then Done(Report)
    else if !IsUtf8(args[0]) then Refused(NotText)
    else if Upper(args[0]) in {[67, 79, 85, 78, 84], [76, 73, 83, 84], [68, 79, 67, 83], [73, 78, 70, 79]}
    then Done(Report)
    else Refused(Syntax)
  }

  /** The verbs whose reply does not read the keys in this model. */
  predicate ReadsNoKeys(v: Verb) {
    v == PING || v == ECHO || v == QUIT || v == KEYS || v == INFO || v == COMMAND || v == DBSIZE || v == BGREWRITEAOF
  }

  function ExecPlain(v: Verb, args: seq<bytes>): Answer
    requires ArityOk(v, |args| + 1) && ReadsNoKeys(v)
  {
    if v == PING then if args == [] then Done(Status([80, 79, 78, 71])) else Done(Payload(Some(args[0])))
    else if v == ECHO then Done(Payload(Some(args[0])))
    else if v == QUIT then OK_REPLY
    else if v == KEYS || v == INFO then
      if args != [] && !IsUtf8(args[0]) then Refused(NotText) else Done(Report)
    else if v == COMMAND then ExecCommand(args)
    else Done(Report)
  }

  /** Commands that leave the keys as they are. */
  function ExecQuiet(v: Verb, args: seq<bytes>, ks: Keys, at: Clock): Answer
    requires ArityOk(v, |args| + 1) && !IsMutation(v)
  {
    if ReadsNoKeys(v) then ExecPlain(v, args)
    else if v == EXISTS then ExistsLoop(args, ks, 0)
    else if v == MGET then MgetLoop(args, ks, [])
    else if v == HMGET then
      if !IsUtf8(args[0]) then Refused(NotText) else HmgetLoop(args[0], args[1..], ks, [])
    else if v == HGET || v == HEXISTS then ExecFieldRead(v, args, ks)
    else ExecRead(v, args, ks, at)
  }

  function ExecMutation(v: Verb, args: seq<bytes>, ks: Keys, at: Clock): Effect
    requires ArityOk(v, |args| + 1) && IsMutation(v)
  {
    if v == SET then ExecSet(args, ks, at)
    else if v == DEL then DelLoop(args, ks, 0)
    else if v == MSET then if |args| % 2 == 1 then Effect(Refused(WrongArity), ks) else MsetLoop(args, ks)
    else if v == INCR then ExecIncr(args[0], 1, ks)
    else if v == DECR then ExecIncr(args[0], -1, ks)
    else if v == HSET then
      if |args| % 2 == 0 then Effect(Refused(WrongArity), ks)
      else if !IsUtf8(args[0]) then Effect(Refused(NotText), ks)
      else HsetLoop(args[0], args[1..], ks, 0)
    else if v == HDEL then
      if !IsUtf8(args[0]) then Effect(Refused(NotText), ks) else HdelLoop(args[0], args[1..], ks, 0)
    else if v == FLUSHDB then ExecFlush(args, ks)
    else ExecExpire(v, args, ks, at)
  }

  /** One command at one clock reading, on the keys alive at that reading. */
  function Exec(c: Command, ks: Keys, at: Clock): Effect {
    var v := Lookup(c.name);
    if v == UNKNOWN then Effect(Refused(NoSuchCommand), ks)
    else if !ArityOk(v, |c.args| + 1) then Effect(Refused(WrongArity), ks)
    else if IsMutation(v) then ExecMutation(v, c.args, ks, at)
    else Effect(ExecQuiet(v, c.args, ks, at), ks)
  }
}
