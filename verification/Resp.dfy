/**
 * The RESP2 wire format: what a value's encoding is, what a byte string parses
 * to, and how the two fit together. `ParseValue` reads from the front of a byte
 * string that may be cut off anywhere; the codec class refines it.
 */
module Resp {
  import opened Bytes

  /** Bounds on what a codec accepts from its peer. */
  datatype Limits = Limits(maxBulk: nat, maxArray: nat, maxBuffer: nat)

  const DEFAULT_LIMITS := Limits(512 * 1024 * 1024, 1_048_576, 64 * 1024 * 1024)

  /** What the server sends. */
  datatype Response =
    | Simple(text: bytes)
    | Bulk(payload: Option<bytes>)
    | Number(i: i64)
    | List(items: seq<Response>)
    | Nil

  /** What the parser yields. */
  datatype RespValue =
    | SimpleString(text: bytes)
    | BulkString(payload: Option<bytes>)
    | Integer(i: int)
    | Array(elements: seq<RespValue>)
    | ErrorLine(text: bytes)

  /** A client request: upper-cased command name and raw arguments. */
  datatype Command = Command(name: bytes, args: seq<bytes>)

  /** Reading a possibly unfinished input: wait, refuse, or yield a value and the bytes it used. */
  datatype Outcome<+T> = Incomplete | Malformed | Parsed(value: T, used: nat)

  // ------------------------------------------------------------- encoding

  function Encode(v: Response): bytes {
    match v
    case Simple(s) => [43] + s + CRLF
    case Bulk(Some(b)) => [36] + Digits(|b|) + CRLF + b + CRLF
    case Bulk(None) => [36, 45, 49] + CRLF
    case Nil => [36, 45, 49] + CRLF
    case Number(i) => [58] + Decimal(i) + CRLF
    case List(items) => [42] + Digits(|items|) + CRLF + EncodeAll(items)
  }

  function EncodeAll(vs: seq<Response>): bytes {
    if vs == [] then [] else Encode(vs[0]) + EncodeAll(vs[1..])
  }

  // -------------------------------------------------------------- parsing

  predicate CrlfAt(s: bytes, k: int) {
    0 <= k && k + 1 < |s| && s[k] == 13 && s[k + 1] == 10
  }

  /** Length of the line at the front of `s`, once its CR LF has arrived. */
  function LineLength(s: bytes): (n: Option<nat>)
    ensures n.Some? ==> CrlfAt(s, n.value) && forall k :: 0 <= k < n.value ==> !CrlfAt(s, k)
    ensures n.None? ==> forall k :: !CrlfAt(s, k)
  {
    if |s| < 2 then None
    else if CrlfAt(s, 0) then Some(0)
    else
      var rest := LineLength(s[1..]);
      assert forall k :: k > 0 ==> CrlfAt(s, k) == CrlfAt(s[1..], k - 1);
      if rest.None? then None else Some(rest.value + 1)
  }

  function ReadLine(s: bytes): (r: Outcome<bytes>)
    ensures r.Parsed? ==> r.used <= |s|
  {
    match LineLength(s)
    case None => Incomplete
    case Some(n) => if IsUtf8(s[..n]) then Parsed(s[..n], n + 2) else Malformed
  }

  /** A length prefix: -1 stands for null, anything above `max` is refused. */
  function ParseLength(s: bytes, max: nat): (r: Outcome<int>)
    ensures r.Parsed? ==> r.used <= |s| && -1 <= r.value <= max
  {
    match ReadLine(s)
    case Incomplete => Incomplete
    case Malformed => Malformed
    case Parsed(line, n) =>
      match ParseSigned(line, I32_MIN, I32_MAX)
      case None => Malformed
      case Some(len) => if len < -1 || len > max then Malformed else Parsed(len, n)
  }

  function ParseInteger(s: bytes): (r: Outcome<RespValue>)
    ensures r.Parsed? ==> r.used <= |s|
  {
    match ReadLine(s)
    case Incomplete => Incomplete
    case Malformed => Malformed
    case Parsed(line, n) =>
      match ParseSigned(line, I64_MIN, I64_MAX)
      case None => Malformed
      case Some(i) => Parsed(Integer(i), n)
  }

  function ParseBulk(s: bytes, lim: Limits): (r: Outcome<RespValue>)
    ensures r.Parsed? ==> r.used <= |s|
  {
    match ParseLength(s, lim.maxBulk)
    case Incomplete => Incomplete
    case Malformed => Malformed
    case Parsed(len, n) =>
      if len == -1 then Parsed(BulkString(None), n)
      else if |s| - n < len + 2 then Incomplete
      else if !CrlfAt(s, n + len) then Malformed
      else Parsed(BulkString(Some(s[n..n + len])), n + len + 2)
  }

  function ParseArray(s: bytes, lim: Limits): (r: Outcome<RespValue>)
    ensures r.Parsed? ==> r.used <= |s|
    decreases |s|, lim.maxArray + 2
  {
    match ParseLength(s, lim.maxArray)
    case Incomplete => Incomplete
    case Malformed => Malformed
    case Parsed(len, n) =>
      if len == -1 then Parsed(Array([]), n)
      else
        match ParseElements(s[n..], len, lim)
        case Incomplete => Incomplete
        case Malformed => Malformed
        case Parsed(vs, m) => Parsed(Array(vs), n + m)
  }

  /** The first `count` values of `s`, left to right; the first failure decides. */
  function ParseElements(s: bytes, count: nat, lim: Limits): (r: Outcome<seq<RespValue>>)
    ensures r.Parsed? ==> r.used <= |s|
    decreases |s|, count + 1
  {
    if count == 0 then Parsed([], 0)
    else
      match ParseValue(s, lim)
      case Incomplete => Incomplete
      case Malformed => Malformed
      case Parsed(v, n) =>
        match ParseElements(s[n..], count - 1, lim)
        case Incomplete => Incomplete
        case Malformed => Malformed
        case Parsed(vs, m) => Parsed([v] + vs, n + m)
  }

  function ParseText(s: bytes, error: bool): (r: Outcome<RespValue>)
    ensures r.Parsed? ==> r.used <= |s|
  {
    match ReadLine(s)
    case Incomplete => Incomplete
    case Malformed => Malformed
    case Parsed(line, n) => Parsed(if error then ErrorLine(line) else SimpleString(line), n)
  }

  /** One value from the front of `s`. */
  function ParseValue(s: bytes, lim: Limits): (r: Outcome<RespValue>)
    ensures r.Parsed? ==> 0 < r.used <= |s|
    decreases |s|, 0
  {
    if s == [] then Incomplete
    else
      var body := s[1..];
      var r :=
        if s[0] == 43 then ParseText(body, false)
        else if s[0] == 45 then ParseText(body, true)
        else if s[0] == 58 then ParseInteger(body)
        else if s[0] == 36 then ParseBulk(body, lim)
        else if s[0] == 42 then ParseArray(body, lim)
        else Malformed;
      match r
      case Incomplete => Incomplete
      case Malformed => Malformed
      case Parsed(v, n) => Parsed(v, n + 1)
  }

  /** The bytes of a request element, when it is a string. */
  function Argument(v: RespValue): Option<bytes> {
    match v
    case BulkString(Some(b)) => Some(b)
    case SimpleString(s) => Some(s)
    case _ => None
  }

  /** The byte strings of a request array; None when an element is not a string. */
  function Arguments(vs: seq<RespValue>): Option<seq<bytes>> {
    if forall i :: 0 <= i < |vs| ==> Argument(vs[i]).Some?
    then Some(seq(|vs|, i requires 0 <= i < |vs| && Argument(vs[i]).Some? => Argument(vs[i]).value))
    else None
  }

  /** A request must be a non-empty array of strings whose first one is text. */
  function CommandOf(v: RespValue): Option<Command> {
    if !v.Array? then None
    else
      match Arguments(v.elements)
      case None => None
      case Some(args) =>
        if args == [] || !IsUtf8(args[0]) then None else Some(Command(UpperName(args[0]), args[1..]))
  }

  /** The next client request at the front of `s`. */
  function NextCommand(s: bytes, lim: Limits): (r: Outcome<Command>)
    ensures r.Parsed? ==> 0 < r.used <= |s|
  {
    match ParseValue(s, lim)
    case Incomplete => Incomplete
    case Malformed => Malformed
    case Parsed(v, n) =>
      match CommandOf(v)
      case None => Malformed
      case Some(c) => Parsed(c, n)
  }

  // --------------------------------------------------------- monotonicity

  lemma LineLengthExtends(s: bytes, t: bytes)
    requires LineLength(s).Some?
    ensures LineLength(s + t) == LineLength(s)
  {
    var n := LineLength(s).value;
    assert forall k :: 0 <= k <= n ==> CrlfAt(s + t, k) == CrlfAt(s, k);
  }

  lemma ReadLineExtends(s: bytes, t: bytes)
    requires !ReadLine(s).Incomplete?
    ensures ReadLine(s + t) == ReadLine(s)
  {
    LineLengthExtends(s, t);
    var n := LineLength(s).value;
    assert (s + t)[..n] == s[..n];
  }

  lemma ParseBulkExtends(s: bytes, t: bytes, lim: Limits)
    requires !ParseBulk(s, lim).Incomplete?
    ensures ParseBulk(s + t, lim) == ParseBulk(s, lim)
  {
    ReadLineExtends(s, t);
    match ParseLength(s, lim.maxBulk)
    case Malformed =>
    case Parsed(len, n) =>
      if len >= 0 {
        assert (s + t)[n..n + len] == s[n..n + len];
      }
  }

  lemma {:induction false} ParseArrayExtends(s: bytes, t: bytes, lim: Limits)
    requires !ParseArray(s, lim).Incomplete?
    ensures ParseArray(s + t, lim) == ParseArray(s, lim)
    decreases |s|, lim.maxArray + 2
  {
    ReadLineExtends(s, t);
    match ParseLength(s, lim.maxArray)
    case Malformed =>
    case Parsed(len, n) =>
      if len >= 0 {
        assert (s + t)[n..] == s[n..] + t;
        ParseElementsExtends(s[n..], t, len, lim);
      }
  }

  lemma {:induction false} ParseElementsExtends(s: bytes, t: bytes, count: nat, lim: Limits)
    requires !ParseElements(s, count, lim).Incomplete?
    ensures ParseElements(s + t, count, lim) == ParseElements(s, count, lim)
    decreases |s|, count + 1
  {
    hide ParseValue;
    if count > 0 {
      ParseValueExtends(s, t, lim);
      match ParseValue(s, lim)
      case Malformed =>
      case Parsed(v, n) =>
        assert (s + t)[n..] == s[n..] + t;
        ParseElementsExtends(s[n..], t, count - 1, lim);
    }
  }

  /**
   * Monotonicity under extension: once the bytes received parse to a value or to
   * an error, bytes that arrive later never change that verdict.
   */
  lemma {:induction false} ParseValueExtends(s: bytes, t: bytes, lim: Limits)
    requires !ParseValue(s, lim).Incomplete?
    ensures ParseValue(s + t, lim) == ParseValue(s, lim)
    decreases |s|, 0
  {
    assert (s + t)[1..] == s[1..] + t;
    var body := s[1..];
    if s[0] == 43 || s[0] == 45 || s[0] == 58 {
      ReadLineExtends(body, t);
    } else if s[0] == 36 {
      ParseBulkExtends(body, t, lim);
    } else if s[0] == 42 {
      ParseArrayExtends(body, t, lim);
    }
  }

  lemma NextCommandExtends(s: bytes, t: bytes, lim: Limits)
    requires !NextCommand(s, lim).Incomplete?
    ensures NextCommand(s + t, lim) == NextCommand(s, lim)
  {
    ParseValueExtends(s, t, lim);
  }

  /** What a request used, taken alone, is the same request with nothing left over. */
  lemma FrameStandsAlone(s: bytes, lim: Limits)
    requires NextCommand(s, lim).Parsed?
    ensures var r := NextCommand(s, lim);
            NextCommand(s[..r.used], lim) == r
  {
    var n := NextCommand(s, lim).used;
    ParseValuePrefix(s, lim);
    assert s == s[..n] + s[n..];
  }

  /** A frame cut short anywhere is never read as a request, complete or broken. */
  lemma CutFrameWaits(f: bytes, cut: nat, lim: Limits)
    requires NextCommand(f, lim).Parsed? && NextCommand(f, lim).used == |f| && cut < |f|
    ensures NextCommand(f[..cut], lim).Incomplete?
  {
    hide NextCommand;
    assert f == f[..cut] + f[cut..];
    if !NextCommand(f[..cut], lim).Incomplete? {
      NextCommandExtends(f[..cut], f[cut..], lim);
    }
  }

  lemma LineLengthPrefix(s: bytes, m: nat)
    requires LineLength(s).Some? && LineLength(s).value + 2 <= m <= |s|
    ensures LineLength(s[..m]) == LineLength(s)
  {
    var n := LineLength(s).value;
    assert forall k :: 0 <= k <= n ==> CrlfAt(s[..m], k) == CrlfAt(s, k);
  }

  lemma ReadLinePrefix(s: bytes, m: nat)
    requires ReadLine(s).Parsed? && ReadLine(s).used <= m <= |s|
    ensures ReadLine(s[..m]) == ReadLine(s)
  {
    LineLengthPrefix(s, m);
    var n := LineLength(s).value;
    assert s[..m][..n] == s[..n];
  }

  lemma {:induction false} ParseElementsPrefix(s: bytes, count: nat, lim: Limits)
    requires ParseElements(s, count, lim).Parsed?
    ensures ParseElements(s[..ParseElements(s, count, lim).used], count, lim) == ParseElements(s, count, lim)
    decreases |s|, count + 1
  {
    hide ParseValue;
    if count > 0 {
      var n := ParseValue(s, lim).used;
      var m := ParseElements(s[n..], count - 1, lim).used;
      ParseValuePrefix(s, lim);
      ParseElementsPrefix(s[n..], count - 1, lim);
      assert s[..n + m] == s[..n] + s[n..][..m];
      assert s[..n + m][n..] == s[n..][..m];
      ParseValueExtends(s[..n], s[n..][..m], lim);
    }
  }

  /** The bytes a value used decide it alone. */
  lemma {:induction false} ParseValuePrefix(s: bytes, lim: Limits)
    requires ParseValue(s, lim).Parsed?
    ensures ParseValue(s[..ParseValue(s, lim).used], lim) == ParseValue(s, lim)
    decreases |s|, 0
  {
    hide ParseBulk, ParseArray, ReadLine;
    var used := ParseValue(s, lim).used;
    var body := s[1..];
    assert s[..used][1..] == body[..used - 1];
    if s[0] == 36 {
      ParseBulkPrefix(body, lim);
    } else if s[0] == 42 {
      ParseArrayPrefix(body, lim);
    } else {
      ReadLinePrefix(body, used - 1);
    }
  }

  lemma ParseBulkPrefix(s: bytes, lim: Limits)
    requires ParseBulk(s, lim).Parsed?
    ensures ParseBulk(s[..ParseBulk(s, lim).used], lim) == ParseBulk(s, lim)
  {
    hide ReadLine;
    var used := ParseBulk(s, lim).used;
    ReadLinePrefix(s, used);
    var len, n := ParseLength(s, lim.maxBulk).value, ParseLength(s, lim.maxBulk).used;
    if len >= 0 {
      assert s[..used][n..n + len] == s[n..n + len];
    }
  }

  lemma {:induction false} ParseArrayPrefix(s: bytes, lim: Limits)
    requires ParseArray(s, lim).Parsed?
    ensures ParseArray(s[..ParseArray(s, lim).used], lim) == ParseArray(s, lim)
    decreases |s|, lim.maxArray + 2
  {
    hide ReadLine, ParseElements;
    var used := ParseArray(s, lim).used;
    ReadLinePrefix(s, used);
    var len, n := ParseLength(s, lim.maxArray).value, ParseLength(s, lim.maxArray).used;
    if len >= 0 {
      ParseElementsPrefix(s[n..], len, lim);
      assert s[..used][n..] == s[n..][..used - n];
    }
  }

  // ----------------------------------------------------------- round trip

  /** Simple strings are single lines of text; lengths respect the limits and the 32-bit prefix. */
  ghost predicate WithinLimits(v: Response, lim: Limits) {
    match v
    case Simple(s) => !exists k :: CrlfAt(s, k)
    case Bulk(Some(b)) => |b| <= lim.maxBulk && |b| <= I32_MAX
    case List(items) =>
      |items| <= lim.maxArray && |items| <= I32_MAX && forall i :: 0 <= i < |items| ==> WithinLimits(items[i], lim)
    case _ => true
  }

  /** Simple strings hold text: a guarantee of the source's string type. */
  predicate IsText(v: Response) {
    match v
    case Simple(s) => IsUtf8(s)
    case List(items) => forall i :: 0 <= i < |items| ==> IsText(items[i])
    case _ => true
  }

  /** What a peer sees of a response: both spellings of null look the same. */
  function Seen(v: Response): RespValue {
    match v
    case Simple(s) => SimpleString(s)
    case Bulk(p) => BulkString(p)
    case Nil => BulkString(None)
    case Number(i) => Integer(i)
    case List(items) => Array(SeenAll(items))
  }

  function SeenAll(vs: seq<Response>): (r: seq<RespValue>) {
    if vs == [] then [] else [Seen(vs[0])] + SeenAll(vs[1..])
  }

  lemma LineOf(line: bytes, rest: bytes)
    requires !exists k :: CrlfAt(line, k)
    ensures LineLength(line + CRLF + rest) == Some(|line|)
  {
    var s := line + CRLF + rest;
    assert CrlfAt(s, |line|);
    forall k | 0 <= k < |line|
      ensures !CrlfAt(s, k)
    {
      assert !CrlfAt(line, k);
      assert s[k + 1] == if k + 1 < |line| then line[k + 1] else 13;
    }
  }

  lemma ReadLineOf(line: bytes, rest: bytes)
    requires IsUtf8(line) && !exists k :: CrlfAt(line, k)
    ensures ReadLine(line + CRLF + rest) == Parsed(line, |line| + 2)
  {
    LineOf(line, rest);
    assert (line + CRLF + rest)[..|line|] == line;
  }

  lemma DecimalLine(i: int, rest: bytes)
    ensures ReadLine(Decimal(i) + CRLF + rest) == Parsed(Decimal(i), |Decimal(i)| + 2)
  {
    DecimalIsPlain(i);
    ReadLineOf(Decimal(i), rest);
  }

  lemma LengthRoundTrip(n: nat, max: nat, rest: bytes)
    ensures ParseLength(Digits(n) + CRLF + rest, max)
            == if n <= max && n <= I32_MAX then Parsed(n, |Digits(n)| + 2) else Malformed
  {
    assert Digits(n) == Decimal(n);
    DecimalLine(n, rest);
    if n <= I32_MAX {
      SignedRoundTrip(n, I32_MIN, I32_MAX);
    } else {
      SignedOutOfRange(n, I32_MIN, I32_MAX);
    }
  }

  lemma BulkRoundTrip(b: bytes, rest: bytes, lim: Limits)
    ensures ParseValue(Encode(Bulk(Some(b))) + rest, lim)
            == if WithinLimits(Bulk(Some(b)), lim) then Parsed(BulkString(Some(b)), |Encode(Bulk(Some(b)))|)
               else Malformed
  {
    hide ParseLength, Digits;
    var head := Digits(|b|) + CRLF;
    var tail := b + CRLF + rest;
    var s := Encode(Bulk(Some(b))) + rest;
    assert s[1..] == head + tail;
    LengthRoundTrip(|b|, lim.maxBulk, tail);
    assert CrlfAt(head + tail, |head| + |b|);
    assert (head + tail)[|head|..|head| + |b|] == b;
  }

  lemma NullRoundTrip(rest: bytes, lim: Limits)
    ensures ParseValue(Encode(Nil) + rest, lim) == Parsed(BulkString(None), 5)
  {
    var s := Encode(Nil) + rest;
    assert Digits(1) == [49];
    assert Decimal(-1) == [45, 49];
    assert s[1..] == Decimal(-1) + CRLF + rest;
    DecimalLine(-1, rest);
    SignedRoundTrip(-1, I32_MIN, I32_MAX);
  }

  lemma SimpleRoundTrip(text: bytes, rest: bytes, lim: Limits)
    requires IsUtf8(text) && !exists k :: CrlfAt(text, k)
    ensures ParseValue(Encode(Simple(text)) + rest, lim) == Parsed(SimpleString(text), |text| + 3)
  {
    hide ReadLine;
    var s := Encode(Simple(text)) + rest;
    assert s[1..] == text + CRLF + rest;
    ReadLineOf(text, rest);
  }

  lemma NumberRoundTrip(i: i64, rest: bytes, lim: Limits)
    ensures ParseValue(Encode(Number(i)) + rest, lim) == Parsed(Integer(i), |Decimal(i)| + 3)
  {
    hide ReadLine, Decimal;
    var s := Encode(Number(i)) + rest;
    assert s[1..] == Decimal(i) + CRLF + rest;
    DecimalLine(i, rest);
    SignedRoundTrip(i, I64_MIN, I64_MAX);
  }

  /** An encoded list parses as its elements do, once its length is acceptable. */
  lemma ListHead(items: seq<Response>, rest: bytes, lim: Limits)
    ensures ParseValue(Encode(List(items)) + rest, lim)
            == if |items| > lim.maxArray || |items| > I32_MAX then Malformed
               else
                 match ParseElements(EncodeAll(items) + rest, |items|, lim)
                 case Incomplete => Incomplete
                 case Malformed => Malformed
                 case Parsed(vs, m) => Parsed(Array(vs), |Digits(|items|)| + 3 + m)
  {
    hide ParseLength, ParseElements, Digits, EncodeAll;
    var head := Digits(|items|) + CRLF;
    var tail := EncodeAll(items) + rest;
    var s := Encode(List(items)) + rest;
    assert s[1..] == head + tail;
    LengthRoundTrip(|items|, lim.maxArray, tail);
    assert s[1..][|head|..] == tail;
  }

  lemma {:induction false} ElementsRoundTrip(vs: seq<Response>, rest: bytes, lim: Limits)
    requires forall i :: 0 <= i < |vs| ==> WithinLimits(vs[i], lim) && IsText(vs[i])
    ensures ParseElements(EncodeAll(vs) + rest, |vs|, lim) == Parsed(SeenAll(vs), |EncodeAll(vs)|)
    decreases vs, 0
  {
    hide ParseValue, Encode, WithinLimits, IsText, Seen;
    if vs != [] {
      var tail := EncodeAll(vs[1..]) + rest;
      assert EncodeAll(vs) + rest == Encode(vs[0]) + tail;
      RoundTrip(vs[0], tail, lim);
      assert (Encode(vs[0]) + tail)[|Encode(vs[0])|..] == tail;
      ElementsRoundTrip(vs[1..], rest, lim);
    }
  }

  /**
   * Decoding an encoded value, whatever bytes follow it, gives the value back and
   * leaves exactly those bytes.
   */
  lemma {:induction false} RoundTrip(v: Response, rest: bytes, lim: Limits)
    requires WithinLimits(v, lim) && IsText(v)
    ensures ParseValue(Encode(v) + rest, lim) == Parsed(Seen(v), |Encode(v)|)
    decreases v, 1
  {
    hide ParseValue, ParseElements;
    match v
    case Simple(text) => SimpleRoundTrip(text, rest, lim);
    case Bulk(Some(b)) => BulkRoundTrip(b, rest, lim);
    case Bulk(None) => NullRoundTrip(rest, lim);
    case Nil => NullRoundTrip(rest, lim);
    case Number(i) => NumberRoundTrip(i, rest, lim);
    case List(items) =>
      ElementsRoundTrip(items, rest, lim);
      ListHead(items, rest, lim);
  }

  lemma {:induction false} ElementsOutOfLimits(vs: seq<Response>, bad: nat, rest: bytes, lim: Limits)
    requires bad < |vs| && !WithinLimits(vs[bad], lim)
    requires forall i :: 0 <= i < |vs| ==> IsText(vs[i])
    ensures ParseElements(EncodeAll(vs) + rest, |vs|, lim).Parsed?
            ==> ParseElements(EncodeAll(vs) + rest, |vs|, lim).value != SeenAll(vs)
    decreases vs, 0
  {
    hide ParseValue;
    var tail := EncodeAll(vs[1..]) + rest;
    var whole := ParseElements(EncodeAll(vs) + rest, |vs|, lim);
    assert EncodeAll(vs) + rest == Encode(vs[0]) + tail;
    if WithinLimits(vs[0], lim) {
      RoundTrip(vs[0], tail, lim);
      assert (Encode(vs[0]) + tail)[|Encode(vs[0])|..] == tail;
      ElementsOutOfLimits(vs[1..], bad - 1, rest, lim);
      assert SeenAll(vs)[1..] == SeenAll(vs[1..]);
      assert whole.Parsed? ==> whole.value[1..] == ParseElements(tail, |vs| - 1, lim).value;
    } else {
      OutOfLimits(vs[0], tail, lim);
      assert SeenAll(vs)[0] == Seen(vs[0]);
      assert whole.Parsed? ==> whole.value[0] == ParseValue(EncodeAll(vs) + rest, lim).value;
    }
  }

  /** Outside the limits the value never comes back, whatever follows it. */
  lemma {:induction false} OutOfLimits(v: Response, rest: bytes, lim: Limits)
    requires !WithinLimits(v, lim) && IsText(v)
    ensures ParseValue(Encode(v) + rest, lim).Parsed? ==> ParseValue(Encode(v) + rest, lim).value != Seen(v)
    decreases v, 1
  {
    hide ParseElements;
    match v
    case Simple(text) =>
      var k :| CrlfAt(text, k);
      var s := Encode(v) + rest;
      assert s[1..] == text + CRLF + rest;
      assert CrlfAt(s[1..], k);
    case Bulk(Some(b)) => BulkRoundTrip(b, rest, lim);
    case List(items) =>
      hide ParseValue;
      ListHead(items, rest, lim);
      if |items| <= lim.maxArray && |items| <= I32_MAX {
        var bad :| 0 <= bad < |items| && !WithinLimits(items[bad], lim);
        ElementsOutOfLimits(items, bad, rest, lim);
      }
  }

  /** The exact condition under which a response survives the wire. */
  lemma DecodesExactlyWithinLimits(v: Response, rest: bytes, lim: Limits)
    requires IsText(v)
    ensures ParseValue(Encode(v) + rest, lim) == Parsed(Seen(v), |Encode(v)|) <==> WithinLimits(v, lim)
  {
    hide ParseValue;
    if WithinLimits(v, lim) {
      RoundTrip(v, rest, lim);
    } else {
      OutOfLimits(v, rest, lim);
    }
  }

  /** Concatenated encodings decode in one way only. */
  lemma {:induction false} UniqueDecoding(vs: seq<Response>, ws: seq<Response>, lim: Limits)
    requires forall i :: 0 <= i < |vs| ==> WithinLimits(vs[i], lim) && IsText(vs[i])
    requires forall i :: 0 <= i < |ws| ==> WithinLimits(ws[i], lim) && IsText(ws[i])
    requires EncodeAll(vs) == EncodeAll(ws)
    ensures SeenAll(vs) == SeenAll(ws)
  {
    hide ParseValue;
    if vs != [] && ws != [] {
      RoundTrip(vs[0], EncodeAll(vs[1..]), lim);
      RoundTrip(ws[0], EncodeAll(ws[1..]), lim);
      assert EncodeAll(vs)[|Encode(vs[0])|..] == EncodeAll(vs[1..]);
      assert EncodeAll(ws)[|Encode(ws[0])|..] == EncodeAll(ws[1..]);
      UniqueDecoding(vs[1..], ws[1..], lim);
    }
  }

  // --------------------------------------------------------------- limits

  /** Every bound of `tight` is also a bound of `wide`. */
  predicate AtMost(tight: Limits, wide: Limits) {
    tight.maxBulk <= wide.maxBulk && tight.maxArray <= wide.maxArray
  }

  lemma {:induction false} WiderElements(s: bytes, count: nat, tight: Limits, wide: Limits)
    requires AtMost(tight, wide) && ParseElements(s, count, tight).Parsed?
    ensures ParseElements(s, count, wide) == ParseElements(s, count, tight)
    decreases |s|, count + 1
  {
    hide ParseValue;
    if count > 0 {
      WiderLimits(s, tight, wide);
      WiderElements(s[ParseValue(s, tight).used..], count - 1, tight, wide);
    }
  }

  /** What one codec accepts, a codec with wider limits accepts as the same value. */
  lemma {:induction false} WiderLimits(s: bytes, tight: Limits, wide: Limits)
    requires AtMost(tight, wide) && ParseValue(s, tight).Parsed?
    ensures ParseValue(s, wide) == ParseValue(s, tight)
    decreases |s|, 0
  {
    hide ReadLine, ParseElements;
    var body := s[1..];
    if s[0] == 42 {
      var len, n := ParseLength(body, tight.maxArray).value, ParseLength(body, tight.maxArray).used;
      if len >= 0 {
        WiderElements(body[n..], len, tight, wide);
      }
    }
  }
}
