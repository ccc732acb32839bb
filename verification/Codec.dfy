/**
 * The codec object: an accumulating buffer, a cursor that recursive parsers move
 * over it, and the scratch use of the same buffer for encoding. Every parser is
 * proved against the front-of-input reading in `Resp`.
 */
module Codec {
  import opened Bytes
  import opened Resp

  /** What a cursor parser answers: more bytes needed, refused, or a value. */
  datatype Step<+T> = More | Bad | Got(value: T)

  /** A cursor parser's answer and final position against the parse of what the cursor saw. */
  ghost predicate Agrees<T>(r: Step<T>, pos: nat, next: nat, o: Outcome<T>) {
    match o
    case Incomplete => r.More?
    case Malformed => r.Bad?
    case Parsed(v, n) => r == Got(v) && next == pos + n
  }

  datatype Decoded =
    | NeedMore
    | Frame(command: Command, raw: bytes)
    | ParseError
    | BufferOverflow

  lemma {:induction false} EncodeAllSnoc(vs: seq<Response>, v: Response)
    ensures EncodeAll(vs + [v]) == EncodeAll(vs) + Resp.Encode(v)
  {
    if vs == [] {
      assert EncodeAll([v]) == Resp.Encode(v) + EncodeAll([]);
    } else {
      assert (vs + [v])[1..] == vs[1..] + [v];
      EncodeAllSnoc(vs[1..], v);
    }
  }

  /** Scan for CR LF from the cursor. */
  method ReadLineAt(data: bytes, pos: nat) returns (r: Step<bytes>, next: nat)
    requires pos <= |data|
    ensures Agrees(r, pos, next, ReadLine(data[pos..]))
    ensures r.Got? ==> pos <= next <= |data|
  {
    next := pos;
    var i := pos;
    while i + 1 < |data|
      invariant pos <= i <= |data|
      invariant forall k :: 0 <= k < i - pos ==> !CrlfAt(data[pos..], k)
    {
      if data[i] == 13 && data[i + 1] == 10 {
        assert CrlfAt(data[pos..], i - pos);
        var line := data[pos..i];
        assert data[pos..][..i - pos] == line;
        next := i + 2;
        if IsUtf8(line) {
          return Got(line), next;
        }
        return Bad, next;
      }
      assert !CrlfAt(data[pos..], i - pos);
      i := i + 1;
    }
    assert forall k :: CrlfAt(data[pos..], k) ==> k < i - pos;
    r := More;
  }

  method ParseIntegerAt(data: bytes, pos: nat) returns (r: Step<RespValue>, next: nat)
    requires pos <= |data|
    ensures Agrees(r, pos, next, ParseInteger(data[pos..]))
    ensures r.Got? ==> pos <= next <= |data|
  {
    var line, at := ReadLineAt(data, pos);
    next := at;
    match line {
      case More => r := More;
      case Bad => r := Bad;
      case Got(text) =>
        var n := ParseSigned(text, I64_MIN, I64_MAX);
        r := if n.Some? then Got(Integer(n.value)) else Bad;
    }
  }

  method ParseBulkAt(data: bytes, pos: nat, lim: Limits) returns (r: Step<RespValue>, next: nat)
    requires pos <= |data|
    ensures Agrees(r, pos, next, ParseBulk(data[pos..], lim))
    ensures r.Got? ==> pos <= next <= |data|
  {
    hide ReadLine;
    var line, at := ReadLineAt(data, pos);
    next := at;
    if !line.Got? {
      r := if line.More? then More else Bad;
      return;
    }
    var parsed := ParseSigned(line.value, I32_MIN, I32_MAX);
    if parsed.None? {
      return Bad, next;
    }
    var length := parsed.value;
    if length == -1 {
      return Got(BulkString(None)), next;
    }
    if length < 0 || length > lim.maxBulk {
      return Bad, next;
    }
    if |data| - at < length + 2 {
      return More, next;
    }
    var payload := data[at..at + length];
    assert payload == data[pos..][at - pos..at - pos + length];
    next := at + length + 2;
    if data[at + length] != 13 || data[at + length + 1] != 10 {
      return Bad, next;
    }
    r := Got(BulkString(Some(payload)));
  }

  /** Where the parse of `count` elements stands after reading `done` of them up to offset `used`. */
  ghost predicate ElementsSoFar(s: bytes, count: nat, done: seq<RespValue>, used: nat, lim: Limits)
    requires |done| <= count && used <= |s|
  {
    ParseElements(s, count, lim) ==
    match ParseElements(s[used..], count - |done|, lim)
    case Incomplete => Incomplete
    case Malformed => Malformed
    case Parsed(vs, m) => Parsed(done + vs, used + m)
  }

  lemma ElementsAdvance(s: bytes, count: nat, done: seq<RespValue>, used: nat, lim: Limits)
    requires |done| < count && used <= |s| && ElementsSoFar(s, count, done, used, lim)
    requires ParseValue(s[used..], lim).Parsed?
    ensures var r := ParseValue(s[used..], lim);
            ElementsSoFar(s, count, done + [r.value], used + r.used, lim)
  {
    hide ParseValue;
    var r := ParseValue(s[used..], lim);
    var n := count - |done|;
    assert s[used..][r.used..] == s[used + r.used..];
    var rest := ParseElements(s[used + r.used..], n - 1, lim);
    assert rest.Parsed? ==> (done + [r.value]) + rest.value == done + ([r.value] + rest.value);
  }

  method ParseArrayAt(data: bytes, pos: nat, lim: Limits) returns (r: Step<RespValue>, next: nat)
    requires pos <= |data|
    ensures Agrees(r, pos, next, ParseArray(data[pos..], lim))
    ensures r.Got? ==> pos <= next <= |data|
    decreases |data| - pos, 1
  {
    hide ReadLine, ParseValue;
    var line, at := ReadLineAt(data, pos);
    next := at;
    if !line.Got? {
      r := if line.More? then More else Bad;
      return;
    }
    var parsed := ParseSigned(line.value, I32_MIN, I32_MAX);
    if parsed.None? {
      return Bad, next;
    }
    var length := parsed.value;
    if length == -1 {
      return Got(Array([])), next;
    }
    if length < 0 || length > lim.maxArray {
      return Bad, next;
    }
    ghost var s := data[pos..][at - pos..];
    assert s == data[at..];
    assert ParseLength(data[pos..], lim.maxArray) == Parsed(length, at - pos);
    var elements: seq<RespValue> := [];
    assert ElementsSoFar(s, length, elements, 0, lim) by {
      assert s[0..] == s;
      var all := ParseElements(s, length, lim);
      assert all.Parsed? ==> elements + all.value == all.value;
    }
    for k := 0 to length
      invariant at <= next <= |data| && |elements| == k
      invariant ElementsSoFar(s, length, elements, next - at, lim)
    {
      var element, after := ParseValueAt(data, next, lim);
      assert data[next..] == s[next - at..];
      if !element.Got? {
        r := if element.More? then More else Bad;
        return;
      }
      ElementsAdvance(s, length, elements, next - at, lim);
      elements := elements + [element.value];
      next := after;
    }
    assert ParseElements(s[next - at..], 0, lim) == Parsed([], 0);
    assert elements + [] == elements;
    r := Got(Array(elements));
  }

  method ParseValueAt(data: bytes, pos: nat, lim: Limits) returns (r: Step<RespValue>, next: nat)
    requires pos <= |data|
    ensures Agrees(r, pos, next, ParseValue(data[pos..], lim))
    ensures r.Got? ==> pos < next <= |data|
    decreases |data| - pos, 0
  {
    hide ReadLine, ParseInteger, ParseBulk, ParseArray;
    next := pos;
    if pos == |data| {
      return More, next;
    }
    assert data[pos..][1..] == data[pos + 1..];
    if data[pos] == 43 || data[pos] == 45 {
      var line, at := ReadLineAt(data, pos + 1);
      next := at;
      match line {
        case More => r := More;
        case Bad => r := Bad;
        case Got(text) => r := if data[pos] == 45 then Got(ErrorLine(text)) else Got(SimpleString(text));
      }
    } else if data[pos] == 58 {
      r, next := ParseIntegerAt(data, pos + 1);
    } else if data[pos] == 36 {
      r, next := ParseBulkAt(data, pos + 1, lim);
    } else if data[pos] == 42 {
      r, next := ParseArrayAt(data, pos + 1, lim);
    } else {
      r := Bad;
    }
  }

  /** Request arguments from parsed elements, refusing the first non-string. */
  method CollectArguments(elements: seq<RespValue>) returns (args: Option<seq<bytes>>)
    ensures args == Arguments(elements)
  {
    var out := [];
    for k := 0 to |elements|
      invariant |out| == k
      invariant forall i :: 0 <= i < k ==> Argument(elements[i]) == Some(out[i])
    {
      match elements[k] {
        case BulkString(Some(b)) => out := out + [b];
        case SimpleString(s) => out := out + [s];
        case _ => return None;
      }
    }
    assert Arguments(elements).value == out;
    args := Some(out);
  }

  class RespCodec {
    var buffer: bytes
    const limits: Limits

    constructor (limits: Limits)
      ensures this.limits == limits && buffer == []
    {
      this.limits := limits;
      buffer := [];
    }

    /** Append the encoding of one value to the buffer. */
    method EncodeValue(v: Response)
      modifies this
      ensures buffer == old(buffer) + Resp.Encode(v)
      decreases v
    {
      hide Digits, Decimal, EncodeAll;
      match v {
        case Simple(text) => buffer := buffer + [43] + text + CRLF;
        case Bulk(Some(b)) => buffer := buffer + [36] + Digits(|b|) + CRLF + b + CRLF;
        case Bulk(None) => buffer := buffer + [36, 45, 49] + CRLF;
        case Nil => buffer := buffer + [36, 45, 49] + CRLF;
        case Number(i) => buffer := buffer + [58] + Decimal(i) + CRLF;
        case List(items) =>
          buffer := buffer + [42] + Digits(|items|) + CRLF;
          EncodeItems(items);
      }
    }

    method EncodeItems(items: seq<Response>)
      modifies this
      ensures buffer == old(buffer) + EncodeAll(items)
      decreases items
    {
      hide Resp.Encode;
      assert EncodeAll(items[..0]) == [];
      for k := 0 to |items|
        invariant buffer == old(buffer) + EncodeAll(items[..k])
      {
        EncodeValue(items[k]);
        EncodeAllSnoc(items[..k], items[k]);
        assert items[..k] + [items[k]] == items[..k + 1];
      }
      assert items[..|items|] == items;
    }

    /** Encode through the buffer as scratch space, leaving the codec empty. */
    method Encode(v: Response) returns (out: bytes)
      modifies this
      ensures out == Resp.Encode(v) && buffer == []
    {
      buffer := [];
      EncodeValue(v);
      out := buffer;
      buffer := [];
    }

    /**
     * Accept bytes and try to take one request off the front. The frame handed
     * out and what stays buffered are the accepted bytes, in order; an error
     * takes nothing, so it is met again on the next call.
     */
    method DecodeWithFrame(data: bytes) returns (r: Decoded)
      modifies this
      ensures r.BufferOverflow? <==> |old(buffer)| + |data| > limits.maxBuffer
      ensures r.BufferOverflow? ==> buffer == old(buffer)
      ensures r.Frame? ==> r.raw + buffer == old(buffer) + data
      ensures r.NeedMore? || r.ParseError? ==> buffer == old(buffer) + data
      ensures !r.BufferOverflow? ==>
                match NextCommand(old(buffer) + data, limits)
                case Incomplete => r.NeedMore?
                case Malformed => r.ParseError?
                case Parsed(c, n) => r.Frame? && r.command == c && |r.raw| == n
    {
      if |buffer| + |data| > limits.maxBuffer {
        return BufferOverflow;
      }
      buffer := buffer + data;
      r := TryParse();
    }

    method TryParse() returns (r: Decoded)
      modifies this
      ensures !r.BufferOverflow?
      ensures match NextCommand(old(buffer), limits)
              case Incomplete => r.NeedMore? && buffer == old(buffer)
              case Malformed => r.ParseError? && buffer == old(buffer)
              case Parsed(c, n) => r == Frame(c, old(buffer)[..n]) && buffer == old(buffer)[n..]
    {
      hide ParseValue;
      if buffer == [] {
        assert NextCommand(buffer, limits).Incomplete? by { assert ParseValueOfNothing(limits); }
        return NeedMore;
      }
      assert buffer[0..] == buffer;
      var value, consumed := ParseValueAt(buffer, 0, limits);
      match value {
        case More => return NeedMore;
        case Bad => return ParseError;
        case Got(v) =>
          if !v.Array? {
            return ParseError;
          }
          var args := CollectArguments(v.elements);
          if args.None? || args.value == [] || !IsUtf8(args.value[0]) {
            return ParseError;
          }
          var command := Command(UpperName(args.value[0]), args.value[1..]);
          var frame := buffer[..consumed];
          buffer := buffer[consumed..];
          return Frame(command, frame);
      }
    }

    /** Client side: take one response value off the front. */
    method DecodeRespValue(data: bytes) returns (r: Step<RespValue>)
      modifies this
      ensures |old(buffer)| + |data| > limits.maxBuffer ==> r.Bad? && buffer == old(buffer)
      ensures |old(buffer)| + |data| <= limits.maxBuffer ==>
                match ParseValue(old(buffer) + data, limits)
                case Incomplete => r.More? && buffer == old(buffer) + data
                case Malformed => r.Bad? && buffer == old(buffer) + data
                case Parsed(v, n) => r == Got(v) && buffer == (old(buffer) + data)[n..]
    {
      hide ParseArray, ParseBulk, ParseInteger, ParseText;
      if |buffer| + |data| > limits.maxBuffer {
        return Bad;
      }
      buffer := buffer + data;
      if buffer == [] {
        return More;
      }
      assert buffer[0..] == buffer;
      var value, consumed := ParseValueAt(buffer, 0, limits);
      r := value;
      if value.Got? {
        buffer := buffer[consumed..];
      }
    }
  }

  ghost predicate ParseValueOfNothing(lim: Limits)
    ensures ParseValueOfNothing(lim)
  {
    ParseValue([], lim).Incomplete?
  }
}
