/**
 * The wire format by example and by rule: the bytes of RESP2 replies as its
 * specification prints them, what each marker introduces, and how numbers and
 * text are read.
 */
module Wire {
  import opened Bytes
  import opened Resp

  // --------------------------------------------------------------- encoding

  lemma LineEnd()
    ensures CRLF == Word("\r\n")
  {
    assert Word("\r\n") == [13, 10];
  }

  /** A status is a plus sign and a line, a number a colon and a line. */
  lemma LinesOnTheWire()
    ensures Encode(Simple(Word("OK"))) == Word("+OK\r\n")
    ensures Encode(Number(0)) == Word(":0\r\n")
    ensures Encode(Nil) == Word("$-1\r\n") && Encode(Bulk(None)) == Word("$-1\r\n")
  {
    assert Word("OK") == [79, 75] && Word("+OK\r\n") == [43, 79, 75, 13, 10];
    assert Decimal(0) == [48] && Word(":0\r\n") == [58, 48, 13, 10];
    assert Word("$-1\r\n") == [36, 45, 49, 13, 10];
  }

  lemma MinusTwelve()
    ensures Decimal(-12) == Word("-12") && Encode(Number(-12)) == Word(":-12\r\n")
  {
    assert Digits(1) == [49] && Digits(12) == [49, 50];
    assert Decimal(-12) == [45, 49, 50];
    hide Decimal;
    assert Word("-12") == [45, 49, 50] && Word(":-12\r\n") == [58, 45, 49, 50, 13, 10];
  }

  /** A bulk string is a dollar sign, its length, a line end, the bytes and a line end. */
  lemma HelloOnTheWire()
    ensures Encode(Bulk(Some(Word("hello")))) == Word("$5\r\nhello\r\n")
    ensures Encode(Bulk(Some([]))) == Word("$0\r\n\r\n")
  {
    assert Digits(5) == [53] && Digits(0) == [48];
    assert Word("hello") == [104, 101, 108, 108, 111];
    assert Word("$5\r\nhello\r\n") == [36, 53, 13, 10, 104, 101, 108, 108, 111, 13, 10];
    assert Word("$0\r\n\r\n") == [36, 48, 13, 10, 13, 10];
  }

  /** An array is a star, its length, a line end and its elements. */
  lemma ArrayOnTheWire()
    ensures Encode(List([Nil, Number(0)])) == Word("*2\r\n") + Word("$-1\r\n") + Word(":0\r\n")
    ensures Encode(List([])) == Word("*0\r\n")
  {
    LinesOnTheWire();
    hide Word;
    assert Digits(2) == [50] && Digits(0) == [48];
    assert Word("*2\r\n") == [42, 50, 13, 10] && Word("*0\r\n") == [42, 48, 13, 10] by { ArrayHeads(); }
    var one: seq<Response> := [Number(0)];
    var two: seq<Response> := [Nil, Number(0)];
    assert two[1..] == one && one[1..] == [];
    assert EncodeAll(one) == Encode(Number(0)) + EncodeAll(one[1..]);
    assert EncodeAll(two) == Encode(Nil) + EncodeAll(two[1..]);
    hide Encode;
    assert EncodeAll(one) == Word(":0\r\n");
    assert EncodeAll(two) == Word("$-1\r\n") + Word(":0\r\n");
  }

  lemma ArrayHeads()
    ensures Word("*2\r\n") == [42, 50, 13, 10] && Word("*0\r\n") == [42, 48, 13, 10]
  {
  }

  /** The default limits: strings of 512 MiB, arrays of 1024 * 1024 elements, a buffer of 64 MiB. */
  lemma Defaults()
    ensures DEFAULT_LIMITS == Limits(0x2000_0000, 0x10_0000, 0x400_0000)
  {
  }

  // ---------------------------------------------------------------- parsing

  ghost predicate IsLine(line: bytes) {
    IsUtf8(line) && !exists k :: CrlfAt(line, k)
  }

  lemma Markers()
    ensures Word("+") == [43] && Word("-") == [45] && Word(":") == [58] && Word("$") == [36] && Word("*") == [42]
  {
  }

  /** A plus sign introduces a line of text, a minus sign a line that is an error. */
  lemma TextLines(line: bytes, rest: bytes, lim: Limits)
    requires IsLine(line)
    ensures ParseValue(Word("+") + line + CRLF + rest, lim) == Parsed(SimpleString(line), |line| + 3)
    ensures ParseValue(Word("-") + line + CRLF + rest, lim) == Parsed(ErrorLine(line), |line| + 3)
  {
    Markers();
    hide Word, IsUtf8;
    ReadLineOf(line, rest);
    var plus, minus := [43] + line + CRLF + rest, [45] + line + CRLF + rest;
    assert plus[1..] == line + CRLF + rest && minus[1..] == line + CRLF + rest;
  }

  /** A colon introduces a number, which must fit 64 bits. */
  lemma NumberLines(i: int, rest: bytes, lim: Limits)
    ensures ParseValue(Word(":") + Decimal(i) + CRLF + rest, lim)
            == if -0x8000_0000_0000_0000 <= i <= 0x7FFF_FFFF_FFFF_FFFF then Parsed(Integer(i), |Decimal(i)| + 3)
               else Malformed
  {
    Markers();
    hide Word, Decimal, ParseSigned;
    DecimalLine(i, rest);
    var s := [58] + Decimal(i) + CRLF + rest;
    assert s[1..] == Decimal(i) + CRLF + rest;
    if I64_MIN <= i <= I64_MAX {
      SignedRoundTrip(i, I64_MIN, I64_MAX);
    } else {
      SignedOutOfRange(i, I64_MIN, I64_MAX);
    }
  }

  lemma NegativeLength(n: int, rest: bytes, max: nat)
    requires n < 0
    ensures ParseLength(Decimal(n) + CRLF + rest, max) == if n == -1 then Parsed(-1, 4) else Malformed
  {
    assert Decimal(-1) == [45, 49];
    hide Decimal, ParseSigned;
    DecimalLine(n, rest);
    if n >= I32_MIN {
      SignedRoundTrip(n, I32_MIN, I32_MAX);
    } else {
      SignedOutOfRange(n, I32_MIN, I32_MAX);
    }
  }

  /** Length -1 is null for a string and empty for an array; other negative lengths are refused. */
  lemma NegativeLengths(n: int, rest: bytes, lim: Limits)
    requires n < 0
    ensures ParseValue(Word("$") + Decimal(n) + CRLF + rest, lim)
            == if n == -1 then Parsed(BulkString(None), 5) else Malformed
    ensures ParseValue(Word("*") + Decimal(n) + CRLF + rest, lim) == if n == -1 then Parsed(Array([]), 5) else Malformed
  {
    Markers();
    hide Word, Decimal, ParseLength, ParseElements;
    NegativeLength(n, rest, lim.maxBulk);
    NegativeLength(n, rest, lim.maxArray);
    var body := Decimal(n) + CRLF + rest;
    Introduced(36, body, lim);
    Introduced(42, body, lim);
    assert [36] + Decimal(n) + CRLF + rest == [36] + body && [42] + Decimal(n) + CRLF + rest == [42] + body;
  }

  /** What follows a dollar sign and a star. */
  lemma Introduced(marker: byte, body: bytes, lim: Limits)
    ensures marker == 36 ==> ParseValue([36] + body, lim) == OneMore(ParseBulk(body, lim))
    ensures marker == 42 ==> ParseValue([42] + body, lim) == OneMore(ParseArray(body, lim))
  {
    hide ParseBulk, ParseArray;
    assert ([36] + body)[1..] == body && ([42] + body)[1..] == body;
  }

  function OneMore(r: Outcome<RespValue>): Outcome<RespValue> {
    match r
    case Incomplete => Incomplete
    case Malformed => Malformed
    case Parsed(v, n) => Parsed(v, n + 1)
  }

  /** Any other first byte is refused at once. */
  lemma OtherMarkers(s: bytes, lim: Limits)
    requires s != [] && s[..1] !in {Word("+"), Word("-"), Word(":"), Word("$"), Word("*")}
    ensures ParseValue(s, lim).Malformed?
  {
    Markers();
    hide Word;
    assert s[..1] == [s[0]];
  }

  /** A bulk string that is not followed by a line end is refused. */
  lemma BulkNeedsItsEnd(b: bytes, after: bytes, lim: Limits)
    requires |b| <= lim.maxBulk && |b| <= I32_MAX && |after| >= 2 && !(after[0] == 13 && after[1] == 10)
    ensures ParseValue(Word("$") + (Digits(|b|) + CRLF + b + after), lim).Malformed?
  {
    Markers();
    hide Word, Digits, ParseLength, ParseValue, ParseBulk;
    var body := Digits(|b|) + CRLF + b + after;
    WrongBulk(b, after, lim);
    Introduced(36, body, lim);
  }

  lemma WrongBulk(b: bytes, after: bytes, lim: Limits)
    requires |b| <= lim.maxBulk && |b| <= I32_MAX && |after| >= 2 && !(after[0] == 13 && after[1] == 10)
    ensures ParseBulk(Digits(|b|) + CRLF + b + after, lim).Malformed?
  {
    hide Digits, ParseLength, CrlfAt, ParseBulk;
    var head := Digits(|b|) + CRLF;
    Regroup(head, b, after);
    LengthRoundTrip(|b|, lim.maxBulk, b + after);
    WrongEnd(head, b, after);
    EndDecides(head + b + after, |b|, |head|, lim);
  }

  lemma Regroup(a: bytes, b: bytes, c: bytes)
    ensures a + b + c == a + (b + c)
  {
  }

  lemma EndDecides(s: bytes, len: nat, n: nat, lim: Limits)
    requires ParseLength(s, lim.maxBulk) == Parsed(len, n) && |s| - n >= len + 2 && !CrlfAt(s, n + len)
    ensures ParseBulk(s, lim).Malformed?
  {
    hide ParseLength, CrlfAt;
  }

  lemma WrongEnd(head: bytes, b: bytes, after: bytes)
    requires |after| >= 2 && !(after[0] == 13 && after[1] == 10)
    ensures !CrlfAt(head + b + after, |head| + |b|) && |head + b + after| - |head| >= |b| + 2
  {
    assert (head + b + after)[|head| + |b|] == after[0] && (head + b + after)[|head| + |b| + 1] == after[1];
  }

  /** Requests are the non-empty arrays of strings whose first one is text: its capitals, and the others as they are. */
  lemma RequestIs(v: RespValue)
    ensures CommandOf(v).Some?
            <==> && v.Array? && v.elements != []
                 && (forall i :: 0 <= i < |v.elements| ==>
                       v.elements[i].SimpleString? || (v.elements[i].BulkString? && v.elements[i].payload.Some?))
                 && IsUtf8(StringIn(v.elements[0]))
    ensures CommandOf(v).Some? ==>
              var c := CommandOf(v).value;
              && c.name == UpperName(StringIn(v.elements[0])) && |c.args| == |v.elements| - 1
              && forall i :: 0 <= i < |c.args| ==> c.args[i] == StringIn(v.elements[i + 1])
  {
    hide IsUtf8, UpperName;
    if v.Array? {
      forall i | 0 <= i < |v.elements|
        ensures Argument(v.elements[i]).Some?
                <==> v.elements[i].SimpleString? || (v.elements[i].BulkString? && v.elements[i].payload.Some?)
        ensures Argument(v.elements[i]).Some? ==> Argument(v.elements[i]).value == StringIn(v.elements[i])
      {
      }
    }
  }

  function StringIn(v: RespValue): bytes {
    match v
    case SimpleString(s) => s
    case BulkString(Some(b)) => b
    case _ => []
  }

  // ---------------------------------------------------------------- numbers

  lemma {:induction false} PartsAreDigits(a: bytes, b: bytes)
    requires AllDigits(a + b)
    ensures AllDigits(a) && AllDigits(b)
  {
    assert forall i :: 0 <= i < |a| ==> (a + b)[i] == a[i];
    assert forall i :: 0 <= i < |b| ==> (a + b)[i + |a|] == b[i];
  }

  /** Numerals are positional, the first digit counting most. */
  lemma {:induction false} DigitsCount(a: bytes, b: bytes)
    requires AllDigits(a + b) && AllDigits(a) && AllDigits(b)
    ensures DigitsValue(a + b) == DigitsValue(a) * TenTo(|b|) + DigitsValue(b)
    decreases |b|
  {
    if b == [] {
      assert a + b == a;
    } else {
      var init, last := b[..|b| - 1], b[|b| - 1];
      assert (a + b)[..|a + b| - 1] == a + init;
      PartsAreDigits(a + init, [last]) by { assert a + init + [last] == a + b; }
      PartsAreDigits(init, [last]) by { assert init + [last] == b; }
      DigitsCount(a, init);
      Tenfold(DigitsValue(a), TenTo(|init|), DigitsValue(init));
    }
  }

  lemma Tenfold(x: nat, t: nat, y: nat)
    ensures 10 * (x * t + y) == x * (10 * t) + 10 * y
  {
  }

  lemma OneDigit(d: byte)
    requires IsDigit(d)
    ensures DigitsValue([d]) == d - Word("0")[0] && (IsDigit(d) <==> Word("0")[0] <= d <= Word("9")[0])
  {
    assert Word("0") == [48] && Word("9") == [57];
    var one := [d];
    assert one[..0] == [];
  }

  /** What is read as a signed number: digits, with a plus or a minus sign or none, in range. */
  lemma SignedReads(s: bytes, min: int, max: int)
    requires IsNumeral(s)
    ensures var n: int := DigitsValue(s);
            && ParseSigned(s, min, max) == (if min <= n <= max then Some(n) else None)
            && ParseSigned(Word("+") + s, min, max) == (if min <= n <= max then Some(n) else None)
            && ParseSigned(Word("-") + s, min, max) == (if min <= -n <= max then Some(-n) else None)
  {
    Markers();
    hide Word, DigitsValue;
    assert ([43] + s)[1..] == s && ([45] + s)[1..] == s;
    assert IsDigit(s[0]);
  }

  /** An unsigned one takes no minus sign. */
  lemma UnsignedReads(s: bytes, max: nat)
    requires IsNumeral(s)
    ensures var n := DigitsValue(s);
            && ParseUnsigned(s, max) == (if n <= max then Some(n) else None)
            && ParseUnsigned(Word("+") + s, max) == (if n <= max then Some(n) else None)
            && ParseUnsigned(Word("-") + s, max) == None
  {
    Markers();
    hide Word, DigitsValue;
    assert ([43] + s)[1..] == s;
    assert ([45] + s)[0] == 45;
    assert IsDigit(s[0]);
  }

  /** Anything else is no number: nothing, a sign alone, or a byte that is no digit. */
  lemma NoNumber(s: bytes, min: int, max: int)
    requires !IsNumeral(s) && !(s != [] && (s[..1] == Word("+") || s[..1] == Word("-")) && IsNumeral(s[1..]))
    ensures ParseSigned(s, min, max) == None
    ensures max >= 0 ==> ParseUnsigned(s, max) == None
  {
    Markers();
    hide Word, DigitsValue;
    if s != [] {
      assert s[..1] == [s[0]];
    }
  }

  // ------------------------------------------------------------------- text

  /** The Unicode scalar values. */
  predicate IsScalar(cp: int) {
    0 <= cp <= 0x10FFFF && !(0xD800 <= cp <= 0xDFFF)
  }

  /** UTF-8: one to four bytes, six bits in each after the first. */
  function Utf8Of(cp: int): bytes
    requires IsScalar(cp)
  {
    if cp < 0x80 then [cp]
    else if cp < 0x800 then [0xC0 + cp / 64, 0x80 + cp % 64]
    else if cp < 0x10000 then [0xE0 + cp / 64 / 64, 0x80 + cp / 64 % 64, 0x80 + cp % 64]
    else [0xF0 + cp / 64 / 64 / 64, 0x80 + cp / 64 / 64 % 64, 0x80 + cp / 64 % 64, 0x80 + cp % 64]
  }

  function Utf8All(cps: seq<int>): bytes
    requires forall i :: 0 <= i < |cps| ==> IsScalar(cps[i])
  {
    if cps == [] then [] else Utf8Of(cps[0]) + Utf8All(cps[1..])
  }

  lemma FirstScalar(cp: int, rest: bytes)
    requires IsScalar(cp)
    ensures ScalarWidth(Utf8Of(cp) + rest) == |Utf8Of(cp)| && Utf8Of(cp) != []
  {
    var s := Utf8Of(cp) + rest;
    assert forall i :: 0 <= i < |Utf8Of(cp)| ==> s[i] == Utf8Of(cp)[i];
    if cp >= 0x10000 {
      FourBytes(cp);
    } else if cp >= 0x800 {
      ThreeBytes(cp);
    }
  }

  lemma ThreeBytes(cp: int)
    requires IsScalar(cp) && 0x800 <= cp < 0x10000
    ensures IsSecond(0xE0 + cp / 64 / 64, 0x80 + cp / 64 % 64) && Announced(0xE0 + cp / 64 / 64) == 3
  {
    var high, mid := cp / 64 / 64, cp / 64 % 64;
    assert 0 <= cp - (high * 64 + mid) * 64 < 64;
  }

  lemma FourBytes(cp: int)
    requires IsScalar(cp) && 0x10000 <= cp
    ensures IsSecond(0xF0 + cp / 64 / 64 / 64, 0x80 + cp / 64 / 64 % 64) && Announced(0xF0 + cp / 64 / 64 / 64) == 4
  {
    var high, mid := cp / 64 / 64 / 64, cp / 64 / 64 % 64;
    assert 0 <= cp - (high * 64 + mid) * 4096 < 4096;
  }

  lemma {:induction false} EncodedIsText(cps: seq<int>)
    requires forall i :: 0 <= i < |cps| ==> IsScalar(cps[i])
    ensures IsUtf8(Utf8All(cps))
  {
    hide Utf8Of, ScalarWidth;
    if cps != [] {
      var first, rest := Utf8Of(cps[0]), Utf8All(cps[1..]);
      EncodedIsText(cps[1..]);
      FirstScalar(cps[0], rest);
      assert (first + rest)[|first|..] == rest;
    }
  }

  /** One more group of six bits. */
  function Shift(high: int, low: int): int {
    high * 64 + (low - 0x80)
  }

  lemma ShiftBack(high: int, low: int)
    requires 0 <= high && 0x80 <= low < 0xC0
    ensures Shift(high, low) / 64 == high && Shift(high, low) % 64 == low - 0x80
  {
  }

  /** The scalar value at the front. */
  function ScalarAt(s: bytes): int
    requires s != []
  {
    var w := ScalarWidth(s);
    var lead: int := s[0];
    if w <= 1 then lead
    else if w == 2 then Shift(lead - 0xC0, s[1])
    else if w == 3 then Shift(Shift(lead - 0xE0, s[1]), s[2])
    else Shift(Shift(Shift(lead - 0xF0, s[1]), s[2]), s[3])
  }

  lemma ScalarReads(s: bytes)
    requires s != [] && ScalarWidth(s) > 0
    ensures IsScalar(ScalarAt(s)) && Utf8Of(ScalarAt(s)) == s[..ScalarWidth(s)]
  {
    var w := ScalarWidth(s);
    if w == 1 {
      assert s[..1] == [s[0]];
    } else if w == 2 {
      TwoBack(s[0], s[1]);
      assert s[..2] == [s[0], s[1]];
    } else if w == 3 {
      ThreeBack(s[0], s[1], s[2]);
      assert s[..3] == [s[0], s[1], s[2]];
    } else {
      FourBack(s[0], s[1], s[2], s[3]);
      assert s[..4] == [s[0], s[1], s[2], s[3]];
    }
  }

  lemma TwoBack(a: byte, b: byte)
    requires 0xC2 <= a <= 0xDF && IsSecond(a, b)
    ensures var cp := Shift(a - 0xC0, b); IsScalar(cp) && Utf8Of(cp) == [a, b]
  {
    ShiftBack(a - 0xC0, b);
  }

  lemma ThreeBack(a: byte, b: byte, c: byte)
    requires 0xE0 <= a <= 0xEF && IsSecond(a, b) && IsContinuation(c)
    ensures var cp := Shift(Shift(a - 0xE0, b), c); IsScalar(cp) && Utf8Of(cp) == [a, b, c]
  {
    ShiftBack(a - 0xE0, b);
    ShiftBack(Shift(a - 0xE0, b), c);
  }

  lemma FourBack(a: byte, b: byte, c: byte, d: byte)
    requires 0xF0 <= a <= 0xF4 && IsSecond(a, b) && IsContinuation(c) && IsContinuation(d)
    ensures var cp := Shift(Shift(Shift(a - 0xF0, b), c), d); IsScalar(cp) && Utf8Of(cp) == [a, b, c, d]
  {
    ShiftBack(a - 0xF0, b);
    ShiftBack(Shift(a - 0xF0, b), c);
    ShiftBack(Shift(Shift(a - 0xF0, b), c), d);
  }

  lemma {:induction false} TextDecodes(s: bytes) returns (cps: seq<int>)
    requires IsUtf8(s)
    ensures (forall i :: 0 <= i < |cps| ==> IsScalar(cps[i])) && Utf8All(cps) == s
    decreases |s|
  {
    hide ScalarAt, Utf8Of;
    if s == [] {
      cps := [];
    } else {
      var w := ScalarWidth(s);
      var rest := TextDecodes(s[w..]);
      ScalarReads(s);
      cps := [ScalarAt(s)] + rest;
      assert cps[1..] == rest;
      assert s == s[..w] + s[w..];
    }
  }

  /** Text is exactly what some scalar values encode to. */
  lemma TextIs(s: bytes)
    ensures IsUtf8(s)
            <==> exists cps: seq<int> :: (forall i :: 0 <= i < |cps| ==> IsScalar(cps[i])) && Utf8All(cps) == s
  {
    hide Utf8All;
    if IsUtf8(s) {
      var cps := TextDecodes(s);
    }
    if cps: seq<int> :| (forall i :: 0 <= i < |cps| ==> IsScalar(cps[i])) && Utf8All(cps) == s {
      EncodedIsText(cps);
    }
  }

  lemma SameFront(s: bytes, t: bytes)
    requires s != [] && ScalarWidth(s) > 0
    ensures var w := ScalarWidth(s); ScalarWidth(s[..w] + t) == w
  {
  }

  /** Lossy decoding makes text of anything, and leaves alone exactly what is text. */
  lemma {:induction false} LossyIsText(s: bytes)
    ensures IsUtf8(Lossy(s))
    ensures Lossy(s) == s <==> IsUtf8(s)
    decreases |s|
  {
    LossyMakesText(s);
    if IsUtf8(s) {
      LossyKeepsText(s);
    }
  }

  lemma {:induction false} LossyMakesText(s: bytes)
    ensures IsUtf8(Lossy(s))
    decreases |s|
  {
    if s != [] {
      var w := ScalarWidth(s);
      if w > 0 {
        LossyMakesText(s[w..]);
        SameFront(s, Lossy(s[w..]));
        assert (s[..w] + Lossy(s[w..]))[w..] == Lossy(s[w..]);
      } else {
        var bad := if WellFormedPrefix(s) == 0 then 1 else WellFormedPrefix(s);
        LossyMakesText(s[bad..]);
        var rest := Lossy(s[bad..]);
        assert ([0xEF, 0xBF, 0xBD] + rest)[3..] == rest;
      }
    }
  }

  /** One character in front is kept as it is. */
  lemma LossyFront(c: bytes, s: bytes)
    requires c != [] && ScalarWidth(c) == |c|
    ensures Lossy(c + s) == c + Lossy(s)
  {
    hide ScalarWidth;
    assert c[..|c|] == c;
    SameFront(c, s);
    assert (c + s)[..|c|] == c && (c + s)[|c|..] == s;
  }

  lemma {:induction false} LossyAfterText(t: bytes, s: bytes)
    requires IsUtf8(t)
    ensures Lossy(t + s) == t + Lossy(s)
    decreases |t|
  {
    hide ScalarWidth, Lossy;
    if t == [] {
      assert t + s == s && t + Lossy(s) == Lossy(s);
    } else {
      var c, more := t[..ScalarWidth(t)], t[ScalarWidth(t)..];
      assert t == c + more;
      SameFront(t, []);
      assert c + [] == c;
      LossyAfterText(more, s);
      LossyFront(c, more + s);
      assert t + s == c + (more + s) && t + Lossy(s) == c + (more + Lossy(s));
    }
  }

  /** A byte that can start nothing becomes one U+FFFD, and reading goes on behind it. */
  lemma LossyStray(t: bytes, b: byte, rest: bytes)
    requires IsUtf8(t) && (0x80 <= b < 0xC2 || b > 0xF4)
    ensures Lossy(t + ([b] + rest)) == t + (Utf8Of(0xFFFD) + Lossy(rest))
  {
    LossyAfterText(t, [b] + rest);
    assert ([b] + rest)[1..] == rest;
  }

  /** A character cut short, whatever its length, becomes one U+FFFD as a whole. */
  lemma LossyCut(t: bytes, cp: int, n: nat, rest: bytes)
    requires IsUtf8(t) && IsScalar(cp) && 0 < n < |Utf8Of(cp)|
    requires rest == [] || !IsContinuation(rest[0])
    ensures Lossy(t + (Utf8Of(cp)[..n] + rest)) == t + (Utf8Of(0xFFFD) + Lossy(rest))
  {
    var s := Utf8Of(cp)[..n] + rest;
    LossyAfterText(t, s);
    CutFront(cp, n, rest);
    assert s[n..] == rest;
  }

  lemma CutFront(cp: int, n: nat, rest: bytes)
    requires IsScalar(cp) && 0 < n < |Utf8Of(cp)|
    requires rest == [] || !IsContinuation(rest[0])
    ensures var s := Utf8Of(cp)[..n] + rest; WellFormedPrefix(s) == n && ScalarWidth(s) == 0
  {
  }
}
