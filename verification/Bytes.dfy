/** Octet strings, text and numbers as they travel on the wire. */
module Bytes {

  type byte = b: int | 0 <= b < 256

  type bytes = seq<byte>

  datatype Option<+T> = None | Some(value: T)

  const CRLF: bytes := [13, 10]

  /** All parts, one after the other. */
  function Concat(parts: seq<bytes>): bytes {
    if parts == [] then [] else parts[0] + Concat(parts[1..])
  }

  lemma {:induction false} ConcatSplit(a: seq<bytes>, b: seq<bytes>)
    ensures Concat(a + b) == Concat(a) + Concat(b)
  {
    if a == [] {
      assert a + b == b;
    } else {
      assert (a + b)[1..] == a[1..] + b;
      ConcatSplit(a[1..], b);
    }
  }

  lemma ConcatOne(x: bytes)
    ensures Concat([x]) == x
  {
    assert Concat([x]) == x + Concat([]);
  }

  lemma ConcatSnoc(a: seq<bytes>, x: bytes)
    ensures Concat(a + [x]) == Concat(a) + x
  {
    ConcatSplit(a, [x]);
    ConcatOne(x);
  }

  /** A word of ASCII characters as it is sent. */
  function Word(s: string): bytes
    requires forall i :: 0 <= i < |s| ==> s[i] < '\U{80}'
  {
    seq(|s|, i requires 0 <= i < |s| => s[i] as int)
  }

  /** ASCII upper case; bytes outside `a`..`z` are left alone. */
  function Upper(s: bytes): bytes {
    seq(|s|, i requires 0 <= i < |s| => if 97 <= s[i] <= 122 then s[i] - 32 else s[i])
  }

  /** What the letters that are not ASCII, but whose capitals are, become: sharp s, dotless i, long s. */
  function WideCapital(a: byte, b: byte): bytes {
    if a == 195 && b == 159 then [83, 83]
    else if a == 196 && b == 177 then [73]
    else if a == 197 && b == 191 then [83]
    else []
  }

  /** And the Latin ligatures, U+FB00 to U+FB06. */
  function LigatureCapital(a: byte, b: byte, c: byte): bytes {
    if a != 239 || b != 172 || !(128 <= c <= 134) then []
    else [[70, 70], [70, 73], [70, 76], [70, 70, 73], [70, 70, 76], [83, 84], [83, 84]][c - 128]
  }

  function UpperWide(s: bytes): bytes
    decreases |s|
  {
    if s == [] then []
    else if |s| >= 2 && WideCapital(s[0], s[1]) != [] then WideCapital(s[0], s[1]) + UpperWide(s[2..])
    else if |s| >= 3 && LigatureCapital(s[0], s[1], s[2]) != []
    then LigatureCapital(s[0], s[1], s[2]) + UpperWide(s[3..])
    else Upper(s[..1]) + UpperWide(s[1..])
  }

  /**
   * Upper case by the Unicode rules, as far as the outcome can be an ASCII word:
   * letters whose capitals are not ASCII are left alone.
   */
  function UpperName(s: bytes): bytes {
    if IsAscii(s) then Upper(s) else UpperWide(s)
  }

  predicate IsAscii(s: bytes) {
    forall i :: 0 <= i < |s| ==> s[i] < 128
  }

  // ---------------------------------------------------------------- UTF-8

  predicate IsContinuation(b: byte) {
    0x80 <= b <= 0xBF
  }

  /** Second bytes that may follow the lead byte `lead` (table 3-7 of the Unicode standard). */
  predicate IsSecond(lead: byte, b: byte) {
    if lead == 0xE0 then 0xA0 <= b <= 0xBF
    else if lead == 0xED then 0x80 <= b <= 0x9F
    else if lead == 0xF0 then 0x90 <= b <= 0xBF
    else if lead == 0xF4 then 0x80 <= b <= 0x8F
    else IsContinuation(b)
  }

  /** Number of bytes in the scalar value a lead byte announces; 0 for a byte that leads nothing. */
  function Announced(lead: byte): nat {
    if lead < 0x80 then 1
    else if 0xC2 <= lead <= 0xDF then 2
    else if 0xE0 <= lead <= 0xEF then 3
    else if 0xF0 <= lead <= 0xF4 then 4
    else 0
  }

  /** How much of the announced scalar value is really there, at the front of `s`. */
  function WellFormedPrefix(s: bytes): (n: nat)
    requires s != []
    ensures n <= |s| && n <= Announced(s[0])
  {
    var w := Announced(s[0]);
    if w == 0 then 0
    else if w == 1 || |s| == 1 || !IsSecond(s[0], s[1]) then 1
    else if w == 2 || |s| == 2 || !IsContinuation(s[2]) then 2
    else if w == 3 || |s| == 3 || !IsContinuation(s[3]) then 3
    else 4
  }

  /** Width of the well-formed scalar value at the front of `s`, 0 when there is none. */
  function ScalarWidth(s: bytes): (n: nat)
    requires s != []
    ensures n <= |s|
  {
    var n := WellFormedPrefix(s);
    if n == Announced(s[0]) then n else 0
  }

  predicate IsUtf8(s: bytes) {
    s == [] || (ScalarWidth(s) > 0 && IsUtf8(s[ScalarWidth(s)..]))
  }

  /**
   * Lossy decoding: every maximal ill-formed subpart becomes U+FFFD. Used where
   * the server renders a stored value as text.
   */
  function Lossy(s: bytes): bytes {
    if s == [] then []
    else if ScalarWidth(s) > 0 then s[..ScalarWidth(s)] + Lossy(s[ScalarWidth(s)..])
    else
      var bad := if WellFormedPrefix(s) == 0 then 1 else WellFormedPrefix(s);
      [0xEF, 0xBF, 0xBD] + Lossy(s[bad..])
  }

  lemma {:induction false} AsciiIsUtf8(s: bytes)
    requires IsAscii(s)
    ensures IsUtf8(s)
  {
    if s != [] {
      AsciiIsUtf8(s[1..]);
    }
  }

  /** Lossy decoding changes nothing in bytes that are text already. */
  lemma {:induction false} LossyKeepsText(s: bytes)
    requires IsUtf8(s)
    ensures Lossy(s) == s
  {
    if s != [] {
      LossyKeepsText(s[ScalarWidth(s)..]);
    }
  }

  // ------------------------------------------------------------- decimals

  predicate IsDigit(b: byte) {
    48 <= b <= 57
  }

  predicate AllDigits(s: bytes) {
    forall i :: 0 <= i < |s| ==> IsDigit(s[i])
  }

  function Digits(n: nat): bytes {
    if n < 10 then [48 + n] else Digits(n / 10) + [48 + n % 10]
  }

  function Decimal(i: int): bytes {
    if i < 0 then [45] + Digits(-i) else Digits(i)
  }

  function DigitsValue(s: bytes): nat
    requires AllDigits(s)
  {
    if s == [] then 0 else 10 * DigitsValue(s[..|s| - 1]) + (s[|s| - 1] - 48)
  }

  const I64_MIN := -0x8000_0000_0000_0000
  const I64_MAX := 0x7FFF_FFFF_FFFF_FFFF
  const I32_MIN := -0x8000_0000
  const I32_MAX := 0x7FFF_FFFF
  const U64_MAX := 0xFFFF_FFFF_FFFF_FFFF

  type i64 = i: int | I64_MIN <= i <= I64_MAX

  predicate IsNumeral(s: bytes) {
    s != [] && AllDigits(s)
  }

  /** Signed integer literal: optional `+` or `-`, then at least one digit, in range. */
  function ParseSigned(s: bytes, min: int, max: int): (r: Option<int>)
    ensures r.Some? ==> min <= r.value <= max
  {
    if s == [] then None
    else
      var signed := s[0] == 43 || s[0] == 45;
      var body := if signed then s[1..] else s;
      if !IsNumeral(body) then None
      else
        var magnitude: int := DigitsValue(body);
        var v := if s[0] == 45 then -magnitude else magnitude;
        if min <= v <= max then Some(v) else None
  }

  /** Unsigned integer literal: optional `+` only, then at least one digit, in range. */
  function ParseUnsigned(s: bytes, max: nat): (r: Option<nat>)
    ensures r.Some? ==> r.value <= max
  {
    if s == [] then None
    else
      var body := if s[0] == 43 then s[1..] else s;
      if !IsNumeral(body) then None
      else if DigitsValue(body) <= max then Some(DigitsValue(body)) else None
  }

  lemma {:induction false} DigitsFacts(n: nat)
    ensures IsNumeral(Digits(n)) && DigitsValue(Digits(n)) == n
  {
    if n >= 10 {
      DigitsFacts(n / 10);
      var s := Digits(n);
      assert s[..|s| - 1] == Digits(n / 10);
    }
  }

  /** Printing an integer and reading it back gives the integer, whenever it is in range. */
  lemma SignedRoundTrip(i: int, min: int, max: int)
    requires min <= i <= max
    ensures ParseSigned(Decimal(i), min, max) == Some(i)
  {
    DigitsFacts(if i < 0 then -i else i);
    if i < 0 {
      assert Decimal(i)[1..] == Digits(-i);
    } else {
      assert IsDigit(Digits(i)[0]);
    }
  }

  lemma SignedOutOfRange(i: int, min: int, max: int)
    requires !(min <= i <= max)
    ensures ParseSigned(Decimal(i), min, max) == None
  {
    DigitsFacts(if i < 0 then -i else i);
    if i < 0 {
      assert Decimal(i)[1..] == Digits(-i);
    } else {
      assert IsDigit(Digits(i)[0]);
    }
  }

  lemma UnsignedRoundTrip(n: nat, max: nat)
    requires n <= max
    ensures ParseUnsigned(Digits(n), max) == Some(n)
  {
    DigitsFacts(n);
    assert IsDigit(Digits(n)[0]);
  }

  function TenTo(k: nat): nat {
    if k == 0 then 1 else 10 * TenTo(k - 1)
  }

  /** A number below a power of ten has no more digits than that. */
  lemma {:induction false} DigitsWithin(n: nat, k: nat)
    requires k > 0 && n < TenTo(k)
    ensures 1 <= |Digits(n)| <= k
  {
    if n >= 10 {
      DigitsWithin(n / 10, k - 1);
    }
  }

  /** A printed integer is text that cannot be mistaken for a line end. */
  lemma DecimalIsPlain(i: int)
    ensures IsAscii(Decimal(i)) && IsUtf8(Decimal(i)) && 13 !in Decimal(i)
    ensures Lossy(Decimal(i)) == Decimal(i)
  {
    DigitsFacts(if i < 0 then -i else i);
    var d := Digits(if i < 0 then -i else i);
    assert forall k :: 0 <= k < |d| ==> IsDigit(d[k]);
    AsciiIsUtf8(Decimal(i));
    LossyKeepsText(Decimal(i));
  }
}
