// The three string-to-number parsers of the package: RebootTest's decimal
// ParseUint32, RuntimeVarEditor's RveParseHexUintn and LoongArchMappingDump's
// ParseHexAddress.  A CHAR16 string is a `string` without its terminator.
module Parsers {
  import opened Bytes

  function DigitOf(c: char): (d: Option<nat>)
    ensures d.Some? ==> d.value < 16
  {
    if '0' <= c <= '9' then Some((c - '0') as nat)
    else if 'a' <= c <= 'f' then Some((c - 'a') as nat + 10)
    else if 'A' <= c <= 'F' then Some((c - 'A') as nat + 10)
    else None
  }

  predicate IsDigit(radix: nat, c: char) {
    DigitOf(c).Some? && DigitOf(c).value < radix
  }

  predicate IsNumeral(radix: nat, s: string) {
    forall i :: 0 <= i < |s| ==> IsDigit(radix, s[i])
  }

  // The number a numeral denotes, unbounded.
  function Value(radix: nat, s: string): nat
    requires IsNumeral(radix, s)
  {
    if s == [] then 0 else radix * Value(radix, s[..|s| - 1]) + DigitOf(s[|s| - 1]).value
  }

  lemma Grows(radix: nat, v: nat)
    requires radix >= 1
    ensures v <= radix * v
  {
    assert radix * v == v + (radix - 1) * v;
  }

  lemma {:induction false} PrefixIsSmaller(radix: nat, s: string, k: nat)
    requires radix >= 1 && IsNumeral(radix, s) && k <= |s|
    ensures Value(radix, s[..k]) <= Value(radix, s)
    decreases |s|
  {
    if k == |s| {
      assert s[..k] == s;
    } else {
      var t := s[..|s| - 1];
      assert t[..k] == s[..k];
      PrefixIsSmaller(radix, t, k);
      Grows(radix, Value(radix, t));
    }
  }

  lemma Extend(radix: nat, s: string, i: nat)
    requires i < |s| && IsNumeral(radix, s[..i + 1])
    ensures IsNumeral(radix, s[..i])
    ensures Value(radix, s[..i + 1]) == radix * Value(radix, s[..i]) + DigitOf(s[i]).value
  {
    var t := s[..i + 1];
    assert forall j :: 0 <= j < i ==> s[..i][j] == t[j];
    assert t[..|t| - 1] == s[..i];
  }

  // RebootTest.c: accepts exactly the non-empty decimal numerals below 2^32.
  method ParseUint32(s: string) returns (r: Option<uint32>)
    ensures r.Some? <==> s != [] && IsNumeral(10, s) && Value(10, s) <= MAX_UINT32
    ensures r.Some? ==> r.value == Value(10, s)
  {
    if s == [] {
      return None;
    }
    var value: uint32 := 0;
    var i := 0;
    while i < |s|
      invariant 0 <= i <= |s|
      invariant IsNumeral(10, s[..i]) && value == Value(10, s[..i])
    {
      if s[i] < '0' || s[i] > '9' {
        assert !IsDigit(10, s[i]);
        return None;
      }
      var digit := (s[i] - '0') as nat;
      assert IsNumeral(10, s[..i + 1]);
      Extend(10, s, i);
      if value > (MAX_UINT32 - digit) / 10 {
        if IsNumeral(10, s) {
          PrefixIsSmaller(10, s, i + 1);
        }
        return None;
      }
      value := value * 10 + digit;
      i := i + 1;
    }
    assert s[..i] == s;
    return Some(value);
  }

  predicate HasHexPrefix(s: string) {
    |s| >= 2 && s[0] == '0' && (s[1] == 'x' || s[1] == 'X')
  }

  function HexBody(s: string): string {
    if HasHexPrefix(s) then s[2..] else s
  }

  lemma OneMoreDigit(s: string, k: nat)
    requires k < |s| && IsNumeral(16, s[..k]) && DigitOf(s[k]).Some?
    ensures IsNumeral(16, s[..k + 1])
    ensures Value(16, s[..k + 1]) == 16 * Value(16, s[..k]) + DigitOf(s[k]).value
  {
    var t := s[..k + 1];
    assert forall i :: 0 <= i < k ==> t[i] == s[..k][i];
    Extend(16, s, k);
  }

  lemma OneMoreIsTooMuch(s: string, k: nat)
    requires IsNumeral(16, s) && k < |s| && Value(16, s[..k]) > MAX_UINT64 / 16
    ensures Value(16, s) > MAX_UINT64
  {
    Extend(16, s, k);
    PrefixIsSmaller(16, s, k + 1);
  }

  // RuntimeVarEditor.c, with a 64-bit UINTN: non-empty text whose digits after an
  // optional 0x denote a number below 2^64; a bare "0x" is zero.
  method RveParseHexUintn(text: string) returns (r: Option<uint64>)
    ensures r.Some? <==> text != [] && IsNumeral(16, HexBody(text)) && Value(16, HexBody(text)) <= MAX_UINT64
    ensures r.Some? ==> r.value == Value(16, HexBody(text))
  {
    if text == [] {
      return None;
    }
    ghost var body := HexBody(text);
    var start := 0;
    if HasHexPrefix(text) {
      start := 2;
    }
    var index := start;
    var result: uint64 := 0;
    while index < |text|
      invariant start <= index <= |text|
      invariant IsNumeral(16, body[..index - start]) && result == Value(16, body[..index - start])
    {
      var ch := text[index];
      ghost var k := index - start;
      assert body[k] == ch;
      if result > MAX_UINT64 / 16 {
        if IsNumeral(16, body) {
          OneMoreIsTooMuch(body, k);
        }
        return None;
      }
      if DigitOf(ch).None? {
        assert !IsDigit(16, body[k]);
        return None;
      }
      OneMoreDigit(body, k);
      result := 16 * result + DigitOf(ch).value;
      index := index + 1;
    }
    assert body[..index - start] == body;
    return Some(result);
  }

  // The remainder is known by its quotient.
  lemma Remainder(n: nat, q: nat, r: nat)
    requires r <= MAX_UINT64 && n == (MAX_UINT64 + 1) * q + r
    ensures n % (MAX_UINT64 + 1) == r
  {
  }

  // Cutting r in two at its top digit.
  lemma TopDigit(r: uint64)
    ensures r == 0x1000_0000_0000_0000 * (r / 0x1000_0000_0000_0000) + r % 0x1000_0000_0000_0000
  {
  }

  // A shift by one digit drops what does not fit and leaves room for the next digit.
  lemma ShiftModulo(v: nat, d: nat)
    requires d < 16
    ensures (16 * (v % (MAX_UINT64 + 1))) % (MAX_UINT64 + 1) + d == (16 * v + d) % (MAX_UINT64 + 1)
  {
    var q, r := v / (MAX_UINT64 + 1), v % (MAX_UINT64 + 1);
    var top, low := r / 0x1000_0000_0000_0000, r % 0x1000_0000_0000_0000;
    TopDigit(r);
    Remainder(16 * r, top, 16 * low);
    Remainder(16 * v + d, 16 * q + top, 16 * low + d);
  }

  // LoongArchMappingDump.c: no overflow check, so the value wraps modulo 2^64, and
  // the empty string is accepted as zero.
  method ParseHexAddress(s: string) returns (r: Option<uint64>)
    ensures r.Some? <==> IsNumeral(16, HexBody(s))
    ensures r.Some? ==> r.value == Value(16, HexBody(s)) % (MAX_UINT64 + 1)
  {
    var text := if HasHexPrefix(s) then s[2..] else s;
    var result: uint64 := 0;
    var i := 0;
    while i < |text|
      invariant 0 <= i <= |text|
      invariant IsNumeral(16, text[..i]) && result == Value(16, text[..i]) % (MAX_UINT64 + 1)
    {
      var ch := text[i];
      if DigitOf(ch).None? {
        assert !IsDigit(16, text[i]);
        return None;
      }
      OneMoreDigit(text, i);
      ShiftModulo(Value(16, text[..i]), DigitOf(ch).value);
      result := (16 * result) % (MAX_UINT64 + 1) + DigitOf(ch).value;
      i := i + 1;
    }
    assert text[..i] == text;
    return Some(result);
  }

  function DecimalDigit(d: nat): (c: char)
    requires d < 10
    ensures DigitOf(c) == Some(d)
  {
    '0' + d as char
  }

  function Decimal(n: nat): (s: string)
    ensures s != []
  {
    if n < 10 then [DecimalDigit(n)] else Decimal(n / 10) + [DecimalDigit(n % 10)]
  }

  // Printing a number in decimal and parsing it gives the number back.
  lemma {:induction false} DecimalRoundTrip(n: nat)
    ensures IsNumeral(10, Decimal(n)) && Value(10, Decimal(n)) == n
  {
    var s := Decimal(n);
    if n < 10 {
      assert s[..|s| - 1] == [];
    } else {
      DecimalRoundTrip(n / 10);
      assert s[..|s| - 1] == Decimal(n / 10);
    }
  }

  const LOWER_DIGITS: string := "0123456789abcdef"
  const UPPER_DIGITS: string := "0123456789ABCDEF"

  // A number in hexadecimal, with lower or upper case digits.
  function Hexadecimal(n: nat, upper: bool): (s: string)
    ensures s != []
  {
    var digit := (if upper then UPPER_DIGITS else LOWER_DIGITS)[n % 16];
    if n < 16 then [digit] else Hexadecimal(n / 16, upper) + [digit]
  }

  lemma DigitIs(d: nat)
    requires d < 16
    ensures DigitOf(LOWER_DIGITS[d]) == Some(d) && DigitOf(UPPER_DIGITS[d]) == Some(d)
  {
  }

  // Printing a number in hexadecimal and reading it gives the number back.
  lemma {:induction false} HexRoundTrip(n: nat, upper: bool)
    ensures IsNumeral(16, Hexadecimal(n, upper)) && Value(16, Hexadecimal(n, upper)) == n
  {
    var s := Hexadecimal(n, upper);
    DigitIs(n % 16);
    if n < 16 {
      assert s[..|s| - 1] == [];
    } else {
      HexRoundTrip(n / 16, upper);
      assert s[..|s| - 1] == Hexadecimal(n / 16, upper);
    }
  }

  // Bare, or behind a prefix of either case, what the two hexadecimal parsers look at.
  lemma HexTextReadBack(n: nat, upper: bool)
    ensures HexBody(Hexadecimal(n, upper)) == Hexadecimal(n, upper)
    ensures HexBody("0x" + Hexadecimal(n, upper)) == HexBody("0X" + Hexadecimal(n, upper)) == Hexadecimal(n, upper)
    ensures IsNumeral(16, Hexadecimal(n, upper)) && Value(16, Hexadecimal(n, upper)) == n
  {
    HexRoundTrip(n, upper);
    var s := Hexadecimal(n, upper);
    assert |s| >= 2 ==> IsDigit(16, s[1]);
    assert ("0x" + s)[2..] == s && ("0X" + s)[2..] == s;
  }
}
