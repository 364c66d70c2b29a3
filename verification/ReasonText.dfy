/** The text form of the persistent update reason: the number parser and the printed form. */
module ReasonText {
  import opened Bits

  function DigitValue(c: char): nat {
    if '0' <= c <= '9' then c as nat - '0' as nat
    else if 'a' <= c <= 'f' then c as nat - 'a' as nat + 10
    else if 'A' <= c <= 'F' then c as nat - 'A' as nat + 10
    else 16
  }

  predicate Digits(s: string, base: nat) {
    forall i :: 0 <= i < |s| ==> DigitValue(s[i]) < base
  }

  /** The number that a string of digits stands for. */
  function Value(s: string, base: nat): nat {
    if s == "" then 0 else Value(s[..|s| - 1], base) * base + DigitValue(s[|s| - 1])
  }

  predicate HexPrefixed(text: string) {
    |text| >= 2 && text[0] == '0' && (text[1] == 'x' || text[1] == 'X')
  }

  function Base(text: string): nat { if HexPrefixed(text) then 16 else 10 }

  function Numeral(text: string): string { if HexPrefixed(text) then text[2..] else text }

  /** A nonempty decimal numeral, or a nonempty hexadecimal one behind `0x` or `0X`, below 2^32. */
  predicate DenotesU32(text: string) {
    Numeral(text) != "" && Digits(Numeral(text), Base(text)) && Value(Numeral(text), Base(text)) < 0x1_0000_0000
  }

  lemma MulGrows(v: nat, base: nat)
    requires base >= 1
    ensures v * base >= v
  {
    assert v * base == v * (base - 1) + v;
  }

  lemma {:induction false} ValueGrows(s: string, k: nat, base: nat)
    requires k <= |s| && base >= 1
    ensures Value(s[..k], base) <= Value(s, base)
    decreases |s|
  {
    if k == |s| {
      assert s[..k] == s;
    } else {
      ValueGrows(s[..|s| - 1], k, base);
      assert s[..|s| - 1][..k] == s[..k];
      MulGrows(Value(s[..|s| - 1], base), base);
    }
  }

  lemma ValueStep(s: string, k: nat, base: nat)
    requires k < |s|
    ensures Value(s[..k + 1], base) == Value(s[..k], base) * base + DigitValue(s[k])
  {
    assert s[..k + 1][..k] == s[..k];
  }

  /** The digit that a character stands for in a base, or 16. */
  method ReadDigit(c: char, base: nat) returns (digit: nat)
    requires base == 10 || base == 16
    ensures digit < base <==> DigitValue(c) < base
    ensures digit < base ==> digit == DigitValue(c)
  {
    digit := 16;
    if '0' <= c <= '9' {
      digit := c as int - '0' as int;
    } else if base == 16 && 'a' <= c <= 'f' {
      digit := c as int - 'a' as int + 10;
    } else if base == 16 && 'A' <= c <= 'F' {
      digit := c as int - 'A' as int + 10;
    }
  }

  /** Appends a digit in 32 bits, refusing to overflow. */
  method ShiftIn(result: U32, digit: nat, base: nat) returns (ok: bool, result': U32)
    requires (base == 10 || base == 16) && digit < base
    ensures ok <==> result * base + digit < 0x1_0000_0000
    ensures ok ==> result' == result * base + digit
  {
    ok, result' := true, result;
    if base == 16 {
      if result > 0x0FFF_FFFF {
        return false, result;
      }
      result' := result * 16 + digit;   // the shifted value has four clear bits
    } else {
      if result > 429496729 || (result == 429496729 && digit > 5) {
        return false, result;
      }
      result' := result * 10 + digit;
    }
  }

  /** A numeral is refused as soon as its front shows that it cannot stand for a 32-bit number. */
  lemma FrontRefuses(s: string, k: nat, base: nat)
    requires k < |s| && base >= 1
    ensures DigitValue(s[k]) >= base ==> !Digits(s, base)
    ensures Value(s[..k], base) * base + DigitValue(s[k]) >= 0x1_0000_0000 ==> Value(s, base) >= 0x1_0000_0000
    ensures Value(s[..k + 1], base) == Value(s[..k], base) * base + DigitValue(s[k])
    ensures Digits(s[..k], base) && DigitValue(s[k]) < base ==> Digits(s[..k + 1], base)
  {
    hide Value, DigitValue;
    ValueStep(s, k, base);
    ValueGrows(s, k + 1, base);
  }

  /** Parses a decimal or hexadecimal 32-bit number. */
  method ParseU32(text: string) returns (ok: bool, value: U32)
    ensures ok <==> DenotesU32(text)
    ensures ok ==> value == Value(Numeral(text), Base(text))
  {
    value := 0;
    if text == "" {
      return false, 0;
    }
    var base, p := 10, 0;
    if |text| >= 2 && text[0] == '0' && (text[1] == 'x' || text[1] == 'X') {
      base, p := 16, 2;
      if |text| == 2 {
        return false, 0;
      }
    }
    ok, value := ParseDigits(text, p, base);
  }

  /** Accumulates the digits of `text` from position `start` on. */
  method ParseDigits(text: string, start: nat, base: nat) returns (ok: bool, value: U32)
    requires start <= |text| && (base == 10 || base == 16)
    ensures ok <==> Digits(text[start..], base) && Value(text[start..], base) < 0x1_0000_0000
    ensures ok ==> value == Value(text[start..], base)
  {
    ghost var s := text[start..];
    var p := start;
    ok, value := true, 0;
    assert Value(s[..0], base) == 0;
    while p < |text|
      invariant start <= p <= |text|
      invariant Digits(s[..p - start], base) && value == Value(s[..p - start], base)
    {
      hide Value, DigitValue, Digits;
      FrontRefuses(s, p - start, base);
      var digit := ReadDigit(text[p], base);
      if digit >= base {
        return false, 0;
      }
      ok, value := ShiftIn(value, digit, base);
      if !ok {
        return;
      }
      p := p + 1;
    }
    assert s[..p - start] == s;
  }

  // The printed form

  function HexDigit(d: nat): char
    requires d < 16
  {
    if d < 10 then (d + '0' as nat) as char else (d - 10 + 'a' as nat) as char
  }

  /** The low `n` hexadecimal digits. */
  function Hex(n: nat, x: nat): (s: string)
    ensures |s| == n
  {
    if n == 0 then "" else Hex(n - 1, x / 16) + [HexDigit(x % 16)]
  }

  function Pow16(n: nat): nat { if n == 0 then 1 else 16 * Pow16(n - 1) }

  lemma {:induction false} HexRoundTrip(n: nat, x: nat)
    requires x < Pow16(n)
    ensures Digits(Hex(n, x), 16) && Value(Hex(n, x), 16) == x
  {
    if n > 0 {
      HexRoundTrip(n - 1, x / 16);
      assert Hex(n, x)[..n - 1] == Hex(n - 1, x / 16);
    }
  }

  /** The form `0x%08x`. */
  function Format(x: U32): string { "0x" + Hex(8, x) }

  /** Every printed reason is read back as the same number. */
  lemma ParseInvertsFormat(x: U32)
    ensures DenotesU32(Format(x)) && Value(Numeral(Format(x)), Base(Format(x))) == x
  {
    assert Pow16(4) == 0x1_0000;
    assert Pow16(8) == 0x1_0000_0000;
    HexRoundTrip(8, x);
    assert Format(x)[2..] == Hex(8, x);
  }

  /** The usual decimal form, without leading zeros. */
  function Decimal(x: nat): (s: string)
    ensures s != ""
    decreases x
  {
    if x < 10 then [HexDigit(x)] else Decimal(x / 10) + [HexDigit(x % 10)]
  }

  lemma {:induction false} DecimalRoundTrip(x: nat)
    ensures Digits(Decimal(x), 10) && Value(Decimal(x), 10) == x
    decreases x
  {
    var s := Decimal(x);
    if x >= 10 {
      DecimalRoundTrip(x / 10);
      assert s[..|s| - 1] == Decimal(x / 10);
    } else {
      assert s[..0] == "";
    }
  }

  /** Every decimal numeral below 2^32 is read back too, and none from there on is accepted. */
  lemma ParseInvertsDecimal(x: nat)
    ensures DenotesU32(Decimal(x)) <==> x < 0x1_0000_0000
    ensures x < 0x1_0000_0000 ==> Value(Numeral(Decimal(x)), Base(Decimal(x))) == x
  {
    hide Value, Decimal;
    DecimalRoundTrip(x);
    if |Decimal(x)| >= 2 {
      assert DigitValue(Decimal(x)[1]) < 10;
    }
  }
}
