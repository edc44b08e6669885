/** The conversion `to_chr` applies to every key output (keyboard.py:15-16): an
    output exactly six characters long is read by `int(v, 16)` and turned into
    one character by `chr`; any other output is kept as it is. */
module Hex {
  import opened Text

  predicate IsHexDigit(c: char)
  {
    '0' <= c <= '9' || 'a' <= c <= 'f' || 'A' <= c <= 'F'
  }

  function DigitValue(c: char): (n: nat)
    requires IsHexDigit(c)
    ensures n < 16
  {
    if '0' <= c <= '9' then c as int - '0' as int
    else if 'a' <= c <= 'f' then c as int - 'a' as int + 10
    else c as int - 'A' as int + 10
  }

  predicate AllHex(s: string)
  {
    forall i :: 0 <= i < |s| ==> IsHexDigit(s[i])
  }

  /** The number the hexadecimal digits `s` denote, most significant first. */
  function HexValue(s: string): nat
    requires AllHex(s)
    decreases |s|
  {
    if |s| == 0 then 0
    else HexValue(s[..|s| - 1]) * 16 + DigitValue(s[|s| - 1])
  }

  /** The six-character spellings `int(v, 16)` is taken to accept here: `0x` or
      `0X` followed by four hexadecimal digits, or six hexadecimal digits. */
  predicate HexLiteral6(v: string)
  {
    && |v| == 6
    && ((v[0] == '0' && (v[1] == 'x' || v[1] == 'X') && AllHex(v[2..])) || AllHex(v))
  }

  /** `int(v, 16)` for a six-character literal. */
  function LiteralValue(v: string): nat
    requires HexLiteral6(v)
  {
    if AllHex(v) then HexValue(v) else HexValue(v[2..])
  }

  /** A code point `chr` accepts that is also a Dafny character. */
  predicate IsScalar(n: int)
  {
    0 <= n < 0xD800 || 0xE000 <= n < 0x11_0000
  }

  /** `to_chr(v)` is defined: a six-character output is a hexadecimal literal
      naming a character. */
  predicate Convertible(v: string)
  {
    |v| == 6 ==> HexLiteral6(v) && IsScalar(LiteralValue(v))
  }

  /** `to_chr` (keyboard.py:15-16). */
  function ToChr(v: string): (r: string)
    requires Convertible(v)
    ensures |v| != 6 ==> r == v
    ensures |v| == 6 ==> |r| == 1 && r[0] as int == LiteralValue(v)
  {
    if |v| == 6 then [LiteralValue(v) as char] else v
  }

  function Pow16(w: nat): (p: nat)
    ensures p >= 1
  {
    if w == 0 then 1 else 16 * Pow16(w - 1)
  }

  function DigitChar(d: nat, upper: bool): (c: char)
    requires d < 16
    ensures IsHexDigit(c) && DigitValue(c) == d
  {
    if d < 10 then ('0' as int + d) as char
    else if upper then ('A' as int + d - 10) as char
    else ('a' as int + d - 10) as char
  }

  /** `n` written with exactly `w` hexadecimal digits (leading zeros kept). */
  function HexDigits(n: nat, w: nat, upper: bool): (s: string)
    ensures |s| == w && AllHex(s)
    decreases w
  {
    if w == 0 then "" else HexDigits(n / 16, w - 1, upper) + [DigitChar(n % 16, upper)]
  }

  /** Reading back the digits gives the number, when it fits in the width. */
  lemma {:induction false} HexDigitsValue(n: nat, w: nat, upper: bool)
    requires n < Pow16(w)
    ensures HexValue(HexDigits(n, w, upper)) == n
    decreases w
  {
    if w > 0 {
      var s := HexDigits(n, w, upper);
      assert s[..|s| - 1] == HexDigits(n / 16, w - 1, upper);
      HexDigitsValue(n / 16, w - 1, upper);
    }
  }

  /** Hexadecimal digits read the same after lower-casing. */
  lemma {:induction false} HexValueLower(s: string)
    requires AllHex(s)
    ensures AllHex(AsciiLower(s)) && HexValue(AsciiLower(s)) == HexValue(s)
    decreases |s|
  {
    if |s| > 0 {
      var l := AsciiLower(s);
      assert AllHex(l);
      assert l[..|l| - 1] == AsciiLower(s[..|s| - 1]);
      HexValueLower(s[..|s| - 1]);
    }
  }

  /** `to_chr` inverts writing a code point as `0x` and four digits, and as six
      digits, in either case. */
  lemma ToChrRoundTrip(n: nat, upper: bool)
    requires IsScalar(n)
    ensures n < 0x1_0000 ==>
      var v := "0x" + HexDigits(n, 4, upper); Convertible(v) && ToChr(v) == [n as char]
    ensures Convertible(HexDigits(n, 6, upper)) && ToChr(HexDigits(n, 6, upper)) == [n as char]
  {
    assert Pow16(4) == 0x1_0000 && Pow16(6) == 0x100_0000;
    HexDigitsValue(n, 6, upper);
    if n < 0x1_0000 {
      HexDigitsValue(n, 4, upper);
      var v := "0x" + HexDigits(n, 4, upper);
      assert v[2..] == HexDigits(n, 4, upper);
      assert !IsHexDigit(v[1]);
    }
  }
}
