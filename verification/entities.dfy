/** The text substitution of keyboard.py:54: every numeric character reference
    written as `&#x`, four characters each a decimal digit or a capital letter
    from A to F, and `;` becomes the literal `0x` followed by those four
    characters, so that the XML parser does not meet the reference and `to_chr`
    later reads the literal back. */
module Entities {
  import opened Text
  import opened Hex

  /** A character of the `[\dA-F]` class (the pattern has no IGNORECASE flag). */
  predicate IsEntityDigit(c: char)
  {
    '0' <= c <= '9' || 'A' <= c <= 'F'
  }

  /** `s` starts with a reference the pattern matches. */
  predicate EntityAt(s: string)
  {
    && |s| >= 8
    && s[0] == '&' && s[1] == '#' && s[2] == 'x'
    && IsEntityDigit(s[3]) && IsEntityDigit(s[4]) && IsEntityDigit(s[5]) && IsEntityDigit(s[6])
    && s[7] == ';'
  }

  ghost predicate HasEntity(s: string)
  {
    exists k :: 0 <= k <= |s| && EntityAt(s[k..])
  }

  /** The substitution, scanning left to right as `re.sub` does. */
  function HexNumbersForEntities(s: string): string
    decreases |s|
  {
    if |s| == 0 then ""
    else if EntityAt(s) then "0x" + s[3..7] + HexNumbersForEntities(s[8..])
    else [s[0]] + HexNumbersForEntities(s[1..])
  }

  /** The reference the pattern matches for a code point below U+10000. */
  function Entity(n: nat): string
    requires n < 0x1_0000
  {
    "&#x" + HexDigits(n, 4, true) + ";"
  }

  /** The substitution never lengthens the text, and shortens it when there is a
      reference to replace. */
  lemma {:induction false} RewriteLength(s: string)
    ensures |HexNumbersForEntities(s)| <= |s|
    ensures HasEntity(s) ==> |HexNumbersForEntities(s)| < |s|
    decreases |s|
  {
    if |s| > 0 {
      if EntityAt(s) {
        RewriteLength(s[8..]);
      } else {
        RewriteLength(s[1..]);
        if HasEntity(s) {
          var k :| 0 <= k <= |s| && EntityAt(s[k..]);
          assert k > 0;
          assert s[1..][k - 1..] == s[k..];
        }
      }
    }
  }

  /** The text comes back unchanged exactly when it holds no reference. */
  lemma {:induction false} RewriteIdentity(s: string)
    ensures HexNumbersForEntities(s) == s <==> !HasEntity(s)
    decreases |s|
  {
    RewriteLength(s);
    if |s| > 0 && !HasEntity(s) {
      assert !EntityAt(s[0..]);
      assert s[0..] == s;
      assert !HasEntity(s[1..]) by {
        forall k | 0 <= k <= |s[1..]|
          ensures !EntityAt(s[1..][k..])
        {
          assert s[1..][k..] == s[k + 1..];
        }
      }
      RewriteIdentity(s[1..]);
      assert s == [s[0]] + s[1..];
    }
  }

  /** A leading reference becomes `0x` and its four digits, two characters
      shorter, and the rest is rewritten on its own. */
  lemma RewriteLeadingEntity(n: nat, t: string)
    requires n < 0x1_0000
    ensures HexNumbersForEntities(Entity(n) + t) == "0x" + HexDigits(n, 4, true) + HexNumbersForEntities(t)
    ensures |"0x" + HexDigits(n, 4, true)| == |Entity(n)| - 2
  {
    var s := Entity(n) + t;
    var h := HexDigits(n, 4, true);
    assert s[3..7] == h;
    assert forall i :: 0 <= i < 4 ==> IsEntityDigit(h[i]) by {
      forall i | 0 <= i < 4
        ensures IsEntityDigit(h[i])
      {
        HexDigitsUpper(n, 4, i);
      }
    }
    assert EntityAt(s);
    assert s[8..] == t;
  }

  /** Text in front of which no reference starts is copied unchanged, and the
      rest is rewritten on its own. */
  lemma {:induction false} RewriteUntouchedPrefix(a: string, b: string)
    requires forall k :: 0 <= k < |a| ==> !EntityAt((a + b)[k..])
    ensures HexNumbersForEntities(a + b) == a + HexNumbersForEntities(b)
    decreases |a|
  {
    if |a| == 0 {
      assert a + b == b;
    } else {
      var s := a + b;
      assert !EntityAt(s[0..]) && s[0..] == s;
      assert s[1..] == a[1..] + b;
      forall k | 0 <= k < |a[1..]|
        ensures !EntityAt((a[1..] + b)[k..])
      {
        assert (a[1..] + b)[k..] == s[k + 1..];
      }
      RewriteUntouchedPrefix(a[1..], b);
      assert a == [a[0]] + a[1..];
    }
  }

  /** Upper-case hexadecimal digits are in the pattern's class. */
  lemma {:induction false} HexDigitsUpper(n: nat, w: nat, i: nat)
    requires i < w
    ensures IsEntityDigit(HexDigits(n, w, true)[i])
    decreases w
  {
    if i < w - 1 {
      HexDigitsUpper(n / 16, w - 1, i);
    }
  }

  /** The substitution and `to_chr` together turn a reference back into its
      character: after the substitution, after `str.lower` (ASCII lower-casing on
      this ASCII text) and `to_chr`, the reference for U+HHHH is that character. */
  lemma EntityRoundTrip(n: nat)
    requires n < 0x1_0000 && IsScalar(n)
    ensures HexNumbersForEntities(Entity(n)) == "0x" + HexDigits(n, 4, true)
    ensures Convertible(AsciiLower(HexNumbersForEntities(Entity(n))))
    ensures ToChr(AsciiLower(HexNumbersForEntities(Entity(n)))) == [n as char]
  {
    RewriteLeadingEntity(n, "");
    assert Entity(n) + "" == Entity(n);
    var h := HexDigits(n, 4, true);
    var v := AsciiLower("0x" + h);
    assert v[2..] == AsciiLower(h);
    HexValueLower(h);
    HexDigitsValue(n, 4, true);
    assert Pow16(4) == 0x1_0000;
    assert !IsHexDigit(v[1]);
  }

  /** Lower-case hexadecimal letters are not in the pattern, so a reference
      spelled with one is left alone. */
  lemma LowerCaseEntityKept(h: string)
    requires |h| == 4 && AllHex(h) && exists i :: 0 <= i < 4 && 'a' <= h[i] <= 'f'
    ensures HexNumbersForEntities("&#x" + h + ";") == "&#x" + h + ";"
  {
    var s := "&#x" + h + ";";
    forall k | 0 <= k <= |s|
      ensures !EntityAt(s[k..])
    {
      if k == 0 {
        var i :| 0 <= i < 4 && 'a' <= h[i] <= 'f';
        assert s[0..][3 + i] == h[i];
      }
    }
    RewriteIdentity(s);
  }
}
