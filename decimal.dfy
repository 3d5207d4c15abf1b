// Decimal text as the forms see it: the `^\d*$` regular expression, `String(n)` for an
// integer and JavaScript's `parseInt(text, 10)` (ECMAScript, section 19.2.5 "parseInt (string,
// radix)"), on integers of unbounded size.

module Decimal {
  import opened Types

  /** `\d` of a JavaScript regular expression without the `u` flag: an ASCII digit. */
  predicate IsDigit(c: char)
  {
    '0' <= c <= '9'
  }

  /** The text matches `^\d*$`. */
  predicate AllDigits(s: string)
  {
    forall i :: 0 <= i < |s| ==> IsDigit(s[i])
  }

  function DigitValue(c: char): int
  {
    c as int - '0' as int
  }

  /** The number a string of decimal digits denotes (0 for the empty string). */
  function DigitsValue(s: string): int
  {
    if s == [] then 0 else 10 * DigitsValue(s[..|s| - 1]) + DigitValue(s[|s| - 1])
  }

  /** StrWhiteSpaceChar of ECMAScript: WhiteSpace (TAB, VT, FF, ZWNBSP and every
      space separator) and LineTerminator (LF, CR, LS, PS). */
  predicate IsWhite(c: char)
  {
    var k := c as int;
    k == 0x09 || k == 0x0B || k == 0x0C || k == 0xFEFF ||
    k == 0x20 || k == 0xA0 || k == 0x1680 || (0x2000 <= k <= 0x200A) ||
    k == 0x202F || k == 0x205F || k == 0x3000 ||
    k == 0x0A || k == 0x0D || k == 0x2028 || k == 0x2029
  }

  /** The text with its leading white space removed. */
  function TrimStart(s: string): (r: string)
    ensures |r| <= |s| && r == s[|s| - |r|..]
    ensures r == [] || !IsWhite(r[0])
    ensures forall i :: 0 <= i < |s| - |r| ==> IsWhite(s[i])
  {
    if s != [] && IsWhite(s[0]) then TrimStart(s[1..]) else s
  }

  /** The longest prefix of `s` made of decimal digits. */
  function DigitPrefix(s: string): (r: string)
    ensures |r| <= |s| && r == s[..|r|]
    ensures AllDigits(r)
    ensures |r| == |s| || !IsDigit(s[|r|])
  {
    if s != [] && IsDigit(s[0]) then [s[0]] + DigitPrefix(s[1..]) else []
  }

  /** `parseInt(s, 10)`: skip leading white space, read an optional sign, then the longest
      run of decimal digits; None (NaN) when that run is empty. `-0` is read as 0. */
  function ParseInt(s: string): Option<int>
  {
    ParseSigned(TrimStart(s))
  }

  /** What `parseInt` reads once the white space is skipped: an optional sign, then digits. */
  function ParseSigned(t: string): Option<int>
  {
    var negative := t != [] && t[0] == '-';
    var rest := if t != [] && (t[0] == '-' || t[0] == '+') then t[1..] else t;
    var z := DigitPrefix(rest);
    if z == [] then None
    else if negative then Some(-DigitsValue(z))
    else Some(DigitsValue(z))
  }

  /** The decimal digits of a natural number, without leading zeros. */
  function ToDigits(n: nat): (r: string)
    ensures r != [] && AllDigits(r)
    ensures DigitsValue(r) == n
    ensures r[0] == '0' ==> n == 0
  {
    var d := ['0' + ((n % 10) as char)];
    if n < 10 then d else ToDigits(n / 10) + d
  }

  /** `String(n)` for an integer `n`. */
  function ToDecimal(n: int): (r: string)
    ensures r != []
    ensures n < 0 <==> r[0] == '-'
    ensures n >= 0 ==> AllDigits(r)
  {
    if n < 0 then "-" + ToDigits(-n) else ToDigits(n)
  }

  lemma {:induction false} DigitPrefixOfDigits(s: string)
    requires AllDigits(s)
    ensures DigitPrefix(s) == s
  {
    if s != [] {
      DigitPrefixOfDigits(s[1..]);
    }
  }

  /** A digits-only field parses to the number its digits denote. */
  lemma ParseIntOfDigits(s: string)
    requires AllDigits(s) && s != []
    ensures ParseInt(s) == Some(DigitsValue(s))
  {
    assert !IsWhite(s[0]) && s[0] != '-' && s[0] != '+' by { assert IsDigit(s[0]); }
    assert TrimStart(s) == s;
    DigitPrefixOfDigits(s);
  }

  /** `parseInt(String(n), 10) == n` for every integer: the text a number is shown as
      reads back as that number. */
  lemma ParseIntToDecimal(n: int)
    ensures ParseInt(ToDecimal(n)) == Some(n)
  {
    if n < 0 {
      var s := ToDecimal(n);
      var ds := ToDigits(-n);
      assert s == "-" + ds;
      assert TrimStart(s) == s;
      assert s[1..] == ds;
      DigitPrefixOfDigits(ds);
    } else {
      ParseIntOfDigits(ToDigits(n));
    }
  }

  /** Reading stops at the first character that is not a digit: `parseInt("12px") == 12`. */
  lemma ParseIntStopsAtNonDigit(s: string, tail: string)
    requires AllDigits(s) && s != []
    requires tail == [] || !IsDigit(tail[0])
    ensures ParseInt(s + tail) == Some(DigitsValue(s))
  {
    var u := s + tail;
    assert IsDigit(u[0]);
    assert TrimStart(u) == u;
    assert ParseInt(u) == ParseSigned(u);
    var z := DigitPrefix(u);
    assert z == s by {
      DigitPrefixAppend(s, tail);
    }
  }

  lemma {:induction false} DigitPrefixAppend(s: string, tail: string)
    requires AllDigits(s)
    requires tail == [] || !IsDigit(tail[0])
    ensures DigitPrefix(s + tail) == s
  {
    if s != [] {
      assert (s + tail)[1..] == s[1..] + tail;
      DigitPrefixAppend(s[1..], tail);
    }
  }

  /** Leading white space does not change what is read. */
  lemma ParseIntSkipsWhite(c: char, s: string)
    requires IsWhite(c)
    ensures ParseInt([c] + s) == ParseInt(s)
  {
    assert ([c] + s)[1..] == s;
    assert TrimStart([c] + s) == TrimStart(s);
  }

  /** Text that starts with a character that is neither white space, a sign nor a digit is NaN. */
  lemma ParseIntOfNonDigit(s: string)
    requires s != [] && !IsWhite(s[0]) && !IsDigit(s[0]) && s[0] != '-' && s[0] != '+'
    ensures ParseInt(s) == None
  {
    assert TrimStart(s) == s;
    assert DigitPrefix(s) == [];
  }

  /** Text with no digit at all (after the optional sign) is NaN. */
  lemma ParseIntOfEmpty()
    ensures ParseInt("") == None
    ensures ParseInt("-") == None
  {
  }
}
