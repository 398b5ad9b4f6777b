/** Python's hexadecimal rendering `hex(n)` for non-negative `n`, and its
    parsing counterpart `int(token, 16)`, as the wire protocol uses them. */
module HexText {
  import opened Common
  import opened Text

  const LowerDigits := "0123456789abcdef"

  predicate IsLowerHexDigit(c: char) {
    '0' <= c <= '9' || 'a' <= c <= 'f'
  }

  function HexDigit(d: nat): (c: char)
    requires d < 16
    ensures IsLowerHexDigit(c)
  {
    LowerDigits[d]
  }

  /** The value of one hexadecimal digit of either case, if `c` is one. */
  function DigitValue(c: char): (r: Option<nat>)
    ensures r.Some? ==> r.value < 16
    ensures r.Some? <==> '0' <= c <= '9' || 'a' <= c <= 'f' || 'A' <= c <= 'F'
  {
    if '0' <= c <= '9' then Some(c as int - '0' as int)
    else if 'a' <= c <= 'f' then Some(c as int - 'a' as int + 10)
    else if 'A' <= c <= 'F' then Some(c as int - 'A' as int + 10)
    else None
  }

  const UpperDigits := "0123456789ABCDEF"

  /** A character has digit value `d` exactly when it is the lower-case or
      the upper-case numeral of `d`: '0'..'9' are 0..9, and 'a'..'f' and
      'A'..'F' are both 10..15. */
  lemma DigitValueExactly(c: char, d: nat)
    requires d < 16
    ensures DigitValue(c) == Some(d) <==> c == LowerDigits[d] || c == UpperDigits[d]
  {
  }

  lemma DigitValueOfHexDigit(d: nat)
    requires d < 16
    ensures DigitValue(HexDigit(d)) == Some(d)
  {
  }

  /** The shortest lower-case base-16 numeral of `n` (no leading zeros). */
  function HexDigits(n: nat): (s: string)
    ensures |s| >= 1
    ensures |s| > 1 ==> s[0] != '0'
    decreases n
  {
    if n < 16 then [HexDigit(n)] else HexDigits(n / 16) + [HexDigit(n % 16)]
  }

  /** Every character of a numeral is a lower-case hexadecimal digit. */
  lemma {:induction false} HexDigitsAreLower(n: nat)
    ensures forall i :: 0 <= i < |HexDigits(n)| ==> IsLowerHexDigit(HexDigits(n)[i])
    decreases n
  {
    if n >= 16 {
      HexDigitsAreLower(n / 16);
      assert HexDigits(n) == HexDigits(n / 16) + [HexDigit(n % 16)];
    }
  }

  /** Python's `hex(n)`: "0x" then the digits, e.g. "0x7fff", with a leading
      minus sign for a negative number. */
  function Hex(n: int): (s: string)
    ensures n >= 0 ==> |s| >= 3 && s[0] == '0' && s[1] == 'x'
  {
    if n < 0 then "-0x" + HexDigits(-n) else "0x" + HexDigits(n)
  }

  predicate AllDigits(s: string) {
    forall i :: 0 <= i < |s| ==> DigitValue(s[i]).Some?
  }

  /** The number a string of hexadecimal digits denotes, most significant first. */
  function DigitsValue(s: string): nat
    requires AllDigits(s)
  {
    if |s| == 0 then 0
    else 16 * DigitsValue(s[..|s| - 1]) + DigitValue(s[|s| - 1]).value
  }

  /** Python's `int(token, 16)` on its accepted inputs: surrounding whitespace
      is ignored, an optional "0x" or "0X" prefix is skipped, and at least one
      hexadecimal digit of either case must remain; anything else raises,
      which is `None` here. */
  function ParseHexInt(token: string): Option<nat>
  {
    ParseStripped(Strip(token))
  }

  /** `int(t, 16)` for a token `t` without surrounding whitespace. */
  function ParseStripped(t: string): Option<nat>
  {
    var digits := if |t| >= 2 && t[0] == '0' && (t[1] == 'x' || t[1] == 'X') then t[2..] else t;
    if |digits| > 0 && AllDigits(digits) then Some(DigitsValue(digits)) else None
  }

  /** Surrounding whitespace does not change what a token parses to. */
  lemma ParseHexIntStrips(token: string)
    ensures ParseHexInt(Strip(token)) == ParseHexInt(token)
  {
    StripIdempotent(token);
  }

  /** A run of hexadecimal digits of either case parses to the number it
      denotes, with or without a "0x" or "0X" prefix. */
  lemma ParseHexIntPrefix(digits: string)
    requires |digits| > 0 && AllDigits(digits)
    ensures ParseHexInt(digits) == Some(DigitsValue(digits))
    ensures ParseHexInt("0x" + digits) == Some(DigitsValue(digits))
    ensures ParseHexInt("0X" + digits) == Some(DigitsValue(digits))
  {
    ParseBareDigits(digits);
    ParsePrefixedDigits(digits, 'x');
    ParsePrefixedDigits(digits, 'X');
  }

  lemma ParseBareDigits(digits: string)
    requires |digits| > 0 && AllDigits(digits)
    ensures ParseHexInt(digits) == Some(DigitsValue(digits))
  {
    DigitsNeedNoStrip(digits);
    BareStripped(digits);
  }

  lemma BareStripped(digits: string)
    requires |digits| > 0 && AllDigits(digits)
    ensures ParseStripped(digits) == Some(DigitsValue(digits))
  {
    assert |digits| >= 2 ==> DigitValue(digits[1]).Some?;
  }

  lemma ParsePrefixedDigits(digits: string, x: char)
    requires |digits| > 0 && AllDigits(digits) && (x == 'x' || x == 'X')
    ensures ParseHexInt(['0', x] + digits) == Some(DigitsValue(digits))
  {
    PrefixedUnpadded(digits, x);
    PrefixedStripped(digits, x);
  }

  lemma PrefixedUnpadded(digits: string, x: char)
    requires |digits| > 0 && AllDigits(digits)
    ensures ParseHexInt(['0', x] + digits) == ParseStripped(['0', x] + digits)
  {
    PrefixedNeedsNoStrip(digits, x);
  }

  lemma PrefixedStripped(digits: string, x: char)
    requires |digits| > 0 && AllDigits(digits) && (x == 'x' || x == 'X')
    ensures ParseStripped(['0', x] + digits) == Some(DigitsValue(digits))
  {
    assert (['0', x] + digits)[2..] == digits;
  }

  lemma PrefixedNeedsNoStrip(digits: string, x: char)
    requires |digits| > 0 && AllDigits(digits)
    ensures Strip(['0', x] + digits) == ['0', x] + digits
  {
    var t := ['0', x] + digits;
    assert t[|t| - 1] == digits[|digits| - 1];
    assert DigitValue(t[|t| - 1]).Some?;
    assert !IsSpace(t[0]) && !IsSpace(t[|t| - 1]);
  }

  /** A run of digits has no surrounding whitespace to strip. */
  lemma DigitsNeedNoStrip(digits: string)
    requires |digits| > 0 && AllDigits(digits)
    ensures Strip(digits) == digits
  {
    assert DigitValue(digits[0]).Some? && DigitValue(digits[|digits| - 1]).Some?;
    assert !IsSpace(digits[0]) && !IsSpace(digits[|digits| - 1]);
  }

  lemma {:induction false} DigitsValueOfHexDigits(n: nat)
    ensures AllDigits(HexDigits(n)) && DigitsValue(HexDigits(n)) == n
    decreases n
  {
    var s := HexDigits(n);
    HexDigitsAreLower(n);
    forall i | 0 <= i < |s| ensures DigitValue(s[i]).Some? {
      assert IsLowerHexDigit(s[i]);
    }
    if n < 16 {
      DigitValueOfHexDigit(n);
      assert s[..0] == [];
    } else {
      DigitsValueOfHexDigits(n / 16);
      DigitValueOfHexDigit(n % 16);
      assert s[..|s| - 1] == HexDigits(n / 16);
    }
  }

  /** Reading back what `hex` wrote, with any run of leading whitespace such
      as the space after a ", " separator, gives the number back. */
  lemma HexRoundTrip(pad: string, n: nat)
    requires forall i :: 0 <= i < |pad| ==> IsSpace(pad[i])
    ensures ParseHexInt(pad + Hex(n)) == Some(n)
  {
    HexStrips(pad, n);
    assert Hex(n)[2..] == HexDigits(n);
    DigitsValueOfHexDigits(n);
  }

  /** Leading whitespace before a numeral is stripped, and nothing else. */
  lemma HexStrips(pad: string, n: nat)
    requires forall i :: 0 <= i < |pad| ==> IsSpace(pad[i])
    ensures Strip(pad + Hex(n)) == Hex(n)
  {
    var h := Hex(n);
    var d := HexDigits(n);
    assert h[|h| - 1] == d[|d| - 1];
    HexDigitsAreLower(n);
    StripLeadingSpaces(pad, h);
  }

  /** `hex` output never holds the protocol's separator or whitespace. */
  lemma HexHasNoSeparator(n: int)
    ensures ',' !in Hex(n)
    ensures forall i :: 0 <= i < |Hex(n)| ==> !IsSpace(Hex(n)[i])
  {
    var m := if n < 0 then -n else n;
    HexDigitsAreLower(m);
    assert Hex(n) == (if n < 0 then "-0x" else "0x") + HexDigits(m);
  }
}
