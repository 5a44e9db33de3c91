/** The two conversions between text and JavaScript numbers that the codec
    uses: the global `parseInt` (called without a radix) and the conversion
    of a number to text that template literals and `Array.prototype.join`
    perform. Only the values these produce from integer text are modelled:
    an integer, or NaN. */
module JsNumber {
  import opened JsText

  /** A JavaScript number as parseInt produces it: an integer, or NaN. */
  datatype Num = Int(value: int) | NaN

  /** The value of c as a digit in radices up to 36: '0'-'9' are 0-9 and
      letters of either case are 10-35; any other character gets 36, which
      no radix accepts. */
  function DigitValue(c: char): (v: nat)
    ensures v <= 36
    ensures v < 10 <==> '0' <= c <= '9'
  {
    if '0' <= c <= '9' then c as int - '0' as int
    else if 'a' <= c <= 'z' then c as int - 'a' as int + 10
    else if 'A' <= c <= 'Z' then c as int - 'A' as int + 10
    else 36
  }

  /** The length of the longest prefix of s made of digits of the radix. */
  function DigitRun(s: string, radix: nat): (n: nat)
    ensures n <= |s|
  {
    if s != [] && DigitValue(s[0]) < radix then 1 + DigitRun(s[1..], radix) else 0
  }

  /** The value of the digit string z in the radix, most significant first. */
  function DigitsValue(z: string, radix: nat): nat {
    if z == [] then 0 else DigitsValue(z[..|z| - 1], radix) * radix + DigitValue(z[|z| - 1])
  }

  /** `parseInt(s)` without a radix, as section 19.2.5 of ECMA-262 defines
      it: one sign is taken, a "0x" or "0X" prefix selects radix 16
      (otherwise radix 10), and the longest run of digits that follows is
      read; text with no such digits gives NaN, and anything after the
      digits is ignored. The standard first skips leading whitespace; that
      step is left out here because the codec only ever parses tokens,
      which hold no whitespace. */
  function ParseInt(s: string): Num {
    ParseSigned(s)
  }

  /** parseInt once leading whitespace is gone: an optional sign. */
  function ParseSigned(t: string): Num {
    if t != [] && t[0] == '-' then Negate(ParseUnsigned(t[1..]))
    else if t != [] && t[0] == '+' then ParseUnsigned(t[1..])
    else ParseUnsigned(t)
  }

  /** parseInt after the sign: an optional "0x" or "0X" prefix. */
  function ParseUnsigned(u: string): Num {
    if |u| >= 2 && u[0] == '0' && (u[1] == 'x' || u[1] == 'X') then ParseDigits(u[2..], 16)
    else ParseDigits(u, 10)
  }

  /** The longest run of digits of the radix at the start of d, or NaN when
      there is none. */
  function ParseDigits(d: string, radix: nat): Num {
    var run := DigitRun(d, radix);
    if run == 0 then NaN else Int(DigitsValue(d[..run], radix))
  }

  function Negate(x: Num): Num {
    match x
    case NaN => NaN
    case Int(v) => Int(-v)
  }

  /** The character of a decimal digit. */
  function DigitChar(d: nat): (c: char)
    requires d < 10
    ensures DigitValue(c) == d
  {
    ('0' as int + d) as char
  }

  /** The decimal numeral of m, without leading zeros. */
  function NatToString(m: nat): (s: string)
    ensures s != []
    ensures forall i :: 0 <= i < |s| ==> '0' <= s[i] <= '9'
    ensures s[0] == '0' ==> m == 0
  {
    if m < 10 then [DigitChar(m)] else NatToString(m / 10) + [DigitChar(m % 10)]
  }

  /** `String(x)` for the numbers of the model: a decimal numeral with a
      leading '-' when negative, or "NaN". */
  function ToString(x: Num): (s: string)
    ensures IsToken(s)
  {
    match x
    case NaN => "NaN"
    case Int(n) => if n < 0 then "-" + NatToString(-n) else NatToString(n)
  }

  /** A run of decimal digits is read to its end. */
  lemma {:induction false} DigitRunOfDigits(s: string)
    requires forall i :: 0 <= i < |s| ==> '0' <= s[i] <= '9'
    ensures DigitRun(s, 10) == |s|
  {
    if s != [] {
      DigitRunOfDigits(s[1..]);
    }
  }

  /** Reading the numeral of m gives m back. */
  lemma {:induction false} DigitsValueOfNatToString(m: nat)
    ensures DigitsValue(NatToString(m), 10) == m
  {
    var s := NatToString(m);
    if m >= 10 {
      assert s[..|s| - 1] == NatToString(m / 10);
      DigitsValueOfNatToString(m / 10);
    }
  }

  /** parseInt reads a run of decimal digits in radix 10, leading zeros
      included: a leading '0' is no octal prefix. */
  lemma ParseIntOfDigits(numeral: string)
    requires numeral != [] && forall i :: 0 <= i < |numeral| ==> '0' <= numeral[i] <= '9'
    ensures ParseInt(numeral) == Int(DigitsValue(numeral, 10))
    ensures ParseUnsigned(numeral) == Int(DigitsValue(numeral, 10))
  {
    DigitRunOfDigits(numeral);
    assert numeral[..|numeral|] == numeral;
  }

  /** The empty text is NaN, and text that starts with a digit 1-9 is a
      non-negative integer, whatever follows the digits. */
  lemma ParseIntOfDigitStart(s: string)
    ensures s == [] ==> ParseInt(s) == NaN
    ensures s != [] && '1' <= s[0] <= '9' ==> ParseInt(s).Int? && ParseInt(s).value >= 0
  {
  }

  /** Leading zeros are read as decimal digits: "007" is 7 and "010" is 10. */
  lemma ParseIntLeadingZeros()
    ensures ParseInt("007") == Int(7)
    ensures ParseInt("010") == Int(10)
  {
    ParseIntOfDigits("007");
    ParseIntOfDigits("010");
    assert "007"[..2] == "00" && "00"[..1] == "0";
    assert "010"[..2] == "01" && "01"[..1] == "0";
  }

  /** parseInt reads back exactly what ToString wrote: the numbers written
      into a PPM file are the numbers read from it. */
  lemma ParseIntToString(x: Num)
    ensures ParseInt(ToString(x)) == x
  {
    match x
    case NaN => ParseIntNaN();
    case Int(n) => ParseIntInteger(n);
  }

  /** parseInt("NaN") is NaN: 'N' is no decimal digit. */
  lemma ParseIntNaN()
    ensures ParseInt("NaN") == NaN
  {
    assert DigitRun("NaN", 10) == 0 by {
      assert DigitValue('N') == 23;
    }
  }

  /** parseInt(undefined) reads the text "undefined", and 'u' is no decimal
      digit, so the result is NaN. */
  lemma ParseIntUndefined()
    ensures ParseInt("undefined") == NaN
  {
    assert DigitRun("undefined", 10) == 0 by {
      assert DigitValue('u') == 30;
    }
  }

  /** parseInt of the text of every number of xs gives that number back. */
  lemma ParseIntToStringEach(xs: seq<Num>)
    ensures forall c :: 0 <= c < |xs| ==> ParseInt(ToString(xs[c])) == xs[c]
  {
    forall c | 0 <= c < |xs|
      ensures ParseInt(ToString(xs[c])) == xs[c]
    {
      ParseIntToString(xs[c]);
    }
  }

  /** parseInt reads back the numeral of an integer, with its sign. */
  lemma ParseIntInteger(n: int)
    ensures ParseInt(ToString(Int(n))) == Int(n)
  {
    var m: nat := if n < 0 then -n else n;
    var numeral := NatToString(m);
    assert ParseUnsigned(numeral) == Int(m) by {
      DigitsValueOfNatToString(m);
      ParseIntOfDigits(numeral);
    }
    assert ToString(Int(n)) == if n < 0 then "-" + numeral else numeral;
    ParseSignedNumeral(n, numeral);
  }

  /** A numeral, with a '-' in front when the number is negative, is read
      as the signed number. */
  lemma ParseSignedNumeral(n: int, numeral: string)
    requires numeral != [] && '0' <= numeral[0] <= '9'
    requires ParseUnsigned(numeral) == Int(if n < 0 then -n else n)
    ensures ParseInt(if n < 0 then "-" + numeral else numeral) == Int(n)
  {
    if n < 0 {
      assert ("-" + numeral)[0] == '-';
      assert ("-" + numeral)[1..] == numeral;
    }
  }
}
