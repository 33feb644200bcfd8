/** How fmtInteger lays a number out, verb by verb, in the terms of the format: sign,
    prefix, digits and padding (src/fmt/format.go:194-321, src/fmt/print.go:370-388). */
module FormatLayout {
  import opened Common
  import opened FormatInteger

  /** The base of a verb; alternative is the hexadecimal form of %#v. */
  function Radix(verb: char, alternative: bool): nat {
    if verb == 'b' then 2
    else if verb == 'o' || verb == 'O' then 8
    else if verb == 'x' || verb == 'X' || alternative then 16
    else 10
  }

  predicate IsDigitIn(c: byte, radix: nat, upper: bool) {
    (48 <= c <= 57 && c - 48 < radix) || (radix == 16 && if upper then 65 <= c <= 70 else 97 <= c <= 102)
  }

  /** The sign for a value: '-', or '+' or a space if asked for. */
  function SignFor(value: int, flags: Flags): seq<byte> {
    if value < 0 then [45] else if flags.plus then [43] else if flags.space then [32] else []
  }

  /** The prefix for a verb: "0b", "0x" and "0X" for the sharp flag, "0o" always for
      'O', and a leading zero in base 8 for the sharp flag if there is none. */
  function PrefixFor(verb: char, alternative: bool, flags: Flags, number: seq<byte>): seq<byte>
    requires number != []
  {
    var zero: seq<byte> := if flags.sharp && number[0] != 48 then [48] else [];
    if verb == 'b' then (if flags.sharp then [48, 98] else [])
    else if verb == 'o' then zero
    else if verb == 'O' then [48, 111] + zero
    else if verb == 'X' then (if flags.sharp then [48, 88] else [])
    else if verb == 'x' then (if flags.sharp then [48, 120] else [])
    else if alternative then [48, 120]
    else []
  }

  /** The least number of digits: the precision, or else with a zero flag what the
      width leaves beside the sign. */
  function LeastDigits(flags: Flags, wid: int, prec: int, sign: seq<byte>): int {
    if flags.precPresent then prec
    else if flags.zero && flags.widPresent then wid - |sign|
    else 0
  }

  predicate IsNumber(number: seq<byte>, radix: nat, upper: bool, value: int, least: int)
    requires IsBase(radix)
  {
    && number != [] && (forall i :: 0 <= i < |number| ==> IsDigitIn(number[i], radix, upper))
    && ValueOf(number, radix) == (if value < 0 then -value else value)
    && |number| >= least && (number[0] == 48 && |number| > 1 ==> |number| == least)
  }

  lemma {:induction false} NumeralDigits(u: nat, base: nat, digits: seq<byte>)
    requires IsBase(base) && IsDigits(digits)
    ensures forall i :: 0 <= i < |Numeral(u, base, digits)| ==>
      IsDigitIn(Numeral(u, base, digits)[i], base, digits == U_DIGITS)
    ensures Numeral(u, base, digits)[0] == 48 ==> u == 0 && |Numeral(u, base, digits)| == 1
    decreases u
  {
    if u >= base {
      NumeralDigits(Quotient(u, base), base, digits);
      DigitOf(Remainder(u, base), base, digits);
      assert Quotient(u, base) > 0;
    } else {
      DigitOf(u, base, digits);
    }
  }

  lemma DigitOf(d: nat, base: nat, digits: seq<byte>)
    requires IsBase(base) && IsDigits(digits) && d < base
    ensures IsDigitIn(digits[d], base, digits == U_DIGITS) && (digits[d] == 48 ==> d == 0)
  {
  }

  /** The digits of the text, with as many leading zeros as it takes and no more. */
  lemma BodyIsNumber(m: nat, base: nat, digits: seq<byte>, least: int, value: int)
    requires IsBase(base) && IsDigits(digits) && m == if value < 0 then -value else value
    ensures IsNumber(Body(m, base, digits, least), base, digits == U_DIGITS, value, least)
  {
    var numeral := Numeral(m, base, digits);
    var zeros := Repeat(ZERO, least - |numeral|);
    NumeralDigits(m, base, digits);
    BodyMeans(m, base, digits, least);
    hide Numeral, ValueOf;
    var body := zeros + numeral;
    forall i | 0 <= i < |body| ensures IsDigitIn(body[i], base, digits == U_DIGITS) {
      if i < |zeros| { assert body[i] == 48; } else { assert body[i] == numeral[i - |zeros|]; }
    }
    if |zeros| == 0 {
      assert body == numeral;
    }
  }

  lemma PaddedLayout(text: seq<byte>, flags: Flags, wid: int)
    returns (left: nat, right: nat)
    ensures Padded(text, flags, wid) == seq(left, _ => 32) + text + seq(right, _ => 32)
    ensures left + right == if flags.widPresent && wid > |text| then wid - |text| else 0
    ensures if flags.minus then left == 0 else right == 0
  {
    var n := if flags.widPresent && wid > |text| then wid - |text| else 0;
    left, right := if flags.minus then 0 else n, if flags.minus then n else 0;
    var padding := Repeat(SPACE, if flags.widPresent then wid - |text| else 0);
    assert padding == seq(n, _ => 32);
    assert seq(0, _ => 32) + text + padding == text + padding && padding + text + seq(0, _ => 32) == padding + text;
  }

  /** What FmtVerb appends for a value is sign, prefix and number, with spaces on the
      one side that the minus flag tells, up to the width. */
  lemma VerbLayout(v: uint64, isSigned: bool, verb: char, flags: Flags, wid: int, prec: int)
    returns (left: nat, sign: seq<byte>, prefix: seq<byte>, number: seq<byte>, right: nat)
    requires VerbBase(verb).Some? && !(flags.precPresent && prec == 0 && v == 0)
    ensures var value, alternative := ValueOfBits(v, isSigned), verb == 'v' && flags.sharpV && !isSigned;
      && IsBase(Radix(verb, alternative))
      && sign == SignFor(value, flags)
      && IsNumber(number, Radix(verb, alternative), verb == 'X', value, LeastDigits(flags, wid, prec, sign))
      && prefix == PrefixFor(verb, alternative, flags, number)
    ensures Appended(v, isSigned, verb, flags, wid, prec)
         == seq(left, _ => 32) + (sign + prefix + number) + seq(right, _ => 32)
    ensures var n := |sign| + |prefix| + |number|;
      left + right == if flags.widPresent && wid > n then wid - n else 0
    ensures if flags.minus then left == 0 else right == 0
  {
    hide Output, BasePrefix, IsNumber, SignFor;
    var alternative := verb == 'v' && flags.sharpV && !isSigned;
    var base, digits, flags' := VerbBase(verb).value.0, VerbBase(verb).value.1, flags;
    if alternative {
      base, digits, flags' := 16, L_DIGITS, flags.(sharp := true);
    }
    left, sign, prefix, number, right := OutputLayout(v, base, isSigned, verb == 'O', digits, flags', wid, prec);
    assert SignFor(ValueOfBits(v, isSigned), flags') == SignFor(ValueOfBits(v, isSigned), flags) by {
      SignIgnoresSharp(ValueOfBits(v, isSigned), flags, flags');
    }
    PrefixIs(verb, alternative, flags, base, digits, number);
  }

  lemma SignIgnoresSharp(value: int, flags: Flags, flags': Flags)
    requires flags' == flags || flags' == flags.(sharp := true)
    ensures SignFor(value, flags) == SignFor(value, flags')
  {
  }

  lemma OutputLayout(v: uint64, base: nat, isSigned: bool, octal: bool, digits: seq<byte>, flags: Flags, wid: int,
                     prec: int)
    returns (left: nat, sign: seq<byte>, prefix: seq<byte>, number: seq<byte>, right: nat)
    requires IsBase(base) && IsDigits(digits) && !(flags.precPresent && prec == 0 && v == 0)
    ensures var value := ValueOfBits(v, isSigned);
      && sign == SignFor(value, flags)
      && IsNumber(number, base, digits == U_DIGITS, value, LeastDigits(flags, wid, prec, sign))
      && number != []
      && prefix == (if octal then [48, 111] else []) + if flags.sharp then BasePrefix(base, digits, number) else []
    ensures Output(v, base, isSigned, octal, digits, flags, wid, prec)
         == seq(left, _ => 32) + (sign + prefix + number) + seq(right, _ => 32)
    ensures var n := |sign| + |prefix| + |number|;
      left + right == if flags.widPresent && wid > n then wid - n else 0
    ensures if flags.minus then left == 0 else right == 0
  {
    hide Padded, BasePrefix, Numeral, ValueOf, IsDigitIn, Body;
    MagnitudeOfBits(v, isSigned);
    var negative, m := IsNegative(v, isSigned), Magnitude(v, isSigned);
    var least := Precision(flags, wid, prec, negative);
    sign, number := Sign(negative, flags), Body(m, base, digits, least);
    BodyIsNumber(m, base, digits, least, ValueOfBits(v, isSigned));
    prefix := (if octal then [48, 111] else []) + if flags.sharp then BasePrefix(base, digits, number) else [];
    var text := SignedText(m, base, octal, negative, digits, flags, least);
    TextPieces(m, base, octal, negative, digits, flags, least, prefix);
    left, right := PaddedLayout(text, flags, wid);
  }

  lemma TextPieces(m: uint64, base: nat, octal: bool, negative: bool, digits: seq<byte>, flags: Flags, least: int,
                   prefix: seq<byte>)
    requires IsBase(base) && IsDigits(digits)
    requires var body := Body(m, base, digits, least);
      && body != []
      && prefix == (if octal then [48, 111] else []) + if flags.sharp then BasePrefix(base, digits, body) else []
    ensures SignedText(m, base, octal, negative, digits, flags, least)
         == Sign(negative, flags) + prefix + Body(m, base, digits, least)
  {
    hide Body, BasePrefix, Sign;
  }

  lemma PrefixIs(verb: char, alternative: bool, flags: Flags, base: nat, digits: seq<byte>, number: seq<byte>)
    requires VerbBase(verb).Some? && number != [] && (alternative ==> verb == 'v')
    requires if alternative then base == 16 && digits == L_DIGITS
             else base == VerbBase(verb).value.0 && digits == VerbBase(verb).value.1
    ensures var octal: seq<byte> := if verb == 'O' then [ZERO, 111] else [];
      octal + (if flags.sharp || alternative then BasePrefix(base, digits, number) else [])
        == PrefixFor(verb, alternative, flags, number)
  {
  }

  /** Zero with precision zero prints nothing but the width in spaces. */
  lemma NothingPrinted(isSigned: bool, verb: char, flags: Flags, wid: nat)
    requires VerbBase(verb).Some? && flags.precPresent
    ensures Appended(0, isSigned, verb, flags, wid, 0) == seq(wid, _ => 32)
  {
  }
}
