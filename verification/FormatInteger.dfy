/** Integer formatting of src/fmt/format.go. */
module FormatInteger {
  import opened Common
  import opened ByteIndex
  import Utf8

  const SPACE: byte := 32
  const ZERO: byte := 48
  const MINUS: byte := 45
  const PLUS: byte := 43

  /** ldigits and udigits (format.go:13-14) */
  const L_DIGITS: seq<byte> := [48, 49, 50, 51, 52, 53, 54, 55, 56, 57, 97, 98, 99, 100, 101, 102, 120]
  const U_DIGITS: seq<byte> := [48, 49, 50, 51, 52, 53, 54, 55, 56, 57, 65, 66, 67, 68, 69, 70, 88]

  const TWO_63: int := 0x8000_0000_0000_0000
  const TWO_64: int := 0x1_0000_0000_0000_0000

  type uint64 = x: int | 0 <= x < 0x1_0000_0000_0000_0000

  predicate IsBase(base: nat) {
    base == 2 || base == 8 || base == 10 || base == 16
  }

  predicate IsDigits(digits: seq<byte>) {
    digits == L_DIGITS || digits == U_DIGITS
  }

  // ---------------------------------------------------------------------------
  // Numerals
  // ---------------------------------------------------------------------------

  /** Arithmetic in the four bases. */
  function Quotient(u: nat, base: nat): (q: nat)
    requires IsBase(base)
    ensures q <= u && (u >= base ==> q < u)
  {
    if base == 2 then u / 2 else if base == 8 then u / 8 else if base == 10 then u / 10 else u / 16
  }

  function Remainder(u: nat, base: nat): (r: nat)
    requires IsBase(base)
    ensures r < base
  {
    if base == 2 then u % 2 else if base == 8 then u % 8 else if base == 10 then u % 10 else u % 16
  }

  function Shifted(v: int, base: nat): int
  {
    if base == 2 then v * 2 else if base == 8 then v * 8 else if base == 10 then v * 10 else v * 16
  }

  /** The numeral of u without leading zeros. */
  function Numeral(u: nat, base: nat, digits: seq<byte>): (s: seq<byte>)
    requires IsBase(base) && IsDigits(digits)
    ensures s != []
    decreases u
  {
    if u < base then [digits[u]] else Numeral(Quotient(u, base), base, digits) + [digits[Remainder(u, base)]]
  }

  function DigitValue(c: byte): int {
    if 48 <= c <= 57 then c as int - 48
    else if 97 <= c <= 102 then c as int - 87
    else if 65 <= c <= 70 then c as int - 55
    else -1
  }

  /** What a numeral stands for. */
  function ValueOf(s: seq<byte>, base: nat): int {
    if s == [] then 0 else Shifted(ValueOf(s[..|s| - 1], base), base) + DigitValue(s[|s| - 1])
  }

  lemma DigitsHaveValues(d: nat, digits: seq<byte>)
    requires IsDigits(digits) && d < 16
    ensures DigitValue(digits[d]) == d
  {
  }

  /** A numeral evaluates to its number. */
  lemma {:induction false} ValueOfNumeral(u: nat, base: nat, digits: seq<byte>)
    requires IsBase(base) && IsDigits(digits)
    ensures ValueOf(Numeral(u, base, digits), base) == u
    decreases u
  {
    var s := Numeral(u, base, digits);
    var front := s[..|s| - 1];
    if u < base {
      assert front == [];
      DigitsHaveValues(u, digits);
      assert Shifted(0, base) == 0;
    } else {
      var q, r := Quotient(u, base), Remainder(u, base);
      assert front == Numeral(q, base, digits);
      ValueOfNumeral(q, base, digits);
      DigitsHaveValues(r, digits);
      assert Shifted(q, base) + r == u;
    }
  }

  /** Leading zeros change nothing. */
  lemma {:induction false} ValueOfZeros(zeros: seq<byte>, s: seq<byte>, base: nat)
    requires forall i :: 0 <= i < |zeros| ==> zeros[i] == ZERO
    ensures ValueOf(zeros + s, base) == ValueOf(s, base)
    decreases |zeros| + |s|
  {
    if s != [] {
      assert (zeros + s)[..|zeros + s| - 1] == zeros + s[..|s| - 1];
      ValueOfZeros(zeros, s[..|s| - 1], base);
    } else if zeros != [] {
      assert zeros + s == zeros[..|zeros| - 1] + [ZERO];
      ValueOfZeros(zeros[..|zeros| - 1], [], base);
      assert zeros[..|zeros| - 1] + [] == zeros[..|zeros| - 1];
    }
  }

  function Power(k: nat): nat {
    if k == 0 then 1 else 2 * Power(k - 1)
  }

  lemma SmallPowers()
    ensures Power(0) == 1 && Power(1) == 2 && Power(3) == 8
  {
    assert Power(2) == 4;
  }

  lemma {:induction false} NumeralLength(u: nat, k: nat, base: nat, digits: seq<byte>)
    requires IsBase(base) && IsDigits(digits) && u < Power(k) && k >= 1
    ensures |Numeral(u, base, digits)| <= k
    decreases k
  {
    if u >= base {
      assert Quotient(u, base) <= u / 2 < Power(k - 1);
      SmallPowers();
      assert k > 1;
      NumeralLength(Quotient(u, base), k - 1, base, digits);
    }
  }

  lemma Power64()
    ensures Power(64) == TWO_64
  {
    assert Power(8) == 256;
    assert Power(16) == 0x1_0000;
    assert Power(24) == 0x100_0000;
    assert Power(32) == 0x1_0000_0000;
    assert Power(40) == 0x100_0000_0000;
    assert Power(48) == 0x1_0000_0000_0000;
    assert Power(56) == 0x100_0000_0000_0000;
  }

  lemma {:induction false} OctalLength(u: nat, k: nat, digits: seq<byte>)
    requires IsDigits(digits) && u < Power(3 * k) && k >= 1
    ensures |Numeral(u, 8, digits)| <= k
    decreases k
  {
    if u >= 8 {
      assert Power(3 * k) == 8 * Power(3 * (k - 1)) by {
        assert Power(3 * k) == 2 * Power(3 * k - 1);
        assert Power(3 * k - 1) == 2 * Power(3 * k - 2);
        assert Power(3 * k - 2) == 2 * Power(3 * k - 3);
      }
      SmallPowers();
      assert k > 1;
      OctalLength(u / 8, k - 1, digits);
    }
  }

  /** At most 64 digits, and 22 in base 8. */
  lemma NumeralFits(u: uint64, base: nat, digits: seq<byte>)
    requires IsBase(base) && IsDigits(digits)
    ensures |Numeral(u, base, digits)| <= 64 && (base == 8 ==> |Numeral(u, base, digits)| <= 22)
  {
    Power64();
    NumeralLength(u, 64, base, digits);
    if base == 8 {
      assert Power(66) == 2 * Power(65) && Power(65) == 2 * Power(64);
      OctalLength(u, 22, digits);
    }
  }

  // ---------------------------------------------------------------------------
  // What is to be printed
  // ---------------------------------------------------------------------------

  datatype Flags = Flags(widPresent: bool, precPresent: bool, minus: bool, plus: bool, sharp: bool, space: bool,
                         zero: bool, sharpV: bool)

  /** int64(u) < 0 */
  predicate IsNegative(u: uint64, isSigned: bool) {
    isSigned && u >= TWO_63
  }

  function Magnitude(u: uint64, isSigned: bool): (m: uint64)
  {
    if IsNegative(u, isSigned) then TWO_64 - u else u
  }

  /** The value that the 64 bits stand for. */
  function ValueOfBits(u: uint64, isSigned: bool): int {
    if IsNegative(u, isSigned) then u - TWO_64 else u
  }

  lemma MagnitudeOfBits(u: uint64, isSigned: bool)
    ensures ValueOfBits(u, isSigned)
      == if IsNegative(u, isSigned) then -(Magnitude(u, isSigned) as int) else Magnitude(u, isSigned)
    ensures IsNegative(u, isSigned) <==> ValueOfBits(u, isSigned) < 0
  {
  }

  function Repeat(c: byte, n: int): (s: seq<byte>)
    ensures |s| == (if n > 0 then n else 0) && forall i :: 0 <= i < |s| ==> s[i] == c
  {
    if n > 0 then seq(n, _ => c) else []
  }

  /** The numeral with leading zeros up to the precision. */
  function Body(m: nat, base: nat, digits: seq<byte>, prec: int): seq<byte>
    requires IsBase(base) && IsDigits(digits)
  {
    Repeat(ZERO, prec - |Numeral(m, base, digits)|) + Numeral(m, base, digits)
  }

  function BasePrefix(base: nat, digits: seq<byte>, body: seq<byte>): seq<byte>
    requires IsDigits(digits) && body != []
  {
    if base == 2 then [ZERO, 98]
    else if base == 8 then if body[0] != ZERO then [ZERO] else []
    else if base == 16 then [ZERO, digits[16]]
    else []
  }

  function Sign(negative: bool, flags: Flags): seq<byte> {
    if negative then [MINUS] else if flags.plus then [PLUS] else if flags.space then [SPACE] else []
  }

  /** The least number of digits (format.go:215-231): a zero flag with a width
      leaves room for a sign. */
  function Precision(flags: Flags, wid: int, prec: int, negative: bool): int {
    if flags.precPresent then prec
    else if flags.zero && flags.widPresent then
      if negative || flags.plus || flags.space then wid - 1 else wid
    else 0
  }

  /** A magnitude with its sign, its prefix and at least `least` digits. */
  function SignedText(m: uint64, base: nat, octal: bool, negative: bool, digits: seq<byte>, flags: Flags,
                      least: int): seq<byte>
    requires IsBase(base) && IsDigits(digits)
  {
    var body := Body(m, base, digits, least);
    Sign(negative, flags) + (if octal then [ZERO, 111] else [])
    + (if flags.sharp then BasePrefix(base, digits, body) else []) + body
  }

  function Text(u: uint64, base: nat, isSigned: bool, octal: bool, digits: seq<byte>, flags: Flags, wid: int,
                prec: int): seq<byte>
    requires IsBase(base) && IsDigits(digits)
  {
    var negative := IsNegative(u, isSigned);
    SignedText(Magnitude(u, isSigned), base, octal, negative, digits, flags, Precision(flags, wid, prec, negative))
  }

  function Padded(text: seq<byte>, flags: Flags, wid: int): seq<byte> {
    var padding := Repeat(SPACE, if flags.widPresent then wid - |text| else 0);
    if flags.minus then text + padding else padding + text
  }

  /** The two orders of text and padding behind what is there already. */
  lemma PaddedIs(text: seq<byte>, flags: Flags, wid: int, before: seq<byte>)
    ensures !flags.widPresent || wid == 0 ==> Padded(text, flags, wid) == text
    ensures flags.widPresent ==>
      var padding := Repeat(SPACE, wid - |text|);
      before + Padded(text, flags, wid)
        == if flags.minus then before + text + padding else before + padding + text
  {
  }

  /** What fmtInteger appends. */
  function Output(u: uint64, base: nat, isSigned: bool, octal: bool, digits: seq<byte>, flags: Flags, wid: int,
                  prec: int): seq<byte>
    requires IsBase(base) && IsDigits(digits)
  {
    if flags.precPresent && prec == 0 && u == 0 then Repeat(SPACE, wid)
    else Padded(Text(u, base, isSigned, octal, digits, flags, wid, prec), flags, wid)
  }

  lemma BodyMeans(m: nat, base: nat, digits: seq<byte>, least: int)
    requires IsBase(base) && IsDigits(digits)
    ensures var body := Body(m, base, digits, least); ValueOf(body, base) == m && |body| >= least && body[0] != MINUS
  {
    ValueOfZeros(Repeat(ZERO, least - |Numeral(m, base, digits)|), Numeral(m, base, digits), base);
    ValueOfNumeral(m, base, digits);
    FirstIsNoMinus(m, base, digits);
  }

  /** The text starts with a minus only if it has that sign, and ends with the body. */
  lemma TextParts(sign: seq<byte>, octal: seq<byte>, prefix: seq<byte>, body: seq<byte>, negative: bool, flags: Flags)
    requires sign == Sign(negative, flags) && body != [] && body[0] != MINUS
    requires (octal == [] || octal[0] == ZERO) && (prefix == [] || prefix[0] == ZERO)
    ensures var text := sign + octal + prefix + body;
      text != [] && (text[0] == MINUS <==> negative) && text[|text| - |body|..] == body
  {
  }

  lemma SignedTextParts(m: uint64, base: nat, octal: bool, negative: bool, digits: seq<byte>, flags: Flags, least: int)
    requires IsBase(base) && IsDigits(digits)
    ensures var text, body := SignedText(m, base, octal, negative, digits, flags, least), Body(m, base, digits, least);
      && |text| >= |body| > 0 && (text[0] == MINUS <==> negative) && text[|text| - |body|..] == body
  {
    var body := Body(m, base, digits, least);
    var o: seq<byte> := if octal then [ZERO, 111] else [];
    var prefix := if flags.sharp then BasePrefix(base, digits, body) else [];
    BodyMeans(m, base, digits, least);
    TextParts(Sign(negative, flags), o, prefix, body, negative, flags);
  }

  /** The digits printed, from the n-th byte on, evaluate to the magnitude of the
      value; they are as many as the precision asks for; and the sign printed is
      the sign of the value. */
  lemma TextMeansValue(u: uint64, base: nat, isSigned: bool, octal: bool, digits: seq<byte>, flags: Flags, wid: int,
                       prec: int)
    returns (n: nat)
    requires IsBase(base) && IsDigits(digits)
    ensures var text := Text(u, base, isSigned, octal, digits, flags, wid, prec);
      var v := ValueOfBits(u, isSigned);
      && n < |text| && ValueOf(text[n..], base) == (if v < 0 then -v else v)
      && (text[0] == MINUS <==> v < 0)
      && |text[n..]| >= Precision(flags, wid, prec, v < 0)
  {
    var negative, m := IsNegative(u, isSigned), Magnitude(u, isSigned);
    var least := Precision(flags, wid, prec, negative);
    MagnitudeOfBits(u, isSigned);
    SignedTextParts(m, base, octal, negative, digits, flags, least);
    BodyMeans(m, base, digits, least);
    n := |SignedText(m, base, octal, negative, digits, flags, least)| - |Body(m, base, digits, least)|;
  }

  lemma {:induction false} FirstIsNoMinus(u: nat, base: nat, digits: seq<byte>)
    requires IsBase(base) && IsDigits(digits)
    ensures Numeral(u, base, digits)[0] != MINUS
    decreases u
  {
    if u >= base {
      FirstIsNoMinus(Quotient(u, base), base, digits);
    }
  }

  // ---------------------------------------------------------------------------
  // The buffer
  // ---------------------------------------------------------------------------

  /** The buffer that fmtInteger works in: 68 bytes, or 3+wid+prec if that is more. */
  function BufferSize(flags: Flags, wid: nat, prec: nat): nat {
    if (flags.widPresent || flags.precPresent) && 3 + wid + prec > 68 then 3 + wid + prec else 68
  }

  /** The text fits, whatever the flags. */
  lemma TextFits(u: uint64, base: nat, isSigned: bool, octal: bool, digits: seq<byte>, flags: Flags, wid: nat,
                 prec: nat)
    requires IsBase(base) && IsDigits(digits) && (octal ==> base == 8)
    ensures |Text(u, base, isSigned, octal, digits, flags, wid, prec)| <= BufferSize(flags, wid, prec)
    ensures Precision(flags, wid, prec, IsNegative(u, isSigned)) <= BufferSize(flags, wid, prec)
  {
    NumeralFits(Magnitude(u, isSigned), base, digits);
  }

  /** buf[--i] = c */
  method Put(buf: array<byte>, i: nat, c: byte) returns (i': nat)
    requires 0 < i <= buf.Length
    modifies buf
    ensures i' == i - 1 && buf[i'..] == [c] + old(buf[i..])
  {
    buf[i - 1] := c;
    i' := i - 1;
  }

  /** One digit of a numeral: its quotient is still to be written. */
  method PutDigit(buf: array<byte>, i: nat, c: byte, ghost u: nat, ghost base: nat, ghost digits: seq<byte>,
                  ghost m: nat) returns (i': nat)
    requires IsBase(base) && IsDigits(digits) && u >= base && c == digits[Remainder(u, base)]
    requires i <= buf.Length && Numeral(u, base, digits) + buf[i..] == Numeral(m, base, digits)
      && |Numeral(m, base, digits)| <= buf.Length
    modifies buf
    ensures i' <= buf.Length && Numeral(Quotient(u, base), base, digits) + buf[i'..] == Numeral(m, base, digits)
  {
    ghost var front, back := Numeral(Quotient(u, base), base, digits), buf[i..];
    assert Numeral(u, base, digits) == front + [c];
    assert |(front + [c]) + back| == |Numeral(m, base, digits)|;
    i' := Put(buf, i, c);
    assert front + ([c] + back) == (front + [c]) + back;
  }

  /** case 10 (format.go:240-246) */
  method WriteDecimal(buf: array<byte>, m: uint64, digits: seq<byte>) returns (i: nat, u: nat)
    requires IsDigits(digits) && |Numeral(m, 10, digits)| <= buf.Length
    modifies buf
    ensures u < 10 && i <= buf.Length && Numeral(u, 10, digits) + buf[i..] == Numeral(m, 10, digits)
  {
    i, u := buf.Length, m;
    while u >= 10
      invariant i <= buf.Length && Numeral(u, 10, digits) + buf[i..] == Numeral(m, 10, digits)
    {
      var next := u / 10;
      i := PutDigit(buf, i, 48 + u - next * 10, u, 10, digits, m);
      u := next;
    }
  }

  /** case 16 (format.go:247-252) */
  method WriteHexadecimal(buf: array<byte>, m: uint64, digits: seq<byte>) returns (i: nat, u: nat)
    requires IsDigits(digits) && |Numeral(m, 16, digits)| <= buf.Length
    modifies buf
    ensures u < 16 && i <= buf.Length && Numeral(u, 16, digits) + buf[i..] == Numeral(m, 16, digits)
  {
    i, u := buf.Length, m;
    while u >= 16
      invariant i <= buf.Length && Numeral(u, 16, digits) + buf[i..] == Numeral(m, 16, digits)
    {
      i := PutDigit(buf, i, digits[u % 16], u, 16, digits, m);
      u := u / 16;
    }
  }

  /** case 8 (format.go:253-258) */
  method WriteOctal(buf: array<byte>, m: uint64, digits: seq<byte>) returns (i: nat, u: nat)
    requires IsDigits(digits) && |Numeral(m, 8, digits)| <= buf.Length
    modifies buf
    ensures u < 8 && i <= buf.Length && Numeral(u, 8, digits) + buf[i..] == Numeral(m, 8, digits)
  {
    i, u := buf.Length, m;
    while u >= 8
      invariant i <= buf.Length && Numeral(u, 8, digits) + buf[i..] == Numeral(m, 8, digits)
    {
      i := PutDigit(buf, i, 48 + u % 8, u, 8, digits, m);
      u := u / 8;
    }
  }

  /** case 2 (format.go:259-264) */
  method WriteBinary(buf: array<byte>, m: uint64, digits: seq<byte>) returns (i: nat, u: nat)
    requires IsDigits(digits) && |Numeral(m, 2, digits)| <= buf.Length
    modifies buf
    ensures u < 2 && i <= buf.Length && Numeral(u, 2, digits) + buf[i..] == Numeral(m, 2, digits)
  {
    i, u := buf.Length, m;
    while u >= 2
      invariant i <= buf.Length && Numeral(u, 2, digits) + buf[i..] == Numeral(m, 2, digits)
    {
      i := PutDigit(buf, i, 48 + u % 2, u, 2, digits, m);
      u := u / 2;
    }
  }

  /** The digits, from the right (format.go:236-269). */
  method WriteNumeral(buf: array<byte>, m: uint64, base: nat, digits: seq<byte>) returns (i: nat)
    requires IsBase(base) && IsDigits(digits) && |Numeral(m, base, digits)| <= buf.Length
    modifies buf
    ensures i <= buf.Length && buf[i..] == Numeral(m, base, digits)
  {
    var u;
    if base == 10 {
      i, u := WriteDecimal(buf, m, digits);
    } else if base == 16 {
      i, u := WriteHexadecimal(buf, m, digits);
    } else if base == 8 {
      i, u := WriteOctal(buf, m, digits);
    } else {
      i, u := WriteBinary(buf, m, digits);
    }
    assert |[digits[u]] + buf[i..]| <= buf.Length;
    i := Put(buf, i, digits[u]);
  }

  method PutZero(buf: array<byte>, i: nat, ghost n: nat, ghost digits: seq<byte>) returns (i': nat)
    requires 0 < i <= buf.Length && buf[i..] == Repeat(ZERO, n) + digits
    modifies buf
    ensures i' == i - 1 && buf[i'..] == Repeat(ZERO, n + 1) + digits
  {
    hide Repeat;
    RepeatFront(ZERO, n, digits);
    i' := Put(buf, i, ZERO);
  }

  /** Leading zeros (format.go:270-273). */
  method WriteZeros(buf: array<byte>, start: nat, prec: int) returns (i: nat)
    requires start <= buf.Length && prec <= buf.Length
    modifies buf
    ensures i <= buf.Length && buf[i..] == Repeat(ZERO, prec - (buf.Length - start)) + old(buf[start..])
  {
    hide Repeat;
    i := start;
    ghost var digits := buf[start..];
    assert Repeat(ZERO, 0) + digits == digits;
    while i > 0 && prec > buf.Length - i
      invariant i <= start && (i < start ==> prec >= buf.Length - i)
      invariant buf[i..] == Repeat(ZERO, start - i) + digits
    {
      i := PutZero(buf, i, start - i, digits);
    }
    RepeatNone(ZERO, prec - (buf.Length - start), start - i);
  }

  lemma RepeatFront(c: byte, n: nat, s: seq<byte>)
    ensures [c] + (Repeat(c, n) + s) == Repeat(c, n + 1) + s
  {
    assert [c] + Repeat(c, n) == Repeat(c, n + 1);
    Associate([c], Repeat(c, n), s);
  }

  lemma RepeatNone(c: byte, m: int, n: nat)
    requires m == n || (m <= 0 && n == 0)
    ensures Repeat(c, m) == Repeat(c, n)
  {
  }

  /** Prefixes and sign (format.go:275-313). */
  method WritePrefixes(buf: array<byte>, start: nat, base: nat, octal: bool, negative: bool, digits: seq<byte>,
                       flags: Flags) returns (i: nat)
    requires IsDigits(digits) && start < buf.Length
    requires |Sign(negative, flags)| + (if octal then 2 else 0)
             + (if flags.sharp then |BasePrefix(base, digits, buf[start..])| else 0) <= start
    modifies buf
    ensures i <= buf.Length
    ensures buf[i..] == Sign(negative, flags) + (if octal then [ZERO, 111] else [])
                      + (if flags.sharp then BasePrefix(base, digits, old(buf[start..])) else []) + old(buf[start..])
  {
    i := start;
    ghost var body, prefix: seq<byte> := buf[start..], [];
    if flags.sharp {
      prefix := BasePrefix(base, digits, body);
      i := WriteBasePrefix(buf, i, base, digits);
    }
    assert buf[i..] == prefix + body;
    i := WriteOctalMark(buf, i, octal);
    i := WriteSign(buf, i, negative, flags);
    ghost var o: seq<byte> := if octal then [ZERO, 111] else [];
    PutTogether(Sign(negative, flags), o, prefix, body);
  }

  lemma PutTogether(a: seq<byte>, b: seq<byte>, c: seq<byte>, d: seq<byte>)
    ensures a + (b + (c + d)) == a + b + c + d
  {
  }

  method WriteOctalMark(buf: array<byte>, start: nat, octal: bool) returns (i: nat)
    requires start <= buf.Length && (octal ==> start >= 2)
    modifies buf
    ensures i == start - (if octal then 2 else 0) && buf[i..] == (if octal then [ZERO, 111] else []) + old(buf[start..])
  {
    i := start;
    if octal {
      i := Put(buf, i, 111);
      i := Put(buf, i, ZERO);
    }
  }

  method WriteSign(buf: array<byte>, start: nat, negative: bool, flags: Flags) returns (i: nat)
    requires |Sign(negative, flags)| <= start <= buf.Length
    modifies buf
    ensures i <= start && buf[i..] == Sign(negative, flags) + old(buf[start..])
  {
    i := start;
    if negative {
      i := Put(buf, i, MINUS);
    } else if flags.plus {
      i := Put(buf, i, PLUS);
    } else if flags.space {
      i := Put(buf, i, SPACE);
    }
  }

  method WriteBasePrefix(buf: array<byte>, start: nat, base: nat, digits: seq<byte>) returns (i: nat)
    requires IsDigits(digits) && start < buf.Length && |BasePrefix(base, digits, buf[start..])| <= start
    modifies buf
    ensures i == start - |BasePrefix(base, digits, old(buf[start..]))|
    ensures buf[i..] == BasePrefix(base, digits, old(buf[start..])) + old(buf[start..])
  {
    i := start;
    if base == 2 {
      i := Put(buf, i, 98);
      i := Put(buf, i, ZERO);
    } else if base == 8 {
      if buf[i] != ZERO {
        i := Put(buf, i, ZERO);
      }
    } else if base == 16 {
      i := Put(buf, i, digits[16]);
      i := Put(buf, i, ZERO);
    }
  }

  // ---------------------------------------------------------------------------
  // The formatter
  // ---------------------------------------------------------------------------

  class Formatter {
    var buf: array<byte>
    var len: nat
    var flags: Flags
    var wid: int
    var prec: int
    const intbuf: array<byte>

    /** Width and precision are never negative; they may be left from another verb. */
    ghost predicate Valid()
      reads this
    {
      len <= buf.Length && wid >= 0 && prec >= 0 && intbuf.Length == 68 && buf != intbuf
    }

    ghost function Contents(): seq<byte>
      reads this, buf
      requires Valid()
    {
      buf[..len]
    }

    constructor (flags: Flags, wid: nat, prec: nat)
      ensures Valid() && Contents() == [] && this.flags == flags && this.wid == wid && this.prec == prec
      ensures fresh(buf) && fresh(intbuf)
    {
      this.flags, this.wid, this.prec, len := flags, wid, prec, 0;
      buf := new byte[0](_ => 0);
      intbuf := new byte[68](_ => 0);
    }

    /** A larger array with the same contents, if n more bytes do not fit. */
    method Enlarge(n: nat)
      requires Valid()
      modifies this`buf
      ensures Valid() && Contents() == old(Contents()) && len + n <= buf.Length
      ensures buf == old(buf) || fresh(buf)
    {
      if len + n > buf.Length {
        var bigger := new byte[2 * buf.Length + n](_ => 0);
        CopyInto(bigger, 0, buf[..len]);
        buf := bigger;
      }
    }

    /** write (print.go:80-82): append. */
    method Write(p: seq<byte>)
      requires Valid()
      modifies this`buf, this`len, buf
      ensures Valid() && Contents() == old(Contents()) + p && (buf == old(buf) || fresh(buf))
    {
      ghost var before := Contents();
      Enlarge(|p|);
      CopyInto(buf, len, p);
      len := len + |p|;
      assert buf[..len] == before + p;
    }

    /** writePadding (format.go:64-87) */
    method WritePadding(n: int)
      requires Valid()
      modifies this`buf, this`len, buf
      ensures Valid() && (buf == old(buf) || fresh(buf))
      ensures Contents() == old(Contents()) + Repeat(if flags.zero then ZERO else SPACE, n)
    {
      ghost var before := Contents();
      if n <= 0 {
        assert before + [] == before;
        return;
      }
      var newLen := len + n;
      Enlarge(n);
      var padByte := SPACE;
      if flags.zero {
        padByte := ZERO;
      }
      forall i | len <= i < newLen {
        buf[i] := padByte;
      }
      assert buf[..len] == before && buf[len..newLen] == Repeat(padByte, n);
      assert buf[..newLen] == buf[..len] + buf[len..newLen];
      len := newLen;
    }

    /** pad (format.go:90-105) of a text in ASCII. */
    method Pad(b: seq<byte>)
      requires Valid() && !flags.zero && IsAscii(b)
      modifies this`buf, this`len, buf
      ensures Valid() && (buf == old(buf) || fresh(buf))
      ensures Contents() == old(Contents()) + Padded(b, flags, wid)
    {
      hide Utf8.Runes, Utf8.DecodeRune, Repeat, Padded;
      RunesOfAscii(b);
      PaddedIs(b, flags, wid, Contents());
      if !flags.widPresent || wid == 0 {
        Write(b);
        return;
      }
      var width := wid - |Utf8.Runes(b)|;
      if !flags.minus {
        WritePadding(width);
        Write(b);
      } else {
        Write(b);
        WritePadding(width);
      }
    }

    /** Padding with spaces (format.go:220-223). */
    method WriteSpaces(n: int)
      requires Valid()
      modifies this`flags, this`buf, this`len, buf
      ensures Valid() && flags == old(flags) && (buf == old(buf) || fresh(buf))
      ensures Contents() == old(Contents()) + Repeat(SPACE, n)
    {
      var oldZero := flags.zero;
      flags := flags.(zero := false);
      WritePadding(n);
      flags := flags.(zero := oldZero);
    }

    /** The text in its width, padded with spaces (format.go:317-320). */
    method PadSpaces(b: seq<byte>)
      requires Valid() && IsAscii(b)
      modifies this`flags, this`buf, this`len, buf
      ensures Valid() && flags == old(flags) && (buf == old(buf) || fresh(buf))
      ensures Contents() == old(Contents()) + Padded(b, flags, wid)
    {
      var oldZero := flags.zero;
      flags := flags.(zero := false);
      Pad(b);
      flags := flags.(zero := oldZero);
    }

    /** The array to work in (format.go:200-210). */
    method WorkingBuffer() returns (work: array<byte>)
      requires Valid()
      ensures work.Length == BufferSize(flags, wid, prec) && (work == intbuf || fresh(work))
    {
      work := intbuf;
      if flags.widPresent || flags.precPresent {
        var width := 3 + wid + prec;
        if width > work.Length {
          work := new byte[width](_ => 0);
        }
      }
    }

    /** How many digits at least (format.go:215-231). */
    method LeastDigits(negative: bool) returns (least: int)
      ensures least == Precision(flags, wid, prec, negative)
    {
      least := 0;
      if flags.precPresent {
        least := prec;
      } else if flags.zero && flags.widPresent {
        least := wid;
        if negative || flags.plus || flags.space {
          least := least - 1;
        }
      }
    }

    /** fmtInteger (format.go:194-321): every store is inside the buffer, and what is
        appended is the formatted integer. */
    method FmtInteger(u: uint64, base: nat, isSigned: bool, verb: char, digits: seq<byte>)
      requires Valid() && IsBase(base) && IsDigits(digits) && (verb == 'O' ==> base == 8)
      modifies this`flags, this`buf, this`len, buf, intbuf
      ensures Valid() && flags == old(flags) && (buf == old(buf) || fresh(buf))
      ensures Contents() == old(Contents()) + Output(u, base, isSigned, verb == 'O', digits, flags, wid, prec)
    {
      var negative := isSigned && u >= TWO_63;
      var m := u;
      if negative {
        m := TWO_64 - u;
      }
      var work := WorkingBuffer();
      if flags.precPresent && prec == 0 && m == 0 {
        WriteSpaces(wid);
        return;
      }
      var least := LeastDigits(negative);
      TextFits(u, base, isSigned, verb == 'O', digits, flags, wid, prec);
      var i := WriteText(work, m, base, verb == 'O', negative, digits, flags, least);
      PadSpaces(work[i..]);
    }
  }

  /** The text in the working buffer (format.go:236-313). */
  method WriteText(work: array<byte>, m: uint64, base: nat, octal: bool, negative: bool, digits: seq<byte>,
                   flags: Flags, least: int)
    returns (i: nat)
    requires IsBase(base) && IsDigits(digits)
    requires |SignedText(m, base, octal, negative, digits, flags, least)| <= work.Length && least <= work.Length
    modifies work
    ensures i <= work.Length && work[i..] == SignedText(m, base, octal, negative, digits, flags, least)
    ensures IsAscii(work[i..])
  {
    i := WriteBody(work, m, base, digits, least);
    i := WritePrefixes(work, i, base, octal, negative, digits, flags);
    TextIsAscii(m, base, octal, negative, digits, flags, least);
  }

  method WriteBody(work: array<byte>, m: uint64, base: nat, digits: seq<byte>, least: int) returns (i: nat)
    requires IsBase(base) && IsDigits(digits)
    requires |Numeral(m, base, digits)| <= work.Length && least <= work.Length
    modifies work
    ensures i <= work.Length && work[i..] == Body(m, base, digits, least)
  {
    i := WriteNumeral(work, m, base, digits);
    i := WriteZeros(work, i, least);
  }

  lemma TextIsAscii(m: uint64, base: nat, octal: bool, negative: bool, digits: seq<byte>, flags: Flags, least: int)
    requires IsBase(base) && IsDigits(digits)
    ensures IsAscii(SignedText(m, base, octal, negative, digits, flags, least))
  {
    var body := Body(m, base, digits, least);
    NumeralIsAscii(m, base, digits);
    AsciiConcat(Repeat(ZERO, least - |Numeral(m, base, digits)|), Numeral(m, base, digits));
    var prefix := if flags.sharp then BasePrefix(base, digits, body) else [];
    var front := Sign(negative, flags) + (if octal then [ZERO, 111] else []);
    assert IsAscii(front) && IsAscii(prefix);
    AsciiConcat(front, prefix);
    AsciiConcat(front + prefix, body);
  }

  lemma DigitIsAscii(d: nat, digits: seq<byte>)
    requires IsDigits(digits) && d <= 16
    ensures IsAscii([digits[d]])
  {
  }

  lemma AsciiConcat(s: seq<byte>, t: seq<byte>)
    requires IsAscii(s) && IsAscii(t)
    ensures IsAscii(s + t)
  {
  }

  predicate IsAscii(s: seq<byte>) {
    forall i :: 0 <= i < |s| ==> s[i] < 0x80
  }

  lemma {:induction false} NumeralIsAscii(u: nat, base: nat, digits: seq<byte>)
    requires IsBase(base) && IsDigits(digits)
    ensures IsAscii(Numeral(u, base, digits))
    decreases u
  {
    if u >= base {
      NumeralIsAscii(Quotient(u, base), base, digits);
      DigitIsAscii(Remainder(u, base), digits);
      AsciiConcat(Numeral(Quotient(u, base), base, digits), [digits[Remainder(u, base)]]);
    } else {
      DigitIsAscii(u, digits);
    }
  }

  lemma {:induction false} RunesOfAscii(s: seq<byte>)
    requires IsAscii(s)
    ensures |Utf8.Runes(s)| == |s|
    decreases |s|
  {
    if s != [] {
      assert s[0] < 0x80;
      RunesOfAscii(s[1..]);
    }
  }

  // ---------------------------------------------------------------------------
  // Widths and precisions
  // ---------------------------------------------------------------------------

  /** tooLarge (print.go:300-303) */
  predicate TooLarge(x: int) {
    x > 1_000_000 || x < -1_000_000
  }

  predicate IsDecimalDigit(c: byte) {
    48 <= c <= 57
  }

  /** parsenum (print.go:306-318): a width or precision in the format is never
      negative and bounded, so that 3+wid+prec is a length. */
  method ParseNum(s: seq<byte>, start: nat, end: nat) returns (num: int, isnum: bool, newi: nat)
    requires end <= |s|
    ensures 0 <= num <= 10_000_009 && (!isnum ==> num == 0)
    ensures isnum ==> start < newi <= end && num == ValueOf(s[start..newi], 10)
    ensures isnum ==> (forall k :: start <= k < newi ==> IsDecimalDigit(s[k]))
    ensures isnum && newi < end ==> !IsDecimalDigit(s[newi])
    ensures !isnum ==> newi == end || newi == start
  {
    if start >= end {
      return 0, false, end;
    }
    num, isnum, newi := 0, false, start;
    assert s[start..start] == [];
    while newi < end && 48 <= s[newi] && s[newi] <= 57
      invariant start <= newi <= end && isnum == (newi > start)
      invariant 0 <= num <= 10_000_009 && num == ValueOf(s[start..newi], 10)
      invariant forall k :: start <= k < newi ==> IsDecimalDigit(s[k])
    {
      if TooLarge(num) {
        return 0, false, end;
      }
      assert s[start..newi + 1][..newi - start] == s[start..newi];
      num := num * 10 + (s[newi] - 48);
      newi := newi + 1;
      isnum := true;
    }
  }

  // ---------------------------------------------------------------------------
  // Verbs
  // ---------------------------------------------------------------------------

  /** The base and the digits of a verb for integers. */
  function VerbBase(verb: char): Option<(nat, seq<byte>)>
    ensures VerbBase(verb).Some? ==> IsBase(VerbBase(verb).value.0) && IsDigits(VerbBase(verb).value.1)
  {
    if verb == 'v' || verb == 'd' then Some((10, L_DIGITS))
    else if verb == 'b' then Some((2, L_DIGITS))
    else if verb == 'o' || verb == 'O' then Some((8, L_DIGITS))
    else if verb == 'x' then Some((16, L_DIGITS))
    else if verb == 'X' then Some((16, U_DIGITS))
    else None
  }

  /** What a verb appends. */
  function Appended(v: uint64, isSigned: bool, verb: char, flags: Flags, wid: int, prec: int): seq<byte>
    requires VerbBase(verb).Some?
  {
    if verb == 'v' && flags.sharpV && !isSigned then
      Output(v, 16, false, false, L_DIGITS, flags.(sharp := true), wid, prec)
    else Output(v, VerbBase(verb).value.0, isSigned, verb == 'O', VerbBase(verb).value.1, flags, wid, prec)
  }

  /** pp.fmtInteger (print.go:370-388) for the verbs that print a number: %#v of an
      unsigned integer is hexadecimal with 0x. */
  method FmtVerb(f: Formatter, v: uint64, isSigned: bool, verb: char)
    requires f.Valid() && VerbBase(verb).Some?
    modifies f`flags, f`buf, f`len, f.buf, f.intbuf
    ensures f.Valid() && f.flags == old(f.flags)
    ensures f.Contents() == old(f.Contents()) + Appended(v, isSigned, verb, f.flags, f.wid, f.prec)
  {
    if verb == 'v' && f.flags.sharpV && !isSigned {
      var sharp := f.flags.sharp;
      f.flags := f.flags.(sharp := true);
      f.FmtInteger(v, 16, false, 'v', L_DIGITS);
      f.flags := f.flags.(sharp := sharp);
    } else {
      var spec := VerbBase(verb).value;
      f.FmtInteger(v, spec.0, isSigned, verb, spec.1);
    }
  }
}
