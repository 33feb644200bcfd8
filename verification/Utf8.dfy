/** UTF-8 as sections 3 and 4 of RFC 3629 define it, with the conventions of
    src/unicode/utf8/utf8.go for what is not valid. */
module Utf8 {
  import opened Common

  const RUNE_ERROR: int := 0xFFFD
  const RUNE_SELF: int := 0x80
  const UTF_MAX: nat := 4

  predicate IsScalar(r: int) {
    0 <= r <= 0x10FFFF && !(0xD800 <= r <= 0xDFFF)
  }

  predicate IsTail(b: byte) {
    0x80 <= b <= 0xBF
  }

  /** How many bytes a sequence starting with b takes; 1 also for a byte that
      cannot start one. */
  function Width(b: byte): (n: nat)
    ensures 1 <= n <= 4
  {
    if b < 0xC2 then 1
    else if b <= 0xDF then 2
    else if b <= 0xEF then 3
    else if b <= 0xF4 then 4
    else 1
  }

  /** The values that the second byte can take after b. */
  predicate SecondFits(b: byte, second: byte) {
    && (if b == 0xE0 then 0xA0 else if b == 0xF0 then 0x90 else 0x80) <= second
    && second <= if b == 0xED then 0x9F else if b == 0xF4 then 0x8F else 0xBF
  }

  /** p begins with a well-formed sequence. */
  predicate StartsRune(p: seq<byte>) {
    && |p| > 0 && |p| >= Width(p[0])
    && match Width(p[0])
       case 1 => p[0] < 0x80
       case 2 => SecondFits(p[0], p[1])
       case 3 => SecondFits(p[0], p[1]) && IsTail(p[2])
       case _ => SecondFits(p[0], p[1]) && IsTail(p[2]) && IsTail(p[3])
  }

  /** DecodeRune (utf8.go:151-189) */
  function DecodeRune(p: seq<byte>): (d: (int, nat))
    ensures d.1 <= |p| && (|p| > 0 ==> d.1 > 0)
    ensures |p| > 0 ==> 1 <= d.1 <= 4
    ensures |p| > 0 && p[0] < 0x80 ==> d == (p[0] as int, 1)
    ensures |p| > 0 && !StartsRune(p) ==> d == (RUNE_ERROR, 1)
  {
    if p == [] then (RUNE_ERROR, 0)
    else if !StartsRune(p) then (RUNE_ERROR, 1)
    else match Width(p[0])
         case 1 => (p[0] as int, 1)
         case 2 => ((p[0] as int - 0xC0) * 64 + (p[1] as int - 0x80), 2)
         case 3 => ((p[0] as int - 0xE0) * 4096 + (p[1] as int - 0x80) * 64 + (p[2] as int - 0x80), 3)
         case _ => ((p[0] as int - 0xF0) * 262144 + (p[1] as int - 0x80) * 4096 + (p[2] as int - 0x80) * 64
           + (p[3] as int - 0x80), 4)
  }

  /** The encoding of a character, section 3 of RFC 3629. */
  function Encode(r: int): (p: seq<byte>)
    requires IsScalar(r)
    ensures 1 <= |p| <= 4
  {
    if r <= 0x7F then [r]
    else if r <= 0x7FF then [0xC0 + r / 64, 0x80 + r % 64]
    else if r <= 0xFFFF then [0xE0 + r / 4096, 0x80 + r / 64 % 64, 0x80 + r % 64]
    else [0xF0 + r / 262144, 0x80 + r / 4096 % 64, 0x80 + r / 64 % 64, 0x80 + r % 64]
  }

  /** RuneLen (utf8.go:321-337) */
  function RuneLen(r: int): int {
    if IsScalar(r) then |Encode(r)| else -1
  }

  /** EncodeRune (utf8.go:341-369): what is no character is written as U+FFFD. */
  function EncodeRune(r: int): (p: seq<byte>)
    ensures 1 <= |p| <= 4
  {
    if IsScalar(r) then Encode(r) else Encode(0xFFFD)
  }

  lemma Encode2(r: int)
    requires 0x80 <= r <= 0x7FF
    ensures var p := Encode(r); StartsRune(p) && DecodeRune(p) == (r, 2)
  {
    assert r == r / 64 * 64 + r % 64;
    assert 2 <= r / 64 <= 0x1F;
  }

  lemma Encode3(r: int)
    requires IsScalar(r) && 0x800 <= r <= 0xFFFF
    ensures var p := Encode(r); StartsRune(p) && DecodeRune(p) == (r, 3)
  {
    var a, b, c := r / 4096, r / 64 % 64, r % 64;
    assert r == a * 4096 + b * 64 + c;
    assert 0 <= a <= 0xF && (a == 0 ==> b >= 0x20) && (a == 0xD ==> b < 0x20);
  }

  lemma Encode4(r: int)
    requires IsScalar(r) && r > 0xFFFF
    ensures var p := Encode(r); StartsRune(p) && DecodeRune(p) == (r, 4)
  {
    var a, b, c, d := r / 262144, r / 4096 % 64, r / 64 % 64, r % 64;
    assert r == a * 262144 + b * 4096 + c * 64 + d;
    assert 0 <= a <= 4 && (a == 0 ==> b >= 0x10) && (a == 4 ==> b < 0x10);
  }

  /** Only the bytes of the sequence matter. */
  lemma DecodePrefix(p: seq<byte>, rest: seq<byte>)
    requires StartsRune(p)
    ensures StartsRune(p + rest) && DecodeRune(p + rest) == DecodeRune(p)
  {
  }

  /** Decoding reads back what was encoded. */
  lemma DecodeEncode(r: int, rest: seq<byte>)
    requires IsScalar(r)
    ensures DecodeRune(Encode(r) + rest) == (r, |Encode(r)|) && StartsRune(Encode(r) + rest)
  {
    if r <= 0x7F {
    } else if r <= 0x7FF {
      Encode2(r);
    } else if r <= 0xFFFF {
      Encode3(r);
    } else {
      Encode4(r);
    }
    DecodePrefix(Encode(r), rest);
  }

  /** A well-formed sequence is the encoding of what it decodes to: there is no
      second way to write a character. */
  lemma EncodeDecode(p: seq<byte>)
    requires StartsRune(p)
    ensures var (r, size) := DecodeRune(p); IsScalar(r) && p[..size] == Encode(r)
  {
    var (r, size) := DecodeRune(p);
    if Width(p[0]) == 2 {
      Digits2(p[0] - 0xC0, p[1] - 0x80);
    } else if Width(p[0]) == 3 {
      Digits3(p[0] - 0xE0, p[1] - 0x80, p[2] - 0x80);
    } else if Width(p[0]) == 4 {
      Digits4(p[0] - 0xF0, p[1] - 0x80, p[2] - 0x80, p[3] - 0x80);
    }
  }

  lemma Digits2(a: int, b: int)
    requires 0 <= b < 64
    ensures (a * 64 + b) / 64 == a && (a * 64 + b) % 64 == b
  {
  }

  lemma Digits3(a: int, b: int, c: int)
    requires 0 <= b < 64 && 0 <= c < 64
    ensures var r := a * 4096 + b * 64 + c; r / 4096 == a && r / 64 % 64 == b && r % 64 == c
  {
    var r := a * 4096 + b * 64 + c;
    assert r / 64 == a * 64 + b;
  }

  lemma Digits4(a: int, b: int, c: int, d: int)
    requires 0 <= b < 64 && 0 <= c < 64 && 0 <= d < 64
    ensures var r := a * 262144 + b * 4096 + c * 64 + d;
      r / 262144 == a && r / 4096 % 64 == b && r / 64 % 64 == c && r % 64 == d
  {
    var r := a * 262144 + b * 4096 + c * 64 + d;
    assert r / 64 == a * 4096 + b * 64 + c;
    assert r / 4096 == a * 64 + b;
  }

  /** FullRune (utf8.go:104-121) */
  predicate FullRune(p: seq<byte>) {
    && |p| > 0
    && (|| |p| >= Width(p[0])
        || (|p| > 1 && !SecondFits(p[0], p[1]))
        || (|p| > 2 && !IsTail(p[2])))
  }

  /** A full rune is one that no further byte can change. */
  lemma FullRuneIsFinal(p: seq<byte>, rest: seq<byte>)
    requires FullRune(p)
    ensures DecodeRune(p + rest) == DecodeRune(p)
  {
    if StartsRune(p) {
      DecodePrefix(p, rest);
    } else {
      assert !StartsRune(p + rest);
    }
  }

  /** Bytes that are not a full rune are a proper beginning of one: a leading
      byte and bytes that continue it. */
  lemma PartialRune(p: seq<byte>)
    requires p != [] && !FullRune(p)
    ensures |p| <= 3 && p[0] >= 0x80 && (forall i :: 1 <= i < |p| ==> IsTail(p[i]))
    ensures DecodeRune(p) == (RUNE_ERROR, 1)
  {
  }

  /** More bytes can make a character of one that is not full. */
  lemma PartialRuneCompletes(p: seq<byte>) returns (rest: seq<byte>)
    requires p != [] && !FullRune(p)
    ensures StartsRune(p + rest)
  {
    var second := if p[0] == 0xE0 then 0xA0 else if p[0] == 0xF0 then 0x90 else 0x80;
    rest := if |p| == 1 then [second, 0x80, 0x80] else [0x80, 0x80];
    assert (p + rest)[0] == p[0];
  }

  /** The characters of a text, U+FFFD for every byte that belongs to none. */
  function Runes(p: seq<byte>): seq<int> {
    if p == [] then []
    else
      var (r, size) := DecodeRune(p);
      [r] + Runes(p[size..])
  }

  /** Every byte belongs to a well-formed sequence. */
  predicate Valid(p: seq<byte>) {
    p == [] || (StartsRune(p) && Valid(p[DecodeRune(p).1..]))
  }
}
