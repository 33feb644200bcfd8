/** The character classes of src/mime/grammar.go, and the functions of package
    strings that src/mime uses, by definition on ASCII. */
module MimeGrammar {
  import opened Common
  import Utf8

  /** isTSpecial (grammar.go:13-15) */
  predicate IsTSpecial(c: byte) {
    c in {40, 41, 60, 62, 64, 44, 59, 58, 92, 34, 47, 91, 93, 63, 61}
  }

  /** isTokenChar (grammar.go:19-23) */
  predicate IsTokenChar(c: byte) {
    0x20 < c < 0x7F && !IsTSpecial(c)
  }

  /** All bytes are token characters: the code looks for a rune that is not one,
      and no rune that takes more than one byte is. */
  predicate AllTokenChars(s: seq<byte>) {
    forall i :: 0 <= i < |s| ==> IsTokenChar(s[i])
  }

  /** isToken (grammar.go:27-32) */
  predicate IsToken(s: seq<byte>) {
    s != [] && AllTokenChars(s)
  }

  function LowerByte(c: byte): byte {
    if 65 <= c <= 90 then c + 32 else c
  }

  /** strings.ToLower */
  function Lower(s: seq<byte>): (r: seq<byte>)
    ensures |r| == |s|
  {
    seq(|s|, i requires 0 <= i < |s| => LowerByte(s[i]))
  }

  predicate IsSpace(c: byte) {
    9 <= c <= 13 || c == 32
  }

  function SpacesEnd(s: seq<byte>, i: nat): (e: nat)
    requires i <= |s|
    ensures i <= e <= |s|
    decreases |s| - i
  {
    if i < |s| && IsSpace(s[i]) then SpacesEnd(s, i + 1) else i
  }

  /** strings.TrimLeftFunc with unicode.IsSpace */
  function TrimLeft(s: seq<byte>): (r: seq<byte>)
    ensures |r| <= |s|
  {
    s[SpacesEnd(s, 0)..]
  }

  function TrimRight(s: seq<byte>): seq<byte> {
    if s == [] || !IsSpace(s[|s| - 1]) then s else TrimRight(s[..|s| - 1])
  }

  function TrimSpace(s: seq<byte>): seq<byte> {
    TrimRight(TrimLeft(s))
  }

  lemma TrimLeftNone(s: seq<byte>)
    requires s == [] || !IsSpace(s[0])
    ensures TrimLeft(s) == s
  {
  }

  /** "utf-8", "us-ascii" and "iso-8859-1" */
  const UTF_8: seq<byte> := [117, 116, 102, 45, 56]
  const US_ASCII: seq<byte> := [117, 115, 45, 97, 115, 99, 105, 105]
  const ISO_8859_1: seq<byte> := [105, 115, 111, 45, 56, 56, 53, 57, 45, 49]

  /** upperhex (encodedword.go:184) */
  function UpperHex(d: nat): byte
    requires d < 16
  {
    if d < 10 then 48 + d else 55 + d
  }

  /** ishex (mediatype.go:393-403); fromHex fails on the other bytes. */
  predicate IsHex(c: byte) {
    48 <= c <= 57 || 97 <= c <= 102 || 65 <= c <= 70
  }

  /** unhex (mediatype.go:405-415), fromHex (encodedword.go:413-424) */
  function Unhex(c: byte): (d: nat)
    ensures d < 16
  {
    if 48 <= c <= 57 then c - 48
    else if 97 <= c <= 102 then c as int - 97 + 10
    else if 65 <= c <= 70 then c as int - 65 + 10
    else 0
  }

  lemma UnhexUpperHex(c: byte)
    ensures IsHex(UpperHex(c / 16)) && IsHex(UpperHex(c % 16))
    ensures Unhex(UpperHex(c / 16)) * 16 + Unhex(UpperHex(c % 16)) == c
  {
  }

  /** A byte that a header cannot hold as it is. */
  predicate IsPlain(c: byte) {
    0x20 <= c <= 0x7E || c == 9
  }

  /** needsEncoding (encodedword.go:42-49), which looks at runes. */
  predicate NeedsEncoding(s: seq<byte>) {
    exists i :: 0 <= i < |Utf8.Runes(s)| && NeedsEncodingRune(Utf8.Runes(s)[i])
  }

  predicate NeedsEncodingRune(r: int) {
    (r < 0x20 || r > 0x7E) && r != 9
  }

  predicate AllPlain(s: seq<byte>) {
    forall i :: 0 <= i < |s| ==> IsPlain(s[i])
  }

  /** Looking at the bytes comes to the same: a byte beyond ASCII is always part
      of a rune beyond ASCII. */
  lemma {:induction false} NeedsEncodingBytes(s: seq<byte>)
    ensures NeedsEncoding(s) <==> !AllPlain(s)
    decreases |s|
  {
    if s != [] {
      var (r, size) := Utf8.DecodeRune(s);
      var rest := s[size..];
      NeedsEncodingBytes(rest);
      FirstRuneNeedsEncoding(s);
      var runes := Utf8.Runes(s);
      assert runes == [r] + Utf8.Runes(rest);
      if NeedsEncodingRune(r) {
        assert NeedsEncodingRune(runes[0]);
      } else {
        assert forall i :: 0 <= i < |rest| ==> s[1 + i] == rest[i];
        if NeedsEncoding(rest) {
          var i :| 0 <= i < |Utf8.Runes(rest)| && NeedsEncodingRune(Utf8.Runes(rest)[i]);
          assert NeedsEncodingRune(runes[1 + i]);
          var k :| 0 <= k < |rest| && !IsPlain(rest[k]);
          assert !IsPlain(s[1 + k]);
        } else {
          forall i | 0 <= i < |runes| ensures !NeedsEncodingRune(runes[i]) {
            if i > 0 { assert runes[i] == Utf8.Runes(rest)[i - 1]; }
          }
          forall i | 0 <= i < |s| ensures IsPlain(s[i]) {
            if i > 0 { assert s[i] == rest[i - 1]; }
          }
        }
      }
    }
  }

  lemma FirstRuneNeedsEncoding(s: seq<byte>)
    requires s != []
    ensures var (r, size) := Utf8.DecodeRune(s);
      && (NeedsEncodingRune(r) <==> !IsPlain(s[0]))
      && (!NeedsEncodingRune(r) ==> size == 1)
  {
    if Utf8.StartsRune(s) && s[0] >= 0x80 {
      Utf8.EncodeDecode(s);
      assert s[0] == Utf8.Encode(Utf8.DecodeRune(s).0)[0];
    }
  }
}
