/** The percent encoding of parameter values (section 4 of RFC 2231), as
    FormatMediaType writes and percentHexUnescape of src/mime/mediatype.go reads it. */
module PercentCoding {
  import opened Common
  import opened ByteIndex
  import opened MimeGrammar

  const PERCENT: byte := 37

  /** The bytes that are written as they are (mediatype.go:65-69). */
  predicate IsAttributeChar(c: byte) {
    !(c <= 32 || c >= 0x7F || c == 42 || c == 39 || c == PERCENT || IsTSpecial(c))
  }

  function EncodeByte(c: byte): seq<byte> {
    if IsAttributeChar(c) then [c] else [PERCENT, UpperHex(c / 16), UpperHex(c % 16)]
  }

  function Encode(value: seq<byte>): seq<byte> {
    if value == [] then [] else Encode(value[..|value| - 1]) + EncodeByte(value[|value| - 1])
  }

  /** The text that percent signs stand for; None if one has no two digits. */
  function Decode(s: seq<byte>): Option<seq<byte>> {
    if s == [] then Some([])
    else if s[0] != PERCENT then
      var rest := Decode(s[1..]);
      if rest.None? then None else Some([s[0]] + rest.value)
    else if |s| < 3 || !IsHex(s[1]) || !IsHex(s[2]) then None
    else
      var rest := Decode(s[3..]);
      if rest.None? then None else Some([Unhex(s[1]) * 16 + Unhex(s[2])] + rest.value)
  }

  lemma {:induction false} EncodeFront(c: byte, value: seq<byte>)
    ensures Encode([c] + value) == EncodeByte(c) + Encode(value)
    decreases value
  {
    if value == [] {
      assert ([c] + value)[..0] == [];
    } else {
      var n := |value| - 1;
      assert ([c] + value)[..n + 1] == [c] + value[..n];
      EncodeFront(c, value[..n]);
    }
  }

  /** Decoding undoes encoding, for every byte string. */
  lemma {:induction false} DecodeEncode(value: seq<byte>)
    ensures Decode(Encode(value)) == Some(value)
    decreases value
  {
    if value != [] {
      var c, rest := value[0], value[1..];
      assert value == [c] + rest;
      EncodeFront(c, rest);
      DecodeEncode(rest);
      var s := EncodeByte(c) + Encode(rest);
      UnhexUpperHex(c);
      if IsAttributeChar(c) {
        assert s[1..] == Encode(rest);
      } else {
        assert s[3..] == Encode(rest);
      }
    }
  }

  /** An encoded value is a token, and needs no quotes. */
  lemma {:induction false} EncodeIsToken(value: seq<byte>)
    ensures AllTokenChars(Encode(value)) && forall i :: 0 <= i < |Encode(value)| ==> Encode(value)[i] != 39
    decreases value
  {
    if value != [] {
      EncodeIsToken(value[..|value| - 1]);
      assert AllTokenChars(EncodeByte(value[|value| - 1]));
    }
  }

  /** The loop that writes an encoded value (mediatype.go:62-79): the text since
      offset is still to be copied. */
  method WriteEncoded(b: seq<byte>, value: seq<byte>) returns (b': seq<byte>)
    ensures b' == b + Encode(value)
  {
    hide Encode, IsAttributeChar;
    b' := b;
    EncodeNothing(b, value);
    var offset := 0;
    for index := 0 to |value|
      invariant 0 <= offset <= index
      invariant b' + value[offset..index] == b + Encode(value[..index])
    {
      var ch := value[index];
      EncodeSnoc(b, value, index);
      if !IsAttributeChar(ch) {
        b' := b' + value[offset..index];
        offset := index + 1;
        b' := b' + [PERCENT] + [UpperHex(ch / 16)] + [UpperHex(ch % 16)];
        assert EncodeByte(ch) == [PERCENT, UpperHex(ch / 16), UpperHex(ch % 16)];
        assert b' == b + Encode(value[..index]) + EncodeByte(ch);
        assert value[offset..index + 1] == [];
      } else {
        assert value[offset..index + 1] == value[offset..index] + [ch];
      }
    }
    assert value[..|value|] == value;
    b' := b' + value[offset..];
  }

  lemma EncodeNothing(b: seq<byte>, value: seq<byte>)
    ensures b + Encode(value[..0]) == b
  {
  }

  lemma EncodeSnoc(b: seq<byte>, value: seq<byte>, index: nat)
    requires index < |value|
    ensures b + Encode(value[..index + 1]) == b + Encode(value[..index]) + EncodeByte(value[index])
  {
    assert value[..index + 1][..index] == value[..index];
  }

  /** How many percent signs a decodable text has. */
  function Percents(s: seq<byte>): nat {
    if s == [] then 0
    else if s[0] != PERCENT then Percents(s[1..])
    else if |s| < 3 then 0
    else 1 + Percents(s[3..])
  }

  lemma {:induction false} DecodedLength(s: seq<byte>)
    requires Decode(s).Some?
    ensures |Decode(s).value| == |s| - 2 * Percents(s)
    ensures Percents(s) == 0 ==> Decode(s).value == s
    decreases |s|
  {
    if s != [] {
      if s[0] != PERCENT {
        DecodedLength(s[1..]);
      } else {
        DecodedLength(s[3..]);
      }
    }
  }

  /** percentHexUnescape (mediatype.go:354-391): the buffer for the result is
      filled exactly. */
  method PercentHexUnescape(s: seq<byte>) returns (r: Option<seq<byte>>)
    ensures r == Decode(s)
  {
    var percents, i := 0, 0;
    while i < |s|
      invariant 0 <= i <= |s|
      invariant Decode(s[i..]).Some? <==> Decode(s).Some?
      invariant percents + Percents(s[i..]) == Percents(s)
    {
      var rest := s[i..];
      if s[i] != PERCENT {
        assert rest[1..] == s[i + 1..];
        i := i + 1;
        continue;
      }
      if i + 2 >= |s| || !IsHex(s[i + 1]) || !IsHex(s[i + 2]) {
        return None;
      }
      percents := percents + 1;
      assert rest[3..] == s[i + 3..];
      i := i + 3;
    }
    DecodedLength(s);
    if percents == 0 {
      return Some(s);
    }
    var t := new byte[|s| - 2 * percents];
    Fill(s, t);
    r := Some(t[..]);
  }

  /** The second loop (mediatype.go:377-389). */
  method Fill(s: seq<byte>, t: array<byte>)
    requires Decode(s).Some? && t.Length == |Decode(s).value|
    modifies t
    ensures t[..] == Decode(s).value
  {
    var i: nat, j: nat := 0, 0;
    ghost var later, all := Decode(s).value, Decode(s).value;
    assert s[0..] == s && t[..0] + later == all;
    while i < |s|
      invariant i <= |s| && j <= t.Length && Decode(s[i..]) == Some(later) && t[..j] + later == all
      decreases |s| - i
    {
      ghost var c, n, later' := DecodeStep(s, i);
      later := later';
      if s[i] == PERCENT {
        Store(t, j, Unhex(s[i + 1]) * 16 + Unhex(s[i + 2]), later, all);
        i := i + 3;
      } else {
        Store(t, j, s[i], later, all);
        i := i + 1;
      }
      j := j + 1;
    }
  }

  /** t[j] = c, where the bytes so far and the later ones make up all. */
  method Store(t: array<byte>, j: nat, c: byte, ghost later: seq<byte>, ghost all: seq<byte>)
    requires j <= t.Length == |all| && t[..j] + ([c] + later) == all
    modifies t
    ensures j < t.Length && t[..j + 1] + later == all
  {
    assert |t[..j]| + |[c] + later| == |all|;
    ghost var done := t[..j];
    t[j] := c;
    assert t[..j + 1] == done + [c];
  }

  /** The byte that the text at i stands for, and how many bytes it takes. */
  lemma DecodeStep(s: seq<byte>, i: nat) returns (c: byte, n: nat, later: seq<byte>)
    requires i < |s| && Decode(s[i..]).Some?
    ensures s[i] != PERCENT ==> n == 1 && c == s[i]
    ensures s[i] == PERCENT ==> n == 3 && i + 3 <= |s| && c == Unhex(s[i + 1]) * 16 + Unhex(s[i + 2])
    ensures i + n <= |s| && Decode(s[i + n..]) == Some(later) && Decode(s[i..]).value == [c] + later
  {
    var rest := s[i..];
    if s[i] == PERCENT {
      c, n := Unhex(rest[1]) * 16 + Unhex(rest[2]), 3;
    } else {
      c, n := s[i], 1;
    }
    assert rest[n..] == s[i + n..];
    later := Decode(s[i + n..]).value;
  }
}
