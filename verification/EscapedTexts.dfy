/** What the two escape notations of src/mime stand for, whichever way a byte was
    escaped, and what is not written in them. */
module EscapedTexts {
  import opened Common
  import opened MimeGrammar
  import Percent = PercentCoding
  import Q = QDecoding
  import QEncoding
  import Utf8

  /** A hexadecimal digit for each of the numbers below 16, in either case. */
  predicate IsDigitFor(c: byte, d: nat) {
    (d < 10 && c == 48 + d) || (10 <= d < 16 && (c == 55 + d || c == 87 + d))
  }

  lemma DigitsRead(c: byte)
    ensures IsHex(c) <==> exists d: nat :: d < 16 && IsDigitFor(c, d)
    ensures forall d: nat :: d < 16 && IsDigitFor(c, d) ==> Unhex(c) == d
  {
    if IsHex(c) { assert IsDigitFor(c, Unhex(c)); }
  }

  /** A byte as it is written: as itself, or as two hexadecimal digits. */
  datatype Item = Plain(c: byte) | Coded(value: byte, high: byte, low: byte) | Blank

  predicate IsCoded(x: Item) {
    x.Coded? && IsDigitFor(x.high, x.value / 16) && IsDigitFor(x.low, x.value % 16)
  }

  function ValueOf(x: Item): byte {
    match x
    case Plain(c) => c
    case Coded(value, _, _) => value
    case Blank => 32
  }

  function Values(items: seq<Item>): seq<byte> {
    if items == [] then [] else [ValueOf(items[0])] + Values(items[1..])
  }

  // ----- percent signs

  predicate InPercent(x: Item) {
    IsCoded(x) || (x.Plain? && x.c != 37)
  }

  function PercentText(items: seq<Item>): seq<byte> {
    if items == [] then []
    else (if items[0].Coded? then [37, items[0].high, items[0].low] else [ValueOf(items[0])]) + PercentText(items[1..])
  }

  /** Percent decoding takes digits in either case, and leaves all other bytes. */
  lemma {:induction false} PercentDecodes(items: seq<Item>)
    requires forall k :: 0 <= k < |items| ==> InPercent(items[k])
    ensures Percent.Decode(PercentText(items)) == Some(Values(items))
    decreases items
  {
    if items != [] {
      var x, rest := items[0], PercentText(items[1..]);
      PercentDecodes(items[1..]);
      if x.Coded? {
        DigitsRead(x.high);
        DigitsRead(x.low);
        assert ([37, x.high, x.low] + rest)[3..] == rest;
        assert x.value / 16 * 16 + x.value % 16 == x.value;
      } else {
        assert ([x.c] + rest)[1..] == rest;
      }
    }
  }

  /** It fails exactly if two hexadecimal digits are missing behind a percent sign. */
  lemma {:induction false} PercentFails(s: seq<byte>)
    ensures Percent.Decode(s).Some? <==>
      forall i :: 0 <= i < |s| && s[i] == 37 ==> i + 2 < |s| && IsHex(s[i + 1]) && IsHex(s[i + 2])
    decreases |s|
  {
    if s != [] {
      if s[0] == 37 && (|s| < 3 || !IsHex(s[1]) || !IsHex(s[2])) {
      } else {
        var n := if s[0] == 37 then 3 else 1;
        PercentFails(s[n..]);
        assert forall i :: n <= i < |s| ==> s[n..][i - n] == s[i];
        assert forall i :: 0 <= i < |s| - n ==> s[n..][i] == s[i + n];
      }
    }
  }

  // ----- Q

  /** Printable ASCII, blanks and line ends stand for themselves, except the equals
      sign, and the underscore, which stands for a space. */
  predicate InQ(x: Item) {
    IsCoded(x) || x.Blank?
    || (x.Plain? && (32 <= x.c <= 126 || x.c == 9 || x.c == 10 || x.c == 13) && x.c != 61 && x.c != 95)
  }

  function QOf(items: seq<Item>): seq<byte> {
    if items == [] then []
    else
      (match items[0]
       case Coded(_, high, low) => [61, high, low]
       case Plain(c) => [c]
       case Blank => [95])
      + QOf(items[1..])
  }

  lemma {:induction false} QDecodes(items: seq<Item>)
    requires forall k :: 0 <= k < |items| ==> InQ(items[k])
    ensures Q.QDecode(QOf(items)) == Some(Values(items))
    decreases items
  {
    if items != [] {
      var x, rest := items[0], QOf(items[1..]);
      QDecodes(items[1..]);
      if x.Coded? {
        DigitsRead(x.high);
        DigitsRead(x.low);
        assert ([61, x.high, x.low] + rest)[3..] == rest;
        assert x.value / 16 * 16 + x.value % 16 == x.value;
      } else {
        var c: byte := if x.Blank? then 95 else x.c;
        assert ([c] + rest)[1..] == rest;
      }
    }
  }

  /** It fails exactly if two hexadecimal digits are missing behind an equals sign, or
      some other byte is neither printable ASCII nor a blank or line end. */
  lemma {:induction false} QFails(s: seq<byte>)
    ensures Q.QDecode(s).Some? <==> forall i :: 0 <= i < |s| ==> QOk(s, i)
    decreases |s|
  {
    if s != [] {
      if s[0] == 61 && (|s| < 3 || !IsHex(s[1]) || !IsHex(s[2])) {
        assert !QOk(s, 0);
      } else {
        var n := if s[0] == 61 then 3 else 1;
        QFails(s[n..]);
        forall i | n <= i < |s| ensures QOk(s, i) <==> QOk(s[n..], i - n) {
          assert s[n..][i - n] == s[i];
          if i + 2 < |s| { assert s[n..][i - n + 1] == s[i + 1] && s[n..][i - n + 2] == s[i + 2]; }
        }
        if forall i :: 0 <= i < |s| ==> QOk(s, i) {
          assert QOk(s, 0);
          forall i | 0 <= i < |s[n..]| ensures QOk(s[n..], i) { assert QOk(s, i + n); }
        } else {
          var i :| 0 <= i < |s| && !QOk(s, i);
          if i >= n { assert !QOk(s[n..], i - n); }
        }
      }
    }
  }

  predicate QOk(s: seq<byte>, i: nat)
    requires i < |s|
  {
    if s[i] == 61 then i + 2 < |s| && IsHex(s[i + 1]) && IsHex(s[i + 2])
    else 32 <= s[i] <= 126 || s[i] == 9 || s[i] == 10 || s[i] == 13
  }

  // ----- what is written as it is

  predicate IsAlphanumeric(c: byte) {
    48 <= c <= 57 || 65 <= c <= 90 || 97 <= c <= 122
  }

  /** Both encodings leave ASCII letters and digits alone. */
  lemma AlphanumericStays(s: seq<byte>)
    requires forall i :: 0 <= i < |s| ==> IsAlphanumeric(s[i])
    ensures QEncoding.QText(s) == s && Percent.Encode(s) == s
  {
    StaysInQ(s);
    StaysInPercent(s);
  }

  lemma {:induction false} StaysInQ(s: seq<byte>)
    requires forall i :: 0 <= i < |s| ==> IsAlphanumeric(s[i])
    ensures QEncoding.QText(s) == s
    decreases s
  {
    if s != [] {
      var n := |s| - 1;
      StaysInQ(s[..n]);
      assert QEncoding.QByte(s[n]) == [s[n]];
      assert s == s[..n] + [s[n]];
    }
  }

  lemma OneStays(c: byte)
    requires IsAlphanumeric(c)
    ensures Percent.EncodeByte(c) == [c]
  {
  }

  lemma {:induction false} StaysInPercent(s: seq<byte>)
    requires forall i :: 0 <= i < |s| ==> IsAlphanumeric(s[i])
    ensures Percent.Encode(s) == s
    decreases s
  {
    hide Percent.EncodeByte;
    if s != [] {
      var n := |s| - 1;
      StaysInPercent(s[..n]);
      OneStays(s[n]);
      assert s == s[..n] + [s[n]];
    }
  }

  /** Q-encoded text has only printable ASCII without blanks and question marks, so that
      it may stand in an encoded-word. */
  lemma {:induction false} QTextIsSafe(s: seq<byte>)
    ensures forall i :: 0 <= i < |QEncoding.QText(s)| ==>
      33 <= QEncoding.QText(s)[i] <= 126 && QEncoding.QText(s)[i] != 63
    decreases s
  {
    if s != [] {
      QTextIsSafe(s[..|s| - 1]);
    }
  }

  // ----- charsets

  /** Every byte of ISO-8859-1 is the character of its own number. */
  lemma {:induction false} Latin1IsBytes(content: seq<byte>)
    ensures |Utf8.Runes(Q.Latin1(content))| == |content|
    ensures forall i :: 0 <= i < |content| ==> Utf8.Runes(Q.Latin1(content))[i] == content[i]
    decreases content
  {
    if content != [] {
      Latin1IsBytes(content[1..]);
      var later := Q.Latin1(content[1..]);
      FirstRune(content[0], later);
      assert forall i :: 1 <= i < |content| ==> content[i] == content[1..][i - 1];
    }
  }

  lemma FirstRune(r: int, later: seq<byte>)
    requires Utf8.IsScalar(r)
    ensures Utf8.Runes(Utf8.EncodeRune(r) + later) == [r] + Utf8.Runes(later)
  {
    Utf8.DecodeEncode(r, later);
    assert (Utf8.Encode(r) + later)[|Utf8.Encode(r)|..] == later;
  }

  /** So is every byte of US-ASCII; a byte that is none becomes U+FFFD. */
  lemma {:induction false} AsciiIsBytes(content: seq<byte>)
    ensures |Utf8.Runes(Q.Ascii(content))| == |content|
    ensures forall i :: 0 <= i < |content| ==>
      Utf8.Runes(Q.Ascii(content))[i] == if content[i] < 0x80 then content[i] else 0xFFFD
    decreases content
  {
    if content != [] {
      AsciiIsBytes(content[1..]);
      var r: int := if content[0] < 0x80 then content[0] else 0xFFFD;
      FirstRune(r, Q.Ascii(content[1..]));
      assert content[0] < 0x80 ==> Utf8.EncodeRune(r) == [content[0]];
      assert forall i :: 1 <= i < |content| ==> content[i] == content[1..][i - 1];
    }
  }
}
