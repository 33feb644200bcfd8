/** Escaping and unescaping of src/html/escape.go. */
module Html {
  import opened Common
  import opened ByteIndex
  import Utf8

  const AMPERSAND: byte := 38
  const SEMICOLON: byte := 59

  /** The named references: those that stand for one rune and those for two. */
  datatype Table = Table(single: map<seq<byte>, int>, double: map<seq<byte>, (int, int)>)

  /** The names "amp;", "lt;" and "gt;" without the ampersand. */
  const AMP: seq<byte> := [97, 109, 112, 59]
  const LT: seq<byte> := [108, 116, 59]
  const GT: seq<byte> := [103, 116, 59]

  /** What the code relies on in src/html/entity.go: no expansion is zero or wider
      than "&" and its name, and the names that EscapeString uses are there. */
  predicate WellFormed(t: Table) {
    && (forall name :: name in t.single ==> FitsSingle(t, name))
    && (forall name :: name in t.double ==> FitsDouble(t, name))
    && AMP in t.single && LT in t.single && GT in t.single
    && t.single[AMP] == 38 && t.single[LT] == 60 && t.single[GT] == 62
  }

  predicate FitsSingle(t: Table, name: seq<byte>)
    requires name in t.single
  {
    t.single[name] != 0 && |Utf8.EncodeRune(t.single[name])| <= |name| + 1
  }

  predicate FitsDouble(t: Table, name: seq<byte>)
    requires name in t.double
  {
    t.double[name].0 != 0 && |Expansion2(t.double[name])| <= |name| + 1
  }

  function Expansion2(x: (int, int)): seq<byte> {
    Utf8.EncodeRune(x.0) + Utf8.EncodeRune(x.1)
  }

  // ---------------------------------------------------------------------------
  // The reference decoder
  // ---------------------------------------------------------------------------

  /** The alphabets of the three kinds of reference. */
  datatype Kind = Decimal | Hexadecimal | Name

  /** The value of a digit, or -1. */
  function Digit(c: byte, kind: Kind): int {
    if 48 <= c <= 57 then c as int - 48
    else if kind != Hexadecimal then -1
    else if 97 <= c <= 102 then c as int - 97 + 10
    else if 65 <= c <= 70 then c as int - 65 + 10
    else -1
  }

  predicate Belongs(c: byte, kind: Kind) {
    if kind == Name then 97 <= c <= 122 || 65 <= c <= 90 || 48 <= c <= 57
    else Digit(c, kind) >= 0
  }

  /** The end of the run of such bytes that starts at i. */
  function RunEnd(s: seq<byte>, i: nat, kind: Kind): (e: nat)
    requires i <= |s|
    ensures i <= e <= |s| && (e < |s| ==> !Belongs(s[e], kind))
    ensures forall k :: i <= k < e ==> Belongs(s[k], kind)
    decreases |s| - i
  {
    if i < |s| && Belongs(s[i], kind) then RunEnd(s, i + 1, kind) else i
  }

  /** The run together with a semicolon that ends it. */
  function ReferenceEnd(s: seq<byte>, i: nat, kind: Kind): (n: nat)
    requires i <= |s|
    ensures i <= n <= |s|
  {
    var e := RunEnd(s, i, kind);
    if e < |s| && s[e] == SEMICOLON then e + 1 else e
  }

  /** The number written by s[i..e]. */
  function Number(s: seq<byte>, i: nat, e: nat, kind: Kind): int
    requires i <= e <= |s|
    decreases e
  {
    if i == e then 0
    else if kind == Hexadecimal then 16 * Number(s, i, e - 1, kind) + Digit(s[e - 1], kind)
    else 10 * Number(s, i, e - 1, kind) + Digit(s[e - 1], kind)
  }

  /** Conversion to rune, a 32-bit integer. */
  function ToRune(v: int): (x: int)
    ensures -0x8000_0000 <= x < 0x8000_0000
    ensures -0x8000_0000 <= v < 0x8000_0000 ==> x == v
  {
    (v + 0x8000_0000) % 0x1_0000_0000 - 0x8000_0000
  }

  /** Converting after every digit is converting at the end. */
  lemma ToRuneStep(v: int, d: int)
    ensures ToRune(16 * ToRune(v) + d) == ToRune(16 * v + d)
    ensures ToRune(10 * ToRune(v) + d) == ToRune(10 * v + d)
  {
    var q := (v + 0x8000_0000) / 0x1_0000_0000;
    assert v == ToRune(v) + q * 0x1_0000_0000;
    ToRunePeriod(16 * ToRune(v) + d, 16 * q);
    ToRunePeriod(10 * ToRune(v) + d, 10 * q);
  }

  lemma ToRunePeriod(v: int, q: int)
    ensures ToRune(v + q * 0x1_0000_0000) == ToRune(v)
  {
  }

  /** replacementTable (escape.go:16-51) */
  const WINDOWS_1252: seq<int> := [
    0x20AC, 0x0081, 0x201A, 0x0192, 0x201E, 0x2026, 0x2020, 0x2021,
    0x02C6, 0x2030, 0x0160, 0x2039, 0x0152, 0x008D, 0x017D, 0x008F,
    0x0090, 0x2018, 0x2019, 0x201C, 0x201D, 0x2022, 0x2013, 0x2014,
    0x02DC, 0x2122, 0x0161, 0x203A, 0x0153, 0x009D, 0x017E, 0x0178
  ]

  /** The rune that a numeric reference stands for. */
  function Meant(x: int): int {
    if 0x80 <= x <= 0x9F then WINDOWS_1252[x - 0x80]
    else if x == 0 || 0xD800 <= x <= 0xDFFF || x > 0x10FFFF then 0xFFFD
    else x
  }

  /** What a reference at the front of s is replaced by, and its length in s. */
  datatype Decoded = Decoded(text: seq<byte>, width: nat)

  predicate Fits(d: Decoded, s: seq<byte>) {
    1 <= d.width <= |s| && |d.text| <= d.width
  }

  const LITERAL := Decoded([38], 1)

  function DecodeNumeric(s: seq<byte>): (d: Decoded)
    requires |s| >= 2 && s[0] == AMPERSAND
    ensures Fits(d, s)
  {
    if |s| <= 3 then LITERAL
    else
      var hex := s[2] == 120 || s[2] == 88;
      var (start, kind) := if hex then (3, Hexadecimal) else (2, Decimal);
      var n := ReferenceEnd(s, start, kind);
      if n <= 3 then LITERAL
      else Decoded(Utf8.EncodeRune(Meant(ToRune(Number(s, start, RunEnd(s, start, kind), kind)))), n)
  }

  /** The length of the longest name in the table that starts `name` and has at
      least two and at most j bytes, or 0. */
  function LongestName(t: Table, name: seq<byte>, j: int): (k: nat)
    requires j <= |name|
    ensures k != 0 ==> 2 <= k <= j && name[..k] in t.single
    ensures forall l :: 2 <= l <= j && l > k ==> name[..l] !in t.single
    decreases j
  {
    if j <= 1 then 0
    else if name[..j] in t.single then j
    else LongestName(t, name, j - 1)
  }

  /** longestEntityWithoutSemicolon (entity.go:10) */
  const LONGEST_WITHOUT_SEMICOLON: nat := 6

  function DecodeNamed(t: Table, s: seq<byte>): (d: Decoded)
    requires WellFormed(t) && |s| >= 2 && s[0] == AMPERSAND
    ensures Fits(d, s)
  {
    var n := ReferenceEnd(s, 1, Name);
    var name := s[1..n];
    if name == [] then LITERAL
    else if name in t.single then
      assert FitsSingle(t, name);
      Decoded(Utf8.EncodeRune(t.single[name]), n)
    else if name in t.double then
      assert FitsDouble(t, name);
      Decoded(Expansion2(t.double[name]), n)
    else
      var k := LongestName(t, name, if n - 2 < LONGEST_WITHOUT_SEMICOLON then n - 2 else LONGEST_WITHOUT_SEMICOLON);
      if k == 0 then Decoded(s[..n], n)
      else
        assert FitsSingle(t, name[..k]);
        Decoded(Utf8.EncodeRune(t.single[name[..k]]), k + 1)
  }

  function DecodeReference(t: Table, s: seq<byte>): (d: Decoded)
    requires WellFormed(t) && |s| >= 1 && s[0] == AMPERSAND
    ensures Fits(d, s)
  {
    if |s| == 1 then LITERAL
    else if s[1] == 35 then DecodeNumeric(s)
    else DecodeNamed(t, s)
  }

  /** The text with every reference replaced, written to a place of its own. */
  function Unescape(t: Table, s: seq<byte>): seq<byte>
    requires WellFormed(t)
    decreases |s|
  {
    if s == [] then []
    else if s[0] == AMPERSAND then
      var d := DecodeReference(t, s);
      d.text + Unescape(t, s[d.width..])
    else [s[0]] + Unescape(t, s[1..])
  }

  // ---------------------------------------------------------------------------
  // The decoder in place
  // ---------------------------------------------------------------------------

  /** The reference d at src is replaced by its text at dst; what follows the
      reference is as it was. */
  ghost predicate Overwritten(was: seq<byte>, now: seq<byte>, dst: nat, src: nat, d: Decoded, dst1: nat, src1: nat) {
    && dst <= src && dst1 == dst + |d.text| <= src1 == src + d.width <= |was| == |now|
    && now[..dst1] == was[..dst] + d.text && now[src1..] == was[src1..]
  }

  /** b[dst:] is overwritten with text that is no longer than what was read. */
  method Overwrite(b: array<byte>, dst: nat, src: nat, d: Decoded) returns (dst1: nat, src1: nat)
    requires dst <= src && src + d.width <= b.Length && |d.text| <= d.width
    modifies b
    ensures Overwritten(old(b[..]), b[..], dst, src, d, dst1, src1)
  {
    CopyInto(b, dst, d.text);
    dst1, src1 := dst + |d.text|, src + d.width;
  }

  /** The digits of a numeric reference (escape.go:82-105), in 32-bit arithmetic. */
  method ScanNumber(s: seq<byte>, start: nat, hex: bool) returns (i: nat, x: int)
    requires start <= |s|
    ensures var kind := if hex then Hexadecimal else Decimal;
      i == ReferenceEnd(s, start, kind) && x == ToRune(Number(s, start, RunEnd(s, start, kind), kind))
  {
    ghost var kind := if hex then Hexadecimal else Decimal;
    ghost var end := RunEnd(s, start, kind);
    x := 0;
    i := start;
    while i < |s|
      invariant start <= i <= end && RunEnd(s, i, kind) == end
      invariant x == ToRune(Number(s, start, i, kind))
    {
      var c := s[i];
      ToRuneStep(Number(s, start, i, kind), Digit(c, kind));
      i := i + 1;
      if hex {
        if 48 <= c <= 57 {
          x := ToRune(16 * x + (c - 48));
          continue;
        } else if 97 <= c <= 102 {
          x := ToRune(16 * x + (c as int - 97 + 10));
          continue;
        } else if 65 <= c <= 70 {
          x := ToRune(16 * x + (c as int - 65 + 10));
          continue;
        }
      } else if 48 <= c <= 57 {
        x := ToRune(10 * x + (c - 48));
        continue;
      }
      if c != SEMICOLON {
        i := i - 1;
      }
      return;
    }
  }

  /** The name of a named reference (escape.go:126-137). */
  method ScanName(s: seq<byte>) returns (i: nat)
    requires |s| >= 1
    ensures i == ReferenceEnd(s, 1, Name)
  {
    ghost var end := RunEnd(s, 1, Name);
    i := 1;
    while i < |s|
      invariant 1 <= i <= end && RunEnd(s, i, Name) == end
    {
      var c := s[i];
      i := i + 1;
      if 97 <= c <= 122 || 65 <= c <= 90 || 48 <= c <= 57 {
        continue;
      }
      if c != SEMICOLON {
        i := i - 1;
      }
      return;
    }
  }

  /** unescapeEntity (escape.go:56-164) */
  method UnescapeEntity(t: Table, b: array<byte>, dst: nat, src: nat) returns (dst1: nat, src1: nat)
    requires WellFormed(t) && dst <= src < b.Length && b[src] == AMPERSAND
    modifies b
    ensures Overwritten(old(b[..]), b[..], dst, src, DecodeReference(t, old(b[src..])), dst1, src1)
  {
    var s := b[src..];
    if |s| <= 1 {
      dst1, src1 := Overwrite(b, dst, src, LITERAL);
    } else if s[1] == 35 {
      dst1, src1 := UnescapeNumeric(b, dst, src);
    } else {
      dst1, src1 := UnescapeNamed(t, b, dst, src);
    }
  }

  /** The branch for "&#" (escape.go:69-121). */
  method UnescapeNumeric(b: array<byte>, dst: nat, src: nat) returns (dst1: nat, src1: nat)
    requires dst <= src && src + 2 <= b.Length && b[src] == AMPERSAND
    modifies b
    ensures Overwritten(old(b[..]), b[..], dst, src, DecodeNumeric(old(b[src..])), dst1, src1)
  {
    var s := b[src..];
    if |s| <= 3 {
      dst1, src1 := Overwrite(b, dst, src, LITERAL);
      return;
    }
    var start, hex := 2, false;
    if s[2] == 120 || s[2] == 88 {
      hex := true;
      start := start + 1;
    }
    var i, x := ScanNumber(s, start, hex);
    if i <= 3 {
      dst1, src1 := Overwrite(b, dst, src, LITERAL);
      return;
    }
    if 0x80 <= x <= 0x9F {
      x := WINDOWS_1252[x - 0x80];
    } else if x == 0 || 0xD800 <= x <= 0xDFFF || x > 0x10FFFF {
      x := 0xFFFD;
    }
    dst1, src1 := Overwrite(b, dst, src, Decoded(Utf8.EncodeRune(x), i));
  }

  /** The branch for a name (escape.go:126-163). */
  method UnescapeNamed(t: Table, b: array<byte>, dst: nat, src: nat) returns (dst1: nat, src1: nat)
    requires WellFormed(t) && dst <= src && src + 2 <= b.Length && b[src] == AMPERSAND
    modifies b
    ensures Overwritten(old(b[..]), b[..], dst, src, DecodeNamed(t, old(b[src..])), dst1, src1)
  {
    var s := b[src..];
    var i := ScanName(s);
    var name := s[1..i];
    if |name| == 0 {
    } else if name in t.single {
      assert FitsSingle(t, name);
      dst1, src1 := Overwrite(b, dst, src, Decoded(Utf8.EncodeRune(t.single[name]), i));
      return;
    } else if name in t.double {
      assert FitsDouble(t, name);
      dst1, src1 := Overwrite(b, dst, src, Decoded(Expansion2(t.double[name]), i));
      return;
    } else {
      var j := |name| - 1;
      if j > LONGEST_WITHOUT_SEMICOLON {
        j := LONGEST_WITHOUT_SEMICOLON;
      }
      ghost var longest := LongestName(t, name, j);
      while j > 1
        invariant j <= |name| && LongestName(t, name, j) == longest
        decreases j
      {
        if name[..j] in t.single {
          assert FitsSingle(t, name[..j]);
          dst1, src1 := Overwrite(b, dst, src, Decoded(Utf8.EncodeRune(t.single[name[..j]]), j + 1));
          return;
        }
        j := j - 1;
      }
    }
    assert i == 1 ==> s[..i] == [38];
    dst1, src1 := Overwrite(b, dst, src, Decoded(b[src..src + i], i));
  }

  lemma {:induction false} NoReference(t: Table, s: seq<byte>, i: nat)
    requires WellFormed(t) && i <= |s| && AMPERSAND !in s[..i]
    ensures Unescape(t, s) == s[..i] + Unescape(t, s[i..])
    decreases i
  {
    hide DecodeReference, WellFormed;
    if i == 0 {
      assert s[..i] == [] && s[i..] == s;
    } else {
      assert s[..i][0] == s[0] && s[1..][..i - 1] == s[..i][1..];
      NoReference(t, s[1..], i - 1);
      assert s[1..][i - 1..] == s[i..];
      assert s[..i] == [s[0]] + s[..i][1..];
    }
  }

  /** UnescapeString (escape.go:187-214): decoding in place never overtakes the
      text that is still to be read. */
  method UnescapeString(t: Table, s: seq<byte>) returns (r: seq<byte>)
    requires WellFormed(t)
    ensures r == Unescape(t, s)
  {
    var i := IndexByte(s, AMPERSAND);
    if i < 0 {
      NoReference(t, s, |s|);
      return s;
    }
    var b := new byte[|s|](k requires 0 <= k < |s| => s[k]);
    assert b[..] == s && s[0..] == s;
    ghost var rest := Unescape(t, s);
    ghost var all := rest;
    var dst: nat, src: nat := 0, 0;
    dst, src, rest := UnescapeNext(t, s, b, 0, 0, i, rest, all);
    while |s[src..]| > 0
      invariant dst <= src <= |s| && b[src..] == s[src..]
      invariant rest == Unescape(t, s[src..]) && b[..dst] + rest == all
      decreases |s| - src
    {
      if s[src] == AMPERSAND {
        i := 0;
      } else {
        i := IndexByte(s[src..], AMPERSAND);
      }
      if i < 0 {
        NoReference(t, s[src..], |s| - src);
        CopyInto(b, dst, s[src..]);
        dst := dst + |s[src..]|;
        break;
      }
      dst, src, rest := UnescapeNext(t, s, b, dst, src, i, rest, all);
    }
    r := b[..dst];
  }

  /** The text up to the next reference, and the reference (escape.go:208-211). */
  method UnescapeNext(t: Table, s: seq<byte>, b: array<byte>, dst: nat, src: nat, i: nat,
                      ghost before: seq<byte>, ghost all: seq<byte>)
    returns (dst1: nat, src1: nat, ghost rest: seq<byte>)
    requires WellFormed(t) && dst <= src && src + i < |s| == b.Length && b[src..] == s[src..]
    requires AMPERSAND !in s[src..][..i] && s[src + i] == AMPERSAND
    requires before == Unescape(t, s[src..]) && b[..dst] + before == all
    modifies b
    ensures dst1 <= src1 <= |s| && src < src1 && b[src1..] == s[src1..]
    ensures rest == Unescape(t, s[src1..]) && b[..dst1] + rest == all
  {
    hide *;
    ghost var middle := CopyText(t, s, b, dst, src, i, before, all);
    dst1, src1, rest := ReplaceReference(t, s, b, dst + i, src + i, middle, all);
  }

  /** The text before a reference (escape.go:208-210). */
  method CopyText(t: Table, s: seq<byte>, b: array<byte>, dst: nat, src: nat, i: nat, ghost before: seq<byte>,
                  ghost all: seq<byte>)
    returns (ghost rest: seq<byte>)
    requires WellFormed(t) && dst <= src && src + i <= |s| == b.Length && b[src..] == s[src..]
    requires AMPERSAND !in s[src..][..i]
    requires before == Unescape(t, s[src..]) && b[..dst] + before == all
    modifies b
    ensures b[src + i..] == s[src + i..]
    ensures rest == Unescape(t, s[src + i..]) && b[..dst + i] + rest == all
  {
    rest := TextFirst(t, s, src, i);
    WriteText(b, s, dst, src, i, rest, all);
  }

  lemma TextFirst(t: Table, s: seq<byte>, src: nat, i: nat) returns (rest: seq<byte>)
    requires WellFormed(t) && src + i <= |s| && AMPERSAND !in s[src..][..i]
    ensures rest == Unescape(t, s[src + i..]) && Unescape(t, s[src..]) == s[src..src + i] + rest
  {
    NoReference(t, s[src..], i);
    assert s[src..][..i] == s[src..src + i] && s[src..][i..] == s[src + i..];
    rest := Unescape(t, s[src + i..]);
  }

  method WriteText(b: array<byte>, s: seq<byte>, dst: nat, src: nat, i: nat, ghost rest: seq<byte>,
                   ghost all: seq<byte>)
    requires dst <= src && src + i <= |s| == b.Length && b[src..] == s[src..]
    requires b[..dst] + (s[src..src + i] + rest) == all
    modifies b
    ensures b[src + i..] == s[src + i..] && b[..dst + i] + rest == all
  {
    assert b[..dst] + (s[src..src + i] + rest) == b[..dst] + s[src..src + i] + rest;
    assert b[src + i..] == b[src..][i..] && s[src + i..] == s[src..][i..];
    if i > 0 {
      CopyInto(b, dst, s[src..src + i]);
    } else {
      assert s[src..src + i] == [];
    }
  }

  method ReplaceReference(t: Table, s: seq<byte>, b: array<byte>, dst: nat, src: nat, ghost before: seq<byte>,
                          ghost all: seq<byte>)
    returns (dst1: nat, src1: nat, ghost rest: seq<byte>)
    requires WellFormed(t) && dst <= src < |s| == b.Length && b[src..] == s[src..] && s[src] == AMPERSAND
    requires before == Unescape(t, s[src..]) && b[..dst] + before == all
    modifies b
    ensures dst1 <= src1 <= |s| && src < src1 && b[src1..] == s[src1..]
    ensures rest == Unescape(t, s[src1..]) && b[..dst1] + rest == all
  {
    ghost var was := b[..];
    ghost var d := DecodeReference(t, s[src..]);
    rest := ReferenceFirst(t, s, src, d);
    assert b[src] == b[src..][0] == s[src..][0];
    dst1, src1 := UnescapeEntity(t, b, dst, src);
    Reassemble(was, b[..], s, dst, src, d, dst1, src1, rest, all);
  }

  lemma ReferenceFirst(t: Table, s: seq<byte>, src: nat, d: Decoded) returns (rest: seq<byte>)
    requires WellFormed(t) && src < |s| && s[src] == AMPERSAND && d == DecodeReference(t, s[src..])
    ensures d.width > 0 && src + d.width <= |s|
    ensures rest == Unescape(t, s[src + d.width..]) && Unescape(t, s[src..]) == d.text + rest
  {
    assert s[src..][d.width..] == s[src + d.width..];
    rest := Unescape(t, s[src + d.width..]);
  }

  lemma Reassemble(was: seq<byte>, now: seq<byte>, s: seq<byte>, dst: nat, src: nat, d: Decoded, dst1: nat, src1: nat,
                   rest: seq<byte>, all: seq<byte>)
    requires Overwritten(was, now, dst, src, d, dst1, src1)
    requires |was| == |s| && was[src..] == s[src..] && was[..dst] + (d.text + rest) == all
    ensures now[src1..] == s[src1..] && now[..dst1] + rest == all
  {
    assert s[src1..] == s[src..][src1 - src..] && was[src1..] == was[src..][src1 - src..];
    assert was[..dst] + (d.text + rest) == was[..dst] + d.text + rest;
  }

  // ---------------------------------------------------------------------------
  // Escaping and the round trip
  // ---------------------------------------------------------------------------

  /** htmlEscaper (escape.go:166-172) */
  function EscapeByte(c: byte): seq<byte> {
    if c == 38 then [38] + AMP
    else if c == 39 then [38, 35, 51, 57, 59]
    else if c == 60 then [38] + LT
    else if c == 62 then [38] + GT
    else if c == 34 then [38, 35, 51, 52, 59]
    else [c]
  }

  /** EscapeString (escape.go:178-180) */
  function EscapeString(s: seq<byte>): seq<byte> {
    if s == [] then [] else EscapeByte(s[0]) + EscapeString(s[1..])
  }

  /** Each escape is read back as the byte it stands for. */
  lemma DecodeNumericEscape(tens: byte, ones: byte, rest: seq<byte>)
    requires 48 <= tens <= 57 && 48 <= ones <= 57 && 0 < 10 * (tens - 48) + (ones - 48)
    ensures DecodeNumeric([38, 35, tens, ones, 59] + rest) == Decoded([10 * (tens - 48) + (ones - 48)], 5)
  {
    var s := [38, 35, tens, ones, 59] + rest;
    assert RunEnd(s, 4, Decimal) == 4 && RunEnd(s, 3, Decimal) == 4 && RunEnd(s, 2, Decimal) == 4;
    assert Number(s, 2, 2, Decimal) == 0;
    assert Number(s, 2, 3, Decimal) == tens - 48;
    assert Number(s, 2, 4, Decimal) == 10 * (tens - 48) + (ones - 48);
  }

  lemma DecodeNamedEscape(t: Table, name: seq<byte>, rest: seq<byte>)
    requires WellFormed(t) && name in {AMP, LT, GT}
    ensures DecodeReference(t, [38] + name + rest) == Decoded([t.single[name]], |name| + 1)
  {
    var s := [38] + name + rest;
    var e := |name|;
    assert s[e] == SEMICOLON && s[1] == name[0] && s[2] == name[1];
    assert RunEnd(s, e, Name) == e && RunEnd(s, e - 1, Name) == e && RunEnd(s, e - 2, Name) == e;
    assert RunEnd(s, 1, Name) == e;
    assert s[1..e + 1] == name;
  }

  lemma DecodeEscape(t: Table, c: byte, rest: seq<byte>)
    requires WellFormed(t) && EscapeByte(c) != [c]
    ensures var s := EscapeByte(c) + rest; s[0] == AMPERSAND && DecodeReference(t, s) == Decoded([c], |EscapeByte(c)|)
  {
    if c == 39 {
      DecodeNumericEscape(51, 57, rest);
    } else if c == 34 {
      DecodeNumericEscape(51, 52, rest);
    } else {
      DecodeNamedEscape(t, if c == 38 then AMP else if c == 60 then LT else GT, rest);
    }
  }

  /** Unescaping undoes escaping, for every byte string. */
  lemma {:induction false} UnescapeEscape(t: Table, s: seq<byte>)
    requires WellFormed(t)
    ensures Unescape(t, EscapeString(s)) == s
    decreases s
  {
    if s != [] {
      var c, rest := s[0], EscapeString(s[1..]);
      var escaped := EscapeByte(c) + rest;
      UnescapeEscape(t, s[1..]);
      if EscapeByte(c) == [c] {
        assert c != AMPERSAND;
        assert escaped[1..] == rest;
      } else {
        DecodeEscape(t, c, rest);
        assert escaped[|EscapeByte(c)|..] == rest;
      }
    }
  }

  /** Nothing that could open a tag, an attribute or a reference is left. */
  lemma {:induction false} EscapedIsInert(s: seq<byte>, k: nat)
    requires k < |EscapeString(s)|
    ensures var c := EscapeString(s)[k]; c != 60 && c != 62 && c != 34 && c != 39
    decreases s
  {
    if s != [] && k >= |EscapeByte(s[0])| {
      EscapedIsInert(s[1..], k - |EscapeByte(s[0])|);
    }
  }

  // ---------------------------------------------------------------------------
  // Numeric references and the standard
  // ---------------------------------------------------------------------------

  /** Where the digits of a numeric reference begin, and their kind. */
  function DigitsStart(s: seq<byte>): (r: (nat, Kind))
    requires |s| >= 2
    ensures r.0 <= |s| && r.0 == (if r.1 == Hexadecimal then 3 else 2) && r.1 != Name
  {
    if |s| > 2 && (s[2] == 120 || s[2] == 88) then (3, Hexadecimal) else (2, Decimal)
  }

  predicate HasDigits(s: seq<byte>)
    requires |s| >= 2
  {
    RunEnd(s, DigitsStart(s).0, DigitsStart(s).1) > DigitsStart(s).0
  }

  function DigitsValue(s: seq<byte>): int
    requires |s| >= 2
  {
    Number(s, DigitsStart(s).0, RunEnd(s, DigitsStart(s).0, DigitsStart(s).1), DigitsStart(s).1)
  }

  /** A numeric reference as section 13.2.5.80 of the HTML standard has it: it is one
      exactly if it has a digit, and its number has no limit. */
  function StandardNumeric(s: seq<byte>): (d: Decoded)
    requires |s| >= 2 && s[0] == AMPERSAND
  {
    var (start, kind) := DigitsStart(s);
    if HasDigits(s) then Decoded(Utf8.EncodeRune(Meant(DigitsValue(s))), ReferenceEnd(s, start, kind))
    else LITERAL
  }

  /** One decimal digit without a semicolon, as in "&#1x": the code takes it for no
      reference. */
  predicate OneBareDigit(s: seq<byte>)
    requires |s| >= 2
  {
    var (start, kind) := DigitsStart(s);
    var e := RunEnd(s, start, kind);
    kind == Decimal && e == 3 && (e == |s| || s[e] != SEMICOLON)
  }

  /** "&#x;": the code takes it for a reference. */
  predicate NoHexDigit(s: seq<byte>)
    requires |s| >= 2
  {
    DigitsStart(s).1 == Hexadecimal && |s| > 3 && s[3] == SEMICOLON
  }

  /** A number that keeps its meaning as a 32-bit integer, or loses it to another
      value that also means U+FFFD. */
  predicate KeepsMeaning(v: int) {
    var x := ToRune(v);
    v <= 0x10FFFF || x <= 0 || x == 0xFFFD || 0xD800 <= x <= 0xDFFF || x > 0x10FFFF
  }

  lemma {:induction false} NumberIsNat(s: seq<byte>, i: nat, e: nat, kind: Kind)
    requires i <= e <= |s| && kind != Name && forall k :: i <= k < e ==> Belongs(s[k], kind)
    ensures Number(s, i, e, kind) >= 0
    decreases e
  {
    if i < e {
      assert Belongs(s[e - 1], kind);
      NumberIsNat(s, i, e - 1, kind);
    }
  }

  /** The code takes a numeric reference for one, or not, as the standard does, except
      for a bare digit and for "&#x;". */
  lemma NumericExtent(s: seq<byte>)
    requires |s| >= 2
    ensures var (start, kind) := DigitsStart(s);
      (HasDigits(s) <==> ReferenceEnd(s, start, kind) > 3) <==> !OneBareDigit(s) && !NoHexDigit(s)
  {
    var (start, kind) := DigitsStart(s);
    var e := RunEnd(s, start, kind);
    if kind == Hexadecimal && |s| > 3 {
      assert !Belongs(SEMICOLON, Hexadecimal);
      assert s[3] == SEMICOLON ==> e == 3;
    }
  }

  /** What the code does with a numeric reference, in the standard's terms. */
  lemma DecodeNumericParts(s: seq<byte>)
    requires |s| >= 2 && s[0] == AMPERSAND
    ensures var (start, kind) := DigitsStart(s);
      var n := ReferenceEnd(s, start, kind);
      DecodeNumeric(s) == if n <= 3 then LITERAL else Decoded(Utf8.EncodeRune(Meant(ToRune(DigitsValue(s)))), n)
  {
  }

  /** The code decodes a numeric reference as the standard asks if and only if it has
      not just one digit without a semicolon, is not "&#x;", and its number keeps its
      meaning in 32 bits. */
  lemma NumericFollowsStandard(s: seq<byte>)
    requires |s| >= 2 && s[0] == AMPERSAND
    ensures DecodeNumeric(s) == StandardNumeric(s) <==>
      !OneBareDigit(s) && !NoHexDigit(s) && (HasDigits(s) ==> KeepsMeaning(DigitsValue(s)))
  {
    var (start, kind) := DigitsStart(s);
    var n := ReferenceEnd(s, start, kind);
    NumericExtent(s);
    DecodeNumericParts(s);
    NumberIsNat(s, start, RunEnd(s, start, kind), kind);
    MeaningKept(DigitsValue(s));
    if HasDigits(s) && n <= 3 {
      assert n > 1;
    }
  }

  /** The standard replaces a number beyond U+10FFFF by U+FFFD.  The code does so
      exactly when its 32-bit remainder is not itself a character. */
  lemma LargeNumbers(v: nat)
    requires v > 0x10FFFF
    ensures Utf8.EncodeRune(Meant(ToRune(v))) == Utf8.EncodeRune(Meant(v)) <==> KeepsMeaning(v)
  {
    var x := ToRune(v);
    if !KeepsMeaning(v) {
      var r := Meant(x);
      assert r != 0xFFFD && Utf8.IsScalar(r);
      Utf8.DecodeEncode(r, []);
      Utf8.DecodeEncode(0xFFFD, []);
      assert Utf8.Encode(r) + [] == Utf8.Encode(r) && Utf8.Encode(0xFFFD) + [] == Utf8.Encode(0xFFFD);
    }
  }

  lemma SmallNumbers(v: nat)
    requires v <= 0x10FFFF
    ensures Meant(ToRune(v)) == Meant(v)
  {
  }

  lemma MeaningKept(v: nat)
    ensures Utf8.EncodeRune(Meant(ToRune(v))) == Utf8.EncodeRune(Meant(v)) <==> KeepsMeaning(v)
  {
    if v > 0x10FFFF {
      LargeNumbers(v);
    } else {
      SmallNumbers(v);
    }
  }

  /** "&#1x" stays as it is; the standard reads a U+0001. */
  lemma BareDigitStays(t: Table)
    requires WellFormed(t)
    ensures var s := [38, 35, 49, 120];
      Unescape(t, s) == s && DecodeNumeric(s) == LITERAL && StandardNumeric(s) == Decoded([1], 3)
  {
    var s: seq<byte> := [38, 35, 49, 120];
    assert RunEnd(s, 3, Decimal) == 3 && RunEnd(s, 2, Decimal) == 3;
    assert Number(s, 2, 2, Decimal) == 0 && Number(s, 2, 3, Decimal) == 1;
    NoReference(t, s[1..], 3);
    assert s[1..][..3] == s[1..] && s[1..][3..] == [];
  }

  /** "&#x;" becomes U+FFFD; the standard leaves it as it is. */
  lemma EmptyHexBecomesError(t: Table)
    requires WellFormed(t)
    ensures var s := [38, 35, 120, 59];
      Unescape(t, s) == Utf8.Encode(0xFFFD) && StandardNumeric(s) == LITERAL
  {
    var s: seq<byte> := [38, 35, 120, 59];
    assert RunEnd(s, 3, Hexadecimal) == 3;
    assert Number(s, 3, 3, Hexadecimal) == 0;
    assert DecodeReference(t, s) == Decoded(Utf8.Encode(0xFFFD), 4);
    assert s[4..] == [];
    assert Utf8.Encode(0xFFFD) + [] == Utf8.Encode(0xFFFD);
  }

  /** "&#4294967361;" is read as the letter A; the standard has U+FFFD. */
  lemma LargeNumberWraps(t: Table)
    requires WellFormed(t)
    ensures var s := [38, 35, 52, 50, 57, 52, 57, 54, 55, 51, 54, 49, 59];
      Unescape(t, s) == [65] && StandardNumeric(s) == Decoded(Utf8.Encode(0xFFFD), 13)
  {
    var s: seq<byte> := [38, 35, 52, 50, 57, 52, 57, 54, 55, 51, 54, 49, 59];
    assert RunEnd(s, 12, Decimal) == 12 && RunEnd(s, 11, Decimal) == 12 && RunEnd(s, 10, Decimal) == 12;
    assert RunEnd(s, 9, Decimal) == 12 && RunEnd(s, 8, Decimal) == 12 && RunEnd(s, 7, Decimal) == 12;
    assert RunEnd(s, 6, Decimal) == 12 && RunEnd(s, 5, Decimal) == 12 && RunEnd(s, 4, Decimal) == 12;
    assert RunEnd(s, 3, Decimal) == 12 && RunEnd(s, 2, Decimal) == 12;
    assert Number(s, 2, 2, Decimal) == 0 && Number(s, 2, 3, Decimal) == 4 && Number(s, 2, 4, Decimal) == 42;
    assert Number(s, 2, 5, Decimal) == 429 && Number(s, 2, 6, Decimal) == 4294 && Number(s, 2, 7, Decimal) == 42949;
    assert Number(s, 2, 8, Decimal) == 429496 && Number(s, 2, 9, Decimal) == 4294967;
    assert Number(s, 2, 10, Decimal) == 42949673 && Number(s, 2, 11, Decimal) == 429496736;
    assert Number(s, 2, 12, Decimal) == 4294967361;
    assert DecodeReference(t, s) == Decoded([65], 13);
    assert s[13..] == [];
  }
}
