/** The Q encoding of src/mime/encodedword.go (RFC 2047): writing. */
module QEncoding {
  import opened Common
  import opened MimeGrammar
  import Split
  import Utf8

  const SPACE: byte := 32
  const EQUALS: byte := 61
  const QUESTION: byte := 63
  const UNDERSCORE: byte := 95

  /** maxEncodedWordLen and maxContentLen (encodedword.go:70-77) */
  const MAX_ENCODED_WORD_LEN: nat := 75
  const MAX_CONTENT_LEN: nat := 63

  /** isUTF8 (encodedword.go:180-182) */
  predicate IsUTF8(charset: seq<byte>) {
    Lower(charset) == UTF_8
  }

  /** The bytes that stand for themselves. */
  predicate IsLiteral(b: byte) {
    33 <= b <= 126 && b != EQUALS && b != QUESTION && b != UNDERSCORE
  }

  function QByte(b: byte): (t: seq<byte>)
    ensures 1 <= |t| <= 3
  {
    if b == SPACE then [UNDERSCORE]
    else if IsLiteral(b) then [b]
    else [EQUALS, UpperHex(b / 16), UpperHex(b % 16)]
  }

  function QText(s: seq<byte>): seq<byte> {
    if s == [] then [] else QText(s[..|s| - 1]) + QByte(s[|s| - 1])
  }

  lemma {:induction false} QTextConcat(s: seq<byte>, t: seq<byte>)
    ensures QText(s + t) == QText(s) + QText(t)
    decreases t
  {
    hide QByte;
    if t == [] {
      assert s + t == s;
    } else {
      var n := |t| - 1;
      assert (s + t)[..|s| + n] == s + t[..n];
      QTextConcat(s, t[..n]);
    }
  }

  /** writeQString (encodedword.go:144-157) */
  method WriteQString(buf: seq<byte>, s: seq<byte>) returns (buf': seq<byte>)
    ensures buf' == buf + QText(s)
  {
    buf' := buf;
    for i := 0 to |s|
      invariant buf' == buf + QText(s[..i])
    {
      assert s[..i + 1][..i] == s[..i];
      var b := s[i];
      if b == SPACE {
        buf' := buf' + [UNDERSCORE];
      } else if b >= 33 && b <= 126 && b != EQUALS && b != QUESTION && b != UNDERSCORE {
        buf' := buf' + [b];
      } else {
        buf' := buf' + [EQUALS, UpperHex(b / 16), UpperHex(b % 16)];
      }
    }
    assert s[..|s|] == s;
  }

  /** openWord (encodedword.go:160-166) for the encoder QEncoding. */
  function OpenWord(charset: seq<byte>): seq<byte> {
    [EQUALS, QUESTION] + charset + [QUESTION, 113, QUESTION]
  }

  /** closeWord (encodedword.go:169-171) */
  const CLOSE_WORD: seq<byte> := [QUESTION, EQUALS]

  /** An encoded-word, section 2 of RFC 2047. */
  function Word(charset: seq<byte>, chunk: seq<byte>): seq<byte> {
    OpenWord(charset) + QText(chunk) + CLOSE_WORD
  }

  function Words(charset: seq<byte>, chunks: seq<seq<byte>>): (words: seq<seq<byte>>)
    ensures |words| == |chunks|
  {
    seq(|chunks|, i requires 0 <= i < |chunks| => Word(charset, chunks[i]))
  }

  /** Encoded-words with a space between them. */
  function Encoded(charset: seq<byte>, chunks: seq<seq<byte>>): seq<byte> {
    Split.JoinOf(Words(charset, chunks), [SPACE])
  }

  // ---------------------------------------------------------------------------
  // Where words may begin
  // ---------------------------------------------------------------------------

  /** Decoding runes from the front of s gets to position i. */
  predicate IsBoundary(s: seq<byte>, i: nat) {
    i == 0 || (s != [] && var size := Utf8.DecodeRune(s).1; size <= i && IsBoundary(s[size..], i - size))
  }

  lemma {:induction false} NextBoundary(s: seq<byte>, i: nat)
    requires IsBoundary(s, i) && i < |s|
    ensures IsBoundary(s, i + Utf8.DecodeRune(s[i..]).1)
    decreases |s|
  {
    var size := Utf8.DecodeRune(s).1;
    if i == 0 {
      assert s[0..] == s;
      assert IsBoundary(s[size..], 0);
    } else {
      assert s[size..][i - size..] == s[i..];
      NextBoundary(s[size..], i - size);
    }
  }

  /** Cutting s off behind a rune does not change the rune. */
  lemma DecodeTruncated(s: seq<byte>, e: nat)
    requires s != [] && Utf8.DecodeRune(s).1 <= e <= |s|
    ensures Utf8.DecodeRune(s[..e]) == Utf8.DecodeRune(s)
  {
    if Utf8.StartsRune(s[..e]) {
      Utf8.DecodePrefix(s[..e], s[e..]);
      assert s[..e] + s[e..] == s;
    }
  }

  lemma FirstOfTruncated(s: seq<byte>, e: nat)
    requires s != [] && Utf8.DecodeRune(s).1 <= e <= |s|
    ensures var (r, size) := Utf8.DecodeRune(s); Utf8.Runes(s[..e]) == [r] + Utf8.Runes(s[size..][..e - size])
  {
    var size := Utf8.DecodeRune(s).1;
    DecodeTruncated(s, e);
    assert s[..e][size..] == s[size..][..e - size];
  }

  lemma NoRunes(s: seq<byte>)
    ensures Utf8.Runes(s[..0]) == []
  {
  }

  /** At a boundary the runes of s fall apart into those before and those after. */
  lemma {:induction false} RunesSplit(s: seq<byte>, b: nat, e: nat)
    requires IsBoundary(s, b) && b <= e <= |s|
    ensures Utf8.Runes(s[..e]) == Utf8.Runes(s[..b]) + Utf8.Runes(s[b..e])
    decreases |s|
  {
    hide Utf8.Runes, Utf8.DecodeRune;
    if b == 0 {
      NoRunes(s);
      assert s[0..e] == s[..e];
    } else {
      var (r, size) := Utf8.DecodeRune(s);
      RunesSplit(s[size..], b - size, e - size);
      FirstOfTruncated(s, e);
      FirstOfTruncated(s, b);
      SliceOfSlice(s, size, b, e);
      Glue([r], Utf8.Runes(s[size..][..b - size]), Utf8.Runes(s[b..e]), Utf8.Runes(s[size..][..e - size]),
        Utf8.Runes(s[..b]), Utf8.Runes(s[..e]));
    }
  }

  lemma SliceOfSlice(s: seq<byte>, a: nat, b: nat, e: nat)
    requires a <= b <= e <= |s|
    ensures s[a..][b - a..e - a] == s[b..e]
  {
  }

  lemma Glue<T>(x: seq<T>, y: seq<T>, z: seq<T>, yz: seq<T>, xy: seq<T>, all: seq<T>)
    requires yz == y + z && xy == x + y && all == x + yz
    ensures all == xy + z
  {
  }

  /** chunks cut s[..e] at boundaries, and the text of each fits into a word. */
  predicate IsChunked(s: seq<byte>, chunks: seq<seq<byte>>, e: nat) {
    if chunks == [] then e == 0
    else
      var c := chunks[|chunks| - 1];
      && 0 < |c| <= e <= |s| && s[e - |c|..e] == c
      && IsBoundary(s, e - |c|) && |QText(c)| <= MAX_CONTENT_LEN
      && IsChunked(s, chunks[..|chunks| - 1], e - |c|)
  }

  lemma MoreChunks(s: seq<byte>, chunks: seq<seq<byte>>, from: nat, e: nat)
    requires IsChunked(s, chunks, from) && from < e <= |s| && IsBoundary(s, from)
    requires |QText(s[from..e])| <= MAX_CONTENT_LEN
    ensures IsChunked(s, chunks + [s[from..e]], e)
  {
    hide QText, IsBoundary;
    assert (chunks + [s[from..e]])[..|chunks|] == chunks;
  }

  /** Every chunk fits into a word of at most 75 bytes. */
  lemma {:induction false} WordsAreShort(charset: seq<byte>, s: seq<byte>, chunks: seq<seq<byte>>, e: nat, k: nat)
    requires IsUTF8(charset) && IsChunked(s, chunks, e) && k < |chunks|
    ensures |Words(charset, chunks)[k]| <= MAX_ENCODED_WORD_LEN && chunks[k] != []
    decreases chunks
  {
    var n := |chunks| - 1;
    assert |Lower(charset)| == 5;
    if k < n {
      WordsAreShort(charset, s, chunks[..n], e - |chunks[n]|, k);
      assert Words(charset, chunks[..n])[k] == Words(charset, chunks)[k];
    }
  }

  /** The runes of the chunks, one chunk after the other. */
  function RunesOf(chunks: seq<seq<byte>>): seq<int> {
    if chunks == [] then [] else RunesOf(chunks[..|chunks| - 1]) + Utf8.Runes(chunks[|chunks| - 1])
  }

  /** No character is split between words: each word by itself holds whole
      characters, and together they are those of s. */
  lemma {:induction false} WordsHoldWholeRunes(s: seq<byte>, chunks: seq<seq<byte>>, e: nat)
    requires IsChunked(s, chunks, e) && e <= |s|
    ensures RunesOf(chunks) == Utf8.Runes(s[..e])
    decreases chunks
  {
    if chunks == [] {
      assert s[..0] == [];
    } else {
      var n := |chunks| - 1;
      var b := e - |chunks[n]|;
      WordsHoldWholeRunes(s, chunks[..n], b);
      RunesSplit(s, b, e);
    }
  }

  lemma {:induction false} ChunksCoverText(s: seq<byte>, chunks: seq<seq<byte>>, e: nat)
    requires IsChunked(s, chunks, e) && e <= |s|
    ensures Split.Flatten(chunks) == s[..e]
    decreases chunks
  {
    if chunks == [] {
      assert s[..0] == [];
    } else {
      var n := |chunks| - 1;
      var b := e - |chunks[n]|;
      ChunksCoverText(s, chunks[..n], b);
      assert chunks == chunks[..n] + [chunks[n]];
      FlattenSnoc(chunks[..n], chunks[n]);
      assert s[..b] + s[b..e] == s[..e];
    }
  }

  lemma {:induction false} FlattenSnoc(parts: seq<seq<byte>>, p: seq<byte>)
    ensures Split.Flatten(parts + [p]) == Split.Flatten(parts) + p
    decreases parts
  {
    if parts == [] {
      assert parts + [p] == [p] + [];
      Split.FlattenCons(p, []);
    } else {
      var rest := parts[1..];
      assert parts + [p] == [parts[0]] + (rest + [p]);
      Split.FlattenCons(parts[0], rest + [p]);
      FlattenSnoc(rest, p);
      assert parts[0] + (Split.Flatten(rest) + p) == parts[0] + Split.Flatten(rest) + p;
    }
  }

  // ---------------------------------------------------------------------------
  // The encoder
  // ---------------------------------------------------------------------------

  /** The words before the one that is open, each followed by a space. */
  function Closed(charset: seq<byte>, chunks: seq<seq<byte>>): seq<byte> {
    if chunks == [] then []
    else Closed(charset, chunks[..|chunks| - 1]) + Word(charset, chunks[|chunks| - 1]) + [SPACE]
  }

  lemma ClosedSnoc(charset: seq<byte>, chunks: seq<seq<byte>>, c: seq<byte>)
    ensures Closed(charset, chunks + [c]) == Closed(charset, chunks) + Word(charset, c) + [SPACE]
  {
    assert (chunks + [c])[..|chunks|] == chunks;
  }

  lemma {:induction false} EncodedIsClosed(charset: seq<byte>, chunks: seq<seq<byte>>, c: seq<byte>)
    ensures Encoded(charset, chunks + [c]) == Closed(charset, chunks) + Word(charset, c)
    decreases chunks
  {
    var words := Words(charset, chunks);
    assert Words(charset, chunks + [c]) == words + [Word(charset, c)];
    if chunks != [] {
      var n := |chunks| - 1;
      assert chunks == chunks[..n] + [chunks[n]];
      EncodedIsClosed(charset, chunks[..n], chunks[n]);
      Split.JoinSnoc(words, Word(charset, c), [SPACE]);
    } else {
      assert words + [Word(charset, c)] == [Word(charset, c)];
    }
  }

  /** How many bytes of s the next rune takes, and how many in a word
      (encodedword.go:126-132). */
  method NextRune(s: seq<byte>, i: nat) returns (runeLen: nat, encLen: nat)
    requires i < |s|
    ensures runeLen == Utf8.DecodeRune(s[i..]).1 && i + runeLen <= |s|
    ensures encLen == |QText(s[i..i + runeLen])| <= 12
  {
    var b := s[i];
    if b >= SPACE && b <= 126 && b != EQUALS && b != QUESTION && b != UNDERSCORE {
      runeLen, encLen := 1, 1;
      assert s[i..i + 1][..0] == [];
    } else {
      runeLen := Utf8.DecodeRune(s[i..]).1;
      encLen := 3 * runeLen;
      EscapedLength(s[i..]);
      assert s[i..][..runeLen] == s[i..i + runeLen];
    }
  }

  /** A rune that has no literal byte is escaped byte by byte. */
  lemma EscapedLength(s: seq<byte>)
    requires s != [] && s[0] != SPACE && !IsLiteral(s[0])
    ensures var n := Utf8.DecodeRune(s).1; |QText(s[..n])| == 3 * n
  {
    var n := Utf8.DecodeRune(s).1;
    forall k | 0 <= k < n ensures |QByte(s[k])| == 3 {
      if k > 0 { assert s[k] >= 0x80; }
    }
    AllEscaped(s[..n]);
  }

  lemma {:induction false} AllEscaped(t: seq<byte>)
    requires forall k :: 0 <= k < |t| ==> |QByte(t[k])| == 3
    ensures |QText(t)| == 3 * |t|
    decreases t
  {
    if t != [] {
      AllEscaped(t[..|t| - 1]);
    }
  }

  /** What has been written: closed words and an open one with s[from..i] in it. */
  ghost predicate Writing(buf: seq<byte>, head: seq<byte>, charset: seq<byte>, s: seq<byte>, chunks: seq<seq<byte>>,
                          from: nat, i: nat) {
    && from <= i <= |s| && IsChunked(s, chunks, from) && IsBoundary(s, from) && IsBoundary(s, i)
    && (from == i ==> i == 0) && |QText(s[from..i])| <= MAX_CONTENT_LEN
    && buf == head + Closed(charset, chunks) + OpenWord(charset) + QText(s[from..i])
  }

  lemma NothingWritten(buf: seq<byte>, head: seq<byte>, charset: seq<byte>, s: seq<byte>)
    requires buf == head + OpenWord(charset)
    ensures Writing(buf, head, charset, s, [], 0, 0) && QText(s[0..0]) == []
  {
    assert s[0..0] == [];
    assert IsBoundary(s, 0);
    assert head + Closed(charset, []) == head;
  }

  lemma GrowText(s: seq<byte>, from: nat, i: nat, e: nat)
    requires from <= i <= e <= |s|
    ensures QText(s[from..e]) == QText(s[from..i]) + QText(s[i..e])
  {
    QTextConcat(s[from..i], s[i..e]);
    assert s[from..i] + s[i..e] == s[from..e];
  }

  lemma WriteMore(buf: seq<byte>, head: seq<byte>, charset: seq<byte>, s: seq<byte>, chunks: seq<seq<byte>>,
                  from: nat, i: nat, n: nat)
    requires Writing(buf, head, charset, s, chunks, from, i)
    requires i < |s| && n == Utf8.DecodeRune(s[i..]).1
    requires |QText(s[from..i])| + |QText(s[i..i + n])| <= MAX_CONTENT_LEN
    ensures Writing(buf + QText(s[i..i + n]), head, charset, s, chunks, from, i + n)
    ensures |QText(s[from..i + n])| == |QText(s[from..i])| + |QText(s[i..i + n])|
  {
    hide QText, IsBoundary, IsChunked, Closed, Utf8.DecodeRune;
    NextBoundary(s, i);
    GrowText(s, from, i, i + n);
    Associate(head + Closed(charset, chunks) + OpenWord(charset), QText(s[from..i]), QText(s[i..i + n]));
  }

  /** A new word for the next rune. */
  lemma WriteSplit(buf: seq<byte>, head: seq<byte>, charset: seq<byte>, s: seq<byte>, chunks: seq<seq<byte>>,
                   from: nat, i: nat)
    requires Writing(buf, head, charset, s, chunks, from, i) && from < i
    ensures IsChunked(s, chunks + [s[from..i]], i)
    ensures buf + CLOSE_WORD + [SPACE] + OpenWord(charset)
         == head + Closed(charset, chunks + [s[from..i]]) + OpenWord(charset)
  {
    hide QText, IsBoundary, IsChunked, Closed;
    MoreChunks(s, chunks, from, i);
    ClosedSnoc(charset, chunks, s[from..i]);
    var closed, text := Closed(charset, chunks), QText(s[from..i]);
    CloseText(head, closed, OpenWord(charset), text, CLOSE_WORD);
    Associate(head, closed + Word(charset, s[from..i]), [SPACE]);
  }

  lemma CloseText(head: seq<byte>, closed: seq<byte>, open: seq<byte>, text: seq<byte>, close: seq<byte>)
    ensures head + closed + open + text + close == head + (closed + (open + text + close))
  {
  }

  lemma EmptyText(s: seq<byte>, from: nat, i: nat)
    requires from <= i <= |s|
    ensures QText(s[from..i]) != [] ==> from < i
  {
  }

  /** One rune in the current word or in a new one (encodedword.go:134-139). */
  method WriteRune(buf: seq<byte>, charset: seq<byte>, s: seq<byte>, currentLen: nat, i: nat, runeLen: nat, encLen: nat,
                   ghost head: seq<byte>, ghost chunks: seq<seq<byte>>, ghost from: nat)
    returns (buf': seq<byte>, currentLen': nat, ghost chunks': seq<seq<byte>>, ghost from': nat)
    requires Writing(buf, head, charset, s, chunks, from, i) && currentLen == |QText(s[from..i])|
    requires i < |s| && runeLen == Utf8.DecodeRune(s[i..]).1 && encLen == |QText(s[i..i + runeLen])| <= 12
    ensures from' <= i + runeLen <= |s| && Writing(buf', head, charset, s, chunks', from', i + runeLen)
    ensures currentLen' == |QText(s[from'..i + runeLen])|
  {
    hide IsBoundary, IsChunked, Closed, Utf8.DecodeRune;
    buf', currentLen', chunks', from' := buf, currentLen, chunks, from;
    if currentLen + encLen > MAX_CONTENT_LEN {
      EmptyText(s, from, i);
      WriteSplit(buf, head, charset, s, chunks, from, i);
      buf' := buf + CLOSE_WORD + [SPACE] + OpenWord(charset);
      currentLen' := 0;
      chunks', from' := chunks + [s[from..i]], i;
      NextBoundary(s, i);
    } else {
      WriteMore(buf, head, charset, s, chunks, from, i, runeLen);
    }
    buf' := WriteQString(buf', s[i..i + runeLen]);
    currentLen' := currentLen' + encLen;
  }

  /** qEncode (encodedword.go:114-141) for UTF-8, behind an opened word. */
  method QEncodeUTF8(buf: seq<byte>, charset: seq<byte>, s: seq<byte>, ghost head: seq<byte>)
    returns (buf': seq<byte>, ghost chunks: seq<seq<byte>>)
    requires s != [] && buf == head + OpenWord(charset)
    ensures IsChunked(s, chunks, |s|) && buf' + CLOSE_WORD == head + Encoded(charset, chunks)
  {
    hide QText, Writing, IsChunked, Encoded, Utf8.DecodeRune;
    buf' := buf;
    chunks := [];
    ghost var from: nat := 0;
    var currentLen, i := 0, 0;
    NothingWritten(buf, head, charset, s);
    while i < |s|
      invariant from <= i <= |s| && Writing(buf', head, charset, s, chunks, from, i)
      invariant currentLen == |QText(s[from..i])|
    {
      var runeLen, encLen := NextRune(s, i);
      buf', currentLen, chunks, from := WriteRune(buf', charset, s, currentLen, i, runeLen, encLen, head, chunks, from);
      i := i + runeLen;
    }
    chunks := LastWord(buf', head, charset, s, chunks, from);
  }

  lemma LastWord(buf: seq<byte>, head: seq<byte>, charset: seq<byte>, s: seq<byte>, chunks: seq<seq<byte>>, from: nat)
    returns (all: seq<seq<byte>>)
    requires Writing(buf, head, charset, s, chunks, from, |s|) && s != []
    ensures IsChunked(s, all, |s|) && buf + CLOSE_WORD == head + Encoded(charset, all)
  {
    hide QText, IsBoundary, IsChunked, Closed, Encoded;
    var last := s[from..|s|];
    MoreChunks(s, chunks, from, |s|);
    EncodedIsClosed(charset, chunks, last);
    all := chunks + [last];
    CloseText(head, Closed(charset, chunks), OpenWord(charset), QText(last), CLOSE_WORD);
  }

  /** Encode (encodedword.go:35-40) for the encoder QEncoding.  With another
      charset than UTF-8 there is one word for everything. */
  method Encode(charset: seq<byte>, s: seq<byte>) returns (r: seq<byte>, ghost chunks: seq<seq<byte>>)
    ensures !NeedsEncoding(s) ==> r == s
    ensures NeedsEncoding(s) && IsUTF8(charset) ==> IsChunked(s, chunks, |s|) && r == Encoded(charset, chunks)
    ensures NeedsEncoding(s) && !IsUTF8(charset) ==> r == Word(charset, s)
  {
    chunks := [];
    if !NeedsEncoding(s) {
      return s, [];
    }
    assert s != [];
    var buf := OpenWord(charset);
    if !IsUTF8(charset) {
      buf := WriteQString(buf, s);
    } else {
      assert [] + OpenWord(charset) == OpenWord(charset);
      buf, chunks := QEncodeUTF8(buf, charset, s, []);
      assert [] + Encoded(charset, chunks) == Encoded(charset, chunks);
    }
    buf := buf + CLOSE_WORD;
    return buf, chunks;
  }
}
