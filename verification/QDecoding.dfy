/** The Q encoding of src/mime/encodedword.go (RFC 2047): reading, and the round
    trip. */
module QDecoding {
  import opened Common
  import opened MimeGrammar
  import opened QEncoding
  import opened Search
  import Split
  import Utf8

  /** What the decoder takes from elsewhere: base64 decoding, and the conversion
      of charsets that it does not know itself. */
  datatype Codecs = Codecs(base64: seq<byte> -> Option<seq<byte>>, convert: (seq<byte>, seq<byte>) -> Option<seq<byte>>)

  const OPEN: seq<byte> := [EQUALS, QUESTION]

  predicate IsQPlain(c: byte) {
    32 <= c <= 126 || c == 10 || c == 13 || c == 9
  }

  function QDecode(s: seq<byte>): Option<seq<byte>> {
    if s == [] then Some([])
    else if s[0] == EQUALS then
      if |s| < 3 || !IsHex(s[1]) || !IsHex(s[2]) then None
      else
        var rest := QDecode(s[3..]);
        if rest.None? then None else Some([Unhex(s[1]) * 16 + Unhex(s[2])] + rest.value)
    else if s[0] == UNDERSCORE || IsQPlain(s[0]) then
      var rest := QDecode(s[1..]);
      if rest.None? then None else Some([if s[0] == UNDERSCORE then SPACE else s[0]] + rest.value)
    else None
  }

  /** What the bytes read so far and the rest give. */
  predicate Decoding(done: seq<byte>, rest: Option<seq<byte>>, all: Option<seq<byte>>) {
    if rest.None? then all.None? else all == Some(done + rest.value)
  }

  lemma DecodeOne(s: seq<byte>, i: nat, done: seq<byte>, all: Option<seq<byte>>)
    requires i < |s| && Decoding(done, QDecode(s[i..]), all)
    ensures s[i] == EQUALS && (i + 2 >= |s| || !IsHex(s[i + 1]) || !IsHex(s[i + 2])) ==> all.None?
    ensures s[i] == EQUALS && i + 2 < |s| && IsHex(s[i + 1]) && IsHex(s[i + 2]) ==>
      Decoding(done + [Unhex(s[i + 1]) * 16 + Unhex(s[i + 2])], QDecode(s[i + 3..]), all)
    ensures s[i] != EQUALS && (s[i] == UNDERSCORE || IsQPlain(s[i])) ==>
      Decoding(done + [if s[i] == UNDERSCORE then SPACE else s[i]], QDecode(s[i + 1..]), all)
    ensures s[i] != EQUALS && s[i] != UNDERSCORE && !IsQPlain(s[i]) ==> all.None?
  {
    var w := s[i..];
    assert w[1..] == s[i + 1..];
    if s[i] == EQUALS {
      if i + 2 < |s| && IsHex(s[i + 1]) && IsHex(s[i + 2]) {
        assert w[3..] == s[i + 3..];
        DecodingMore(done, Unhex(s[i + 1]) * 16 + Unhex(s[i + 2]), QDecode(s[i + 3..]), QDecode(w), all);
      }
    } else if s[i] == UNDERSCORE || IsQPlain(s[i]) {
      DecodingMore(done, if s[i] == UNDERSCORE then SPACE else s[i], QDecode(s[i + 1..]), QDecode(w), all);
    }
  }

  lemma DecodingMore(done: seq<byte>, c: byte, later: Option<seq<byte>>, rest: Option<seq<byte>>,
                     all: Option<seq<byte>>)
    requires Decoding(done, rest, all) && rest == if later.None? then None else Some([c] + later.value)
    ensures Decoding(done + [c], later, all)
  {
    if later.Some? {
      assert done + ([c] + later.value) == done + [c] + later.value;
    }
  }

  /** qDecode (encodedword.go:372-398): a buffer as long as the text is enough. */
  method QDecodeText(s: seq<byte>) returns (r: Option<seq<byte>>)
    ensures r == QDecode(s)
  {
    var dec := new byte[|s|];
    var n: nat, i: nat := 0, 0;
    ghost var all := QDecode(s);
    assert s[0..] == s && dec[..0] == [];
    assert all.Some? ==> [] + all.value == all.value;
    while i < |s|
      invariant n <= i <= |s| == dec.Length
      invariant Decoding(dec[..n], QDecode(s[i..]), all)
    {
      var c := s[i];
      DecodeOne(s, i, dec[..n], all);
      if c == UNDERSCORE {
        Store(dec, n, SPACE);
      } else if c == EQUALS {
        if i + 2 >= |s| {
          return None;
        }
        if !IsHex(s[i + 1]) || !IsHex(s[i + 2]) {
          return None;
        }
        Store(dec, n, Unhex(s[i + 1]) * 16 + Unhex(s[i + 2]));
        i := i + 2;
      } else if (c <= 126 && c >= SPACE) || c == 10 || c == 13 || c == 9 {
        Store(dec, n, c);
      } else {
        return None;
      }
      n := n + 1;
      i := i + 1;
    }
    assert dec[..n] + [] == dec[..n];
    return Some(dec[..n]);
  }

  method Store(dec: array<byte>, n: nat, c: byte)
    requires n < dec.Length
    modifies dec
    ensures dec[..n + 1] == old(dec[..n]) + [c]
  {
    dec[n] := c;
  }

  /** Reading undoes writing, for every byte string. */
  lemma {:induction false} QDecodeQText(s: seq<byte>)
    ensures QDecode(QText(s)) == Some(s)
    decreases s
  {
    if s != [] {
      var c, rest := s[0], s[1..];
      assert s == [c] + rest;
      QTextConcat([c], rest);
      OneQByte(c);
      QDecodeQText(rest);
      UnhexUpperHex(c);
      var t := QByte(c) + QText(rest);
      assert t[|QByte(c)|..] == QText(rest);
    }
  }

  lemma OneQByte(c: byte)
    ensures QText([c]) == QByte(c)
  {
    assert [c][..0] == [];
    assert QText([]) == [];
  }

  /** No question mark inside a word: its end cannot be mistaken. */
  lemma {:induction false} QTextHasNoQuestion(s: seq<byte>, i: nat)
    requires i < |QText(s)|
    ensures QText(s)[i] != QUESTION
    decreases s
  {
    var n := |s| - 1;
    if i < |QText(s[..n])| {
      QTextHasNoQuestion(s[..n], i);
    } else {
      assert QText(s)[i] == QByte(s[n])[i - |QText(s[..n])|];
    }
  }

  // ---------------------------------------------------------------------------
  // Headers
  // ---------------------------------------------------------------------------

  /** convert (encodedword.go:325-354) */
  function Convert(codecs: Codecs, charset: seq<byte>, content: seq<byte>): Option<seq<byte>> {
    if IsUTF8(charset) then Some(content)
    else if Lower(charset) == ISO_8859_1 then Some(Latin1(content))
    else if Lower(charset) == US_ASCII then Some(Ascii(content))
    else codecs.convert(Lower(charset), content)
  }

  function Latin1(content: seq<byte>): seq<byte> {
    if content == [] then [] else Utf8.EncodeRune(content[0]) + Latin1(content[1..])
  }

  function Ascii(content: seq<byte>): seq<byte> {
    if content == [] then []
    else (if content[0] >= 0x80 then Utf8.EncodeRune(0xFFFD) else [content[0]]) + Ascii(content[1..])
  }

  /** decode (encodedword.go:314-323) */
  function DecodeContent(codecs: Codecs, encoding: byte, text: seq<byte>): Option<seq<byte>> {
    if encoding == 66 || encoding == 98 then codecs.base64(text)
    else if encoding == 81 || encoding == 113 then QDecode(text)
    else None
  }

  predicate IsBlank(c: byte) {
    c == 32 || c == 9 || c == 10 || c == 13
  }

  /** hasNonWhitespace (encodedword.go:358-369); a rune that is not ASCII counts. */
  predicate HasNonWhitespace(s: seq<byte>) {
    exists i :: 0 <= i < |s| && !IsBlank(s[i])
  }

  /** Where the next encoded-word is, and what it is made of. */
  datatype Span = Span(start: nat, charset: seq<byte>, encoding: byte, text: seq<byte>, end: nat)

  /** The search for an encoded-word (encodedword.go:254-283). */
  function FindWord(header: seq<byte>): (w: Option<Span>)
    ensures w.Some? ==> w.value.start + 2 <= w.value.end <= |header|
  {
    var start := FirstIndex(header, OPEN);
    if start == -1 then None
    else
      var cur := start + 2;
      var i := FirstIndex(header[cur..], [QUESTION]);
      if i == -1 then None
      else
        var charset := header[cur..cur + i];
        var cur1 := cur + i + 1;
        if |header| < cur1 + 4 then None
        else if header[cur1 + 1] != QUESTION then None
        else
          var cur2 := cur1 + 2;
          var j := FirstIndex(header[cur2..], CLOSE_WORD);
          if j == -1 then None
          else Some(Span(start, charset, header[cur1], header[cur2..cur2 + j], cur2 + j + 2))
  }

  /** The loop of DecodeHeader as a function of what is left of the header. */
  function DecodeFrom(codecs: Codecs, header: seq<byte>, betweenWords: bool): Option<seq<byte>>
    decreases |header|
  {
    var found := FindWord(header);
    if found.None? then Some(header)
    else
      var w := found.value;
      var content := DecodeContent(codecs, w.encoding, w.text);
      if content.None? then Prepend(header[..w.start + 2], DecodeFrom(codecs, header[w.start + 2..], false))
      else
        var keep := w.start > 0 && (!betweenWords || HasNonWhitespace(header[..w.start]));
        var before := if keep then header[..w.start] else [];
        var converted := Convert(codecs, w.charset, content.value);
        if converted.None? then None
        else Prepend(before + converted.value, DecodeFrom(codecs, header[w.end..], true))
  }

  function Prepend(s: seq<byte>, r: Option<seq<byte>>): Option<seq<byte>> {
    if r.None? then None else Some(s + r.value)
  }

  function Decoded(codecs: Codecs, header: seq<byte>): Option<seq<byte>> {
    var i := FirstIndex(header, OPEN);
    if i == -1 then Some(header)
    else Prepend(header[..i], DecodeFrom(codecs, header[i..], false))
  }

  /** The encoded-words of a header: their charsets and their decoded contents. */
  function WordsIn(codecs: Codecs, header: seq<byte>): seq<(seq<byte>, seq<byte>)>
    decreases |header|
  {
    var found := FindWord(header);
    if found.None? then []
    else
      var w := found.value;
      var content := DecodeContent(codecs, w.encoding, w.text);
      if content.None? then WordsIn(codecs, header[w.start + 2..])
      else [(w.charset, content.value)] + WordsIn(codecs, header[w.end..])
  }

  /** The conversion of one of the words fails. */
  predicate SomeFails(codecs: Codecs, words: seq<(seq<byte>, seq<byte>)>) {
    exists k :: 0 <= k < |words| && Convert(codecs, words[k].0, words[k].1).None?
  }

  lemma SomeFailsCons(codecs: Codecs, word: (seq<byte>, seq<byte>), words: seq<(seq<byte>, seq<byte>)>)
    ensures SomeFails(codecs, [word] + words) <==> Convert(codecs, word.0, word.1).None? || SomeFails(codecs, words)
  {
    var all := [word] + words;
    if Convert(codecs, word.0, word.1).None? {
      assert Convert(codecs, all[0].0, all[0].1).None?;
    }
    if SomeFails(codecs, words) {
      var k :| 0 <= k < |words| && Convert(codecs, words[k].0, words[k].1).None?;
      assert all[k + 1] == words[k];
    }
    if SomeFails(codecs, all) {
      var k :| 0 <= k < |all| && Convert(codecs, all[k].0, all[k].1).None?;
      if k > 0 {
        assert all[k] == words[k - 1];
      }
    }
  }

  lemma {:induction false} FailsExactly(codecs: Codecs, header: seq<byte>, betweenWords: bool)
    ensures DecodeFrom(codecs, header, betweenWords).None? <==> SomeFails(codecs, WordsIn(codecs, header))
    decreases |header|
  {
    hide FindWord, DecodeContent, Convert;
    var found := FindWord(header);
    if found.Some? {
      var w := found.value;
      var content := DecodeContent(codecs, w.encoding, w.text);
      if content.None? {
        FailsExactly(codecs, header[w.start + 2..], false);
      } else {
        FailsExactly(codecs, header[w.end..], true);
        SomeFailsCons(codecs, (w.charset, content.value), WordsIn(codecs, header[w.end..]));
      }
    }
  }

  /** Nothing but a charset conversion makes DecodeHeader fail, and none that it
      knows itself. */
  lemma OnlyConversionFails(codecs: Codecs, header: seq<byte>)
    requires forall charset, content ::
      !IsUTF8(charset) && Lower(charset) != ISO_8859_1 && Lower(charset) != US_ASCII ==>
        codecs.convert(Lower(charset), content).Some?
    ensures Decoded(codecs, header).Some?
  {
    var i := FirstIndex(header, OPEN);
    if i >= 0 {
      FailsExactly(codecs, header[i..], false);
    }
  }

  /** DecodeHeader (encodedword.go:240-312): it fails exactly if the conversion of an
      encoded-word does. */
  method DecodeHeader(codecs: Codecs, header: seq<byte>) returns (r: Option<seq<byte>>)
    ensures r == Decoded(codecs, header)
    ensures FirstIndex(header, OPEN) == -1 ==> r == Some(header)
    ensures FirstIndex(header, OPEN) != -1 ==>
      (r.None? <==> SomeFails(codecs, WordsIn(codecs, header[FirstIndex(header, OPEN)..])))
  {
    hide FindWord, DecodeContent, Convert, HasNonWhitespace, WordsIn, SomeFails, FirstIndex;
    var i := FirstIndex(header, OPEN);
    if i == -1 {
      return Some(header);
    }
    FailsExactly(codecs, header[i..], false);
    var buf, rest := header[..i], header[i..];
    var betweenWords := false;
    ghost var all := Decoded(codecs, header);
    while true
      invariant Prepend(buf, DecodeFrom(codecs, rest, betweenWords)) == all
      decreases |rest|
    {
      var found := FindWord(rest);
      if found.None? {
        break;
      }
      var w := found.value;
      var content := DecodeContent(codecs, w.encoding, w.text);
      if content.None? {
        PrependTwice(buf, rest[..w.start + 2], DecodeFrom(codecs, rest[w.start + 2..], false));
        betweenWords := false;
        buf := buf + rest[..w.start + 2];
        rest := rest[w.start + 2..];
        continue;
      }
      ghost var buf0, before := buf, [];
      if w.start > 0 && (!betweenWords || HasNonWhitespace(rest[..w.start])) {
        buf := buf + rest[..w.start];
        before := rest[..w.start];
      }
      assert buf == buf0 + before;
      var converted := Convert(codecs, w.charset, content.value);
      if converted.None? {
        return None;
      }
      buf := buf + converted.value;
      assert buf == buf0 + (before + converted.value);
      PrependTwice(buf0, before + converted.value, DecodeFrom(codecs, rest[w.end..], true));
      rest := rest[w.end..];
      betweenWords := true;
    }
    if |rest| > 0 {
      buf := buf + rest;
    } else {
      assert buf + rest == buf;
    }
    return Some(buf);
  }

  lemma PrependTwice(s: seq<byte>, t: seq<byte>, r: Option<seq<byte>>)
    ensures Prepend(s, Prepend(t, r)) == Prepend(s + t, r)
  {
    if r.Some? {
      assert s + (t + r.value) == s + t + r.value;
    }
  }

  // ---------------------------------------------------------------------------
  // The round trip
  // ---------------------------------------------------------------------------

  /** The first place where sep occurs is found. */
  lemma FoundAt(s: seq<byte>, sep: seq<byte>, i: nat)
    requires sep != [] && i + |sep| <= |s| && s[i..i + |sep|] == sep
    requires forall j :: 0 <= j < i ==> s[j] != sep[0]
    ensures FirstIndex(s, sep) == i
  {
    FirstIndexIsFirst(s, sep);
    assert OccursAt(s, sep, i);
    var r := FirstIndex(s, sep);
    if r < i {
      assert OccursAt(s, sep, r);
      NeedsFirstByte(s, sep, r);
      assert false;
    }
  }

  lemma CharsetHasNoQuestion(charset: seq<byte>, i: nat)
    requires IsUTF8(charset) && i < |charset|
    ensures |charset| == 5 && charset[i] != QUESTION
  {
    assert |Lower(charset)| == 5;
    assert Lower(charset)[i] == LowerByte(charset[i]);
  }

  /** The parts of an encoded-word that starts after `gap` blanks. */
  lemma WordFound(gap: seq<byte>, charset: seq<byte>, chunk: seq<byte>, rest: seq<byte>)
    requires IsUTF8(charset) && (gap == [] || gap == [SPACE])
    ensures FindWord(gap + Word(charset, chunk) + rest)
         == Some(Span(|gap|, charset, 113, QText(chunk), |gap| + |Word(charset, chunk)|))
  {
    var header, start := gap + Word(charset, chunk) + rest, |gap|;
    assert |Lower(charset)| == 5;
    WordFront(gap, charset, chunk, rest);
    WordBack(gap, charset, chunk, rest);
    FoundAt(header, OPEN, start);
    CharsetFound(header, start, charset, [QUESTION, 113, QUESTION] + QText(chunk) + CLOSE_WORD + rest);
    TextFound(header, start + 10, chunk, rest);
    PartsFound(header, start, charset, QText(chunk));
  }

  lemma PartsFound(header: seq<byte>, start: nat, charset: seq<byte>, text: seq<byte>)
    requires |header| >= start + 12 && FirstIndex(header, OPEN) == start
    requires FirstIndex(header[start + 2..], [QUESTION]) == 5 && header[start + 2..start + 7] == charset
    requires header[start + 8] == 113 && header[start + 9] == QUESTION
    requires FirstIndex(header[start + 10..], CLOSE_WORD) == |text|
    requires start + 10 + |text| <= |header| && header[start + 10..start + 10 + |text|] == text
    ensures FindWord(header) == Some(Span(start, charset, 113, text, start + 12 + |text|))
  {
  }

  lemma WordFront(gap: seq<byte>, charset: seq<byte>, chunk: seq<byte>, rest: seq<byte>)
    requires |charset| == 5 && (gap == [] || gap == [SPACE])
    ensures var header, start := gap + Word(charset, chunk) + rest, |gap|;
      && |header| >= start + 12
      && header[start..start + 2] == OPEN && (forall j :: 0 <= j < start ==> header[j] != EQUALS)
      && header[start + 8] == 113 && header[start + 9] == QUESTION
  {
  }

  lemma WordBack(gap: seq<byte>, charset: seq<byte>, chunk: seq<byte>, rest: seq<byte>)
    requires |charset| == 5
    ensures var header, start := gap + Word(charset, chunk) + rest, |gap|;
      && header[start + 2..] == charset + ([QUESTION, 113, QUESTION] + QText(chunk) + CLOSE_WORD + rest)
      && header[start + 10..] == QText(chunk) + CLOSE_WORD + rest
  {
    hide QText;
    var header, start := gap + Word(charset, chunk) + rest, |gap|;
    var back := QText(chunk) + CLOSE_WORD + rest;
    assert header == gap + OPEN + charset + [QUESTION, 113, QUESTION] + back;
  }

  lemma CharsetFound(header: seq<byte>, start: nat, charset: seq<byte>, after: seq<byte>)
    requires IsUTF8(charset) && after != [] && after[0] == QUESTION
    requires start + 2 <= |header| && header[start + 2..] == charset + after
    ensures FirstIndex(header[start + 2..], [QUESTION]) == 5 && header[start + 2..start + 7] == charset
  {
    assert |Lower(charset)| == 5;
    var h := header[start + 2..];
    forall j | 0 <= j < 5 ensures h[j] != QUESTION {
      CharsetHasNoQuestion(charset, j);
    }
    FoundAt(h, [QUESTION], 5);
    assert h[..5] == header[start + 2..start + 7];
  }

  lemma TextFound(header: seq<byte>, at: nat, chunk: seq<byte>, rest: seq<byte>)
    requires at <= |header| && header[at..] == QText(chunk) + CLOSE_WORD + rest
    ensures FirstIndex(header[at..], CLOSE_WORD) == |QText(chunk)|
    ensures header[at..at + |QText(chunk)|] == QText(chunk)
  {
    var text := QText(chunk);
    var h := header[at..];
    forall j | 0 <= j < |text| ensures h[j] != QUESTION {
      QTextHasNoQuestion(chunk, j);
    }
    FoundAt(h, CLOSE_WORD, |text|);
    assert h[..|text|] == text;
    assert h[..|text|] == header[at..at + |text|];
  }

  /** Reading one word of a run of words. */
  lemma DecodeOneWord(codecs: Codecs, gap: seq<byte>, charset: seq<byte>, chunk: seq<byte>, rest: seq<byte>)
    requires IsUTF8(charset) && (gap == [] || gap == [SPACE])
    ensures DecodeFrom(codecs, gap + Word(charset, chunk) + rest, gap != [])
         == Prepend(chunk, DecodeFrom(codecs, rest, true))
  {
    var header := gap + Word(charset, chunk) + rest;
    WordFound(gap, charset, chunk, rest);
    QDecodeQText(chunk);
    var w := Span(|gap|, charset, 113, QText(chunk), |gap| + |Word(charset, chunk)|);
    assert header[w.end..] == rest;
    assert header[..w.start] == gap;
    assert DecodeContent(codecs, w.encoding, w.text) == Some(chunk);
    DropBlank(codecs, header, gap != [], w, chunk);
  }

  /** The blanks between two words are dropped. */
  lemma DropBlank(codecs: Codecs, header: seq<byte>, betweenWords: bool, w: Span, content: seq<byte>)
    requires FindWord(header) == Some(w) && DecodeContent(codecs, w.encoding, w.text) == Some(content)
    requires IsUTF8(w.charset) && (w.start == 0 || (betweenWords && header[..w.start] == [SPACE]))
    ensures DecodeFrom(codecs, header, betweenWords) == Prepend(content, DecodeFrom(codecs, header[w.end..], true))
  {
    assert !HasNonWhitespace([SPACE]);
    assert Convert(codecs, w.charset, content) == Some(content);
    assert [] + content == content;
  }

  /** Reading all the words gives the text: the spaces between them are dropped. */
  lemma {:induction false} DecodeWords(codecs: Codecs, gap: seq<byte>, charset: seq<byte>, chunks: seq<seq<byte>>)
    requires IsUTF8(charset) && (gap == [] || gap == [SPACE]) && chunks != []
    ensures DecodeFrom(codecs, gap + Encoded(charset, chunks), gap != []) == Some(Split.Flatten(chunks))
    decreases chunks
  {
    var c, later := chunks[0], chunks[1..];
    var words := Words(charset, chunks);
    Split.FlattenCons(c, later);
    assert chunks == [c] + later;
    if later == [] {
      assert words == [Word(charset, c)];
      assert gap + Word(charset, c) + [] == gap + Encoded(charset, chunks);
      DecodeOneWord(codecs, gap, charset, c, []);
      NothingLeft(codecs);
      assert Split.Flatten(later) == [];
    } else {
      assert words == [Word(charset, c)] + Words(charset, later);
      Split.JoinCons(Word(charset, c), Words(charset, later), [SPACE]);
      var rest := [SPACE] + Encoded(charset, later);
      assert gap + Word(charset, c) + rest == gap + Encoded(charset, chunks);
      DecodeOneWord(codecs, gap, charset, c, rest);
      DecodeWords(codecs, [SPACE], charset, later);
    }
  }

  lemma NothingLeft(codecs: Codecs)
    ensures DecodeFrom(codecs, [], true) == Some([])
  {
    assert FirstIndex([], OPEN) == -1;
  }

  /** DecodeHeader undoes Encode for every text that needs encoding. */
  lemma RoundTrip(codecs: Codecs, charset: seq<byte>, s: seq<byte>, chunks: seq<seq<byte>>)
    requires IsUTF8(charset) && s != [] && IsChunked(s, chunks, |s|)
    ensures Decoded(codecs, Encoded(charset, chunks)) == Some(s)
  {
    var header := Encoded(charset, chunks);
    ChunksCoverText(s, chunks, |s|);
    assert s[..|s|] == s;
    EncodedOpens(charset, chunks);
    FoundAt(header, OPEN, 0);
    assert [] + header == header && header[..0] == [] && header[0..] == header;
    DecodeWords(codecs, [], charset, chunks);
    assert [] + s == s;
  }

  lemma EncodedOpens(charset: seq<byte>, chunks: seq<seq<byte>>)
    requires chunks != []
    ensures |Encoded(charset, chunks)| >= 2 && Encoded(charset, chunks)[..2] == OPEN
  {
    var words := Words(charset, chunks);
    assert words[0] == Word(charset, chunks[0]);
    assert words[0][..2] == OPEN;
  }

  /** Encode followed by DecodeHeader. */
  method EncodeThenDecode(codecs: Codecs, charset: seq<byte>, s: seq<byte>) returns (r: Option<seq<byte>>)
    requires IsUTF8(charset) && NeedsEncoding(s)
    ensures r == Some(s)
  {
    var encoded, chunks := Encode(charset, s);
    assert s != [];
    RoundTrip(codecs, charset, s, chunks);
    r := DecodeHeader(codecs, encoded);
  }
}
