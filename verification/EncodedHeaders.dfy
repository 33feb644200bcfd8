/** What DecodeHeader makes of a header that is written as texts and encoded-words
    in turn (src/mime/encodedword.go:232-312). */
module EncodedHeaders {
  import opened Common
  import opened MimeGrammar
  import opened QEncoding
  import opened QDecoding
  import opened Search

  /** An encoded-word as it is written, and what it stands for. */
  datatype Written = Written(charset: seq<byte>, encoding: byte, text: seq<byte>)

  function Body(w: Written): seq<byte> {
    w.charset + [QUESTION, w.encoding, QUESTION] + w.text + CLOSE_WORD
  }

  function Bytes(w: Written): seq<byte> {
    OPEN + Body(w)
  }

  predicate Has(s: seq<byte>, a: byte, b: byte) {
    exists i :: 0 <= i < |s| - 1 && s[i] == a && s[i + 1] == b
  }

  /** The shape of an encoded-word: its parts end where they seem to. */
  predicate Shaped(w: Written) {
    QUESTION !in w.charset && !Has(w.text, QUESTION, EQUALS)
  }

  /** A word that can be decoded, with its converted content, or one whose content
      cannot be decoded. */
  datatype Item = Word(w: Written, value: seq<byte>) | Refused(w: Written)

  predicate IsItem(codecs: Codecs, x: Item) {
    && Shaped(x.w)
    && var content := DecodeContent(codecs, x.w.encoding, x.w.text);
    if x.Word? then content.Some? && Convert(codecs, x.w.charset, content.value) == Some(x.value) else content.None?
  }

  /** texts[0], items[0], texts[1], items[1], ..., and the last text. */
  function Header(texts: seq<seq<byte>>, items: seq<Item>): seq<byte>
    requires |texts| == |items| + 1
  {
    if items == [] then texts[0] else texts[0] + Bytes(items[0].w) + Header(texts[1..], items[1..])
  }

  /** No "=?" in any text, nor in one together with the rest of a refused word before it. */
  predicate Texts(codecs: Codecs, texts: seq<seq<byte>>, items: seq<Item>) {
    && |texts| == |items| + 1
    && (forall k :: 0 <= k < |texts| ==> !Has(texts[k], EQUALS, QUESTION))
    && (forall k :: 0 <= k < |items| ==> IsItem(codecs, items[k]))
    && (forall k :: 0 <= k < |items| && items[k].Refused? ==>
          !Has(Body(items[k].w) + texts[k + 1], EQUALS, QUESTION))
  }

  predicate AllBlank(s: seq<byte>) {
    forall c :: c in s ==> c == 32 || c == 9 || c == 10 || c == 13
  }

  /** What the header means: every text and every refused word as it stands, every
      other word by its value; but blanks between two words that are decoded are left
      out.  between says that such a word comes before the first text. */
  function Meaning(texts: seq<seq<byte>>, items: seq<Item>, between: bool): seq<byte>
    requires |texts| == |items| + 1
  {
    if items == [] then texts[0]
    else
      var front := if between && items[0].Word? && AllBlank(texts[0]) then [] else texts[0];
      var here := if items[0].Word? then items[0].value else Bytes(items[0].w);
      front + here + Meaning(texts[1..], items[1..], items[0].Word?)
  }

  // ----- finding the words

  lemma OccursBytes(s: seq<byte>, a: byte, b: byte, i: int)
    ensures OccursAt(s, [a, b], i) <==> 0 <= i < |s| - 1 && s[i] == a && s[i + 1] == b
  {
    if 0 <= i < |s| - 1 {
      assert s[i..i + 2] == [s[i], s[i + 1]];
    }
  }

  /** Behind a text without the two bytes, the pair is found at the end of the text. */
  lemma PairFound(text: seq<byte>, a: byte, b: byte, rest: seq<byte>)
    requires !Has(text, a, b) && a != b
    ensures FirstIndex(text + [a, b] + rest, [a, b]) == |text|
  {
    var s := text + [a, b] + rest;
    FirstIndexIsFirst(s, [a, b]);
    OccursBytes(s, a, b, |text|);
    var r := FirstIndex(s, [a, b]);
    OccursBytes(s, a, b, r);
  }

  lemma NoPair(text: seq<byte>, a: byte, b: byte)
    requires !Has(text, a, b)
    ensures FirstIndex(text, [a, b]) == -1
  {
    FirstIndexIsFirst(text, [a, b]);
    OccursBytes(text, a, b, FirstIndex(text, [a, b]));
  }

  lemma QuestionFound(charset: seq<byte>, rest: seq<byte>)
    requires QUESTION !in charset
    ensures FirstIndex(charset + [QUESTION] + rest, [QUESTION]) == |charset|
  {
    var s := charset + [QUESTION] + rest;
    assert s[|charset|..|charset| + 1] == [QUESTION];
    FoundAt(s, [QUESTION], |charset|);
  }

  lemma ItemFound(text: seq<byte>, w: Written, rest: seq<byte>)
    requires !Has(text, EQUALS, QUESTION) && Shaped(w)
    ensures FindWord(text + Bytes(w) + rest)
         == Some(Span(|text|, w.charset, w.encoding, w.text, |text| + |Bytes(w)|))
  {
    hide FindWord, Has, FirstIndex;
    var header, start := text + Bytes(w) + rest, |text|;
    PairFound(text, EQUALS, QUESTION, Body(w) + rest);
    assert header == text + OPEN + (Body(w) + rest);
    QuestionFound(w.charset, [w.encoding, QUESTION] + w.text + CLOSE_WORD + rest);
    PairFound(w.text, QUESTION, EQUALS, rest);
    PartsOf(header, text, w, rest);
    FoundParts(header, start, w);
  }

  lemma PartsOf(header: seq<byte>, text: seq<byte>, w: Written, rest: seq<byte>)
    requires header == text + Bytes(w) + rest
    ensures var start, n := |text|, |w.charset|;
      && start + |Bytes(w)| <= |header|
      && header[start + 2..] == w.charset + [QUESTION] + ([w.encoding, QUESTION] + w.text + CLOSE_WORD + rest)
      && header[start + 2..start + 2 + n] == w.charset
      && header[start + n + 3] == w.encoding && header[start + n + 4] == QUESTION
      && header[start + n + 5..] == w.text + CLOSE_WORD + rest
      && header[start + n + 5..start + n + 5 + |w.text|] == w.text
  {
    var back := w.text + CLOSE_WORD + rest;
    var front := text + OPEN + w.charset + [QUESTION, w.encoding, QUESTION];
    assert header == front + back;
    assert header == text + OPEN + (w.charset + [QUESTION] + ([w.encoding, QUESTION] + w.text + CLOSE_WORD + rest));
  }

  lemma FoundParts(header: seq<byte>, start: nat, w: Written)
    requires FirstIndex(header, OPEN) == start && start + |Bytes(w)| <= |header|
    requires FirstIndex(header[start + 2..], [QUESTION]) == |w.charset|
    requires var cur1 := start + 2 + |w.charset| + 1;
      && header[start + 2..cur1 - 1] == w.charset && header[cur1] == w.encoding && header[cur1 + 1] == QUESTION
      && FirstIndex(header[cur1 + 2..], CLOSE_WORD) == |w.text| && header[cur1 + 2..cur1 + 2 + |w.text|] == w.text
    ensures FindWord(header) == Some(Span(start, w.charset, w.encoding, w.text, start + |Bytes(w)|))
  {
  }

  lemma BlankOrNot(s: seq<byte>)
    ensures HasNonWhitespace(s) <==> !AllBlank(s)
  {
    if !AllBlank(s) {
      var c :| c in s && !IsBlank(c);
      var i :| 0 <= i < |s| && s[i] == c;
    } else {
      forall i | 0 <= i < |s| ensures IsBlank(s[i]) { assert s[i] in s; }
    }
  }

  // ----- reading them

  lemma ReadWord(codecs: Codecs, text: seq<byte>, x: Item, rest: seq<byte>, between: bool)
    requires !Has(text, EQUALS, QUESTION) && x.Word? && IsItem(codecs, x)
    ensures DecodeFrom(codecs, text + Bytes(x.w) + rest, between)
         == Prepend((if between && AllBlank(text) then [] else text) + x.value, DecodeFrom(codecs, rest, true))
  {
    hide FindWord, DecodeContent, Convert, AllBlank, HasNonWhitespace, Bytes;
    var header := text + Bytes(x.w) + rest;
    ItemFound(text, x.w, rest);
    BlankOrNot(text);
    assert header[..|text|] == text && header[|text| + |Bytes(x.w)|..] == rest;
  }

  lemma ReadRefused(codecs: Codecs, text: seq<byte>, x: Item, rest: seq<byte>, between: bool)
    requires !Has(text, EQUALS, QUESTION) && x.Refused? && IsItem(codecs, x)
    ensures DecodeFrom(codecs, text + Bytes(x.w) + rest, between)
         == Prepend(text + OPEN, DecodeFrom(codecs, Body(x.w) + rest, false))
  {
    hide FindWord, DecodeContent, Convert, Body;
    var header := text + Bytes(x.w) + rest;
    ItemFound(text, x.w, rest);
    assert header == text + OPEN + (Body(x.w) + rest);
    assert header[..|text| + 2] == text + OPEN && header[|text| + 2..] == Body(x.w) + rest;
  }

  lemma ReadLast(codecs: Codecs, text: seq<byte>, between: bool)
    requires !Has(text, EQUALS, QUESTION)
    ensures DecodeFrom(codecs, text, between) == Some(text)
  {
    NoPair(text, EQUALS, QUESTION);
  }

  lemma TextsTail(codecs: Codecs, texts: seq<seq<byte>>, items: seq<Item>)
    requires Texts(codecs, texts, items) && items != []
    ensures Texts(codecs, texts[1..], items[1..])
  {
    hide Has, IsItem;
    forall k | 0 <= k < |items| - 1 && items[1..][k].Refused?
      ensures !Has(Body(items[1..][k].w) + texts[1..][k + 1], EQUALS, QUESTION)
    {
      assert items[1..][k] == items[k + 1] && texts[1..][k + 1] == texts[k + 2];
    }
  }

  /** The rest of a refused word is text. */
  lemma TextsBehindRefused(codecs: Codecs, texts: seq<seq<byte>>, items: seq<Item>, texts': seq<seq<byte>>)
    requires Texts(codecs, texts, items) && items != [] && items[0].Refused?
    requires texts' == [Body(items[0].w) + texts[1]] + texts[2..]
    ensures Texts(codecs, texts', items[1..])
  {
    hide Has, IsItem;
    TextsTail(codecs, texts, items);
    forall k | 0 <= k < |texts'| ensures !Has(texts'[k], EQUALS, QUESTION) {
      if k > 0 { assert texts'[k] == texts[1..][k]; }
    }
    forall k | 0 <= k < |items| - 1 && items[1..][k].Refused?
      ensures !Has(Body(items[1..][k].w) + texts'[k + 1], EQUALS, QUESTION)
    {
      assert texts'[k + 1] == texts[1..][k + 1];
    }
  }

  lemma HeaderFront(front: seq<byte>, texts: seq<seq<byte>>, items: seq<Item>)
    requires |texts| == |items| + 1
    ensures Header([front + texts[0]] + texts[1..], items) == front + Header(texts, items)
    ensures Meaning([front + texts[0]] + texts[1..], items, false) == front + Meaning(texts, items, false)
  {
    hide Bytes, AllBlank;
    var texts' := [front + texts[0]] + texts[1..];
    assert texts'[1..] == texts[1..];
    if items != [] {
      MoveFront(front, texts[0], Bytes(items[0].w), Header(texts[1..], items[1..]));
      var here := if items[0].Word? then items[0].value else Bytes(items[0].w);
      MoveFront(front, texts[0], here, Meaning(texts[1..], items[1..], items[0].Word?));
    }
  }

  lemma MoveFront(front: seq<byte>, text: seq<byte>, here: seq<byte>, later: seq<byte>)
    ensures (front + text) + here + later == front + (text + here + later)
  {
  }

  lemma {:induction false} ReadHeader(codecs: Codecs, texts: seq<seq<byte>>, items: seq<Item>, between: bool)
    requires Texts(codecs, texts, items)
    ensures DecodeFrom(codecs, Header(texts, items), between) == Some(Meaning(texts, items, between))
    decreases |items|
  {
    hide DecodeFrom, Has, IsItem, AllBlank, Bytes, Body;
    if items == [] {
      ReadLast(codecs, texts[0], between);
    } else if items[0].Word? {
      TextsTail(codecs, texts, items);
      ReadWord(codecs, texts[0], items[0], Header(texts[1..], items[1..]), between);
      ReadHeader(codecs, texts[1..], items[1..], true);
    } else {
      ReadOnFromRefused(codecs, texts, items, between);
      var texts' := [Body(items[0].w) + texts[1]] + texts[2..];
      TextsBehindRefused(codecs, texts, items, texts');
      ReadHeader(codecs, texts', items[1..], false);
    }
  }

  lemma ReadOnFromRefused(codecs: Codecs, texts: seq<seq<byte>>, items: seq<Item>, between: bool)
    requires Texts(codecs, texts, items) && items != [] && items[0].Refused?
    ensures var texts' := [Body(items[0].w) + texts[1]] + texts[2..];
      && DecodeFrom(codecs, Header(texts, items), between)
         == Prepend(texts[0] + OPEN, DecodeFrom(codecs, Header(texts', items[1..]), false))
      && Meaning(texts, items, between) == texts[0] + OPEN + Meaning(texts', items[1..], false)
  {
    hide DecodeFrom, Has, IsItem, Body, AllBlank;
    var w, later := items[0].w, Header(texts[1..], items[1..]);
    ReadRefused(codecs, texts[0], items[0], later, between);
    HeaderFront(Body(w), texts[1..], items[1..]);
    assert texts[1..][1..] == texts[2..];
    var meaning := Meaning(texts[1..], items[1..], false);
    assert texts[0] + (OPEN + Body(w)) + meaning == texts[0] + OPEN + (Body(w) + meaning);
  }

  /** DecodeHeader keeps every text and every word that cannot be decoded, puts the
      content of the other words in their place, and leaves out exactly the blanks
      between two of those. */
  lemma HeaderMeans(codecs: Codecs, texts: seq<seq<byte>>, items: seq<Item>)
    requires Texts(codecs, texts, items)
    ensures Decoded(codecs, Header(texts, items)) == Some(Meaning(texts, items, false))
  {
    hide DecodeFrom, IsItem, Body;
    var header := Header(texts, items);
    if items == [] {
      NoPair(texts[0], EQUALS, QUESTION);
    } else {
      var i := |texts[0]|;
      var later := Header(texts[1..], items[1..]);
      PairFound(texts[0], EQUALS, QUESTION, Body(items[0].w) + later);
      assert header == texts[0] + OPEN + (Body(items[0].w) + later);
      assert header[..i] == texts[0] && header[i..] == [] + (Bytes(items[0].w) + later);
      var texts' := [[]] + texts[1..];
      WithoutFront(codecs, texts, items);
      assert texts[0] + [] == texts[0];
      HeaderFront(texts[0], texts', items);
      assert [texts[0] + texts'[0]] + texts'[1..] == texts;
      assert [] + Bytes(items[0].w) + later == Bytes(items[0].w) + later;
      assert Header(texts', items) == header[i..] by { assert texts'[1..] == texts[1..]; }
      ReadHeader(codecs, texts', items, false);
    }
  }

  lemma WithoutFront(codecs: Codecs, texts: seq<seq<byte>>, items: seq<Item>)
    requires Texts(codecs, texts, items)
    ensures Texts(codecs, [[]] + texts[1..], items)
  {
    hide IsItem, Body;
    var texts' := [[]] + texts[1..];
    forall k | 0 <= k < |items| && items[k].Refused?
      ensures !Has(Body(items[k].w) + texts'[k + 1], EQUALS, QUESTION)
    {
      assert texts'[k + 1] == texts[k + 1];
    }
  }

  /** The same of the procedure. */
  method DecodeWritten(codecs: Codecs, texts: seq<seq<byte>>, items: seq<Item>) returns (r: Option<seq<byte>>)
    requires Texts(codecs, texts, items)
    ensures r == Some(Meaning(texts, items, false))
  {
    HeaderMeans(codecs, texts, items);
    r := DecodeHeader(codecs, Header(texts, items));
  }

  // ----- headers without words

  /** A word that can be decoded starts at position p. */
  predicate WordAt(codecs: Codecs, header: seq<byte>, p: nat, w: Written) {
    && Shaped(w) && DecodeContent(codecs, w.encoding, w.text).Some?
    && p + |Bytes(w)| <= |header| && header[p..p + |Bytes(w)|] == Bytes(w)
  }

  /** What is found is a word as it is written. */
  lemma FoundIsWritten(header: seq<byte>)
    requires FindWord(header).Some?
    ensures var f := FindWord(header).value;
      var w := Written(f.charset, f.encoding, f.text);
      Shaped(w) && f.end == f.start + |Bytes(w)| <= |header| && header[f.start..f.end] == Bytes(w)
  {
    var start := FirstIndex(header, OPEN);
    FirstOccurs(header, OPEN);
    var rest := header[start + 2..];
    var i := FirstIndex(rest, [QUESTION]);
    FirstIndexIsFirst(rest, [QUESTION]);
    var cur2 := start + 2 + i + 3;
    var back := header[cur2..];
    var j := FirstIndex(back, CLOSE_WORD);
    FirstIndexIsFirst(back, CLOSE_WORD);
    CharsetEnds(rest, i);
    TextEnds(back, j);
    var w := Written(rest[..i], header[start + 2 + i + 1], back[..j]);
    assert rest[i..i + 1] == [QUESTION] && back[j..j + 2] == CLOSE_WORD;
    assert header[start + 2..start + 2 + i] == rest[..i] && header[cur2..cur2 + j] == back[..j];
    assert FindWord(header) == Some(Span(start, w.charset, w.encoding, w.text, start + |Bytes(w)|));
    Assembled(header, start, w);
  }

  lemma Assembled(header: seq<byte>, start: nat, w: Written)
    requires start + |Bytes(w)| <= |header| && header[start..start + 2] == OPEN
    requires var rest, n := header[start + 2..], |w.charset|;
      && rest[..n] == w.charset && rest[n..n + 1] == [QUESTION] && header[start + n + 3] == w.encoding
      && header[start + n + 4] == QUESTION
    requires var back, j := header[start + |w.charset| + 5..], |w.text|;
      back[..j] == w.text && back[j..j + 2] == CLOSE_WORD
    ensures header[start..start + |Bytes(w)|] == Bytes(w)
  {
    var n, j := |w.charset|, |w.text|;
    var rest, back := header[start + 2..], header[start + n + 5..];
    assert back[..j + 2] == w.text + CLOSE_WORD by { assert back[..j + 2] == back[..j] + back[j..j + 2]; }
    assert rest[..n + 1] == w.charset + [QUESTION] by { assert rest[..n + 1] == rest[..n] + rest[n..n + 1]; }
    var middle := header[start + n + 3..start + n + 5];
    assert middle == [w.encoding, QUESTION];
    assert header[start..start + |Bytes(w)|] == header[start..start + 2] + rest[..n + 1] + middle + back[..j + 2];
    assert w.charset + [QUESTION] + [w.encoding, QUESTION] == w.charset + [QUESTION, w.encoding, QUESTION];
  }

  lemma CharsetEnds(s: seq<byte>, i: nat)
    requires i <= |s| && IsFirst(s, [QUESTION], i)
    ensures QUESTION !in s[..i]
  {
    forall k | 0 <= k < i ensures s[k] != QUESTION {
      assert !OccursAt(s, [QUESTION], k);
      assert s[k..k + 1] == [s[k]];
    }
  }

  lemma TextEnds(s: seq<byte>, j: nat)
    requires j <= |s| && IsFirst(s, CLOSE_WORD, j)
    ensures !Has(s[..j], QUESTION, EQUALS)
  {
    forall k | 0 <= k < j - 1 ensures !(s[k] == QUESTION && s[k + 1] == EQUALS) {
      assert !OccursAt(s, CLOSE_WORD, k);
      OccursBytes(s, QUESTION, EQUALS, k);
    }
  }

  lemma {:induction false} NothingFound(codecs: Codecs, header: seq<byte>, between: bool)
    requires forall p: nat, w :: !WordAt(codecs, header, p, w)
    ensures DecodeFrom(codecs, header, between) == Some(header)
    decreases |header|
  {
    hide DecodeContent, Convert, Shaped, Bytes, FindWord;
    var found := FindWord(header);
    if found.Some? {
      var f := found.value;
      FoundIsWritten(header);
      assert !WordAt(codecs, header, f.start, Written(f.charset, f.encoding, f.text));
      var rest := header[f.start + 2..];
      forall p: nat, w ensures !WordAt(codecs, rest, p, w) {
        WordFurther(codecs, header, f.start + 2, p, w);
      }
      NothingFound(codecs, rest, false);
      assert header[..f.start + 2] + rest == header;
    }
  }

  /** A header in which no encoded-word can be decoded comes back unchanged. */
  lemma NoWordNoChange(codecs: Codecs, header: seq<byte>)
    requires forall p: nat, w :: !WordAt(codecs, header, p, w)
    ensures Decoded(codecs, header) == Some(header)
  {
    hide DecodeFrom, WordAt;
    var i := FirstIndex(header, OPEN);
    if i >= 0 {
      FirstOccurs(header, OPEN);
      forall p: nat, w ensures !WordAt(codecs, header[i..], p, w) {
        WordFurther(codecs, header, i, p, w);
      }
      NothingFound(codecs, header[i..], false);
      assert header[..i] + header[i..] == header;
    }
  }

  lemma WordFurther(codecs: Codecs, header: seq<byte>, i: nat, p: nat, w: Written)
    requires i <= |header|
    ensures WordAt(codecs, header[i..], p, w) ==> WordAt(codecs, header, i + p, w)
  {
    hide DecodeContent, Shaped, Bytes;
    if WordAt(codecs, header[i..], p, w) {
      assert header[i + p..i + p + |Bytes(w)|] == header[i..][p..p + |Bytes(w)|];
    }
  }
}
