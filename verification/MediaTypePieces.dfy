/** A parameter value written in numbered pieces (sections 3 and 4 of RFC 2231):
    however it is cut, and in whatever order the pieces stand, ParseMediaType puts it
    together again. */
module MediaTypePieces {
  import opened Common
  import opened ByteIndex
  import opened MimeGrammar
  import opened MediaType
  import opened MediaTypeRoundTrip
  import Format = FormatInteger
  import Percent = PercentCoding

  /** A piece of the value, written plain or percent-encoded, or a starred piece that
      cannot be decoded, which counts as empty. */
  datatype Piece = Plain(text: seq<byte>) | Encoded(text: seq<byte>) | Broken(raw: seq<byte>)

  /** A plain piece has no byte that needs encoding.  An encoded one, except the
      first with its charset, must not be empty: there would be no value to read. */
  predicate Writable(p: Piece, k: nat) {
    match p
    case Plain(text) => AllPlain(text)
    case Encoded(text) => k == 0 || text != []
    case Broken(raw) => IsToken(raw) && (if k == 0 then Decode2231(raw) else Percent.Decode(raw)).None?
  }

  /** What a piece adds to the value. */
  function Gives(p: Piece): seq<byte> {
    if p.Broken? then [] else p.text
  }

  predicate AllWritable(pieces: seq<Piece>) {
    forall k :: 0 <= k < |pieces| ==> Writable(pieces[k], k)
  }

  /** The value that has been cut into these pieces. */
  function Whole(pieces: seq<Piece>): seq<byte> {
    if pieces == [] then [] else Gives(pieces[0]) + Whole(pieces[1..])
  }

  /** key*k, with a star behind it unless the piece is plain. */
  function NameOf(key: seq<byte>, p: Piece, k: nat): seq<byte> {
    PartName(key, k) + if p.Plain? then [] else [STAR]
  }

  /** The value as it is collected, before decoding. */
  function RawOf(p: Piece, k: nat): seq<byte> {
    match p
    case Plain(text) => text
    case Encoded(text) => (if k == 0 then UTF_8 + [APOSTROPHE, APOSTROPHE] else []) + Percent.Encode(text)
    case Broken(raw) => raw
  }

  /** How the value is written. */
  function TextOf(p: Piece, k: nat): seq<byte> {
    if !p.Plain? || IsToken(p.text) then RawOf(p, k) else [QUOTE] + Quoted(p.text) + [QUOTE]
  }

  function WritePiece(key: seq<byte>, p: Piece, k: nat): seq<byte> {
    [SEMICOLON, SPACE] + NameOf(key, p, k) + [EQUALS] + TextOf(p, k)
  }

  predicate Below(order: seq<nat>, pieces: seq<Piece>) {
    forall i :: 0 <= i < |order| ==> order[i] < |pieces|
  }

  /** Each piece is written once, in this order. */
  predicate Orders(order: seq<nat>, pieces: seq<Piece>) {
    && Below(order, pieces)
    && (forall i, j :: 0 <= i < j < |order| ==> order[i] != order[j])
    && (forall k :: 0 <= k < |pieces| ==> k in order)
  }

  function WritePieces(key: seq<byte>, pieces: seq<Piece>, order: seq<nat>): seq<byte>
    requires Below(order, pieces)
  {
    if order == [] then [] else WritePiece(key, pieces[order[0]], order[0]) + WritePieces(key, pieces, order[1..])
  }

  // ----- one piece is read back

  lemma {:induction false} DigitsOnly(n: nat)
    ensures forall i :: 0 <= i < |Format.Numeral(n, 10, Format.L_DIGITS)| ==>
      48 <= Format.Numeral(n, 10, Format.L_DIGITS)[i] <= 57
    decreases n
  {
    if n >= 10 {
      DigitsOnly(Format.Quotient(n, 10));
    }
  }

  /** A piece's name is a token in lower case whose first star ends the key. */
  lemma NameIsToken(key: seq<byte>, p: Piece, k: nat)
    requires IsName(key)
    ensures var name := NameOf(key, p, k);
      IsToken(name) && Lower(name) == name && |name| > |key| && name[..|key|] == key && IndexByte(name, STAR) == |key|
  {
    var name := NameOf(key, p, k);
    DigitsOnly(k);
    var digits := Format.Numeral(k, 10, Format.L_DIGITS);
    hide Format.Numeral;
    assert name[..|key|] == key && name[|key|] == STAR;
    IndexByteUnique(name, STAR, |key|);
    forall i | 0 <= i < |name| ensures IsTokenChar(name[i]) && LowerByte(name[i]) == name[i] {
      if i < |key| {
        assert name[i] == key[i] && Lower(key)[i] == LowerByte(key[i]);
      } else if |key| < i <= |key| + |digits| {
        assert name[i] == digits[i - |key| - 1];
      } else {
        assert name[i] == STAR;
      }
    }
    assert Lower(name) == name;
  }

  lemma RawIsToken(p: Piece, k: nat)
    requires p.Encoded?
    ensures AllTokenChars(RawOf(p, k))
  {
    Percent.EncodeIsToken(p.text);
    var enc, raw := Percent.Encode(p.text), RawOf(p, k);
    forall i | 0 <= i < |raw| ensures IsTokenChar(raw[i]) {
      if k == 0 && i >= 7 { assert raw[i] == enc[i - 7]; }
    }
  }

  lemma {:induction false} EncodedIsLonger(s: seq<byte>)
    ensures |Percent.Encode(s)| >= |s|
    decreases s
  {
    if s != [] {
      EncodedIsLonger(s[..|s| - 1]);
    }
  }

  lemma TextConsumed(p: Piece, k: nat, rest: seq<byte>)
    requires Writable(p, k) && EndsParam(rest)
    ensures ConsumeValueSpec(TextOf(p, k) + rest) == (RawOf(p, k), rest)
    ensures TextOf(p, k) != [] && !IsSpace(TextOf(p, k)[0])
  {
    if !p.Plain? {
      if p.Encoded? {
        RawIsToken(p, k);
        EncodedIsLonger(p.text);
      }
      TokenValueConsumed(RawOf(p, k), rest);
      assert IsTokenChar(RawOf(p, k)[0]);
    } else if IsToken(p.text) {
      TokenValueConsumed(p.text, rest);
      assert IsTokenChar(p.text[0]);
    } else {
      QuotedConsumed(p.text, rest);
    }
  }

  lemma PieceRead(key: seq<byte>, p: Piece, k: nat, rest: seq<byte>)
    requires IsName(key) && Writable(p, k) && EndsParam(rest)
    ensures ConsumeMediaParam(WritePiece(key, p, k) + rest) == MediaParam(NameOf(key, p, k), RawOf(p, k), rest)
  {
    var name, text := NameOf(key, p, k), TextOf(p, k);
    NameIsToken(key, p, k);
    TextConsumed(p, k, rest);
    ReadBack(name, text, RawOf(p, k), rest);
  }

  /** "; name=text" is read as name and value. */
  lemma ReadBack(name: seq<byte>, text: seq<byte>, value: seq<byte>, rest: seq<byte>)
    requires IsToken(name) && Lower(name) == name && text != [] && !IsSpace(text[0])
    requires ConsumeValueSpec(text + rest) == (value, rest)
    ensures ConsumeMediaParam([SEMICOLON, SPACE] + name + [EQUALS] + text + rest) == MediaParam(name, value, rest)
  {
    hide ConsumeMediaParam, ConsumeValueSpec, ConsumeToken, TrimLeft;
    var r1 := [EQUALS] + text + rest;
    var named := name + r1;
    var v := [SEMICOLON, SPACE] + named;
    assert [SEMICOLON, SPACE] + name + [EQUALS] + text + rest == v;
    assert IsTokenChar(name[0]) && named[0] == name[0];
    NameReached(named);
    TokenConsumed(name, r1);
    TrimLeftNone(r1);
    assert r1[1..] == text + rest;
    TrimLeftNone(text + rest);
    ConsumeParts(v, named, name, r1, text + rest, value, rest);
  }

  // ----- all the pieces are collected

  /** The pieces collected so far. */
  function Gathered(key: seq<byte>, pieces: seq<Piece>, order: seq<nat>): Params
    requires Below(order, pieces)
  {
    if order == [] then map[]
    else
      var k := order[|order| - 1];
      Gathered(key, pieces, order[..|order| - 1])[NameOf(key, pieces[k], k) := RawOf(pieces[k], k)]
  }

  function InGroup(key: seq<byte>, pieces: Params): Continuation {
    if pieces == map[] then map[] else map[key := pieces]
  }

  lemma NamesDiffer(key: seq<byte>, pieces: seq<Piece>, j: nat, k: nat)
    requires j < |pieces| && k < |pieces| && j != k
    ensures NameOf(key, pieces[j], j) != NameOf(key, pieces[k], k)
  {
    hide PartName;
    PartNamesDiffer(key, j, k);
    PartNamesDiffer(key, k, j);
    assert PartName(key, j) + [] == PartName(key, j) && PartName(key, k) + [] == PartName(key, k);
  }

  /** Gathered has exactly the pieces of the order. */
  lemma {:induction false} GatheredPiece(key: seq<byte>, pieces: seq<Piece>, order: seq<nat>, k: nat)
    requires Below(order, pieces) && k < |pieces|
    ensures k in order ==>
      var name := NameOf(key, pieces[k], k);
      name in Gathered(key, pieces, order) && Gathered(key, pieces, order)[name] == RawOf(pieces[k], k)
    ensures k !in order ==> NameOf(key, pieces[k], k) !in Gathered(key, pieces, order)
    decreases order
  {
    hide NameOf, RawOf;
    if order != [] {
      var n := |order| - 1;
      assert order == order[..n] + [order[n]];
      GatheredPiece(key, pieces, order[..n], k);
      if order[n] != k { NamesDiffer(key, pieces, order[n], k); }
    }
  }

  lemma {:induction false} GatheredOnly(key: seq<byte>, pieces: seq<Piece>, order: seq<nat>, name: seq<byte>)
    requires Below(order, pieces) && name in Gathered(key, pieces, order)
    ensures exists k: nat :: k < |pieces| && k in order && name == NameOf(key, pieces[k], k)
    decreases order
  {
    hide NameOf, RawOf;
    var n := |order| - 1;
    assert order == order[..n] + [order[n]];
    if name != NameOf(key, pieces[order[n]], order[n]) {
      GatheredOnly(key, pieces, order[..n], name);
    }
  }

  lemma WriteEnds(key: seq<byte>, pieces: seq<Piece>, order: seq<nat>)
    requires Below(order, pieces)
    ensures EndsParam(WritePieces(key, pieces, order))
  {
    if order != [] {
      assert WritePiece(key, pieces[order[0]], order[0])[0] == SEMICOLON;
    }
  }

  /** Collecting one piece more. */
  lemma CollectPiece(key: seq<byte>, pieces: seq<Piece>, done: seq<nat>, k: nat, rest: seq<byte>)
    requires IsName(key) && AllWritable(pieces) && k < |pieces| && k !in done && EndsParam(rest)
    requires Below(done, pieces)
    ensures Collect(WritePiece(key, pieces[k], k) + rest, map[], InGroup(key, Gathered(key, pieces, done)))
         == Collect(rest, map[], InGroup(key, Gathered(key, pieces, done + [k])))
  {
    hide ConsumeMediaParam, NameOf, RawOf, TextOf, TrimLeft, IsName;
    var v := WritePiece(key, pieces[k], k) + rest;
    var name, value, before := NameOf(key, pieces[k], k), RawOf(pieces[k], k), Gathered(key, pieces, done);
    TrimLeftNone(v);
    PieceRead(key, pieces[k], k, rest);
    NameIsToken(key, pieces[k], k);
    GatheredPiece(key, pieces, done, k);
    assert (done + [k])[..|done|] == done;
    assert Gathered(key, pieces, done + [k]) == before[name := value];
    JoinsGroup(key, name, value, before);
  }

  lemma JoinsGroup(key: seq<byte>, name: seq<byte>, value: seq<byte>, before: Params)
    requires IndexByte(name, STAR) == |key| <= |name| && name[..|key|] == key && name !in before
    ensures name !in Group(name, map[], InGroup(key, before))
    ensures AddTo(name, value, map[], InGroup(key, before)) == (map[], InGroup(key, before[name := value]))
  {
    var group := before[name := value];
    assert name in group && group != map[];
    assert InGroup(key, before)[key := group] == map[key := group];
  }

  lemma {:induction false} CollectPieces(key: seq<byte>, pieces: seq<Piece>, done: seq<nat>, order: seq<nat>)
    requires IsName(key) && AllWritable(pieces)
    requires Below(done, pieces) && Below(order, pieces) && Orders(done + order, pieces)
    ensures Collect(WritePieces(key, pieces, order), map[], InGroup(key, Gathered(key, pieces, done)))
         == All(map[], InGroup(key, Gathered(key, pieces, done + order)))
    decreases order
  {
    hide Collect, WritePiece, Gathered, InGroup, IsName;
    if order == [] {
      assert done + [] == done;
      NothingToCollect(InGroup(key, Gathered(key, pieces, done)));
    } else {
      var k := order[0];
      assert (done + order)[|done|] == k;
      assert order == [k] + order[1..] && done + order == (done + [k]) + order[1..];
      forall i | 0 <= i < |done| ensures done[i] != k {
        assert (done + order)[i] == done[i];
      }
      WriteEnds(key, pieces, order[1..]);
      CollectPiece(key, pieces, done, k, WritePieces(key, pieces, order[1..]));
      CollectPieces(key, pieces, done + [k], order[1..]);
    }
  }

  lemma NothingToCollect(continuation: Continuation)
    ensures Collect([], map[], continuation) == All(map[], continuation)
  {
    TrimLeftNone([]);
  }

  // ----- the pieces are put together

  lemma DecodePiece(p: Piece, k: nat)
    requires p.Encoded?
    ensures (if k == 0 then Decode2231(RawOf(p, k)) else Percent.Decode(RawOf(p, k))) == Some(p.text)
  {
    Percent.DecodeEncode(p.text);
    var v := RawOf(p, k);
    if k == 0 {
      assert v[..5] == UTF_8;
      IndexByteUnique(v, APOSTROPHE, 5);
      var w := v[6..];
      assert w == [APOSTROPHE] + Percent.Encode(p.text);
      assert w[..0] == [];
      IndexByteUnique(w, APOSTROPHE, 0);
      assert w[1..] == Percent.Encode(p.text);
      assert Lower(UTF_8) == UTF_8;
    } else {
      assert v == Percent.Encode(p.text);
    }
  }

  /** Each piece gives its text, and there is none after the last. */
  lemma PieceText(key: seq<byte>, pieces: seq<Piece>, order: seq<nat>, k: nat)
    requires Orders(order, pieces) && AllWritable(pieces) && k <= |pieces|
    ensures PartText(key, Gathered(key, pieces, order), k) == if k < |pieces| then Some(Gives(pieces[k])) else None
  {
    hide RawOf, PartName, Gathered, Decode2231;
    var all, simple := Gathered(key, pieces, order), PartName(key, k);
    assert simple + [] == simple;
    if k < |pieces| {
      GatheredPiece(key, pieces, order, k);
      if !pieces[k].Plain? {
        if pieces[k].Encoded? { DecodePiece(pieces[k], k); } else { BrokenRaw(pieces[k], k); }
        if simple in all { OnlyItsPiece(key, pieces, order, k, simple); LastDigit(key, k); }
      } else {
        assert RawOf(pieces[k], k) == pieces[k].text by { PlainRaw(pieces[k], k); }
      }
    } else {
      if simple in all { OnlyItsPiece(key, pieces, order, k, simple); }
      if simple + [STAR] in all { OnlyItsPiece(key, pieces, order, k, simple + [STAR]); }
    }
  }

  lemma BrokenRaw(p: Piece, k: nat)
    requires p.Broken? && Writable(p, k)
    ensures (if k == 0 then Decode2231(RawOf(p, k)) else Percent.Decode(RawOf(p, k))).None?
  {
  }

  lemma PlainRaw(p: Piece, k: nat)
    requires p.Plain?
    ensures RawOf(p, k) == p.text
  {
  }

  lemma OnlyItsPiece(key: seq<byte>, pieces: seq<Piece>, order: seq<nat>, k: nat, name: seq<byte>)
    requires Orders(order, pieces) && IsPart(key, k, name) && name in Gathered(key, pieces, order)
    ensures k < |pieces| && name == NameOf(key, pieces[k], k)
  {
    hide PartName, Gathered;
    GatheredOnly(key, pieces, order, name);
    var j: nat :| j < |pieces| && j in order && name == NameOf(key, pieces[j], j);
    PartNamesDiffer(key, j, k);
    PartNamesDiffer(key, k, j);
    assert PartName(key, j) + [] == PartName(key, j);
  }

  lemma {:induction false} WholeSnoc(pieces: seq<Piece>, p: Piece)
    ensures Whole(pieces + [p]) == Whole(pieces) + Gives(p)
    decreases pieces
  {
    if pieces == [] {
      assert [p][1..] == [];
    } else {
      assert (pieces + [p])[1..] == pieces[1..] + [p];
      WholeSnoc(pieces[1..], p);
    }
  }

  /** The first n pieces make up the text before the cut. */
  lemma {:induction false} PiecesSoFar(key: seq<byte>, pieces: seq<Piece>, order: seq<nat>, n: nat)
    requires Orders(order, pieces) && AllWritable(pieces) && n <= |pieces|
    ensures PartsBefore(key, Gathered(key, pieces, order), n) == Some(Whole(pieces[..n]))
    decreases n
  {
    hide PartText, Gathered;
    if n > 0 {
      PiecesSoFar(key, pieces, order, n - 1);
      PieceText(key, pieces, order, n - 1);
      WholeSnoc(pieces[..n - 1], pieces[n - 1]);
      assert pieces[..n] == pieces[..n - 1] + [pieces[n - 1]];
    }
  }

  /** Stitching gives the value that was cut. */
  lemma PiecesStitched(key: seq<byte>, pieces: seq<Piece>, order: seq<nat>)
    requires Orders(order, pieces) && AllWritable(pieces) && pieces != []
    ensures IsStitched(key, Gathered(key, pieces, order), Some(Whole(pieces)))
  {
    hide PartText, Gathered, PartsBefore;
    var all := Gathered(key, pieces, order);
    PieceText(key, pieces, order, |pieces|);
    PiecesSoFar(key, pieces, order, |pieces|);
    assert pieces[..|pieces|] == pieces;
    if key + [STAR] in all {
      GatheredOnly(key, pieces, order, key + [STAR]);
      assert false;
    }
  }

  lemma MergedOne(key: seq<byte>, pieces: Params, value: seq<byte>, merged: Params)
    requires IsMerged(map[], map[key := pieces], merged) && IsStitched(key, pieces, Some(value))
    ensures merged == map[key := value]
  {
    hide IsStitched;
    forall k ensures Lookup(merged, k) == Lookup(map[key := value], k) {
      if k == key {
        var v := MergedValue(map[], map[key := pieces], merged, k);
        StitchedUnique(key, pieces, v, Some(value));
      } else if k in merged {
        assert MergedAt(map[], map[key := pieces], merged, k);
      }
    }
    SameLookups(merged, map[key := value]);
  }

  /** However a value is cut into pieces, each written plain or percent-encoded under
      its number, and in whatever order they stand: parsing gives the value back.  A
      piece that cannot be decoded adds nothing and does not end the value. */
  lemma PiecesRoundTrip(t: seq<byte>, key: seq<byte>, pieces: seq<Piece>, order: seq<nat>, r: ParseResult)
    requires IsType(t) && IsName(key) && pieces != [] && AllWritable(pieces) && Orders(order, pieces)
    requires IsParsed(Lower(t) + WritePieces(key, pieces, order), r)
    ensures r == Parsed(Lower(t), map[key := Whole(pieces)])
  {
    hide Collect, Gathered, WritePieces, IsMerged, IsStitched, Lower, TrimSpace, CheckDisposition, IsType, IsName;
    WriteEnds(key, pieces, order);
    TypeEnds(t, WritePieces(key, pieces, order));
    TypeTrimmed(t);
    TypeAccepted(t);
    assert [] + order == order;
    CollectPieces(key, pieces, [], order);
    NothingGathered(key, pieces);
    GatheredPiece(key, pieces, order, 0);
    PiecesStitched(key, pieces, order);
    MergedOne(key, Gathered(key, pieces, order), Whole(pieces), r.params);
  }

  lemma NothingGathered(key: seq<byte>, pieces: seq<Piece>)
    ensures Gathered(key, pieces, []) == map[]
  {
  }

  /** ParseMediaType on the written pieces. */
  method ParsePieces(t: seq<byte>, key: seq<byte>, pieces: seq<Piece>, order: seq<nat>) returns (r: ParseResult)
    requires IsType(t) && IsName(key) && pieces != [] && AllWritable(pieces) && Orders(order, pieces)
    ensures r == Parsed(Lower(t), map[key := Whole(pieces)])
  {
    r := ParseMediaType(Lower(t) + WritePieces(key, pieces, order));
    PiecesRoundTrip(t, key, pieces, order, r);
  }
}
