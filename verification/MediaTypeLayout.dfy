/** ParseMediaType on text that was not written by FormatMediaType: white space, upper
    case, quoting and errors (src/mime/mediatype.go:104-391). */
module MediaTypeLayout {
  import opened Common
  import opened ByteIndex
  import opened MimeGrammar
  import opened MediaType
  import opened MediaTypeRoundTrip
  import Percent = PercentCoding

  predicate Blanks(s: seq<byte>) {
    forall i :: 0 <= i < |s| ==> IsSpace(s[i])
  }

  // ----- quoted strings

  /** A byte of a quoted string: alone, or behind a backslash. */
  datatype Quotable = Char(c: byte) | Pair(c: byte)

  predicate IsQuotable(x: Quotable) {
    x.c != 13 && x.c != 10 && (x.Char? ==> x.c != QUOTE && x.c != BACKSLASH)
  }

  function QuotableText(xs: seq<Quotable>): seq<byte> {
    if xs == [] then []
    else (if xs[0].Char? then [xs[0].c] else [BACKSLASH, xs[0].c]) + QuotableText(xs[1..])
  }

  /** A backslash escapes the special characters of RFC 2045; before another byte it
      stands for itself. */
  function QuotableValue(xs: seq<Quotable>): seq<byte> {
    if xs == [] then []
    else (if xs[0].Char? || IsTSpecial(xs[0].c) then [xs[0].c] else [BACKSLASH, xs[0].c]) + QuotableValue(xs[1..])
  }

  lemma {:induction false} QuotedString(xs: seq<Quotable>, rest: seq<byte>)
    requires forall i :: 0 <= i < |xs| ==> IsQuotable(xs[i])
    ensures Unquote(QuotableText(xs) + [QUOTE] + rest) == Some((QuotableValue(xs), rest))
    decreases xs
  {
    if xs == [] {
      assert ([] + [QUOTE] + rest)[1..] == rest;
    } else {
      var x, later := xs[0], QuotableText(xs[1..]) + [QUOTE] + rest;
      QuotedString(xs[1..], rest);
      OneQuotable(x, later);
      var front := if x.Char? then [x.c] else [BACKSLASH, x.c];
      assert QuotableText(xs) + [QUOTE] + rest == front + later;
    }
  }

  lemma OneQuotable(x: Quotable, v: seq<byte>)
    requires IsQuotable(x) && Unquote(v).Some?
    ensures Unquote((if x.Char? then [x.c] else [BACKSLASH, x.c]) + v)
         == Some(((if x.Char? || IsTSpecial(x.c) then [x.c] else [BACKSLASH, x.c]) + Unquote(v).value.0,
                  Unquote(v).value.1))
  {
    assert ([x.c] + v)[1..] == v;
    if x.Pair? {
      var w := [BACKSLASH, x.c] + v;
      assert w[2..] == v && w[1..] == [x.c] + v;
      if !IsTSpecial(x.c) {
        assert [BACKSLASH] + ([x.c] + Unquote(v).value.0) == [BACKSLASH, x.c] + Unquote(v).value.0;
      }
    }
  }

  /** A quoted string must end, and have no line end. */
  lemma {:induction false} NoQuotedString(xs: seq<Quotable>, rest: seq<byte>)
    requires forall i :: 0 <= i < |xs| ==> IsQuotable(xs[i])
    requires rest == [] || rest[0] == 13 || rest[0] == 10
    ensures Unquote(QuotableText(xs) + rest).None?
    decreases xs
  {
    if xs == [] {
      assert [] + rest == rest;
    } else {
      var x, later := xs[0], QuotableText(xs[1..]) + rest;
      NoQuotedString(xs[1..], rest);
      var front := if x.Char? then [x.c] else [BACKSLASH, x.c];
      assert QuotableText(xs) + rest == front + later;
      assert ([x.c] + later)[1..] == later;
      if x.Pair? {
        assert (front + later)[2..] == later && (front + later)[1..] == [x.c] + later;
      }
    }
  }

  // ----- one parameter

  datatype Value = Token(text: seq<byte>) | QuotedValue(xs: seq<Quotable>)

  /** A parameter as it stands in a text, with white space before the semicolon, after
      it, and on both sides of the equals sign. */
  datatype Param = Param(before: seq<byte>, after: seq<byte>, name: seq<byte>, middle: seq<byte>, behind: seq<byte>,
                         value: Value)

  predicate IsParam(p: Param) {
    && Blanks(p.before) && Blanks(p.after) && Blanks(p.middle) && Blanks(p.behind)
    && IsToken(p.name) && STAR !in p.name
    && match p.value
       case Token(text) => IsToken(text)
       case QuotedValue(xs) => forall i :: 0 <= i < |xs| ==> IsQuotable(xs[i])
  }

  function ValueText(v: Value): seq<byte> {
    match v
    case Token(text) => text
    case QuotedValue(xs) => [QUOTE] + QuotableText(xs) + [QUOTE]
  }

  function ValueMeant(v: Value): seq<byte> {
    match v
    case Token(text) => text
    case QuotedValue(xs) => QuotableValue(xs)
  }

  function ParamText(p: Param): seq<byte> {
    p.before + [SEMICOLON] + (p.after + (p.name + (p.middle + [EQUALS] + (p.behind + ValueText(p.value)))))
  }

  predicate EndsToken(rest: seq<byte>) {
    rest == [] || !IsTokenChar(rest[0])
  }

  lemma TrimBlanks(blanks: seq<byte>, s: seq<byte>)
    requires Blanks(blanks) && (s == [] || !IsSpace(s[0]))
    ensures TrimLeft(blanks + s) == s
  {
    SpacesAre(blanks + s, 0, |blanks|);
    assert (blanks + s)[|blanks|..] == s;
  }

  lemma {:induction false} SpacesAre(s: seq<byte>, i: nat, e: nat)
    requires i <= e <= |s| && (forall k :: i <= k < e ==> IsSpace(s[k])) && (e == |s| || !IsSpace(s[e]))
    ensures SpacesEnd(s, i) == e
    decreases e - i
  {
    if i < e {
      SpacesAre(s, i + 1, e);
    }
  }

  lemma ValueRead(v: Value, rest: seq<byte>)
    requires v.Token? ==> IsToken(v.text)
    requires v.QuotedValue? ==> forall i :: 0 <= i < |v.xs| ==> IsQuotable(v.xs[i])
    requires EndsToken(rest)
    ensures ConsumeValueSpec(ValueText(v) + rest) == (ValueMeant(v), rest)
    ensures ValueText(v) != [] && !IsSpace(ValueText(v)[0])
  {
    match v
    case Token(text) =>
      assert IsTokenChar(text[0]) && (text + rest)[0] == text[0];
      TokenConsumed(text, rest);
    case QuotedValue(xs) =>
      QuotedString(xs, rest);
      assert (ValueText(v) + rest)[1..] == QuotableText(xs) + [QUOTE] + rest;
  }

  lemma LowerNotEmpty(s: seq<byte>)
    ensures |Lower(s)| == |s|
  {
  }

  /** However it is spaced and spelled, the parameter is read with its name in lower case. */
  lemma ParamRead(p: Param, rest: seq<byte>)
    requires IsParam(p) && EndsToken(rest)
    ensures ConsumeMediaParam(ParamText(p) + rest) == MediaParam(Lower(p.name), ValueMeant(p.value), rest)
  {
    hide TrimLeft, ConsumeToken, ConsumeValueSpec, ValueText, ValueMeant, Lower;
    var text := ValueText(p.value);
    ValueRead(p.value, rest);
    var r3 := text + rest;
    var r2 := [EQUALS] + (p.behind + r3);
    var r1 := p.middle + r2;
    var r0 := [SEMICOLON] + (p.after + (p.name + r1));
    ParamParts(p, text, rest);
    assert IsTokenChar(p.name[0]);
    TrimBlanks(p.before, r0);
    assert r0[1..] == p.after + (p.name + r1);
    TrimBlanks(p.after, p.name + r1);
    TokenEndsHere(p.middle, r2);
    TokenConsumed(p.name, r1);
    LowerNotEmpty(p.name);
    TrimBlanks(p.middle, r2);
    assert r2[1..] == p.behind + r3;
    TrimBlanks(p.behind, r3);
  }

  lemma TokenEndsHere(middle: seq<byte>, r2: seq<byte>)
    requires Blanks(middle) && r2 != [] && r2[0] == EQUALS
    ensures !IsTokenChar((middle + r2)[0])
  {
    if middle != [] { assert IsSpace(middle[0]); }
  }

  lemma ParamParts(p: Param, text: seq<byte>, rest: seq<byte>)
    requires text == ValueText(p.value)
    ensures ParamText(p) + rest
         == p.before + ([SEMICOLON] + (p.after + (p.name + (p.middle + ([EQUALS] + (p.behind + (text + rest)))))))
  {
    hide ValueText;
    var a := p.behind + text;
    var b := p.middle + [EQUALS] + a;
    var c := p.name + b;
    var d := p.after + c;
    assert a + rest == p.behind + (text + rest);
    assert b + rest == p.middle + ([EQUALS] + (a + rest));
    assert c + rest == p.name + (b + rest);
    assert d + rest == p.after + (c + rest);
    assert p.before + [SEMICOLON] + d + rest == p.before + ([SEMICOLON] + (d + rest));
  }

  // ----- all the parameters

  function ParamTexts(ps: seq<Param>): seq<byte> {
    if ps == [] then [] else ParamText(ps[0]) + ParamTexts(ps[1..])
  }

  /** Each name, in lower case, with its value. */
  function Meant(ps: seq<Param>): Params {
    if ps == [] then map[]
    else Meant(ps[..|ps| - 1])[Lower(ps[|ps| - 1].name) := ValueMeant(ps[|ps| - 1].value)]
  }

  predicate AreParams(ps: seq<Param>) {
    forall i :: 0 <= i < |ps| ==> IsParam(ps[i])
  }

  predicate NamesDiffer(ps: seq<Param>) {
    forall i, j :: 0 <= i < j < |ps| ==> Lower(ps[i].name) != Lower(ps[j].name)
  }

  lemma {:induction false} MeantNames(ps: seq<Param>, name: seq<byte>)
    ensures name in Meant(ps) <==> exists i :: 0 <= i < |ps| && Lower(ps[i].name) == name
    decreases ps
  {
    hide Lower, ValueMeant;
    if ps != [] {
      var n := |ps| - 1;
      MeantNames(ps[..n], name);
      assert forall i :: 0 <= i < n ==> ps[..n][i] == ps[i];
    }
  }

  lemma NameHasNoStar(name: seq<byte>)
    requires STAR !in name
    ensures IndexByte(Lower(name), STAR) == -1
  {
    forall i | 0 <= i < |name| ensures Lower(name)[i] != STAR {
      assert Lower(name)[i] == LowerByte(name[i]);
    }
  }

  lemma TextsEndToken(ps: seq<Param>, tail: seq<byte>)
    requires AreParams(ps) && Blanks(tail)
    ensures EndsToken(ParamTexts(ps) + tail)
  {
    if ps == [] {
      assert [] + tail == tail;
      if tail != [] { assert IsSpace(tail[0]); }
    } else if ps[0].before != [] {
      assert IsSpace(ps[0].before[0]);
    }
  }

  /** The white space in front of a parameter has no part in it. */
  lemma TrimmedParam(v: seq<byte>)
    requires ConsumeMediaParam(v).name != []
    ensures TrimLeft(v) != [] && ConsumeMediaParam(TrimLeft(v)) == ConsumeMediaParam(v)
  {
    hide ConsumeToken, ConsumeValueSpec;
    var w := TrimLeft(v);
    if w != [] { TrimLeftNone(w); }
  }

  lemma CollectParam(p: Param, rest: seq<byte>, done: Params)
    requires IsParam(p) && EndsToken(rest)
    ensures Collect(ParamText(p) + rest, done, map[])
         == if Lower(p.name) in done then Duplicate
            else Collect(rest, done[Lower(p.name) := ValueMeant(p.value)], map[])
  {
    hide ConsumeMediaParam, TrimLeft, ValueMeant, ParamText, Lower;
    ParamRead(p, rest);
    LowerNotEmpty(p.name);
    TrimmedParam(ParamText(p) + rest);
    NameHasNoStar(p.name);
  }

  lemma {:induction false} CollectParams(done: seq<Param>, ps: seq<Param>, tail: seq<byte>)
    requires AreParams(done + ps) && NamesDiffer(done + ps) && Blanks(tail)
    ensures Collect(ParamTexts(ps) + tail, Meant(done), map[]) == All(Meant(done + ps), map[])
    decreases ps
  {
    hide Collect, ParamText, ValueMeant, Lower, IsParam;
    if ps == [] {
      assert done + [] == done && [] + tail == tail;
      OnlyBlanks(tail, Meant(done));
    } else {
      var p := ps[0];
      assert done + ps == (done + [p]) + ps[1..] && (done + ps)[|done|] == p;
      assert forall i :: 0 <= i < |ps| - 1 ==> ps[1..][i] == (done + ps)[|done| + 1 + i];
      TextsEndToken(ps[1..], tail);
      Associate(ParamText(p), ParamTexts(ps[1..]), tail);
      CollectParam(p, ParamTexts(ps[1..]) + tail, Meant(done));
      NewName(done, p, ps[1..]);
      CollectParams(done + [p], ps[1..], tail);
      assert (done + [p])[..|done|] == done;
    }
  }

  lemma NewName(done: seq<Param>, p: Param, later: seq<Param>)
    requires NamesDiffer(done + [p] + later)
    ensures Lower(p.name) !in Meant(done)
  {
    hide Lower;
    var all := done + [p] + later;
    assert all[|done|] == p;
    MeantNames(done, Lower(p.name));
    assert forall i :: 0 <= i < |done| ==> all[i] == done[i];
  }

  lemma OnlyBlanks(tail: seq<byte>, done: Params)
    requires Blanks(tail)
    ensures Collect(tail, done, map[]) == All(done, map[])
  {
    assert tail + [] == tail;
    TrimBlanks(tail, []);
  }

  // ----- the type

  lemma {:induction false} TrimRightBlanks(s: seq<byte>, blanks: seq<byte>)
    requires Blanks(blanks) && (s == [] || !IsSpace(s[|s| - 1]))
    ensures TrimRight(s + blanks) == s
    decreases blanks
  {
    if blanks == [] {
      assert s + [] == s;
    } else {
      var n := |blanks| - 1;
      assert (s + blanks)[..|s + blanks| - 1] == s + blanks[..n];
      TrimRightBlanks(s, blanks[..n]);
    }
  }

  lemma LowerConcat(x: seq<byte>, y: seq<byte>)
    ensures Lower(x + y) == Lower(x) + Lower(y)
  {
    assert |Lower(x + y)| == |Lower(x) + Lower(y)|;
    forall i | 0 <= i < |x + y| ensures Lower(x + y)[i] == (Lower(x) + Lower(y))[i] {
      assert Lower(x + y)[i] == LowerByte((x + y)[i]);
      if i < |x| { assert Lower(x)[i] == LowerByte(x[i]); } else { assert Lower(y)[i - |x|] == LowerByte(y[i - |x|]); }
    }
  }

  lemma BlanksStay(s: seq<byte>)
    requires Blanks(s)
    ensures Lower(s) == s && SEMICOLON !in s
  {
    forall i | 0 <= i < |s| ensures Lower(s)[i] == s[i] { assert IsSpace(s[i]); }
    assert forall i :: 0 <= i < |s| ==> IsSpace(s[i]);
  }

  /** The type between white space, in upper or lower case. */
  lemma TypeRead(lead: seq<byte>, t: seq<byte>, trail: seq<byte>)
    requires IsType(t) && Blanks(lead) && Blanks(trail)
    ensures TrimSpace(Lower(lead + t + trail)) == Lower(t) && CheckDisposition(Lower(t)).None?
    ensures SEMICOLON !in lead + t + trail
  {
    hide CheckDisposition, TrimLeft, TrimRight;
    TypeAccepted(t);
    TypeTrimmed(t);
    LowerConcat(lead + t, trail);
    LowerConcat(lead, t);
    BlanksStay(lead);
    BlanksStay(trail);
    LowerTypeChars(t, 0);
    LowerTypeChars(t, |t| - 1);
    assert lead + Lower(t) + trail == lead + (Lower(t) + trail);
    TrimBlanks(lead, Lower(t) + trail);
    TrimRightBlanks(Lower(t), trail);
    NoSemicolon(lead, t, trail);
  }

  lemma NoSemicolon(lead: seq<byte>, t: seq<byte>, trail: seq<byte>)
    requires IsType(t) && Blanks(lead) && Blanks(trail)
    ensures SEMICOLON !in lead + t + trail
  {
    BlanksStay(lead);
    BlanksStay(trail);
    forall i | 0 <= i < |t| ensures t[i] != SEMICOLON {
      TypeChars(t, i);
    }
  }

  lemma TypeEndsAt(front: seq<byte>, rest: seq<byte>)
    requires SEMICOLON !in front && EndsParam(rest)
    ensures var v := front + rest;
      && (if SEMICOLON in v then IndexByte(v, SEMICOLON) else |v|) == |front|
      && v[..|front|] == front && v[|front|..] == rest
  {
    var v := front + rest;
    assert v[..|front|] == front;
    if rest != [] {
      assert v[|front|] == SEMICOLON;
      IndexByteUnique(v, SEMICOLON, |front|);
    } else {
      assert v == front;
    }
  }

  // ----- the text as a whole

  /** White space before the first semicolon counts to the type here. */
  predicate IsLayout(lead: seq<byte>, t: seq<byte>, trail: seq<byte>, ps: seq<Param>, tail: seq<byte>) {
    && IsType(t) && Blanks(lead) && Blanks(trail) && Blanks(tail) && AreParams(ps)
    && if ps == [] then tail == [] else ps[0].before == []
  }

  lemma LayoutParts(lead: seq<byte>, t: seq<byte>, trail: seq<byte>, ps: seq<Param>, tail: seq<byte>)
    requires IsLayout(lead, t, trail, ps, tail)
    ensures var v := lead + t + trail + (ParamTexts(ps) + tail);
      && (if SEMICOLON in v then IndexByte(v, SEMICOLON) else |v|) == |lead + t + trail|
      && TrimSpace(Lower(v[..|lead + t + trail|])) == Lower(t) && CheckDisposition(Lower(t)).None?
      && CollectedOf(v) == Collect(ParamTexts(ps) + tail, map[], map[])
  {
    hide Collect, TrimSpace, Lower, CheckDisposition, ValueText;
    TypeRead(lead, t, trail);
    var rest := ParamTexts(ps) + tail;
    if ps == [] {
      assert rest == [];
    } else {
      assert ParamText(ps[0])[0] == SEMICOLON;
    }
    TypeEndsAt(lead + t + trail, rest);
  }

  /** White space, the case of the type and of the names, and unneeded quotes and
      backslashes do not matter: parsing gives the type in lower case, and every name
      in lower case with its value. */
  lemma LayoutDoesNotMatter(lead: seq<byte>, t: seq<byte>, trail: seq<byte>, ps: seq<Param>, tail: seq<byte>,
                            r: ParseResult)
    requires IsLayout(lead, t, trail, ps, tail) && NamesDiffer(ps)
    requires IsParsed(lead + t + trail + (ParamTexts(ps) + tail), r)
    ensures r == Parsed(Lower(t), Meant(ps))
  {
    hide Collect, TrimSpace, Lower, CheckDisposition, ParamTexts, IsMerged, Meant, IsType, Blanks, IsParam;
    LayoutParts(lead, t, trail, ps, tail);
    assert [] + ps == ps;
    NothingMeant();
    CollectParams([], ps, tail);
    NoContinuation();
    MergedUnchanged(Meant(ps), map[], r.params);
  }

  lemma NothingMeant()
    ensures Meant([]) == map[]
  {
  }

  lemma NoContinuation()
    ensures forall params :: AddsNothing(params, map[])
  {
  }

  /** Two names that differ at most in case are an error, whatever comes behind them. */
  lemma SameNameTwice(lead: seq<byte>, t: seq<byte>, trail: seq<byte>, ps: seq<Param>, p: Param, tail: seq<byte>,
                      r: ParseResult)
    requires IsLayout(lead, t, trail, ps + [p], tail) && NamesDiffer(ps)
    requires exists i :: 0 <= i < |ps| && Lower(ps[i].name) == Lower(p.name)
    requires IsParsed(lead + t + trail + (ParamTexts(ps + [p]) + tail), r)
    ensures r == Failed(DuplicateName)
  {
    hide Collect, TrimSpace, Lower, CheckDisposition, ParamTexts, IsType, Blanks, IsParam;
    LayoutParts(lead, t, trail, ps + [p], tail);
    assert [] + ps == ps;
    NothingMeant();
    CollectTwice([], ps, p, tail);
  }

  lemma {:induction false} CollectTwice(done: seq<Param>, ps: seq<Param>, p: Param, tail: seq<byte>)
    requires AreParams(done + ps + [p]) && NamesDiffer(done + ps) && Blanks(tail)
    requires exists i :: 0 <= i < |done + ps| && Lower((done + ps)[i].name) == Lower(p.name)
    ensures Collect(ParamTexts(ps + [p]) + tail, Meant(done), map[]) == Duplicate
    decreases ps
  {
    hide Collect, ParamText, ValueMeant, Lower, IsParam;
    var q, later := (ps + [p])[0], (ps + [p])[1..];
    assert AreParams(ps + [p]) by {
      assert forall i :: 0 <= i < |ps + [p]| ==> (ps + [p])[i] == (done + ps + [p])[|done| + i];
    }
    TextsEndToken(later, tail);
    Associate(ParamText(q), ParamTexts(later), tail);
    CollectParam(q, ParamTexts(later) + tail, Meant(done));
    if ps == [] {
      assert done + [] == done;
      MeantNames(done, Lower(p.name));
    } else {
      assert done + ps == done + [q] + ps[1..] && later == ps[1..] + [p];
      NewName(done, q, ps[1..]);
      CollectTwice(done + [q], ps[1..], p, tail);
      assert (done + [q])[..|done|] == done;
    }
  }

  // ----- what is no type

  /** The errors of a type: no token at the front, no slash behind it, no token behind
      the slash, or something else behind that. */
  lemma TypeErrors(major: seq<byte>, sub: seq<byte>, rest: seq<byte>, c: byte)
    requires IsToken(major) && IsToken(sub) && !IsTokenChar(c)
    ensures CheckDisposition([]) == Some(NoMediaType) && CheckDisposition([c] + rest) == Some(NoMediaType)
    ensures c != SLASH ==> CheckDisposition(major + ([c] + rest)) == Some(ExpectedSlash)
    ensures CheckDisposition(major + [SLASH]) == Some(ExpectedSubtype)
    ensures CheckDisposition(major + ([SLASH] + ([c] + rest))) == Some(ExpectedSubtype)
    ensures CheckDisposition(major + ([SLASH] + (sub + ([c] + rest)))) == Some(UnexpectedContent)
  {
    hide ConsumeToken;
    var none: seq<byte> := [];
    TokenConsumed(none, none);
    TokenConsumed(none, [c] + rest);
    assert none + ([c] + rest) == [c] + rest && none + none == none;
    TokenConsumed(major, [c] + rest);
    TokenConsumed(major, [SLASH]);
    assert [SLASH][1..] == [];
    TokenConsumed(major, [SLASH] + ([c] + rest));
    assert ([SLASH] + ([c] + rest))[1..] == [c] + rest;
    TokenConsumed(major, [SLASH] + (sub + ([c] + rest)));
    assert ([SLASH] + (sub + ([c] + rest)))[1..] == sub + ([c] + rest);
    TokenConsumed(sub, [c] + rest);
  }

  // ----- charset and language

  /** Charset and language stand before the two apostrophes: UTF-8 and US-ASCII are
      decoded, in upper or lower case, and no other charset; the language is ignored. */
  lemma CharsetRead(charset: seq<byte>, language: seq<byte>, text: seq<byte>)
    requires APOSTROPHE !in charset && APOSTROPHE !in language
    ensures Decode2231(charset + ([APOSTROPHE] + (language + ([APOSTROPHE] + text))))
         == if Lower(charset) == UTF_8 || Lower(charset) == US_ASCII then Percent.Decode(text) else None
  {
    hide Lower, Percent.Decode, IndexByte;
    var later := language + ([APOSTROPHE] + text);
    var v := charset + ([APOSTROPHE] + later);
    BeforeApostrophe(charset, later);
    BeforeApostrophe(language, text);
    DecodeParts(v, |charset|, |language|);
  }

  lemma DecodeParts(v: seq<byte>, i: nat, j: nat)
    requires i < |v| && IndexByte(v, APOSTROPHE) == i && i + 1 + j < |v| && IndexByte(v[i + 1..], APOSTROPHE) == j
    ensures Decode2231(v)
         == if Lower(v[..i]) == UTF_8 || Lower(v[..i]) == US_ASCII then Percent.Decode(v[i + 1..][j + 1..]) else None
  {
    hide Lower, Percent.Decode, IndexByte;
  }

  /** Without two apostrophes there is nothing to decode. */
  lemma CharsetNeeded(charset: seq<byte>, text: seq<byte>)
    requires APOSTROPHE !in charset && APOSTROPHE !in text
    ensures Decode2231(text) == None && Decode2231(charset + ([APOSTROPHE] + text)) == None
  {
    hide Lower, Percent.Decode;
    BeforeApostrophe(charset, text);
  }

  lemma BeforeApostrophe(front: seq<byte>, rest: seq<byte>)
    requires APOSTROPHE !in front
    ensures var v := front + ([APOSTROPHE] + rest);
      IndexByte(v, APOSTROPHE) == |front| && v[..|front|] == front && v[|front| + 1..] == rest
  {
    var v := front + ([APOSTROPHE] + rest);
    assert v[..|front|] == front && v[|front|] == APOSTROPHE;
    IndexByteUnique(v, APOSTROPHE, |front|);
  }
}
