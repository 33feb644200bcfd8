/** What ParseMediaType makes of what FormatMediaType writes. */
module MediaTypeRoundTrip {
  import opened Common
  import opened ByteIndex
  import opened MimeGrammar
  import opened MediaType
  import Percent = PercentCoding

  /** A parameter name that is written and read back as it is. */
  predicate IsName(a: seq<byte>) {
    IsToken(a) && Lower(a) == a && STAR !in a
  }

  predicate EndsParam(tail: seq<byte>) {
    tail == [] || tail[0] == SEMICOLON
  }

  lemma {:induction false} TokenEndsAt(v: seq<byte>, i: nat, e: nat)
    requires i <= e <= |v| && (forall k :: i <= k < e ==> IsTokenChar(v[k])) && (e == |v| || !IsTokenChar(v[e]))
    ensures TokenEnd(v, i) == e
    decreases e - i
  {
    if i < e {
      TokenEndsAt(v, i + 1, e);
    }
  }

  lemma TokenConsumed(token: seq<byte>, rest: seq<byte>)
    requires AllTokenChars(token) && (rest == [] || !IsTokenChar(rest[0]))
    ensures ConsumeToken(token + rest) == (token, rest)
  {
    var v := token + rest;
    assert forall k :: 0 <= k < |token| ==> v[k] == token[k];
    TokenEndsAt(v, 0, |token|);
  }

  lemma {:induction false} QuotedFront(c: byte, value: seq<byte>)
    ensures Quoted([c] + value) == (if c == QUOTE || c == BACKSLASH then [BACKSLASH, c] else [c]) + Quoted(value)
    decreases value
  {
    if value == [] {
      assert ([c] + value)[..0] == [];
    } else {
      var n := |value| - 1;
      assert ([c] + value)[..n + 1] == [c] + value[..n];
      QuotedFront(c, value[..n]);
    }
  }

  /** Reading one quoted byte. */
  lemma UnquoteFront(c: byte, v: seq<byte>)
    requires IsPlain(c) && Unquote(v).Some?
    ensures var r := Unquote(v).value;
      Unquote((if c == QUOTE || c == BACKSLASH then [BACKSLASH, c] else [c]) + v) == Some(([c] + r.0, r.1))
  {
    if c == QUOTE || c == BACKSLASH {
      assert ([BACKSLASH, c] + v)[2..] == v;
    } else {
      assert ([c] + v)[1..] == v;
    }
  }

  /** A quoted string reads back as the value, whatever follows it. */
  lemma {:induction false} UnquoteQuoted(value: seq<byte>, rest: seq<byte>)
    requires AllPlain(value)
    ensures Unquote(Quoted(value) + [QUOTE] + rest) == Some((value, rest))
    decreases value
  {
    if value == [] {
      assert ([] + [QUOTE] + rest)[1..] == rest;
    } else {
      hide Quoted, Unquote, IsPlain;
      var c, value' := value[0], value[1..];
      assert value == [c] + value';
      assert AllPlain(value') by {
        forall i | 0 <= i < |value'| ensures IsPlain(value'[i]) { assert value'[i] == value[i + 1]; }
      }
      QuotedFront(c, value');
      UnquoteQuoted(value', rest);
      var front := if c == QUOTE || c == BACKSLASH then [BACKSLASH, c] else [c];
      UnquoteFront(c, Quoted(value') + [QUOTE] + rest);
      assert Quoted(value) + [QUOTE] + rest == front + (Quoted(value') + [QUOTE] + rest);
    }
  }

  /** The name and the value as they stand in the text. */
  function WireName(a: seq<byte>, value: seq<byte>): seq<byte> {
    if NeedsEncoding(value) then a + [STAR] else a
  }

  function WireValue(value: seq<byte>): seq<byte> {
    if NeedsEncoding(value) then UTF_8 + [APOSTROPHE, APOSTROPHE] + Percent.Encode(value) else value
  }

  /** What follows the equals sign. */
  function ValueText(value: seq<byte>): seq<byte> {
    if NeedsEncoding(value) then WireValue(value)
    else if IsToken(value) then value
    else [QUOTE] + Quoted(value) + [QUOTE]
  }

  lemma FormatValueText(value: seq<byte>)
    ensures FormatValue(value) == (if NeedsEncoding(value) then [STAR] else []) + [EQUALS] + ValueText(value)
  {
  }

  lemma WireValueIsToken(value: seq<byte>)
    requires NeedsEncoding(value)
    ensures AllTokenChars(WireValue(value))
  {
    Percent.EncodeIsToken(value);
    var enc := Percent.Encode(value);
    forall i | 0 <= i < |WireValue(value)| ensures IsTokenChar(WireValue(value)[i]) {
      if i >= 7 { assert WireValue(value)[i] == enc[i - 7]; }
    }
  }

  lemma EncodedConsumed(value: seq<byte>, tail: seq<byte>)
    requires EndsParam(tail) && NeedsEncoding(value)
    ensures ConsumeValueSpec(WireValue(value) + tail) == (WireValue(value), tail)
  {
    var v := WireValue(value) + tail;
    WireValueIsToken(value);
    TokenConsumed(WireValue(value), tail);
    assert v[0] == UTF_8[0];
  }

  lemma QuotedConsumed(value: seq<byte>, tail: seq<byte>)
    requires AllPlain(value)
    ensures ConsumeValueSpec([QUOTE] + Quoted(value) + [QUOTE] + tail) == (value, tail)
  {
    var v := [QUOTE] + Quoted(value) + [QUOTE] + tail;
    UnquoteQuoted(value, tail);
    assert v[1..] == Quoted(value) + [QUOTE] + tail;
  }

  lemma TokenValueConsumed(value: seq<byte>, tail: seq<byte>)
    requires EndsParam(tail) && IsToken(value)
    ensures ConsumeValueSpec(value + tail) == (value, tail)
  {
    assert IsTokenChar(value[0]) && (value + tail)[0] == value[0];
    TokenConsumed(value, tail);
  }

  lemma ValueConsumed(value: seq<byte>, tail: seq<byte>)
    requires EndsParam(tail)
    ensures ConsumeValueSpec(ValueText(value) + tail) == (WireValue(value), tail)
  {
    if NeedsEncoding(value) {
      EncodedConsumed(value, tail);
    } else if IsToken(value) {
      TokenValueConsumed(value, tail);
    } else {
      NeedsEncodingBytes(value);
      QuotedConsumed(value, tail);
    }
  }

  lemma ValueStarts(value: seq<byte>)
    ensures ValueText(value) != [] && !IsSpace(ValueText(value)[0])
  {
    if IsToken(value) {
      assert IsTokenChar(value[0]);
    }
  }

  /** The name is read up to the equals sign. */
  lemma NameConsumed(a: seq<byte>, value: seq<byte>, tail: seq<byte>)
    requires IsName(a)
    ensures ConsumeToken(a + FormatValue(value) + tail) == (WireName(a, value), [EQUALS] + ValueText(value) + tail)
  {
    var star := if NeedsEncoding(value) then [STAR] else [];
    FormatValueText(value);
    assert a + [] == a;
    NameAndStar(a, star, ValueText(value), tail);
  }

  lemma NameAndStar(a: seq<byte>, star: seq<byte>, text: seq<byte>, tail: seq<byte>)
    requires IsName(a) && (star == [] || star == [STAR])
    ensures ConsumeToken(a + (star + [EQUALS] + text) + tail) == (a + star, [EQUALS] + text + tail)
  {
    var rest := [EQUALS] + text + tail;
    assert a + (star + [EQUALS] + text) + tail == (a + star) + rest;
    assert AllTokenChars(a + star);
    TokenConsumed(a + star, rest);
  }

  lemma LowerWireName(a: seq<byte>, value: seq<byte>)
    requires IsName(a)
    ensures Lower(WireName(a, value)) == WireName(a, value)
  {
    forall i | 0 <= i < |WireName(a, value)| ensures LowerByte(WireName(a, value)[i]) == WireName(a, value)[i] {
      if i < |a| { assert Lower(a)[i] == a[i]; }
    }
  }

  /** The text up to the name. */
  lemma NameReached(named: seq<byte>)
    requires named != [] && !IsSpace(named[0])
    ensures var v := [SEMICOLON, SPACE] + named; TrimLeft(v) == v && TrimLeft(v[1..]) == named
  {
    var v := [SEMICOLON, SPACE] + named;
    TrimLeftNone(v);
    var w := [SPACE] + named;
    assert v[1..] == w && w[1] == named[0];
    assert SpacesEnd(w, 1) == 1 && SpacesEnd(w, 0) == 1;
  }

  /** The text from the equals sign on. */
  lemma ValueReached(value: seq<byte>, tail: seq<byte>)
    requires EndsParam(tail)
    ensures var r := [EQUALS] + ValueText(value) + tail;
      TrimLeft(r) == r && TrimLeft(r[1..]) == ValueText(value) + tail
  {
    var r := [EQUALS] + ValueText(value) + tail;
    TrimLeftNone(r);
    assert r[1..] == ValueText(value) + tail;
    ValueStarts(value);
    TrimLeftNone(r[1..]);
  }

  /** One parameter is read back, whatever form its value was written in. */
  lemma ParamConsumed(a: seq<byte>, value: seq<byte>, tail: seq<byte>)
    requires IsName(a) && EndsParam(tail)
    ensures ConsumeMediaParam(FormatParam(a, value) + tail) == MediaParam(WireName(a, value), WireValue(value), tail)
  {
    var named := a + FormatValue(value) + tail;
    FirstOfName(a, FormatValue(value), tail);
    NameReached(named);
    NameConsumed(a, value, tail);
    LowerWireName(a, value);
    ValueReached(value, tail);
    ValueConsumed(value, tail);
    ValueStarts(value);
    ConsumeParts([SEMICOLON, SPACE] + named, named, WireName(a, value), [EQUALS] + ValueText(value) + tail,
                 ValueText(value) + tail, WireValue(value), tail);
  }

  lemma FirstOfName(a: seq<byte>, x: seq<byte>, tail: seq<byte>)
    requires IsName(a)
    ensures var named := a + x + tail; named != [] && !IsSpace(named[0])
    ensures [SEMICOLON, SPACE] + Lower(a) + x + tail == [SEMICOLON, SPACE] + (a + x + tail)
  {
    assert IsTokenChar(a[0]);
  }

  /** The parts of a parameter one after the other. */
  lemma ConsumeParts(v: seq<byte>, named: seq<byte>, name: seq<byte>, r1: seq<byte>, r3: seq<byte>, value: seq<byte>,
                     tail: seq<byte>)
    requires v != [] && v[0] == SEMICOLON && TrimLeft(v) == v && TrimLeft(v[1..]) == named
    requires ConsumeToken(named) == (name, r1) && name != [] && Lower(name) == name
    requires r1 != [] && r1[0] == EQUALS && TrimLeft(r1) == r1 && TrimLeft(r1[1..]) == r3
    requires ConsumeValueSpec(r3) == (value, tail) && |tail| < |r3|
    ensures ConsumeMediaParam(v) == MediaParam(name, value, tail)
  {
  }

  // ---------------------------------------------------------------------------
  // All the parameters
  // ---------------------------------------------------------------------------

  /** What has been collected once the parameters in `done` are read. */
  function PlainOf(params: Params, done: set<seq<byte>>): Params {
    map a | a in params && a in done && !NeedsEncoding(params[a]) :: params[a]
  }

  function StarredOf(params: Params, done: set<seq<byte>>): Continuation {
    map a | a in params && a in done && NeedsEncoding(params[a]) :: map[a + [STAR] := WireValue(params[a])]
  }

  lemma MorePlain(a: seq<byte>, params: Params, done: set<seq<byte>>)
    requires a in params && !NeedsEncoding(params[a])
    ensures PlainOf(params, done + {a}) == PlainOf(params, done)[a := params[a]]
    ensures StarredOf(params, done + {a}) == StarredOf(params, done)
  {
  }

  lemma MoreStarred(a: seq<byte>, params: Params, done: set<seq<byte>>)
    requires a in params && NeedsEncoding(params[a])
    ensures PlainOf(params, done + {a}) == PlainOf(params, done)
    ensures StarredOf(params, done + {a}) == StarredOf(params, done)[a := map[a + [STAR] := WireValue(params[a])]]
  {
  }

  lemma AddPlain(a: seq<byte>, params: Params, done: set<seq<byte>>)
    requires IsName(a) && a in params && a !in done && !NeedsEncoding(params[a])
    ensures a !in Group(a, PlainOf(params, done), StarredOf(params, done))
    ensures AddTo(a, params[a], PlainOf(params, done), StarredOf(params, done))
         == (PlainOf(params, done + {a}), StarredOf(params, done + {a}))
  {
    assert IndexByte(a, STAR) == -1;
    MorePlain(a, params, done);
  }

  lemma StarredName(a: seq<byte>)
    requires IsName(a)
    ensures var name := a + [STAR];
      IndexByte(name, STAR) == |a| && name[..|a|] == a
  {
    var name := a + [STAR];
    assert name[..|a|] == a;
    IndexByteUnique(name, STAR, |a|);
  }

  lemma AddStarred(a: seq<byte>, params: Params, done: set<seq<byte>>)
    requires IsName(a) && a in params && a !in done && NeedsEncoding(params[a])
    ensures a + [STAR] !in Group(a + [STAR], PlainOf(params, done), StarredOf(params, done))
    ensures AddTo(a + [STAR], WireValue(params[a]), PlainOf(params, done), StarredOf(params, done))
         == (PlainOf(params, done + {a}), StarredOf(params, done + {a}))
  {
    StarredName(a);
    MoreStarred(a, params, done);
    assert a !in StarredOf(params, done);
  }

  predicate AreNames(attrs: seq<seq<byte>>) {
    forall i :: 0 <= i < |attrs| ==> IsName(attrs[i])
  }

  /** The names before the k-th. */
  function Before(attrs: seq<seq<byte>>, k: nat): set<seq<byte>>
    requires k <= |attrs|
  {
    set i | 0 <= i < k :: attrs[i]
  }

  /** Reading one parameter collects it. */
  lemma CollectOne(a: seq<byte>, params: Params, rest: seq<byte>, done: set<seq<byte>>)
    requires IsName(a) && a in params && a !in done && EndsParam(rest)
    ensures Collect(FormatParam(a, params[a]) + rest, PlainOf(params, done), StarredOf(params, done))
         == Collect(rest, PlainOf(params, done + {a}), StarredOf(params, done + {a}))
  {
    var v := FormatParam(a, params[a]) + rest;
    TrimLeftNone(v);
    ParamConsumed(a, params[a], rest);
    if NeedsEncoding(params[a]) {
      AddStarred(a, params, done);
    } else {
      AddPlain(a, params, done);
    }
  }

  lemma FormatEndsParam(attrs: seq<seq<byte>>, k: nat, params: Params, tail: seq<byte>)
    requires Lists(attrs, params) && k <= |attrs| && EndsParam(tail)
    ensures EndsParam(FormatParams(attrs, k, params) + tail)
  {
    if k == |attrs| {
      assert [] + tail == tail;
    } else {
      assert FormatParam(attrs[k], params[attrs[k]])[0] == SEMICOLON;
    }
  }

  lemma BeforeNext(attrs: seq<seq<byte>>, params: Params, k: nat)
    requires Lists(attrs, params) && k < |attrs|
    ensures attrs[k] !in Before(attrs, k) && Before(attrs, k + 1) == Before(attrs, k) + {attrs[k]}
  {
  }

  /** Reading the written parameters collects all of them. */
  lemma {:induction false} CollectAll(attrs: seq<seq<byte>>, k: nat, params: Params, tail: seq<byte>)
    requires Lists(attrs, params) && AreNames(attrs) && k <= |attrs| && EndsParam(tail)
    ensures Collect(FormatParams(attrs, k, params) + tail,
                    PlainOf(params, Before(attrs, k)), StarredOf(params, Before(attrs, k)))
         == Collect(tail, PlainOf(params, params.Keys), StarredOf(params, params.Keys))
    decreases |attrs| - k
  {
    if k == |attrs| {
      assert [] + tail == tail;
      assert Before(attrs, k) == params.Keys by { AllBefore(attrs, params); }
    } else {
      var a := attrs[k];
      var later := FormatParams(attrs, k + 1, params);
      BeforeNext(attrs, params, k);
      FormatEndsParam(attrs, k + 1, params, tail);
      Associate(FormatParam(a, params[a]), later, tail);
      CollectOne(a, params, later + tail, Before(attrs, k));
      CollectAll(attrs, k + 1, params, tail);
    }
  }

  lemma AllBefore(attrs: seq<seq<byte>>, params: Params)
    requires Lists(attrs, params)
    ensures Before(attrs, |attrs|) == params.Keys
  {
  }

  // ---------------------------------------------------------------------------
  // The percent-encoded values
  // ---------------------------------------------------------------------------

  lemma DecodeWireValue(value: seq<byte>)
    requires NeedsEncoding(value)
    ensures Decode2231(WireValue(value)) == Some(value)
  {
    var v := WireValue(value);
    assert v[..5] == UTF_8;
    IndexByteUnique(v, APOSTROPHE, 5);
    var w := v[6..];
    assert w == [APOSTROPHE] + Percent.Encode(value);
    assert w[..0] == [];
    IndexByteUnique(w, APOSTROPHE, 0);
    assert w[1..] == Percent.Encode(value);
    assert Lower(UTF_8) == UTF_8;
    Percent.DecodeEncode(value);
  }

  /** Stitching puts every starred parameter back under its own name. */
  lemma MergeAt(params: Params, all: set<seq<byte>>, merged: Params, key: seq<byte>)
    requires all == params.Keys
    requires MergedAt(PlainOf(params, all), StarredOf(params, all), merged, key)
    ensures Lookup(merged, key) == Lookup(params, key)
  {
    var starred := StarredOf(params, all);
    if key in starred {
      DecodeWireValue(params[key]);
      assert key + [STAR] in starred[key];
    }
  }

  lemma MergeAll(params: Params, all: set<seq<byte>>, merged: Params)
    requires all == params.Keys
    requires IsMerged(PlainOf(params, all), StarredOf(params, all), merged)
    ensures merged == params
  {
    forall key ensures Lookup(merged, key) == Lookup(params, key) {
      if key in merged || key in params {
        assert key in params ==> key in PlainOf(params, all) || key in StarredOf(params, all);
        MergeAt(params, all, merged, key);
      }
    }
    SameLookups(merged, params);
  }

  // ---------------------------------------------------------------------------
  // The type
  // ---------------------------------------------------------------------------

  lemma LowerToken(s: seq<byte>)
    requires IsToken(s)
    ensures IsToken(Lower(s))
  {
    forall i | 0 <= i < |s| ensures IsTokenChar(Lower(s)[i]) {
      assert IsTokenChar(s[i]);
    }
  }

  /** A written type is accepted as it is. */
  lemma TypeAccepted(t: seq<byte>)
    requires IsType(t)
    ensures CheckDisposition(Lower(t)).None?
  {
    var slash := IndexByte(t, SLASH);
    var s := Lower(t);
    if slash == -1 {
      LowerToken(t);
      assert s + [] == s;
      TokenConsumed(s, []);
    } else {
      var major, sub := t[..slash], t[slash + 1..];
      LowerToken(major);
      LowerToken(sub);
      assert s == Lower(major) + ([SLASH] + Lower(sub));
      TokenConsumed(Lower(major), [SLASH] + Lower(sub));
      assert ([SLASH] + Lower(sub))[1..] == Lower(sub) + [];
      TokenConsumed(Lower(sub), []);
    }
  }

  lemma TypeChars(t: seq<byte>, i: nat)
    requires IsType(t) && i < |t|
    ensures IsTokenChar(t[i]) || t[i] == SLASH
  {
    var slash := IndexByte(t, SLASH);
    if slash >= 0 {
      if i < slash { assert t[..slash][i] == t[i]; }
      if i > slash { assert t[slash + 1..][i - slash - 1] == t[i]; }
    }
  }

  lemma LowerTwice(s: seq<byte>)
    ensures Lower(Lower(s)) == Lower(s)
  {
    forall i | 0 <= i < |s| ensures Lower(Lower(s))[i] == Lower(s)[i] {
      assert Lower(s)[i] == LowerByte(s[i]);
    }
  }

  lemma LowerTypeChars(t: seq<byte>, i: nat)
    requires IsType(t) && i < |t|
    ensures Lower(t)[i] != SEMICOLON && !IsSpace(Lower(t)[i])
  {
    TypeChars(t, i);
    assert Lower(t)[i] == LowerByte(t[i]);
  }

  lemma TrimSpaceNone(s: seq<byte>)
    requires s != [] && !IsSpace(s[0]) && !IsSpace(s[|s| - 1])
    ensures TrimSpace(s) == s
  {
    TrimLeftNone(s);
  }

  lemma TypeTrimmed(t: seq<byte>)
    requires IsType(t)
    ensures t != [] && TrimSpace(Lower(Lower(t))) == Lower(t) && SEMICOLON !in Lower(t)
  {
    assert t != [];
    LowerTypeChars(t, 0);
    LowerTypeChars(t, |t| - 1);
    TrimSpaceNone(Lower(t));
    LowerTwice(t);
    forall i | 0 <= i < |Lower(t)| ensures Lower(t)[i] != SEMICOLON {
      LowerTypeChars(t, i);
    }
  }

  /** Where the type ends. */
  lemma TypeEnds(t: seq<byte>, rest: seq<byte>)
    requires IsType(t) && EndsParam(rest)
    ensures var v := Lower(t) + rest;
      (if SEMICOLON in v then IndexByte(v, SEMICOLON) else |v|) == |t|
      && v[..|t|] == Lower(t) && v[|t|..] == rest
  {
    TypeTrimmed(t);
    var v := Lower(t) + rest;
    assert v[..|t|] == Lower(t);
    if rest != [] {
      assert v[|t|] == SEMICOLON;
      IndexByteUnique(v, SEMICOLON, |t|);
    } else {
      assert v == Lower(t);
    }
  }

  // ---------------------------------------------------------------------------
  // The round trip
  // ---------------------------------------------------------------------------

  lemma EmptySoFar(params: Params)
    ensures PlainOf(params, {}) == map[] && StarredOf(params, {}) == map[]
  {
  }

  lemma ParseFormatted(t: seq<byte>, params: Params, attrs: seq<seq<byte>>, tail: seq<byte>)
    requires IsType(t) && Lists(attrs, params) && AreNames(attrs) && EndsParam(tail)
    ensures var v := Lower(t) + (FormatParams(attrs, 0, params) + tail);
      && v[..|t|] == Lower(t)
      && (if SEMICOLON in v then IndexByte(v, SEMICOLON) else |v|) == |t|
      && TrimSpace(Lower(v[..|t|])) == Lower(t)
      && CheckDisposition(Lower(t)).None?
      && Collect(v[|t|..], map[], map[]) == Collect(tail, PlainOf(params, params.Keys), StarredOf(params, params.Keys))
  {
    FormatEndsParam(attrs, 0, params, tail);
    TypeEnds(t, FormatParams(attrs, 0, params) + tail);
    TypeTrimmed(t);
    TypeAccepted(t);
    EmptySoFar(params);
    CollectAll(attrs, 0, params, tail);
    assert Before(attrs, 0) == {};
  }

  /** Parsing a formatted media type gives back the type in lower case and exactly
      the parameters, in whatever order they were written. */
  lemma RoundTrip(t: seq<byte>, params: Params, attrs: seq<seq<byte>>, r: ParseResult)
    requires IsType(t) && Lists(attrs, params) && AreNames(attrs)
    requires IsParsed(Lower(t) + FormatParams(attrs, 0, params), r)
    ensures r == Parsed(Lower(t), params)
  {
    hide FormatParams, Lower, TrimSpace, CheckDisposition, IsMerged, PlainOf, StarredOf, AreNames, IsType;
    assert FormatParams(attrs, 0, params) + [] == FormatParams(attrs, 0, params);
    ParseFormatted(t, params, attrs, []);
    MergeAll(params, params.Keys, r.params);
  }

  // ---------------------------------------------------------------------------
  // A semicolon at the end
  // ---------------------------------------------------------------------------

  const END: seq<byte> := [SEMICOLON]

  lemma {:induction false} SpacesBeforeEnd(x: seq<byte>, i: nat)
    requires i <= |x|
    ensures SpacesEnd(x + END, i) == SpacesEnd(x, i)
    decreases |x| - i
  {
    if i < |x| {
      assert (x + END)[i] == x[i];
      if IsSpace(x[i]) {
        SpacesBeforeEnd(x, i + 1);
      }
    }
  }

  lemma TrimBeforeEnd(x: seq<byte>)
    ensures TrimLeft(x + END) == TrimLeft(x) + END
  {
    SpacesBeforeEnd(x, 0);
  }

  lemma {:induction false} TokenBeforeEnd(x: seq<byte>, i: nat)
    requires i <= |x|
    ensures TokenEnd(x + END, i) == TokenEnd(x, i)
    decreases |x| - i
  {
    if i < |x| {
      assert (x + END)[i] == x[i];
      if IsTokenChar(x[i]) {
        TokenBeforeEnd(x, i + 1);
      }
    }
  }

  lemma ConsumeTokenBeforeEnd(x: seq<byte>)
    ensures ConsumeToken(x + END) == (ConsumeToken(x).0, ConsumeToken(x).1 + END)
  {
    TokenBeforeEnd(x, 0);
    var e := TokenEnd(x, 0);
    assert (x + END)[..e] == x[..e] && (x + END)[e..] == x[e..] + END;
  }

  lemma {:induction false} UnquoteBeforeEnd(x: seq<byte>)
    requires Unquote(x).Some?
    ensures Unquote(x + END) == Some((Unquote(x).value.0, Unquote(x).value.1 + END))
    decreases x
  {
    var y := x + END;
    assert y[0] == x[0] && y[1..] == x[1..] + END;
    if x[0] != QUOTE {
      if |x| > 1 {
        assert y[1] == x[1] && y[2..] == x[2..] + END;
      }
      if x[0] == BACKSLASH && |x| > 1 && IsTSpecial(x[1]) {
        UnquoteBeforeEnd(x[2..]);
      } else {
        UnquoteBeforeEnd(x[1..]);
      }
    }
  }

  /** A value that was read stays the same with a semicolon behind everything. */
  lemma ValueBeforeEnd(x: seq<byte>)
    requires x != [] && ConsumeValueSpec(x) != ([], x)
    ensures ConsumeValueSpec(x + END) == (ConsumeValueSpec(x).0, ConsumeValueSpec(x).1 + END)
  {
    var y := x + END;
    assert y[0] == x[0];
    if x[0] != QUOTE {
      ConsumeTokenBeforeEnd(x);
    } else {
      assert y[1..] == x[1..] + END;
      UnquoteBeforeEnd(x[1..]);
    }
  }

  /** So does a parameter. */
  lemma ParamBeforeEnd(v: seq<byte>)
    requires ConsumeMediaParam(v).name != []
    ensures var p := ConsumeMediaParam(v); ConsumeMediaParam(v + END) == p.(rest := p.rest + END)
  {
    hide TrimLeft, ConsumeToken, ConsumeValueSpec;
    var r0 := TrimLeft(v);
    TrimBeforeEnd(v);
    assert (r0 + END)[0] == r0[0] && (r0 + END)[1..] == r0[1..] + END;
    TrimBeforeEnd(r0[1..]);
    var token := ConsumeToken(TrimLeft(r0[1..]));
    ConsumeTokenBeforeEnd(TrimLeft(r0[1..]));
    var r2 := TrimLeft(token.1);
    TrimBeforeEnd(token.1);
    assert (r2 + END)[0] == r2[0] && (r2 + END)[1..] == r2[1..] + END;
    var r3 := TrimLeft(r2[1..]);
    TrimBeforeEnd(r2[1..]);
    ValueNotEmpty(r3);
    ValueBeforeEnd(r3);
    CancelEnd(ConsumeValueSpec(r3).1, r3);
  }

  lemma CancelEnd(x: seq<byte>, y: seq<byte>)
    ensures x + END == y + END ==> x == y
  {
    if x + END == y + END {
      assert (x + END)[..|x|] == x && (y + END)[..|y|] == y;
      assert |x + END| == |y + END|;
    }
  }

  lemma ValueNotEmpty(x: seq<byte>)
    ensures x == [] ==> ConsumeValueSpec(x) == ([], x)
  {
  }

  /** A quoted string that does not end is not ended by a semicolon. */
  lemma {:induction false} NoQuoteBeforeEnd(x: seq<byte>)
    requires Unquote(x).None?
    ensures Unquote(x + END).None?
    decreases x
  {
    var y := x + END;
    assert y[1..] == if x == [] then [] else x[1..] + END;
    if x == [] {
      assert Unquote([]).None?;
    } else if x[0] == BACKSLASH && |x| == 1 {
      assert y[2..] == [] && Unquote([]).None?;
    } else {
      if |x| > 1 {
        assert y[1] == x[1] && y[2..] == x[2..] + END;
      }
      if x[0] == BACKSLASH && IsTSpecial(x[1]) {
        NoQuoteBeforeEnd(x[2..]);
      } else if x[0] != 13 && x[0] != 10 {
        NoQuoteBeforeEnd(x[1..]);
      }
    }
  }

  lemma NoValueBeforeEnd(x: seq<byte>)
    requires ConsumeValueSpec(x) == ([], x)
    ensures ConsumeValueSpec(x + END) == ([], x + END)
  {
    hide Unquote;
    var y := x + END;
    if x == [] || x[0] != QUOTE {
      ConsumeTokenBeforeEnd(x);
    } else {
      assert y[1..] == x[1..] + END;
      NoQuoteBeforeEnd(x[1..]);
    }
  }

  /** Where no parameter can be read, none can with a semicolon behind everything. */
  lemma NoParamBeforeEnd(v: seq<byte>)
    requires ConsumeMediaParam(v).name == []
    ensures ConsumeMediaParam(v + END) == MediaParam([], [], v + END)
  {
    hide TrimLeft, ConsumeToken, ConsumeValueSpec;
    var r0 := TrimLeft(v);
    TrimBeforeEnd(v);
    if r0 == [] {
      assert (r0 + END)[1..] == [];
      NothingToConsume([]);
    } else if r0[0] == SEMICOLON {
      assert (r0 + END)[0] == r0[0] && (r0 + END)[1..] == r0[1..] + END;
      TrimBeforeEnd(r0[1..]);
      var token := ConsumeToken(TrimLeft(r0[1..]));
      ConsumeTokenBeforeEnd(TrimLeft(r0[1..]));
      var r2 := TrimLeft(token.1);
      TrimBeforeEnd(token.1);
      assert |Lower(token.0)| == |token.0|;
      if token.0 != [] && r2 != [] && r2[0] == EQUALS {
        assert (r2 + END)[0] == r2[0] && (r2 + END)[1..] == r2[1..] + END;
        TrimBeforeEnd(r2[1..]);
        NoValueBeforeEnd(TrimLeft(r2[1..]));
      } else if r2 != [] {
        assert (r2 + END)[0] == r2[0];
      }
    }
  }

  /** Text without white space in front is not a lone semicolon with one behind it. */
  lemma NotLone(v: seq<byte>)
    requires TrimLeft(v) != []
    ensures TrimLeft(TrimLeft(v) + END) == TrimLeft(v) + END && TrimSpace(TrimLeft(v) + END) != END
  {
    var w := TrimLeft(v);
    TrimmedFront(v, 0);
    assert (w + END)[0] == w[0] && (w + END)[|w|] == SEMICOLON;
    TrimSpaceNone(w + END);
    TrimLeftNone(w + END);
  }

  lemma {:induction false} TrimmedFront(v: seq<byte>, i: nat)
    requires i <= |v|
    ensures SpacesEnd(v, i) < |v| ==> !IsSpace(v[SpacesEnd(v, i)])
    decreases |v| - i
  {
    if i < |v| && IsSpace(v[i]) {
      TrimmedFront(v, i + 1);
    }
  }

  /** The parameters are collected as without the semicolon; then the parser returns.
      A second semicolon at the end is an error. */
  lemma {:induction false} CollectBeforeEnd(v: seq<byte>, params: Params, continuation: Continuation)
    ensures Collect(v + END, params, continuation) ==
      match Collect(v, params, continuation)
      case All(ps, _) => TrailingSemicolon(ps)
      case Duplicate => Duplicate
      case _ => Malformed
    decreases |v|
  {
    hide ConsumeMediaParam, TrimLeft, TrimSpace, AddTo, Group;
    var w := TrimLeft(v);
    TrimBeforeEnd(v);
    if w == [] {
      assert w + END == END;
      OnlySemicolon(params, continuation);
      TrimTwice(END);
    } else {
      var p := ConsumeMediaParam(w);
      if p.name == [] {
        NoParamBeforeEnd(w);
        NotLone(v);
      } else {
        ParamBeforeEnd(w);
        if p.name !in Group(p.name, params, continuation) {
          var added := AddTo(p.name, p.value, params, continuation);
          CollectBeforeEnd(p.rest, added.0, added.1);
        }
      }
    }
  }

  lemma TrimTwice(x: seq<byte>)
    requires x == END
    ensures TrimLeft(x) == x
  {
    TrimLeftNone(x);
  }

  /** What the parser has collected of a text. */
  function CollectedOf(v: seq<byte>): Collected {
    var i := if SEMICOLON in v then IndexByte(v, SEMICOLON) else |v|;
    Collect(v[i..], map[], map[])
  }

  lemma TypeBeforeEnd(v: seq<byte>) returns (i: nat)
    ensures i <= |v| && i == if SEMICOLON in v then IndexByte(v, SEMICOLON) else |v|
    ensures i == IndexByte(v + END, SEMICOLON) && SEMICOLON in v + END
    ensures (v + END)[..i] == v[..i] && (v + END)[i..] == v[i..] + END
  {
    i := if SEMICOLON in v then IndexByte(v, SEMICOLON) else |v|;
    var w := v + END;
    assert w[|v|] == SEMICOLON;
    assert w[..i] == v[..i];
    IndexByteUnique(w, SEMICOLON, i);
  }

  /** No value comes of these pieces: their encoding is bad, or the first is missing. */
  predicate HasNoValue(key: seq<byte>, pieces: Params) {
    if key + [STAR] in pieces then Decode2231(pieces[key + [STAR]]).None? else PartText(key, pieces, 0).None?
  }

  /** Stitching leaves the parameters as they are: from each group of pieces comes no
      value, or the one that the name has without a star. */
  ghost predicate AddsNothing(params: Params, continuation: Continuation) {
    forall key :: key in continuation ==>
      || HasNoValue(key, continuation[key])
      || (key in params && IsStitched(key, continuation[key], Some(params[key])))
  }

  /** A semicolon behind any text.  It changes the result of a text that parses if and
      only if the text had a semicolon at its end already, which then is an error, or
      stitching, which then is skipped, would add something.  It never helps a text
      that does not parse. */
  lemma TrailingSemicolonSkipsStitching(v: seq<byte>, r: ParseResult, r': ParseResult)
    requires IsParsed(v, r) && IsParsed(v + END, r')
    ensures r.Parsed? ==>
      var c := CollectedOf(v);
      (r' == r <==> c.All? && AddsNothing(c.params, c.continuation))
    ensures r.Parsed? ==>
      match CollectedOf(v)
      case All(params, _) => r' == Parsed(r.mediatype, params)
      case _ => r' == InvalidParameter(r.mediatype)
    ensures !r.Parsed? ==> r' == r
  {
    hide Collect, CheckDisposition, TrimSpace, Lower, IsMerged, AddsNothing;
    var c := CollectedOf(v);
    var i := TypeBeforeEnd(v);
    CollectBeforeEnd(v[i..], map[], map[]);
    if r.Parsed? && c.All? {
      MergedUnchanged(c.params, c.continuation, r.params);
    }
  }

  lemma MergedUnchanged(params: Params, continuation: Continuation, merged: Params)
    requires IsMerged(params, continuation, merged)
    ensures merged == params <==> AddsNothing(params, continuation)
  {
    hide IsStitched, HasNoValue;
    if merged == params {
      forall key | key in continuation
        ensures HasNoValue(key, continuation[key])
             || (key in params && IsStitched(key, continuation[key], Some(params[key])))
      {
        var value := MergedValue(params, continuation, merged, key);
        NoneStitched(key, continuation[key]);
        assert value.Some? ==> value == Lookup(params, key);
      }
    }
    if AddsNothing(params, continuation) {
      forall key ensures Lookup(merged, key) == Lookup(params, key) {
        if key in continuation {
          var value := MergedValue(params, continuation, merged, key);
          NoneStitched(key, continuation[key]);
          var same := if HasNoValue(key, continuation[key]) then None else Some(params[key]);
          StitchedUnique(key, continuation[key], value, same);
        } else if key in merged || key in params {
          assert MergedAt(params, continuation, merged, key);
        }
      }
      SameLookups(merged, params);
    }
  }

  lemma MergedValue(params: Params, continuation: Continuation, merged: Params, key: seq<byte>)
    returns (value: Option<seq<byte>>)
    requires IsMerged(params, continuation, merged) && key in continuation
    ensures IsStitched(key, continuation[key], value)
    ensures Lookup(merged, key) == if value.Some? then value else Lookup(params, key)
  {
    assert MergedAt(params, continuation, merged, key);
    value :| IsStitched(key, continuation[key], value)
          && Lookup(merged, key) == if value.Some? then value else Lookup(params, key);
  }

  lemma NoneStitched(key: seq<byte>, pieces: Params)
    ensures IsStitched(key, pieces, None) <==> HasNoValue(key, pieces)
  {
    assert PartsBefore(key, pieces, 0) == Some([]);
  }

  /** Stitching has one result. */
  lemma StitchedUnique(key: seq<byte>, pieces: Params, a: Option<seq<byte>>, b: Option<seq<byte>>)
    requires IsStitched(key, pieces, a) && IsStitched(key, pieces, b)
    ensures a == b
  {
    if key + [STAR] !in pieces {
      var m: nat :| PartText(key, pieces, m).None? && PartsBefore(key, pieces, m).Some?
                 && a == if m == 0 then None else PartsBefore(key, pieces, m);
      var n: nat :| PartText(key, pieces, n).None? && PartsBefore(key, pieces, n).Some?
                 && b == if n == 0 then None else PartsBefore(key, pieces, n);
      if m < n {
        PartBefore(key, pieces, m, n);
      } else if n < m {
        PartBefore(key, pieces, n, m);
      }
    }
  }

  lemma {:induction false} PartBefore(key: seq<byte>, pieces: Params, m: nat, n: nat)
    requires m < n && PartsBefore(key, pieces, n).Some?
    ensures PartText(key, pieces, m).Some?
    decreases n
  {
    hide PartText;
    if m < n - 1 {
      PartBefore(key, pieces, m, n - 1);
    }
  }

  /** Nothing has to be stitched for the other case: "a;" parses, and "a;;" does not. */
  lemma SecondSemicolonFails(r: ParseResult, r': ParseResult)
    requires IsParsed([97, SEMICOLON], r) && IsParsed([97, SEMICOLON, SEMICOLON], r')
    ensures r == Parsed([97], map[]) && r' == InvalidParameter([97])
  {
    hide IsParsed, CollectedOf, AddsNothing;
    var v: seq<byte> := [97, SEMICOLON];
    assert v + END == [97, SEMICOLON, SEMICOLON];
    OneSemicolonParsed(v, r);
    TrailingSemicolonSkipsStitching(v, r, r');
  }

  lemma OneSemicolonParsed(v: seq<byte>, r: ParseResult)
    requires v == [97, SEMICOLON] && IsParsed(v, r)
    ensures r == Parsed([97], map[]) && CollectedOf(v) == TrailingSemicolon(map[])
  {
    hide Collect, TrimSpace, Lower, ConsumeToken, IsMerged;
    var i := TypeBeforeEnd([97]);
    assert [97] + END == v && i == 1 && v[1..] == END && v[..1] == [97];
    TokenConsumed([97], []);
    assert [97] + [] == [97];
    LowerOne(97);
    TrimSpaceNone([97]);
    OnlySemicolon(map[], map[]);
  }

  lemma LowerOne(c: byte)
    requires 97 <= c <= 122
    ensures Lower([c]) == [c]
  {
  }

  lemma SameLookups(a: Params, b: Params)
    requires forall key :: Lookup(a, key) == Lookup(b, key)
    ensures a == b
  {
    forall key ensures key in a <==> key in b {
      assert Lookup(a, key) == Lookup(b, key);
    }
    forall key | key in a ensures a[key] == b[key] {
      assert Lookup(a, key) == Lookup(b, key);
    }
  }

  /** Nothing has to be percent-encoded for that: from "; t*0=a" the parser makes the
      parameter t, and from "; t*0=a;" none. */
  lemma PlainPieceIsLost()
    ensures var v := [59, 32, 116, 42, 48, 61, 97];
      && Collect(v, map[], map[]) == All(map[], map[[116] := map[[116, 42, 48] := [97]]])
      && Collect(v + END, map[], map[]) == TrailingSemicolon(map[])
      && IsStitched([116], map[[116, 42, 48] := [97]], Some([97]))
  {
    var v: seq<byte> := [59, 32, 116, 42, 48, 61, 97];
    PieceCollected(v);
    CollectBeforeEnd(v, map[], map[]);
    PieceStitched([116], map[[116, 42, 48] := [97]]);
  }

  lemma PieceCollected(v: seq<byte>)
    requires v == [59, 32, 116, 42, 48, 61, 97]
    ensures Collect(v, map[], map[]) == All(map[], map[[116] := map[[116, 42, 48] := [97]]])
  {
    hide ConsumeMediaParam, TrimLeft;
    var name: seq<byte> := [116, 42, 48];
    PieceConsumed(v);
    TrimLeftNone(v);
    TrimLeftNone([]);
    StarAt(name);
    assert name[..1] == [116];
    assert AddTo(name, [97], map[], map[]) == (map[], map[[116] := map[name := [97]]]);
  }

  lemma StarAt(name: seq<byte>)
    requires name == [116, 42, 48]
    ensures IndexByte(name, STAR) == 1
  {
    assert name[..1] == [116];
    IndexByteUnique(name, STAR, 1);
  }

  lemma PieceConsumed(v: seq<byte>)
    requires v == [59, 32, 116, 42, 48, 61, 97]
    ensures ConsumeMediaParam(v) == MediaParam([116, 42, 48], [97], [])
  {
    hide TrimLeft, ConsumeToken, ConsumeValueSpec, ConsumeMediaParam;
    var name: seq<byte> := [116, 42, 48];
    var named := name + [61, 97];
    NameReached(named);
    assert v == [SEMICOLON, SPACE] + named;
    TokenConsumed(name, [61, 97]);
    PieceValue([61, 97]);
    assert Lower(name) == name;
    ConsumeParts(v, named, name, [61, 97], [97], [97], []);
  }

  lemma PieceValue(r: seq<byte>)
    requires r == [61, 97]
    ensures TrimLeft(r) == r && TrimLeft(r[1..]) == [97] && ConsumeValueSpec([97]) == ([97], [])
  {
    TrimLeftNone(r);
    assert r[1..] == [97];
    TrimLeftNone([97]);
    TokenConsumed([97], []);
    assert [97] + [] == [97];
  }

  lemma PieceStitched(key: seq<byte>, pieces: Params)
    requires key == [116] && pieces == map[[116, 42, 48] := [97]]
    ensures IsStitched(key, pieces, Some([97]))
  {
    assert key + [STAR] == [116, 42] && [116, 42] !in pieces;
    assert PartName(key, 0) == [116, 42, 48];
    assert PartName(key, 1) == [116, 42, 49] && PartName(key, 1) + [STAR] == [116, 42, 49, 42];
    assert PartText(key, pieces, 1).None?;
    assert PartsBefore(key, pieces, 0) == Some([]);
    assert [] + [97] == [97];
    assert PartsBefore(key, pieces, 1) == Some([97]);
  }

  /** A semicolon at the end makes the parser return before it stitches: the
      parameters with encoded values are lost, and only those. */
  lemma TrailingSemicolonLosesEncoded(t: seq<byte>, params: Params, attrs: seq<seq<byte>>, r: ParseResult)
    requires IsType(t) && Lists(attrs, params) && AreNames(attrs)
    requires IsParsed(Lower(t) + (FormatParams(attrs, 0, params) + [SEMICOLON]), r)
    ensures r == Parsed(Lower(t), PlainOf(params, params.Keys))
    ensures r == Parsed(Lower(t), params) <==> forall a :: a in params ==> !NeedsEncoding(params[a])
  {
    ParseFormatted(t, params, attrs, [SEMICOLON]);
    OnlySemicolon(PlainOf(params, params.Keys), StarredOf(params, params.Keys));
    PlainIsAll(params);
  }

  lemma OnlySemicolon(params: Params, continuation: Continuation)
    ensures Collect([SEMICOLON], params, continuation) == TrailingSemicolon(params)
  {
    var v := [SEMICOLON];
    TrimLeftNone(v);
    TrimSpaceNone(v);
    NoParam(v);
  }

  lemma NoParam(v: seq<byte>)
    requires v == [SEMICOLON] && TrimLeft(v) == v
    ensures ConsumeMediaParam(v) == MediaParam([], [], v)
  {
    assert v[1..] == [];
    NothingToConsume([]);
  }

  lemma NothingToConsume(v: seq<byte>)
    requires v == []
    ensures TrimLeft(v) == v && ConsumeToken(v) == (v, v)
  {
  }

  lemma PlainIsAll(params: Params)
    ensures PlainOf(params, params.Keys) == params <==> forall a :: a in params ==> !NeedsEncoding(params[a])
  {
    var plain := PlainOf(params, params.Keys);
    if plain == params {
      forall a | a in params ensures !NeedsEncoding(params[a]) {
        assert a in plain;
      }
    }
  }

  /** Format followed by Parse. */
  method FormatThenParse(t: seq<byte>, params: Params, attrs: seq<seq<byte>>) returns (r: ParseResult)
    requires IsType(t) && Lists(attrs, params) && AreNames(attrs)
    ensures r == Parsed(Lower(t), params)
  {
    assert forall a :: a in params ==> IsToken(a);
    var v := FormatMediaType(t, params, attrs);
    r := ParseMediaType(v);
    RoundTrip(t, params, attrs, r);
  }
}
