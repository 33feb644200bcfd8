/** FormatMediaType and ParseMediaType of src/mime/mediatype.go. */
module MediaType {
  import opened Common
  import opened ByteIndex
  import opened MimeGrammar
  import Format = FormatInteger
  import Percent = PercentCoding

  const SEMICOLON: byte := 59
  const SPACE: byte := 32
  const SLASH: byte := 47
  const EQUALS: byte := 61
  const STAR: byte := 42
  const QUOTE: byte := 34
  const BACKSLASH: byte := 92
  const APOSTROPHE: byte := 39

  type Params = map<seq<byte>, seq<byte>>

  // ---------------------------------------------------------------------------
  // Formatting
  // ---------------------------------------------------------------------------

  /** A quoted value: a backslash before every quote and backslash. */
  function Quoted(value: seq<byte>): seq<byte> {
    if value == [] then []
    else
      var c := value[|value| - 1];
      Quoted(value[..|value| - 1]) + (if c == QUOTE || c == BACKSLASH then [BACKSLASH, c] else [c])
  }

  /** What follows the name of a parameter. */
  function FormatValue(value: seq<byte>): seq<byte> {
    if NeedsEncoding(value) then [STAR, EQUALS] + UTF_8 + [APOSTROPHE, APOSTROPHE] + Percent.Encode(value)
    else if IsToken(value) then [EQUALS] + value
    else [EQUALS, QUOTE] + Quoted(value) + [QUOTE]
  }

  function FormatParam(attribute: seq<byte>, value: seq<byte>): seq<byte> {
    [SEMICOLON, SPACE] + Lower(attribute) + FormatValue(value)
  }

  /** The parameters named in attrs, from the k-th on. */
  function FormatParams(attrs: seq<seq<byte>>, k: nat, params: Params): seq<byte>
    requires k <= |attrs| && forall i :: 0 <= i < |attrs| ==> attrs[i] in params
    decreases |attrs| - k
  {
    if k == |attrs| then [] else FormatParam(attrs[k], params[attrs[k]]) + FormatParams(attrs, k + 1, params)
  }

  /** A type, or a type and a subtype. */
  predicate IsType(t: seq<byte>) {
    var slash := IndexByte(t, SLASH);
    if slash == -1 then IsToken(t) else IsToken(t[..slash]) && IsToken(t[slash + 1..])
  }

  /** attrs lists the names of the parameters, each once. */
  predicate Lists(attrs: seq<seq<byte>>, params: Params) {
    && (forall i :: 0 <= i < |attrs| ==> attrs[i] in params)
    && (forall a :: a in params ==> a in attrs)
    && (forall i, j :: 0 <= i < j < |attrs| ==> attrs[i] != attrs[j])
  }

  /** FormatMediaType (mediatype.go:20-102).  attrs lists the names of the
      parameters in the order in which they are written. */
  method FormatMediaType(t: seq<byte>, params: Params, attrs: seq<seq<byte>>) returns (r: seq<byte>)
    requires Lists(attrs, params)
    ensures IsType(t) && (forall a :: a in params ==> IsToken(a)) ==> r == Lower(t) + FormatParams(attrs, 0, params)
    ensures !IsType(t) || (exists a :: a in params && !IsToken(a)) ==> r == []
  {
    var head := WriteType(t);
    if head.None? {
      return [];
    }
    var b := head.value;
    ghost var later := FormatParams(attrs, 0, params);
    for k := 0 to |attrs|
      invariant later == FormatParams(attrs, k, params)
      invariant b + later == Lower(t) + FormatParams(attrs, 0, params)
      invariant forall i :: 0 <= i < k ==> IsToken(attrs[i])
    {
      var attribute := attrs[k];
      if !IsToken(attribute) {
        assert attribute in params;
        return [];
      }
      later := FormatParams(attrs, k + 1, params);
      Associate(b, FormatParam(attribute, params[attribute]), later);
      b := WriteParam(b, attribute, params[attribute]);
    }
    assert b + [] == b;
    return b;
  }

  /** The type (mediatype.go:21-35). */
  method WriteType(t: seq<byte>) returns (r: Option<seq<byte>>)
    ensures r == if IsType(t) then Some(Lower(t)) else None
  {
    var b: seq<byte> := [];
    var slash := IndexByte(t, SLASH);
    if slash == -1 {
      if !IsToken(t) {
        return None;
      }
      b := b + Lower(t);
    } else {
      var major, sub := t[..slash], t[slash + 1..];
      if !IsToken(major) || !IsToken(sub) {
        return None;
      }
      b := b + Lower(major);
      b := b + [SLASH];
      b := b + Lower(sub);
    }
    assert b == Lower(t);
    return Some(b);
  }

  /** One parameter (mediatype.go:44-99). */
  method WriteParam(b: seq<byte>, attribute: seq<byte>, value: seq<byte>) returns (b': seq<byte>)
    ensures b' == b + FormatParam(attribute, value)
  {
    hide FormatValue, Lower;
    b' := b + [SEMICOLON] + [SPACE] + Lower(attribute);
    assert b' == b + ([SEMICOLON, SPACE] + Lower(attribute));
    b' := WriteValue(b', value);
  }

  /** The value of a parameter (mediatype.go:52-99). */
  method WriteValue(b: seq<byte>, value: seq<byte>) returns (b': seq<byte>)
    ensures b' == b + FormatValue(value)
  {
    if NeedsEncoding(value) {
      ghost var head := [STAR, EQUALS] + UTF_8 + [APOSTROPHE, APOSTROPHE];
      b' := b + [STAR] + [EQUALS] + (UTF_8 + [APOSTROPHE, APOSTROPHE]);
      assert b' == b + head;
      b' := Percent.WriteEncoded(b', value);
      Associate(b, head, Percent.Encode(value));
    } else if IsToken(value) {
      b' := b + [EQUALS] + value;
    } else {
      b' := b + [EQUALS] + [QUOTE];
      assert b' == b + [EQUALS, QUOTE];
      b' := WriteQuoted(b', value);
      b' := b' + [QUOTE];
      Associate(b, [EQUALS, QUOTE], Quoted(value));
      Associate(b, [EQUALS, QUOTE] + Quoted(value), [QUOTE]);
    }
  }

  /** The loop that writes a quoted value (mediatype.go:89-98). */
  method WriteQuoted(b: seq<byte>, value: seq<byte>) returns (b': seq<byte>)
    ensures b' == b + Quoted(value)
  {
    b' := b;
    var offset := 0;
    for index := 0 to |value|
      invariant 0 <= offset <= index
      invariant b' + value[offset..index] == b + Quoted(value[..index])
    {
      var character := value[index];
      QuotedSnoc(b, value, index);
      if character == QUOTE || character == BACKSLASH {
        b' := b' + value[offset..index];
        offset := index;
        b' := b' + [BACKSLASH];
        assert value[offset..index + 1] == [character];
        assert b' + [character] == b + Quoted(value[..index]) + [BACKSLASH, character];
      } else {
        assert value[offset..index + 1] == value[offset..index] + [character];
      }
    }
    assert value[..|value|] == value;
    b' := b' + value[offset..];
  }

  lemma QuotedSnoc(b: seq<byte>, value: seq<byte>, index: nat)
    requires index < |value|
    ensures var c := value[index];
      b + Quoted(value[..index + 1])
      == b + Quoted(value[..index]) + (if c == QUOTE || c == BACKSLASH then [BACKSLASH, c] else [c])
  {
    assert value[..index + 1][..index] == value[..index];
  }

  // ---------------------------------------------------------------------------
  // The pieces of the parser
  // ---------------------------------------------------------------------------

  function TokenEnd(v: seq<byte>, i: nat): (e: nat)
    requires i <= |v|
    ensures i <= e <= |v| && (e < |v| ==> !IsTokenChar(v[e]))
    decreases |v| - i
  {
    if i < |v| && IsTokenChar(v[i]) then TokenEnd(v, i + 1) else i
  }

  /** consumeToken (mediatype.go:271-280) */
  function ConsumeToken(v: seq<byte>): (r: (seq<byte>, seq<byte>))
    ensures |r.1| <= |v|
  {
    (v[..TokenEnd(v, 0)], v[TokenEnd(v, 0)..])
  }

  /** The value of a quoted string and what follows its closing quote; v is what
      follows the opening one. */
  function Unquote(v: seq<byte>): (r: Option<(seq<byte>, seq<byte>)>)
    ensures r.Some? ==> |r.value.1| < |v|
  {
    if v == [] then None
    else if v[0] == QUOTE then Some(([], v[1..]))
    else if v[0] == BACKSLASH && |v| > 1 && IsTSpecial(v[1]) then
      var r := Unquote(v[2..]);
      if r.None? then None else Some(([v[1]] + r.value.0, r.value.1))
    else if v[0] == 13 || v[0] == 10 then None
    else
      var r := Unquote(v[1..]);
      if r.None? then None else Some(([v[0]] + r.value.0, r.value.1))
  }

  function ConsumeValueSpec(v: seq<byte>): (r: (seq<byte>, seq<byte>))
    ensures |r.1| <= |v|
  {
    if v == [] then ([], [])
    else if v[0] != QUOTE then ConsumeToken(v)
    else if Unquote(v[1..]).None? then ([], v)
    else Unquote(v[1..]).value
  }

  /** consumeValue (mediatype.go:287-324) */
  method ConsumeValue(v: seq<byte>) returns (value: seq<byte>, rest: seq<byte>)
    ensures (value, rest) == ConsumeValueSpec(v)
  {
    if v == [] {
      return [], [];
    }
    if v[0] != QUOTE {
      var r := ConsumeToken(v);
      return r.0, r.1;
    }
    var buffer: seq<byte> := [];
    var i: nat := 1;
    ghost var expected := Unquote(v[1..]);
    assert expected.Some? ==> [] + expected.value.0 == expected.value.0;
    while i < |v|
      invariant 1 <= i <= |v|
      invariant Unquoting(buffer, Unquote(v[i..]), expected)
    {
      var r := v[i];
      UnquoteStep(v, i, buffer, expected);
      if r == QUOTE {
        return buffer, v[i + 1..];
      }
      if r == BACKSLASH && i + 1 < |v| && IsTSpecial(v[i + 1]) {
        buffer := buffer + [v[i + 1]];
        i := i + 2;
        continue;
      }
      if r == 13 || r == 10 {
        return [], v;
      }
      buffer := buffer + [v[i]];
      i := i + 1;
    }
    return [], v;
  }

  /** The bytes read so far and what the rest gives make up what is expected. */
  predicate Unquoting(buffer: seq<byte>, r: Option<(seq<byte>, seq<byte>)>, expected: Option<(seq<byte>, seq<byte>)>) {
    if r.None? then expected.None? else expected == Some((buffer + r.value.0, r.value.1))
  }

  lemma UnquoteStep(v: seq<byte>, i: nat, buffer: seq<byte>, expected: Option<(seq<byte>, seq<byte>)>)
    requires i < |v| && Unquoting(buffer, Unquote(v[i..]), expected)
    ensures var r := v[i];
      if r == QUOTE then expected == Some((buffer, v[i + 1..]))
      else if r == BACKSLASH && i + 1 < |v| && IsTSpecial(v[i + 1]) then
        Unquoting(buffer + [v[i + 1]], Unquote(v[i + 2..]), expected)
      else if r == 13 || r == 10 then expected.None?
      else Unquoting(buffer + [r], Unquote(v[i + 1..]), expected)
  {
    var w := v[i..];
    assert w[1..] == v[i + 1..];
    if |w| > 1 {
      assert w[2..] == v[i + 2..];
    }
    assert buffer + [] == buffer;
    if v[i] == BACKSLASH && i + 1 < |v| && IsTSpecial(v[i + 1]) {
      var r := Unquote(v[i + 2..]);
      if r.Some? {
        assert buffer + ([v[i + 1]] + r.value.0) == buffer + [v[i + 1]] + r.value.0;
      }
    } else {
      var r := Unquote(v[i + 1..]);
      if r.Some? {
        assert buffer + ([v[i]] + r.value.0) == buffer + [v[i]] + r.value.0;
      }
    }
  }

  /** A parameter: its name in lower case, its value and what follows it.  The name
      is empty if there is none. */
  datatype MediaParam = MediaParam(name: seq<byte>, value: seq<byte>, rest: seq<byte>)

  function ConsumeMediaParam(v: seq<byte>): (p: MediaParam)
    ensures p.name != [] ==> |p.rest| < |v|
    ensures p.name == [] ==> p.rest == v
  {
    var none := MediaParam([], [], v);
    var r0 := TrimLeft(v);
    if r0 == [] || r0[0] != SEMICOLON then none
    else
      var (token, r1) := ConsumeToken(TrimLeft(r0[1..]));
      if token == [] then none
      else
        var r2 := TrimLeft(r1);
        if r2 == [] || r2[0] != EQUALS then none
        else
          var r3 := TrimLeft(r2[1..]);
          var (value, r4) := ConsumeValueSpec(r3);
          if value == [] && r4 == r3 then none
          else MediaParam(Lower(token), value, r4)
  }

  /** consumeMediaParam (mediatype.go:326-352) */
  method ReadMediaParam(v: seq<byte>) returns (param: seq<byte>, value: seq<byte>, rest: seq<byte>)
    ensures MediaParam(param, value, rest) == ConsumeMediaParam(v)
  {
    rest := TrimLeft(v);
    if rest == [] || rest[0] != SEMICOLON {
      return [], [], v;
    }
    rest := rest[1..];
    rest := TrimLeft(rest);
    var token := ConsumeToken(rest);
    param, rest := Lower(token.0), token.1;
    if param == [] {
      return [], [], v;
    }
    rest := TrimLeft(rest);
    if rest == [] || rest[0] != EQUALS {
      return [], [], v;
    }
    rest := rest[1..];
    rest := TrimLeft(rest);
    var rest2;
    value, rest2 := ConsumeValue(rest);
    if value == [] && rest2 == rest {
      return [], [], v;
    }
    rest := rest2;
  }

  /** decode2231Enc (mediatype.go:240-261) */
  function Decode2231(v: seq<byte>): Option<seq<byte>> {
    var i := IndexByte(v, APOSTROPHE);
    if i < 0 then None
    else
      var j := IndexByte(v[i + 1..], APOSTROPHE);
      if j < 0 then None
      else
        var charset := Lower(v[..i]);
        if charset != US_ASCII && charset != UTF_8 then None
        else Percent.Decode(v[i + 1..][j + 1..])
  }

  // ---------------------------------------------------------------------------
  // Parsing
  // ---------------------------------------------------------------------------

  datatype Failure = NoMediaType | ExpectedSlash | ExpectedSubtype | UnexpectedContent | DuplicateName

  datatype ParseResult =
    | Parsed(mediatype: seq<byte>, params: Params)
    | InvalidParameter(mediatype: seq<byte>)
    | Failed(why: Failure)

  /** checkMediaTypeDisposition (mediatype.go:104-123) */
  function CheckDisposition(s: seq<byte>): Option<Failure> {
    var (typ, rest) := ConsumeToken(s);
    if typ == [] then Some(NoMediaType)
    else if rest == [] then None
    else if rest[0] != SLASH then Some(ExpectedSlash)
    else
      var (subtype, rest') := ConsumeToken(rest[1..]);
      if subtype == [] then Some(ExpectedSubtype)
      else if rest' != [] then Some(UnexpectedContent)
      else None
  }

  /** The parameters whose names have a star, by what comes before it. */
  type Continuation = map<seq<byte>, Params>

  /** What the loop over the parameters (mediatype.go:159-194) ends with. */
  datatype Collected =
    | All(params: Params, continuation: Continuation)
    | TrailingSemicolon(params: Params)
    | Malformed
    | Duplicate

  /** The map that a parameter goes to. */
  function Group(name: seq<byte>, params: Params, continuation: Continuation): Params {
    var idx := IndexByte(name, STAR);
    if idx == -1 then params
    else if name[..idx] in continuation then continuation[name[..idx]]
    else map[]
  }

  function AddTo(name: seq<byte>, value: seq<byte>, params: Params,
                 continuation: Continuation): (Params, Continuation) {
    var idx := IndexByte(name, STAR);
    var group := Group(name, params, continuation)[name := value];
    if idx == -1 then (group, continuation) else (params, continuation[name[..idx] := group])
  }

  function Collect(v: seq<byte>, params: Params, continuation: Continuation): Collected
    decreases |v|
  {
    var w := TrimLeft(v);
    if w == [] then All(params, continuation)
    else
      var p := ConsumeMediaParam(w);
      if p.name == [] then
        if TrimSpace(p.rest) == [SEMICOLON] then TrailingSemicolon(params) else Malformed
      else if p.name in Group(p.name, params, continuation) then Duplicate
      else
        var (params', continuation') := AddTo(p.name, p.value, params, continuation);
        Collect(p.rest, params', continuation')
  }

  /** The name of the n-th part of a parameter: "key*n". */
  function PartName(key: seq<byte>, n: nat): seq<byte> {
    key + [STAR] + Format.Numeral(n, 10, Format.L_DIGITS)
  }

  lemma LastDigit(key: seq<byte>, n: nat)
    ensures PartName(key, n)[|PartName(key, n)| - 1] != STAR
  {
  }

  lemma PartNamesDiffer(key: seq<byte>, m: nat, n: nat)
    ensures PartName(key, m) == PartName(key, n) ==> m == n
    ensures PartName(key, m) + [STAR] == PartName(key, n) + [STAR] ==> m == n
    ensures PartName(key, m) + [STAR] != PartName(key, n)
  {
    var k := |key| + 1;
    Format.ValueOfNumeral(m, 10, Format.L_DIGITS);
    Format.ValueOfNumeral(n, 10, Format.L_DIGITS);
    var mm, nn := Format.Numeral(m, 10, Format.L_DIGITS), Format.Numeral(n, 10, Format.L_DIGITS);
    hide Format.Numeral;
    assert PartName(key, m)[k..] == mm && PartName(key, n)[k..] == nn;
    if PartName(key, m) + [STAR] == PartName(key, n) + [STAR] {
      assert PartName(key, m) == (PartName(key, m) + [STAR])[..|PartName(key, m)|];
      assert PartName(key, n) == (PartName(key, n) + [STAR])[..|PartName(key, n)|];
    }
    LastDigit(key, n);
    assert (PartName(key, m) + [STAR])[|PartName(key, m)|] == STAR;
  }

  /** The parts used so far: each is there under its plain or its starred name. */
  ghost predicate PartsUsed(key: seq<byte>, pieces: Params, n: nat, used: set<seq<byte>>) {
    && used <= pieces.Keys && |used| == n
    && forall u :: u in used ==> exists m: nat :: m < n && IsPart(key, m, u)
  }

  predicate IsPart(key: seq<byte>, m: nat, name: seq<byte>) {
    name == PartName(key, m) || name == PartName(key, m) + [STAR]
  }

  lemma UsePart(key: seq<byte>, pieces: Params, n: nat, used: set<seq<byte>>, name: seq<byte>)
    requires PartsUsed(key, pieces, n, used) && name in pieces && IsPart(key, n, name)
    ensures PartsUsed(key, pieces, n + 1, used + {name}) && n < |pieces|
  {
    if name in used {
      var m: nat :| m < n && IsPart(key, m, name);
      PartNamesDiffer(key, m, n);
      PartNamesDiffer(key, n, m);
      assert false;
    }
    assert |used + {name}| == n + 1;
    assert used + {name} <= pieces.Keys;
    SubsetSize(used + {name}, pieces.Keys);
    assert |pieces.Keys| == |pieces|;
    forall u | u in used + {name} ensures exists m: nat :: m < n + 1 && IsPart(key, m, u) {
      if u == name {
        assert IsPart(key, n, u);
      } else {
        var m: nat :| m < n && IsPart(key, m, u);
        assert m < n + 1;
      }
    }
  }

  lemma {:induction false} SubsetSize(a: set<seq<byte>>, b: set<seq<byte>>)
    requires a <= b
    ensures |a| <= |b|
  {
    assert b == a + (b - a);
  }

  /** What a part adds to the value: a plain part its text, a starred one what it
      decodes to. */
  function PartText(key: seq<byte>, pieces: Params, n: nat): Option<seq<byte>> {
    var simple := PartName(key, n);
    if simple in pieces then Some(pieces[simple])
    else if simple + [STAR] in pieces then
      var decoded := if n == 0 then Decode2231(pieces[simple + [STAR]]) else Percent.Decode(pieces[simple + [STAR]]);
      Some(if decoded.Some? then decoded.value else [])
    else None
  }

  /** The texts of the parts before n, in order; all of them are there. */
  function PartsBefore(key: seq<byte>, pieces: Params, n: nat): Option<seq<byte>> {
    if n == 0 then Some([])
    else if PartsBefore(key, pieces, n - 1).None? || PartText(key, pieces, n - 1).None? then None
    else Some(PartsBefore(key, pieces, n - 1).value + PartText(key, pieces, n - 1).value)
  }

  /** The value of a parameter from its pieces, RFC 2231 sections 3 and 4: from a
      single starred piece, or from parts 0, 1, ... up to the first that is missing. */
  ghost predicate IsStitched(key: seq<byte>, pieces: Params, r: Option<seq<byte>>) {
    if key + [STAR] in pieces then r == Decode2231(pieces[key + [STAR]])
    else exists n: nat ::
      && PartText(key, pieces, n).None? && PartsBefore(key, pieces, n).Some?
      && r == if n == 0 then None else PartsBefore(key, pieces, n)
  }

  /** One parameter of the stitching loop (mediatype.go:200-234). */
  method Stitch(key: seq<byte>, pieces: Params) returns (r: Option<seq<byte>>)
    ensures IsStitched(key, pieces, r)
  {
    if key + [STAR] in pieces {
      return Decode2231(pieces[key + [STAR]]);
    }
    var buf: seq<byte> := [];
    var valid := false;
    var n := 0;
    ghost var used: set<seq<byte>> := {};
    while true
      invariant PartsUsed(key, pieces, n, used)
      invariant PartsBefore(key, pieces, n) == Some(buf) && valid == (n > 0)
      decreases |pieces| - n
    {
      ghost var name;
      var part;
      part, name := ReadPart(key, pieces, n);
      if part.None? {
        break;
      }
      UsePart(key, pieces, n, used, name);
      used := used + {name};
      valid := true;
      buf := buf + part.value;
      n := n + 1;
    }
    return if valid then Some(buf) else None;
  }

  /** The n-th part (mediatype.go:211-230). */
  method ReadPart(key: seq<byte>, pieces: Params, n: nat) returns (part: Option<seq<byte>>, ghost name: seq<byte>)
    ensures part == PartText(key, pieces, n)
    ensures part.Some? ==> name in pieces && IsPart(key, n, name)
  {
    var simplePart := PartName(key, n);
    name := simplePart;
    if simplePart in pieces {
      return Some(pieces[simplePart]), name;
    }
    var encodedPart := simplePart + [STAR];
    name := encodedPart;
    if encodedPart !in pieces {
      return None, name;
    }
    var v := pieces[encodedPart];
    var decv := if n == 0 then Decode2231(v) else Percent.Decode(v);
    return Some(if decv.Some? then decv.value else []), name;
  }

  /** The parameters after stitching: each name with a star that has a value
      overrides, the others are as they were. */
  ghost predicate IsMerged(params: Params, continuation: Continuation, merged: Params) {
    && (forall key :: key in merged || key in params || key in continuation ==>
      MergedAt(params, continuation, merged, key))
  }

  ghost predicate MergedAt(params: Params, continuation: Continuation, merged: Params, key: seq<byte>) {
    exists r: Option<seq<byte>> ::
      && (if key in continuation then IsStitched(key, continuation[key], r) else r == None)
      && Lookup(merged, key) == if r.Some? then r else Lookup(params, key)
  }

  function Lookup(m: Params, key: seq<byte>): Option<seq<byte>> {
    if key in m then Some(m[key]) else None
  }

  /** The loop over the continuations (mediatype.go:199-235), in any order. */
  method StitchAll(params: Params, continuation: Continuation) returns (merged: Params)
    ensures IsMerged(params, continuation, merged)
  {
    merged := params;
    var keys := continuation.Keys;
    forall key | key !in keys ensures MergedAt(params, continuation, merged, key) {
      ghost var r: Option<seq<byte>> := None;
      assert Lookup(merged, key) == if r.Some? then r else Lookup(params, key);
    }
    while keys != {}
      invariant keys <= continuation.Keys
      invariant forall key :: key !in keys ==> MergedAt(params, continuation, merged, key)
      invariant forall key :: key in keys ==> Lookup(merged, key) == Lookup(params, key)
      decreases |keys|
    {
      var key :| key in keys;
      ghost var before := merged;
      var r := Stitch(key, continuation[key]);
      if r.Some? {
        merged := merged[key := r.value];
      }
      forall k | k !in keys - {key} ensures MergedAt(params, continuation, merged, k) {
        if k != key {
          assert MergedAt(params, continuation, before, k);
          assert Lookup(merged, k) == Lookup(before, k);
        } else {
          assert IsStitched(key, continuation[key], r);
        }
      }
      keys := keys - {key};
    }
  }

  ghost predicate IsParsed(v: seq<byte>, r: ParseResult) {
    var i := if SEMICOLON in v then IndexByte(v, SEMICOLON) else |v|;
    0 <= i <= |v| &&
    var mediatype := TrimSpace(Lower(v[..i]));
    if CheckDisposition(mediatype).Some? then r == Failed(CheckDisposition(mediatype).value)
    else
      match Collect(v[i..], map[], map[])
      case All(params, continuation) =>
        r.Parsed? && r.mediatype == mediatype && IsMerged(params, continuation, r.params)
      case TrailingSemicolon(params) => r == Parsed(mediatype, params)
      case Malformed => r == InvalidParameter(mediatype)
      case Duplicate => r == Failed(DuplicateName)
  }

  /** ParseMediaType (mediatype.go:140-238) */
  method ParseMediaType(v: seq<byte>) returns (r: ParseResult)
    ensures IsParsed(v, r)
  {
    var i := IndexByte(v, SEMICOLON);
    if i == -1 {
      i := |v|;
    }
    var mediatype := TrimSpace(Lower(v[..i]));
    var failure := CheckDisposition(mediatype);
    if failure.Some? {
      return Failed(failure.value);
    }
    var params: Params, continuation: Continuation := map[], map[];
    var w := v[i..];
    ghost var collected := Collect(w, params, continuation);
    while |w| > 0
      invariant Collect(w, params, continuation) == collected
      decreases |w|
    {
      w := TrimLeft(w);
      if |w| == 0 {
        break;
      }
      var key, value, rest := ReadMediaParam(w);
      if key == [] {
        if TrimSpace(rest) == [SEMICOLON] {
          return Parsed(mediatype, params);
        }
        return InvalidParameter(mediatype);
      }
      if key in Group(key, params, continuation) {
        return Failed(DuplicateName);
      }
      var added := AddTo(key, value, params, continuation);
      params, continuation := added.0, added.1;
      w := rest;
    }
    params := StitchAll(params, continuation);
    return Parsed(mediatype, params);
  }
}
