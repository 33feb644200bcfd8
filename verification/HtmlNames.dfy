/** What UnescapeString makes of a named reference, by the table alone
    (src/html/escape.go:126-163). */
module HtmlNames {
  import opened Common
  import opened Html
  import Utf8

  /** The letters and digits, and a semicolon that ends them, that stand behind an
      ampersand and before rest. */
  predicate IsNameBefore(name: seq<byte>, rest: seq<byte>) {
    && name != []
    && (forall i :: 0 <= i < |name| - 1 ==> Belongs(name[i], Name))
    && (name[|name| - 1] == SEMICOLON
        || (Belongs(name[|name| - 1], Name)
            && (rest == [] || (!Belongs(rest[0], Name) && rest[0] != SEMICOLON))))
  }

  lemma {:induction false} RunEndsAt(s: seq<byte>, i: nat, e: nat)
    requires i <= e <= |s| && (forall k :: i <= k < e ==> Belongs(s[k], Name))
    requires e == |s| || !Belongs(s[e], Name)
    ensures RunEnd(s, i, Name) == e
    decreases e - i
  {
    if i < e {
      RunEndsAt(s, i + 1, e);
    }
  }

  /** The reference ends with its name. */
  lemma NameFound(name: seq<byte>, rest: seq<byte>)
    requires IsNameBefore(name, rest)
    ensures var s := [AMPERSAND] + name + rest;
      && ReferenceEnd(s, 1, Name) == |name| + 1 && s[1..|name| + 1] == name && s[|name| + 1..] == rest
      && s[..|name| + 1] == [AMPERSAND] + name && s[1] == name[0] != 35
  {
    var s := [AMPERSAND] + name + rest;
    var e := if name[|name| - 1] == SEMICOLON then |name| else |name| + 1;
    forall k | 1 <= k < e ensures Belongs(s[k], Name) {
      assert s[k] == name[k - 1];
    }
    assert s[|name|] == name[|name| - 1];
    assert rest != [] ==> s[|name| + 1] == rest[0];
    RunEndsAt(s, 1, e);
  }

  /** One step of the decoder. */
  lemma ReferenceFirst(t: Table, name: seq<byte>, rest: seq<byte>)
    requires WellFormed(t) && IsNameBefore(name, rest)
    ensures var s := [AMPERSAND] + name + rest;
      && s[0] == AMPERSAND && |s| >= 2 && DecodeReference(t, s) == DecodeNamed(t, s)
      && Unescape(t, s) == DecodeNamed(t, s).text + Unescape(t, s[DecodeNamed(t, s).width..])
  {
    hide DecodeNamed, DecodeNumeric, WellFormed;
    NameFound(name, rest);
  }

  /** A name that the table has is replaced by its rune. */
  lemma KnownName(t: Table, name: seq<byte>, rest: seq<byte>)
    requires WellFormed(t) && IsNameBefore(name, rest) && name in t.single
    ensures Unescape(t, [AMPERSAND] + name + rest) == Utf8.EncodeRune(t.single[name]) + Unescape(t, rest)
  {
    hide Unescape, WellFormed;
    ReferenceFirst(t, name, rest);
    NameFound(name, rest);
  }

  /** Or by its two runes. */
  lemma KnownName2(t: Table, name: seq<byte>, rest: seq<byte>)
    requires WellFormed(t) && IsNameBefore(name, rest) && name !in t.single && name in t.double
    ensures Unescape(t, [AMPERSAND] + name + rest)
         == Utf8.EncodeRune(t.double[name].0) + Utf8.EncodeRune(t.double[name].1) + Unescape(t, rest)
  {
    hide Unescape, WellFormed;
    ReferenceFirst(t, name, rest);
    NameFound(name, rest);
  }

  /** The beginnings of a name that are looked for: of two to six bytes, and not all
      of it. */
  predicate Candidate(t: Table, name: seq<byte>, k: nat) {
    2 <= k <= 6 && k < |name| && name[..k] in t.single
  }

  lemma LongestIs(t: Table, name: seq<byte>, k: nat)
    requires name != [] && forall l: nat :: Candidate(t, name, l) ==> l <= k
    requires k == 0 || Candidate(t, name, k)
    ensures LongestName(t, name, if |name| - 1 < 6 then |name| - 1 else 6) == k
  {
    var j := if |name| - 1 < 6 then |name| - 1 else 6;
    var found := LongestName(t, name, j);
    if found != 0 {
      assert Candidate(t, name, found);
    }
  }

  lemma PrefixDecoded(t: Table, s: seq<byte>, name: seq<byte>, k: nat)
    requires WellFormed(t) && |s| >= 2 && s[0] == AMPERSAND && name != []
    requires ReferenceEnd(s, 1, Name) == |name| + 1 && s[1..|name| + 1] == name
    requires name !in t.single && name !in t.double
    requires 2 <= k <= |name| && name[..k] in t.single
    requires LongestName(t, name, if |name| - 1 < 6 then |name| - 1 else 6) == k
    ensures DecodeNamed(t, s) == Html.Decoded(Utf8.EncodeRune(t.single[name[..k]]), k + 1)
  {
    hide WellFormed, ReferenceEnd, LongestName, Utf8.EncodeRune;
  }

  /** A name that is not in the table, but begins with names that are: the longest
      of them, p, is replaced by its rune, and the rest of the name stays. */
  lemma LongestPrefix(t: Table, p: seq<byte>, q: seq<byte>, rest: seq<byte>)
    requires WellFormed(t) && IsNameBefore(p + q, rest) && p + q !in t.single && p + q !in t.double
    requires Candidate(t, p + q, |p|) && forall l: nat :: Candidate(t, p + q, l) ==> l <= |p|
    ensures p in t.single
    ensures Unescape(t, [AMPERSAND] + (p + q) + rest)
         == Utf8.EncodeRune(t.single[p]) + q + Unescape(t, rest)
  {
    hide Unescape, WellFormed, Candidate, IsNameBefore, ReferenceEnd, LongestName, DecodeNamed, Utf8.EncodeRune;
    var name := p + q;
    var s := [AMPERSAND] + name + rest;
    ReferenceFirst(t, name, rest);
    NameFound(name, rest);
    CandidateIsPrefix(t, p, q);
    LongestIs(t, name, |p|);
    PrefixDecoded(t, s, name, |p|);
    assert s[|p| + 1..] == q + rest;
    PlainText(t, q, rest, name);
    Associate(Utf8.EncodeRune(t.single[p]), q, Unescape(t, rest));
  }

  lemma CandidateIsPrefix(t: Table, p: seq<byte>, q: seq<byte>)
    requires Candidate(t, p + q, |p|)
    ensures 2 <= |p| && (p + q)[..|p|] == p && p in t.single
  {
    assert (p + q)[..|p|] == p;
  }

  /** The rest of a name has no ampersand. */
  lemma PlainText(t: Table, q: seq<byte>, rest: seq<byte>, name: seq<byte>)
    requires WellFormed(t) && IsNameBefore(name, rest) && |q| <= |name| && name[|name| - |q|..] == q
    ensures Unescape(t, q + rest) == q + Unescape(t, rest)
  {
    hide Unescape, WellFormed;
    var s := q + rest;
    assert s[..|q|] == q && s[|q|..] == rest;
    forall i | 0 <= i < |q| ensures s[..|q|][i] != AMPERSAND {
      assert q[i] == name[|name| - |q| + i];
    }
    NoReference(t, s, |q|);
  }

  /** A name that is not in the table, nor begins with one that is, stays. */
  lemma UnknownName(t: Table, name: seq<byte>, rest: seq<byte>)
    requires WellFormed(t) && IsNameBefore(name, rest) && name !in t.single && name !in t.double
    requires forall l: nat :: !Candidate(t, name, l)
    ensures Unescape(t, [AMPERSAND] + name + rest) == [AMPERSAND] + name + Unescape(t, rest)
  {
    hide Unescape, WellFormed, Candidate;
    var s := [AMPERSAND] + name + rest;
    ReferenceFirst(t, name, rest);
    NameFound(name, rest);
    LongestIs(t, name, 0);
  }

  /** So does an ampersand with no name and no number sign behind it. */
  lemma NoName(t: Table, rest: seq<byte>)
    requires WellFormed(t)
    requires rest == [] || (!Belongs(rest[0], Name) && rest[0] != SEMICOLON && rest[0] != 35)
    ensures Unescape(t, [AMPERSAND] + rest) == [AMPERSAND] + Unescape(t, rest)
  {
    hide WellFormed;
    var s := [AMPERSAND] + rest;
    assert s[1..] == rest;
    if rest != [] {
      assert s[1] == rest[0];
      RunEndsAt(s, 1, 1);
      assert DecodeNamed(t, s) == LITERAL;
    }
  }

  /** "&notit;" is read as the sign of "not" followed by "it;". */
  lemma NotIt(t: Table)
    requires WellFormed(t)
    requires [110, 111, 116] in t.single
    requires [110, 111, 116, 105, 116, 59] !in t.single && [110, 111, 116, 105, 116, 59] !in t.double
    requires [110, 111, 116, 105] !in t.single && [110, 111, 116, 105, 116] !in t.single
    ensures Unescape(t, [38, 110, 111, 116, 105, 116, 59])
         == Utf8.EncodeRune(t.single[[110, 111, 116]]) + [105, 116, 59]
  {
    hide Unescape, WellFormed;
    var p: seq<byte>, q: seq<byte> := [110, 111, 116], [105, 116, 59];
    var name := p + q;
    assert name == [110, 111, 116, 105, 116, 59] && name[..3] == p;
    assert name[..4] == [110, 111, 116, 105] && name[..5] == [110, 111, 116, 105, 116];
    LongestPrefix(t, p, q, []);
    NothingToUnescape(t);
    assert [AMPERSAND] + name + [] == [38, 110, 111, 116, 105, 116, 59];
    assert Utf8.EncodeRune(t.single[p]) + q + [] == Utf8.EncodeRune(t.single[p]) + q;
  }

  lemma NothingToUnescape(t: Table)
    requires WellFormed(t)
    ensures Unescape(t, []) == []
  {
  }
}
