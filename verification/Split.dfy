/** Count, genSplit, Join and Replace of src/bytes/bytes.go. */
module Split {
  import opened Common
  import opened ByteIndex
  import opened Search
  import Utf8

  /** How many times sep occurs in s, one occurrence starting after the other. */
  function Occurrences(s: seq<byte>, sep: seq<byte>): nat
    requires sep != []
    decreases |s|
  {
    var i := FirstIndex(s, sep);
    if i < 0 then 0 else 1 + Occurrences(s[i + |sep|..], sep)
  }

  /** At most n pieces between the separators, keeping `save` bytes of each. */
  function Pieces(s: seq<byte>, sep: seq<byte>, save: nat, n: nat): (pieces: seq<seq<byte>>)
    requires 0 < |sep| && save <= |sep| && n >= 1
    ensures pieces != []
    decreases |s|
  {
    var i := FirstIndex(s, sep);
    if n == 1 || i < 0 then [s]
    else [s[..i + save]] + Pieces(s[i + |sep|..], sep, save, n - 1)
  }

  /** All the pieces. */
  function SplitOf(s: seq<byte>, sep: seq<byte>): seq<seq<byte>>
    requires sep != []
  {
    Pieces(s, sep, 0, Occurrences(s, sep) + 1)
  }

  function JoinOf(parts: seq<seq<byte>>, sep: seq<byte>): seq<byte> {
    if parts == [] then []
    else if |parts| == 1 then parts[0]
    else parts[0] + (sep + JoinOf(parts[1..], sep))
  }

  /** One less separator than pieces: Split gives Count + 1 of them, and SplitN
      no more than n. */
  lemma {:induction false} PieceCount(s: seq<byte>, sep: seq<byte>, save: nat, n: nat)
    requires 0 < |sep| && save <= |sep| && n >= 1
    ensures |Pieces(s, sep, save, n)| == if n <= Occurrences(s, sep) then n else Occurrences(s, sep) + 1
    decreases |s|
  {
    hide FirstIndex;
    var i := FirstIndex(s, sep);
    if n > 1 && i >= 0 {
      PieceCount(s[i + |sep|..], sep, save, n - 1);
    }
  }

  predicate Contains(s: seq<byte>, sep: seq<byte>) {
    FirstIndex(s, sep) >= 0
  }

  /** No piece of a split has a separator left in it. */
  lemma {:induction false} PiecesContainNone(s: seq<byte>, sep: seq<byte>, k: nat)
    requires sep != [] && k < |SplitOf(s, sep)|
    ensures !Contains(SplitOf(s, sep)[k], sep)
    decreases |s|
  {
    var i := FirstIndex(s, sep);
    if i >= 0 {
      if k > 0 {
        PiecesContainNone(s[i + |sep|..], sep, k - 1);
      } else if Contains(s[..i], sep) {
        var j := FirstIndex(s[..i], sep);
        FirstOccurs(s[..i], sep);
        assert s[..i][j..j + |sep|] == s[j..j + |sep|];
        FirstIndexIsFirst(s, sep);
        assert OccursAt(s, sep, j);
        assert false;
      }
    }
  }

  lemma FirstPiece(s: seq<byte>, sep: seq<byte>, save: nat, n: nat, fewer: nat) returns (later: seq<seq<byte>>)
    requires 0 < |sep| && save <= |sep| && n == fewer + 1 && fewer >= 1 && FirstIndex(s, sep) >= 0
    ensures later == Pieces(s[FirstIndex(s, sep) + |sep|..], sep, save, fewer)
    ensures Pieces(s, sep, save, n) == [s[..FirstIndex(s, sep) + save]] + later
  {
    later := Pieces(s[FirstIndex(s, sep) + |sep|..], sep, save, fewer);
  }

  lemma LastPiece(s: seq<byte>, sep: seq<byte>, save: nat, n: nat)
    requires 0 < |sep| && save <= |sep| && n >= 1 && (n == 1 || FirstIndex(s, sep) < 0)
    ensures Pieces(s, sep, save, n) == [s] + []
  {
  }

  lemma AroundAt(s: seq<byte>, sep: seq<byte>, i: nat)
    requires i + |sep| <= |s| && s[i..i + |sep|] == sep
    ensures s[..i] + (sep + s[i + |sep|..]) == s
  {
    assert s == s[..i] + s[i..i + |sep|] + s[i + |sep|..];
  }

  lemma JoinCons(p: seq<byte>, parts: seq<seq<byte>>, sep: seq<byte>)
    requires parts != []
    ensures JoinOf([p] + parts, sep) == p + (sep + JoinOf(parts, sep))
  {
    assert ([p] + parts)[1..] == parts;
  }

  lemma JoinOne(p: seq<byte>, sep: seq<byte>)
    ensures JoinOf([p] + [], sep) == p
  {
  }

  /** Joining undoes splitting, for any number of pieces. */
  lemma {:induction false} JoinSplit(s: seq<byte>, sep: seq<byte>, n: nat)
    requires sep != [] && n >= 1
    ensures JoinOf(Pieces(s, sep, 0, n), sep) == s
    decreases |s|
  {
    hide Pieces, JoinOf, FirstIndex;
    var i := FirstIndex(s, sep);
    if n > 1 && i >= 0 {
      var later := FirstPiece(s, sep, 0, n, n - 1);
      JoinSplit(s[i + |sep|..], sep, n - 1);
      JoinCons(s[..i], later, sep);
      FirstOccurs(s, sep);
      AroundAt(s, sep, i);
    } else {
      LastPiece(s, sep, 0, n);
      JoinOne(s, sep);
    }
  }

  function Flatten(parts: seq<seq<byte>>): seq<byte> {
    if parts == [] then [] else parts[0] + Flatten(parts[1..])
  }

  lemma FlattenCons(p: seq<byte>, parts: seq<seq<byte>>)
    ensures Flatten([p] + parts) == p + Flatten(parts)
  {
    assert ([p] + parts)[1..] == parts;
  }

  /** The pieces of SplitAfter, which keep their separators, make up the text. */
  lemma {:induction false} FlattenSplitAfter(s: seq<byte>, sep: seq<byte>, n: nat)
    requires sep != [] && n >= 1
    ensures Flatten(Pieces(s, sep, |sep|, n)) == s
    decreases |s|
  {
    var i := FirstIndex(s, sep);
    if n > 1 && i >= 0 {
      var tail := s[i + |sep|..];
      FlattenSplitAfter(tail, sep, n - 1);
      FirstOccurs(s, sep);
      FlattenCons(s[..i + |sep|], Pieces(tail, sep, |sep|, n - 1));
    } else {
      assert Pieces(s, sep, |sep|, n) == [s];
    }
  }

  /** bytealg.Count, by definition. */
  function CountByte(s: seq<byte>, c: byte): nat {
    if s == [] then 0 else (if s[0] == c then 1 else 0) + CountByte(s[1..], c)
  }

  lemma {:induction false} CountByteSkips(s: seq<byte>, c: byte, i: nat)
    requires i <= |s| && c !in s[..i]
    ensures CountByte(s, c) == CountByte(s[i..], c)
  {
    if i > 0 {
      assert s[0] == s[..i][0];
      assert s[1..][..i - 1] == s[..i][1..];
      CountByteSkips(s[1..], c, i - 1);
      assert s[1..][i - 1..] == s[i..];
    }
  }

  lemma {:induction false} CountByteOccurrences(s: seq<byte>, c: byte)
    ensures CountByte(s, c) == Occurrences(s, [c])
    decreases |s|
  {
    var i := IndexByte(s, c);
    FirstOfOneByte(s, c);
    FirstIndexIsFirst(s, [c]);
    FirstIsUnique(s, [c], i, FirstIndex(s, [c]));
    if i < 0 {
      CountByteSkips(s, c, |s|);
    } else {
      CountByteSkips(s, c, i);
      CountByteOccurrences(s[i + 1..], c);
      assert s[i..][1..] == s[i + 1..];
    }
  }

  /** Count (bytes.go:55-72) */
  method Count(s: seq<byte>, sep: seq<byte>, tuning: Tuning) returns (n: nat)
    ensures n == if sep == [] then |Utf8.Runes(s)| + 1 else Occurrences(s, sep)
  {
    if |sep| == 0 {
      n := RuneCount(s);
      return n + 1;
    }
    if |sep| == 1 {
      assert sep == [sep[0]];
      CountByteOccurrences(s, sep[0]);
      return CountByte(s, sep[0]);
    }
    n := 0;
    var rest := s;
    while true
      invariant n + Occurrences(rest, sep) == Occurrences(s, sep)
      decreases |rest|
    {
      var i := Find(rest, sep, tuning);
      if i == -1 {
        return n;
      }
      n := n + 1;
      rest := rest[i + |sep|..];
    }
  }

  /** utf8.RuneCount, one rune at a time. */
  method RuneCount(s: seq<byte>) returns (n: nat)
    ensures n == |Utf8.Runes(s)|
  {
    n := 0;
    var rest := s;
    while rest != []
      invariant n + |Utf8.Runes(rest)| == |Utf8.Runes(s)|
      decreases |rest|
    {
      n := n + 1;
      rest := rest[Utf8.DecodeRune(rest).1..];
    }
  }

  /** genSplit (bytes.go:246-271) */
  method GenSplit(s: seq<byte>, sep: seq<byte>, sepSave: nat, n: int, tuning: Tuning) returns (pieces: seq<seq<byte>>)
    requires sepSave <= |sep|
    ensures n == 0 ==> pieces == []
    ensures n != 0 && sep == [] ==> pieces == RunePieces(s, if n < 0 then |s| else n)
    ensures n < 0 && sep != [] ==> pieces == Pieces(s, sep, sepSave, Occurrences(s, sep) + 1)
    ensures n > 0 && sep != [] ==> pieces == Pieces(s, sep, sepSave, n)
  {
    if n == 0 {
      return [];
    }
    if |sep| == 0 {
      pieces := Explode(s, n);
      return;
    }
    var total := n;
    if n < 0 {
      var c := Count(s, sep, tuning);
      total := c + 1;
    }
    var a := new seq<byte>[total];
    var k := SplitInto(a, s, sep, sepSave, tuning);
    return a[..k];
  }

  /** The loop of genSplit (bytes.go:258-270): how much of a it fills. */
  method SplitInto(a: array<seq<byte>>, s: seq<byte>, sep: seq<byte>, sepSave: nat, tuning: Tuning) returns (k: nat)
    requires 0 < |sep| && sepSave <= |sep| && a.Length >= 1
    modifies a
    ensures k <= a.Length && a[..k] == Pieces(s, sep, sepSave, a.Length)
  {
    var n := a.Length - 1;
    var i: nat, rest := 0, s;
    ghost var later := Pieces(s, sep, sepSave, a.Length);
    ghost var all := later;
    assert a[..0] + later == all;
    while i < n
      invariant i <= n && a[..i] + later == all
      invariant later == Pieces(rest, sep, sepSave, a.Length - i)
    {
      var m := Find(rest, sep, tuning);
      if m < 0 {
        break;
      }
      rest, later := SplitOne(a, i, rest, sep, sepSave, m, later, all);
      i := i + 1;
    }
    LastPiece(rest, sep, sepSave, a.Length - i);
    Store(a, i, rest, [], all);
    k := i + 1;
    assert a[..k] + [] == a[..k];
  }

  /** One round of the loop (bytes.go:265-266). */
  method SplitOne(a: array<seq<byte>>, i: nat, s: seq<byte>, sep: seq<byte>, sepSave: nat, m: nat,
                  ghost pieces: seq<seq<byte>>, ghost all: seq<seq<byte>>)
    returns (rest: seq<byte>, ghost later: seq<seq<byte>>)
    requires 0 < |sep| && sepSave <= |sep| && m == FirstIndex(s, sep)
    requires i + 1 < a.Length && a[..i] + pieces == all && pieces == Pieces(s, sep, sepSave, a.Length - i)
    modifies a
    ensures a[..i + 1] + later == all && later == Pieces(rest, sep, sepSave, a.Length - i - 1)
    ensures |rest| < |s|
  {
    later := FirstPiece(s, sep, sepSave, a.Length - i, a.Length - i - 1);
    Store(a, i, s[..m + sepSave], later, all);
    rest := s[m + |sep|..];
  }

  /** a[i] = piece, where the pieces so far and the later ones make up all. */
  method Store(a: array<seq<byte>>, i: nat, piece: seq<byte>, ghost later: seq<seq<byte>>, ghost all: seq<seq<byte>>)
    requires i < a.Length && a[..i] + ([piece] + later) == all
    modifies a
    ensures a[..i + 1] + later == all
  {
    ghost var done := a[..i];
    a[i] := piece;
    assert a[..i + 1] == done + [piece];
  }

  /** At most n pieces of one rune each, and the rest in the last. */
  function RunePieces(s: seq<byte>, n: nat): seq<seq<byte>> {
    if s == [] then []
    else if n <= 1 then [s]
    else
      var size := Utf8.DecodeRune(s).1;
      [s[..size]] + RunePieces(s[size..], n - 1)
  }

  /** explode (bytes.go:32-51) */
  method Explode(s: seq<byte>, n: int) returns (pieces: seq<seq<byte>>)
    ensures pieces == RunePieces(s, if n <= 0 then |s| else n)
  {
    var total := n;
    if n <= 0 {
      total := |s|;
    }
    var a := new seq<byte>[total];
    var na: nat, rest := 0, s;
    ghost var later := RunePieces(s, total);
    ghost var all := later;
    assert a[..0] + later == all;
    while |rest| > 0
      invariant na <= total && (na == total ==> rest == [])
      invariant a[..na] + later == all
      invariant later == RunePieces(rest, total - na)
      decreases |rest|
    {
      if na + 1 >= total {
        Store(a, na, rest, [], all);
        na := na + 1;
        return a[..na];
      }
      var (_, size) := Utf8.DecodeRune(rest);
      later := RunePieces(rest[size..], total - na - 1);
      Store(a, na, rest[..size], later, all);
      rest := rest[size..];
      na := na + 1;
    }
    return a[..na];
  }

  /** Exploding a text into as many pieces as it has bytes gives its runes. */
  lemma {:induction false} ExplodeGivesRunes(s: seq<byte>, n: nat)
    requires n >= |s|
    ensures RunePieces(s, n) == RuneSlices(s)
    decreases |s|
  {
    if s != [] {
      var size := Utf8.DecodeRune(s).1;
      if n <= 1 {
        assert s[..size] == s && s[size..] == [];
      } else {
        ExplodeGivesRunes(s[size..], n - 1);
      }
    }
  }

  /** The bytes of each rune of a text. */
  function RuneSlices(s: seq<byte>): seq<seq<byte>> {
    if s == [] then []
    else
      var size := Utf8.DecodeRune(s).1;
      [s[..size]] + RuneSlices(s[size..])
  }

  lemma {:induction false} RuneSlicesCoverText(s: seq<byte>)
    ensures Flatten(RuneSlices(s)) == s
    decreases |s|
  {
    if s != [] {
      var size := Utf8.DecodeRune(s).1;
      RuneSlicesCoverText(s[size..]);
      FlattenCons(s[..size], RuneSlices(s[size..]));
    }
  }

  lemma {:induction false} RuneSlicesAreRunes(s: seq<byte>, k: nat)
    requires k < |RuneSlices(s)|
    ensures |RuneSlices(s)| == |Utf8.Runes(s)|
    ensures Utf8.DecodeRune(RuneSlices(s)[k]) == (Utf8.Runes(s)[k], |RuneSlices(s)[k]|)
    decreases |s|
  {
    var size := Utf8.DecodeRune(s).1;
    OneRune(s);
    if |RuneSlices(s[size..])| == 0 {
      assert s[size..] == [];
    } else {
      RuneSlicesAreRunes(s[size..], if k > 0 then k - 1 else 0);
    }
  }

  /** A rune cut out decodes to itself. */
  lemma OneRune(s: seq<byte>)
    requires s != []
    ensures var (r, size) := Utf8.DecodeRune(s); Utf8.DecodeRune(s[..size]) == (r, size)
  {
  }

  lemma {:induction false} JoinSnoc(parts: seq<seq<byte>>, p: seq<byte>, sep: seq<byte>)
    requires parts != []
    ensures JoinOf(parts + [p], sep) == JoinOf(parts, sep) + sep + p
    decreases parts
  {
    assert (parts + [p])[0] == parts[0];
    if |parts| == 1 {
      assert (parts + [p])[1..] == [p];
    } else {
      assert (parts + [p])[1..] == parts[1..] + [p];
      JoinSnoc(parts[1..], p, sep);
      var j := JoinOf(parts[1..], sep);
      assert parts[0] + (sep + (j + sep + p)) == parts[0] + (sep + j) + sep + p;
    }
  }

  /** The bytes of all parts. */
  function TotalLength(parts: seq<seq<byte>>): nat {
    if parts == [] then 0 else TotalLength(parts[..|parts| - 1]) + |parts[|parts| - 1]|
  }

  lemma {:induction false} JoinLength(parts: seq<seq<byte>>, sep: seq<byte>)
    requires parts != []
    ensures |JoinOf(parts, sep)| == |sep| * (|parts| - 1) + TotalLength(parts)
    decreases parts
  {
    var n := |parts| - 1;
    if n == 0 {
      assert parts[..0] == [];
    } else {
      JoinLength(parts[..n], sep);
      assert parts == parts[..n] + [parts[n]];
      JoinSnoc(parts[..n], parts[n], sep);
      assert |sep| * (n - 1) + |sep| == |sep| * n;
    }
  }

  /** A join of some of the parts is no longer than the join of all of them. */
  lemma {:induction false} JoinPrefix(parts: seq<seq<byte>>, k: nat, sep: seq<byte>)
    requires 1 <= k <= |parts|
    ensures JoinOf(parts[..k], sep) <= JoinOf(parts, sep)
    decreases |parts| - k
  {
    if k == |parts| {
      assert parts[..k] == parts;
    } else {
      JoinPrefix(parts, k + 1, sep);
      assert parts[..k + 1] == parts[..k] + [parts[k]];
      JoinSnoc(parts[..k], parts[k], sep);
    }
  }

  lemma JoinStep(parts: seq<seq<byte>>, k: nat, sep: seq<byte>)
    requires 1 <= k < |parts|
    ensures JoinOf(parts[..k + 1], sep) == JoinOf(parts[..k], sep) + sep + parts[k]
    ensures |JoinOf(parts[..k], sep)| + |sep| + |parts[k]| <= |JoinOf(parts, sep)|
  {
    JoinPrefix(parts, k + 1, sep);
    assert parts[..k + 1] == parts[..k] + [parts[k]];
    JoinSnoc(parts[..k], parts[k], sep);
  }

  /** Join (bytes.go:417-437): the parts in one buffer, which they fill exactly. */
  method Join(s: seq<seq<byte>>, sep: seq<byte>) returns (joined: seq<byte>)
    ensures joined == JoinOf(s, sep)
  {
    if |s| == 0 {
      return [];
    }
    if |s| == 1 {
      return s[0];
    }
    var n := |sep| * (|s| - 1);
    for k := 0 to |s|
      invariant n == |sep| * (|s| - 1) + TotalLength(s[..k])
    {
      assert s[..k + 1][..k] == s[..k];
      n := n + |s[k]|;
    }
    assert s[..|s|] == s;
    JoinLength(s, sep);
    var b := new byte[n];
    JoinPrefix(s, 1, sep);
    assert s[..1] == [s[0]];
    CopyInto(b, 0, s[0]);
    var bp: nat := |s[0]|;
    for k := 1 to |s|
      invariant bp <= b.Length && b[..bp] == JoinOf(s[..k], sep)
    {
      JoinStep(s, k, sep);
      bp := Append(b, bp, sep);
      bp := Append(b, bp, s[k]);
    }
    assert b[..] == b[..bp];
    return b[..];
  }

  /** bp += copy(b[bp:], part), for a part that fits. */
  method Append(b: array<byte>, bp: nat, part: seq<byte>) returns (bp': nat)
    requires bp + |part| <= b.Length
    modifies b
    ensures bp' == bp + |part| && b[..bp'] == old(b[..bp]) + part
  {
    CopyInto(b, bp, part);
    bp' := bp + |part|;
  }

  /** The pieces around the first n matches of target: for an empty target, the
      places before each rune and at the end. */
  function Around(s: seq<byte>, target: seq<byte>, n: nat): seq<seq<byte>>
    requires n >= 1
  {
    if target == [] then [[]] + Gaps(s, n) else Pieces(s, target, 0, n + 1)
  }

  /** n pieces, of which all but the last are one rune. */
  function Gaps(s: seq<byte>, n: nat): (pieces: seq<seq<byte>>)
    requires n >= 1
    ensures pieces != []
  {
    if n == 1 then [s]
    else
      var size := Utf8.DecodeRune(s).1;
      [s[..size]] + Gaps(s[size..], n - 1)
  }

  function Replaced(s: seq<byte>, target: seq<byte>, replacement: seq<byte>, n: nat): seq<byte> {
    if n == 0 then s else JoinOf(Around(s, target, n), replacement)
  }

  /** How many matches a limit of n leaves to replace. */
  function Replacements(s: seq<byte>, target: seq<byte>, n: int): nat {
    var m := if target == [] then |Utf8.Runes(s)| + 1 else Occurrences(s, target);
    if n < 0 || m < n then m else n
  }

  /** Replacing everything is splitting and joining with the replacement. */
  lemma ReplaceAllIsJoinSplit(s: seq<byte>, target: seq<byte>, replacement: seq<byte>)
    requires target != []
    ensures Replaced(s, target, replacement, Replacements(s, target, -1)) == JoinOf(SplitOf(s, target), replacement)
  {
    if Occurrences(s, target) == 0 {
      assert SplitOf(s, target) == [s];
    }
  }

  /** The text cut into pieces, with the insertion in front of each of the first n
      pieces, or behind all of them. */
  function Spread(pieces: seq<seq<byte>>, insertion: seq<byte>, n: nat): seq<byte> {
    if n == 0 then Flatten(pieces)
    else if pieces == [] then insertion
    else insertion + pieces[0] + Spread(pieces[1..], insertion, n - 1)
  }

  /** Replacing the empty string puts the replacement in front of each rune and at the
      end, up to n times, and never inside a rune. */
  lemma ReplaceEmpty(s: seq<byte>, replacement: seq<byte>, n: nat)
    requires 1 <= n <= Replacements(s, [], -1)
    ensures Replaced(s, [], replacement, n) == Spread(RuneSlices(s), replacement, n)
  {
    SliceCount(s);
    GapsAreSpread(s, replacement, n);
    JoinCons([], Gaps(s, n), replacement);
    assert [] + (replacement + JoinOf(Gaps(s, n), replacement)) == replacement + JoinOf(Gaps(s, n), replacement);
  }

  lemma {:induction false} SliceCount(s: seq<byte>)
    ensures |RuneSlices(s)| == |Utf8.Runes(s)|
    decreases |s|
  {
    if s != [] {
      SliceCount(s[Utf8.DecodeRune(s).1..]);
    }
  }

  lemma {:induction false} GapsAreSpread(s: seq<byte>, replacement: seq<byte>, n: nat)
    requires 1 <= n <= |RuneSlices(s)| + 1
    ensures replacement + JoinOf(Gaps(s, n), replacement) == Spread(RuneSlices(s), replacement, n)
    decreases n
  {
    hide Utf8.DecodeRune;
    var slices := RuneSlices(s);
    RuneSlicesCoverText(s);
    if s == [] {
      assert replacement + [] == replacement;
    } else {
      var size := Utf8.DecodeRune(s).1;
      if n == 1 {
        FlattenCons(s[..size], RuneSlices(s[size..]));
        assert slices == [s[..size]] + RuneSlices(s[size..]);
        assert Spread(slices[1..], replacement, 0) == Flatten(slices[1..]);
        Associate(replacement, s[..size], Flatten(slices[1..]));
      } else {
        GapsAreSpread(s[size..], replacement, n - 1);
        JoinCons(s[..size], Gaps(s[size..], n - 1), replacement);
        Associate(replacement, s[..size], replacement + JoinOf(Gaps(s[size..], n - 1), replacement));
      }
    }
  }

  lemma {:induction false} PiecesLength(s: seq<byte>, target: seq<byte>, replacement: seq<byte>, n: nat)
    requires target != [] && n <= Occurrences(s, target)
    ensures |JoinOf(Pieces(s, target, 0, n + 1), replacement)| == |s| + n * (|replacement| - |target|)
    decreases |s|
  {
    if n > 0 {
      var i := FirstIndex(s, target);
      var tail := s[i + |target|..];
      PiecesLength(tail, target, replacement, n - 1);
      JoinCons(s[..i], Pieces(tail, target, 0, n), replacement);
      assert (n - 1) * (|replacement| - |target|) + (|replacement| - |target|) == n * (|replacement| - |target|);
    }
  }

  lemma {:induction false} GapsLength(s: seq<byte>, replacement: seq<byte>, n: nat)
    requires n >= 1
    ensures |JoinOf(Gaps(s, n), replacement)| == |s| + (n - 1) * |replacement|
    decreases n
  {
    if n > 1 {
      var size := Utf8.DecodeRune(s).1;
      GapsLength(s[size..], replacement, n - 1);
      JoinCons(s[..size], Gaps(s[size..], n - 1), replacement);
      assert (n - 2) * |replacement| + |replacement| == (n - 1) * |replacement|;
    }
  }

  /** The buffer that Replace makes has the length of the result. */
  lemma ReplacedLength(s: seq<byte>, target: seq<byte>, replacement: seq<byte>, n: nat)
    requires 1 <= n <= Replacements(s, target, -1)
    ensures |Replaced(s, target, replacement, n)| == |s| + n * (|replacement| - |target|)
  {
    if target == [] {
      GapsLength(s, replacement, n);
      JoinCons([], Gaps(s, n), replacement);
      assert (n - 1) * |replacement| + |replacement| == n * |replacement|;
    } else {
      PiecesLength(s, target, replacement, n);
    }
  }

  /** Where the next match in the rest of the text is, or -1. */
  function NextMatch(rest: seq<byte>, target: seq<byte>, first: bool): (j: int)
    ensures j == -1 || (0 <= j && j + |target| <= |rest|)
  {
    if target != [] then FirstIndex(rest, target)
    else if first then 0
    else Utf8.DecodeRune(rest).1
  }

  /** The rest of the text with the next k matches replaced. */
  function Rewritten(rest: seq<byte>, target: seq<byte>, replacement: seq<byte>, k: nat, first: bool): seq<byte>
    decreases k
  {
    var j := NextMatch(rest, target, first);
    if k == 0 || j < 0 then rest
    else rest[..j] + (replacement + Rewritten(rest[j + |target|..], target, replacement, k - 1, false))
  }

  lemma {:induction false} RewrittenPieces(rest: seq<byte>, target: seq<byte>, replacement: seq<byte>, k: nat,
                                           n: nat, first: bool)
    requires target != [] && n == k + 1
    ensures Rewritten(rest, target, replacement, k, first) == JoinOf(Pieces(rest, target, 0, n), replacement)
    decreases k
  {
    hide Rewritten, Pieces, JoinOf, FirstIndex;
    var j := FirstIndex(rest, target);
    if k == 0 || j < 0 {
      RewrittenLast(rest, target, replacement, k, n, first);
    } else {
      var later := FirstPiece(rest, target, 0, n, k);
      var text := RewriteStep(rest, target, replacement, k, k - 1, first, j);
      RewrittenPieces(rest[j + |target|..], target, replacement, k - 1, k, false);
      PiecesJoined(rest[..j], later, Pieces(rest, target, 0, n), replacement, text);
    }
  }

  lemma RewrittenLast(rest: seq<byte>, target: seq<byte>, replacement: seq<byte>, k: nat, n: nat, first: bool)
    requires target != [] && n == k + 1 && (k == 0 || FirstIndex(rest, target) < 0)
    ensures Rewritten(rest, target, replacement, k, first) == JoinOf(Pieces(rest, target, 0, n), replacement)
  {
    hide FirstIndex;
  }

  lemma RewriteStep(rest: seq<byte>, target: seq<byte>, replacement: seq<byte>, k: nat, fewer: nat, first: bool, j: nat)
    returns (text: seq<byte>)
    requires k == fewer + 1 && j == NextMatch(rest, target, first)
    ensures text == Rewritten(rest[j + |target|..], target, replacement, fewer, false)
    ensures Rewritten(rest, target, replacement, k, first) == rest[..j] + (replacement + text)
  {
    text := Rewritten(rest[j + |target|..], target, replacement, fewer, false);
  }

  lemma PiecesJoined(p: seq<byte>, later: seq<seq<byte>>, pieces: seq<seq<byte>>, sep: seq<byte>, text: seq<byte>)
    requires later != [] && pieces == [p] + later && text == JoinOf(later, sep)
    ensures JoinOf(pieces, sep) == p + (sep + text)
  {
    JoinCons(p, later, sep);
  }

  lemma {:induction false} RewrittenGaps(rest: seq<byte>, replacement: seq<byte>, k: nat, n: nat)
    requires n == k + 1
    ensures Rewritten(rest, [], replacement, k, false) == JoinOf(Gaps(rest, n), replacement)
    decreases k
  {
    if k == 0 {
      LastGap(rest, replacement, n);
    } else {
      hide Rewritten, Gaps, JoinOf, Utf8.DecodeRune;
      var size := Utf8.DecodeRune(rest).1;
      var text := RewriteStep(rest, [], replacement, k, k - 1, false, size);
      RewrittenGaps(rest[size..], replacement, k - 1, k);
      var later := FirstGap(rest, n, k, size);
      PiecesJoined(rest[..size], later, Gaps(rest, n), replacement, text);
    }
  }

  lemma LastGap(rest: seq<byte>, replacement: seq<byte>, n: nat)
    requires n == 1
    ensures Rewritten(rest, [], replacement, 0, false) == JoinOf(Gaps(rest, n), replacement)
  {
  }

  lemma FirstGap(rest: seq<byte>, n: nat, fewer: nat, size: nat) returns (later: seq<seq<byte>>)
    requires n == fewer + 1 && fewer >= 1 && size == Utf8.DecodeRune(rest).1
    ensures later == Gaps(rest[size..], fewer) && Gaps(rest, n) == [rest[..size]] + later
  {
    later := Gaps(rest[size..], fewer);
  }

  /** Replacing one match after the other gives the pieces joined. */
  lemma RewrittenIsReplaced(s: seq<byte>, target: seq<byte>, replacement: seq<byte>, n: nat)
    ensures Rewritten(s, target, replacement, n, true) == Replaced(s, target, replacement, n)
  {
    hide FirstIndex, Utf8.DecodeRune, Pieces, Gaps, JoinOf;
    if n > 0 {
      if target != [] {
        hide Rewritten;
        RewrittenPieces(s, target, replacement, n, n + 1, true);
      } else {
        RewrittenAround(s, replacement, n);
      }
    }
  }

  lemma RewrittenAround(s: seq<byte>, replacement: seq<byte>, n: nat)
    requires n > 0
    ensures Rewritten(s, [], replacement, n, true) == JoinOf([[]] + Gaps(s, n), replacement)
  {
    hide Utf8.DecodeRune, Gaps, JoinOf, Rewritten;
    var text := RewriteStep(s, [], replacement, n, n - 1, true, 0);
    assert s[0..] == s && s[..0] == [];
    RewrittenGaps(s, replacement, n - 1, n);
    PiecesJoined([], Gaps(s, n), [[]] + Gaps(s, n), replacement, text);
  }

  /** There are k more matches to replace. */
  predicate MatchesLeft(rest: seq<byte>, target: seq<byte>, k: nat) {
    target != [] ==> k <= Occurrences(rest, target)
  }

  /** Replace (bytes.go:892-926): the buffer made for the result is filled exactly. */
  method Replace(s: seq<byte>, target: seq<byte>, replacement: seq<byte>, n: int, tuning: Tuning) returns (t: seq<byte>)
    ensures t == Replaced(s, target, replacement, Replacements(s, target, n))
  {
    var m := 0;
    if n != 0 {
      m := Count(s, target, tuning);
    }
    if m == 0 {
      return s;
    }
    var limit := n;
    if n < 0 || m < n {
      limit := m;
    }
    ReplacedLength(s, target, replacement, limit);
    RewrittenIsReplaced(s, target, replacement, limit);
    var buf := new byte[|s| + limit * (|replacement| - |target|)];
    Apply(s, target, replacement, limit, tuning, buf);
    return buf[..];
  }

  /** The loop over the replacements (bytes.go:908-924). */
  method Apply(s: seq<byte>, target: seq<byte>, replacement: seq<byte>, n: nat, tuning: Tuning, buf: array<byte>)
    requires MatchesLeft(s, target, n)
    requires buf.Length == |Rewritten(s, target, replacement, n, true)|
    modifies buf
    ensures buf[..] == Rewritten(s, target, replacement, n, true)
  {
    hide Rewritten, NextMatch, MatchesLeft;
    ghost var after := Rewritten(s, target, replacement, n, true);
    ghost var result := after;
    var w: nat, start: nat := 0, 0;
    assert s[0..] == s;
    for i := 0 to n
      invariant start <= |s| && MatchesLeft(s[start..], target, n - i)
      invariant after == Rewritten(s[start..], target, replacement, n - i, i == 0)
      invariant w <= buf.Length && buf[..w] + after == result
    {
      w, start, after := ApplyOne(s, target, replacement, n - i, i == 0, start, tuning, buf, w, after, result);
    }
    NothingLeft(s[start..], target, replacement, 0, n == 0);
    w := Append(buf, w, s[start..]);
    assert buf[..w] == result;
  }

  lemma NothingLeft(rest: seq<byte>, target: seq<byte>, replacement: seq<byte>, k: nat, first: bool)
    requires k == 0
    ensures Rewritten(rest, target, replacement, k, first) == rest
  {
  }

  /** One replacement (bytes.go:911-922), with k still to do. */
  method ApplyOne(s: seq<byte>, target: seq<byte>, replacement: seq<byte>, ghost k: nat, first: bool, start: nat,
                  tuning: Tuning, buf: array<byte>, w: nat, ghost before: seq<byte>, ghost result: seq<byte>)
    returns (w': nat, start': nat, ghost after: seq<byte>)
    requires start <= |s| && k > 0 && MatchesLeft(s[start..], target, k)
    requires before == Rewritten(s[start..], target, replacement, k, first)
    requires w <= buf.Length == |result| && buf[..w] + before == result
    modifies buf
    ensures start' <= |s| && MatchesLeft(s[start'..], target, k - 1)
    ensures after == Rewritten(s[start'..], target, replacement, k - 1, false)
    ensures w' <= buf.Length && buf[..w'] + after == result
  {
    hide *;
    var j := FindMatch(s, target, first, start, tuning);
    MatchInside(s, target, k, k - 1, first, start, j);
    after := OneMatch(s, target, replacement, k, k - 1, first, start, j);
    w' := WritePart(buf, w, s[start..j], replacement, after, result);
    start' := j + |target|;
  }

  lemma MatchInside(s: seq<byte>, target: seq<byte>, k: nat, fewer: nat, first: bool, start: nat, j: int)
    requires start <= |s| && k == fewer + 1 && MatchesLeft(s[start..], target, k)
    requires j == start + NextMatch(s[start..], target, first)
    ensures start <= j && j + |target| <= |s| && MatchesLeft(s[j + |target|..], target, fewer)
  {
    if target != [] {
      assert s[start..][j - start + |target|..] == s[j + |target|..];
    }
  }

  lemma OneMatch(s: seq<byte>, target: seq<byte>, replacement: seq<byte>, k: nat, fewer: nat, first: bool,
                 start: nat, j: int)
    returns (after: seq<byte>)
    requires start <= j && j + |target| <= |s| && k == fewer + 1
    requires j == start + NextMatch(s[start..], target, first)
    ensures after == Rewritten(s[j + |target|..], target, replacement, fewer, false)
    ensures Rewritten(s[start..], target, replacement, k, first) == s[start..j] + (replacement + after)
  {
    assert s[start..][..j - start] == s[start..j];
    assert s[start..][j - start + |target|..] == s[j + |target|..];
    after := RewriteStep(s[start..], target, replacement, k, fewer, first, j - start);
  }

  /** The place of the next match (bytes.go:911-919). */
  method FindMatch(s: seq<byte>, target: seq<byte>, first: bool, start: nat, tuning: Tuning) returns (j: int)
    requires start <= |s|
    ensures j == start + NextMatch(s[start..], target, first)
  {
    j := start;
    if |target| == 0 {
      if !first {
        var (_, wid) := Utf8.DecodeRune(s[start..]);
        j := j + wid;
      }
    } else {
      var k := Find(s[start..], target, tuning);
      j := j + k;
    }
  }

  /** The text before a match and its replacement (bytes.go:920-921). */
  method WritePart(buf: array<byte>, w: nat, part: seq<byte>, replacement: seq<byte>,
                   ghost after: seq<byte>, ghost result: seq<byte>) returns (w': nat)
    requires w <= buf.Length == |result| && buf[..w] + (part + (replacement + after)) == result
    modifies buf
    ensures w' <= buf.Length && buf[..w'] + after == result
  {
    assert buf[..w] + (part + (replacement + after)) == buf[..w] + part + replacement + after;
    w' := Append(buf, w, part);
    w' := Append(buf, w', replacement);
  }
}
