/** Index and LastIndex of src/bytes/bytes.go. */
module Search {
  import opened Common
  import opened ByteIndex
  import opened RollingHash

  predicate OccursAt(s: seq<byte>, sep: seq<byte>, i: int) {
    0 <= i && i + |sep| <= |s| && s[i..i + |sep|] == sep
  }

  /** i is where sep occurs first in s, or -1 if it does not occur. */
  ghost predicate IsFirst(s: seq<byte>, sep: seq<byte>, i: int) {
    && (i == -1 || OccursAt(s, sep, i))
    && forall j: int :: (i == -1 || j < i) ==> !OccursAt(s, sep, j)
  }

  /** i is where sep occurs last in s, or -1 if it does not occur. */
  ghost predicate IsLast(s: seq<byte>, sep: seq<byte>, i: int) {
    && (i == -1 || OccursAt(s, sep, i))
    && forall j: int :: (i == -1 || j > i) ==> !OccursAt(s, sep, j)
  }

  /** What bytealg chooses for an architecture. */
  datatype Tuning = Tuning(maxLen: int, maxBruteForce: int, cutover: int -> int)

  lemma {:induction false} OccursInTail(s: seq<byte>, sep: seq<byte>, k: nat, j: int)
    requires k <= |s|
    ensures OccursAt(s[k..], sep, j) <==> j >= 0 && OccursAt(s, sep, k + j)
  {
    if j >= 0 && k + j + |sep| <= |s| {
      assert s[k..][j..j + |sep|] == s[k + j..k + j + |sep|];
    }
  }

  /** A search of the tail continues a search that found nothing before it. */
  lemma FirstInTail(s: seq<byte>, sep: seq<byte>, k: nat, r: int)
    requires k <= |s| && IsFirst(s[k..], sep, r)
    requires forall j: int :: j < k ==> !OccursAt(s, sep, j)
    ensures IsFirst(s, sep, if r < 0 then -1 else k + r)
  {
    forall j: int ensures OccursAt(s[k..], sep, j - k) <==> j >= k && OccursAt(s, sep, j) {
      OccursInTail(s, sep, k, j - k);
    }
    forall j: int | OccursAt(s, sep, j) ensures r >= 0 && j >= k + r {
      assert OccursAt(s[k..], sep, j - k);
    }
  }

  lemma FirstIsUnique(s: seq<byte>, sep: seq<byte>, i: int, j: int)
    requires IsFirst(s, sep, i) && IsFirst(s, sep, j)
    ensures i == j
  {
  }

  /** bytealg.Index, by definition. */
  function FirstIndex(s: seq<byte>, sep: seq<byte>): (i: int)
    ensures i == -1 || (0 <= i && i + |sep| <= |s|)
  {
    FirstFrom(s, sep, 0)
  }

  function FirstFrom(s: seq<byte>, sep: seq<byte>, k: nat): (i: int)
    ensures i == -1 || (k <= i && i + |sep| <= |s|)
    decreases |s| - k
  {
    if k + |sep| > |s| then -1
    else if s[k..k + |sep|] == sep then k
    else if k == |s| then -1
    else FirstFrom(s, sep, k + 1)
  }

  lemma {:induction false} FirstFromIsFirst(s: seq<byte>, sep: seq<byte>, k: nat)
    requires forall j: int :: j < k ==> !OccursAt(s, sep, j)
    ensures IsFirst(s, sep, FirstFrom(s, sep, k))
    decreases |s| - k
  {
    if k + |sep| <= |s| && s[k..k + |sep|] != sep && k < |s| {
      FirstFromIsFirst(s, sep, k + 1);
    } else if k + |sep| <= |s| {
      assert OccursAt(s, sep, k) || k == |s|;
    }
  }

  lemma FirstIndexIsFirst(s: seq<byte>, sep: seq<byte>)
    ensures IsFirst(s, sep, FirstIndex(s, sep))
  {
    FirstFromIsFirst(s, sep, 0);
  }

  lemma FirstOccurs(s: seq<byte>, sep: seq<byte>)
    requires FirstIndex(s, sep) >= 0
    ensures OccursAt(s, sep, FirstIndex(s, sep))
  {
    FirstIndexIsFirst(s, sep);
  }

  /** Index computes it. */
  method Find(s: seq<byte>, sep: seq<byte>, tuning: Tuning) returns (i: int)
    ensures i == FirstIndex(s, sep)
  {
    i := Index(s, sep, tuning);
    FirstIndexIsFirst(s, sep);
    FirstIsUnique(s, sep, i, FirstIndex(s, sep));
  }

  lemma OneByte(s: seq<byte>, c: byte, j: int)
    ensures OccursAt(s, [c], j) <==> 0 <= j < |s| && s[j] == c
  {
    if 0 <= j < |s| {
      assert s[j..j + 1] == [s[j]];
    }
  }

  lemma FirstOfOneByte(s: seq<byte>, c: byte)
    ensures IsFirst(s, [c], IndexByte(s, c))
  {
    var i := IndexByte(s, c);
    if i >= 0 {
      OneByte(s, c, i);
    }
    forall j: int | i == -1 || j < i ensures !OccursAt(s, [c], j) {
      OneByte(s, c, j);
      if 0 <= j < |s| {
        NotFirstByte(s, c, j);
      }
    }
  }

  /** The whole text is the only place for a separator of its length. */
  lemma SameLength(s: seq<byte>, sep: seq<byte>, j: int)
    requires |sep| >= |s|
    ensures OccursAt(s, sep, j) <==> j == 0 && s == sep
  {
    if OccursAt(s, sep, j) {
      assert s[0..|s|] == s;
    }
    assert s[0..|s|] == s;
  }

  /** No occurrence can start where the first byte of sep is missing. */
  lemma NeedsFirstByte(s: seq<byte>, sep: seq<byte>, j: int)
    requires |sep| > 0 && OccursAt(s, sep, j)
    ensures s[j] == sep[0] && j <= |s| - |sep|
  {
    assert s[j..j + |sep|][0] == s[j];
  }

  /** The scan for the first byte (bytes.go:1018-1027, 1049-1056): i moves to the
      next candidate, or there is none. */
  method NextCandidate(s: seq<byte>, sep: seq<byte>, i: nat) returns (next: int)
    requires |sep| >= 1 && i + |sep| <= |s|
    requires forall j: int :: j < i ==> !OccursAt(s, sep, j)
    ensures next == -1 || (i <= next && next + |sep| <= |s|)
    ensures forall j: int :: (next == -1 || j < next) ==> !OccursAt(s, sep, j)
  {
    if s[i] == sep[0] {
      return i;
    }
    var t := |s| - |sep| + 1;
    var o := IndexByte(s[i..t], sep[0]);
    next := if o < 0 then -1 else i + o;
    forall j: int | next == -1 || j < next ensures !OccursAt(s, sep, j) {
      if i <= j < t {
        NotFirstByte(s[i..t], sep[0], j - i);
      }
      if OccursAt(s, sep, j) {
        NeedsFirstByte(s, sep, j);
      }
    }
  }

  /** The test at a candidate (bytes.go:1028, 1057), which looks at the second byte
      before it compares. */
  predicate MatchAt(s: seq<byte>, sep: seq<byte>, i: nat)
    requires |sep| >= 2 && i + |sep| <= |s|
    ensures MatchAt(s, sep, i) <==> OccursAt(s, sep, i)
  {
    assert s[i..i + |sep|][1] == s[i + 1];
    s[i + 1] == sep[1] && s[i..i + |sep|] == sep
  }

  /** Index (bytes.go:994-1079) */
  method Index(s: seq<byte>, sep: seq<byte>, tuning: Tuning) returns (r: int)
    ensures IsFirst(s, sep, r)
  {
    var n := |sep|;
    if n == 0 {
      assert OccursAt(s, sep, 0);
      return 0;
    } else if n == 1 {
      assert sep == [sep[0]];
      FirstOfOneByte(s, sep[0]);
      return IndexByte(s, sep[0]);
    } else if n >= |s| {
      forall j: int ensures OccursAt(s, sep, j) <==> j == 0 && s == sep {
        SameLength(s, sep, j);
      }
      if n == |s| && sep == s {
        return 0;
      }
      return -1;
    } else if n <= tuning.maxLen {
      if |s| <= tuning.maxBruteForce {
        FirstIndexIsFirst(s, sep);
        return FirstIndex(s, sep);
      }
      r := IndexShort(s, sep, tuning.cutover);
    } else {
      r := IndexLong(s, sep);
    }
  }

  /** The branch for a short separator in a long text (bytes.go:1013-1042). */
  method IndexShort(s: seq<byte>, sep: seq<byte>, cutover: int -> int) returns (r: int)
    requires 2 <= |sep| < |s|
    ensures IsFirst(s, sep, r)
  {
    var i, fails := 0, 0;
    var t := |s| - |sep| + 1;
    while i < t
      invariant 0 <= i <= t
      invariant forall j: int :: j < i ==> !OccursAt(s, sep, j)
    {
      i := NextCandidate(s, sep, i);
      if i < 0 {
        return -1;
      }
      if MatchAt(s, sep, i) {
        return i;
      }
      fails := fails + 1;
      i := i + 1;
      if fails > cutover(i) {
        r := FirstIndex(s[i..], sep);
        FirstIndexIsFirst(s[i..], sep);
        FirstInTail(s, sep, i, r);
        return if r >= 0 then r + i else -1;
      }
    }
    return -1;
  }

  /** The branch for a long separator (bytes.go:1044-1078). */
  method IndexLong(s: seq<byte>, sep: seq<byte>) returns (r: int)
    requires 2 <= |sep| < |s|
    ensures IsFirst(s, sep, r)
  {
    var i, fails := 0, 0;
    var t := |s| - |sep| + 1;
    while i < t
      invariant 0 <= i <= t
      invariant forall j: int :: j < i ==> !OccursAt(s, sep, j)
    {
      i := NextCandidate(s, sep, i);
      if i < 0 {
        break;
      }
      if MatchAt(s, sep, i) {
        return i;
      }
      i := i + 1;
      fails := fails + 1;
      if fails >= 4 + i / 16 && i < t {
        var j := IndexRabinKarp(s[i..], sep);
        FirstInTail(s, sep, i, j);
        return if j < 0 then -1 else i + j;
      }
    }
    return -1;
  }

  /** Comparing the hashes first loses no match. */
  predicate HashMatch(hash: uint32, hashsep: uint32, window: seq<byte>, sep: seq<byte>)
    requires hash == Wrap(Hash(window)) && hashsep == Wrap(Hash(sep))
    ensures HashMatch(hash, hashsep, window, sep) <==> window == sep
  {
    hash == hashsep && window == sep
  }

  predicate HashRevMatch(hash: uint32, hashsep: uint32, window: seq<byte>, sep: seq<byte>)
    requires hash == Wrap(HashRev(window)) && hashsep == Wrap(HashRev(sep))
    ensures HashRevMatch(hash, hashsep, window, sep) <==> window == sep
  {
    hash == hashsep && window == sep
  }

  /** The window moves on by one byte (bytes.go:1093-1095). */
  method RollOn(s: seq<byte>, i: nat, n: nat, h: uint32, pow: uint32) returns (h': uint32)
    requires 1 <= n <= i < |s|
    requires h == Wrap(Hash(s[i - n..i])) && pow == Wrap(Pow(n))
    ensures h' == Wrap(Hash(s[i + 1 - n..i + 1]))
  {
    ghost var w := s[i + 1 - n..i];
    assert s[i - n..i] == [s[i - n]] + w && s[i + 1 - n..i + 1] == w + [s[i]];
    Roll(s[i - n], w, s[i]);
    h' := RollTo(h, s[i], pow, s[i - n]);
  }

  /** indexRabinKarp (bytes.go:1081-1102) */
  method IndexRabinKarp(s: seq<byte>, sep: seq<byte>) returns (r: int)
    requires 1 <= |sep| <= |s|
    ensures IsFirst(s, sep, r)
  {
    var hashsep, pow := HashStr(sep);
    var n := |sep|;
    var h := HashOf(s[..n]);
    assert s[0..n] == s[..n];
    if HashMatch(h, hashsep, s[..n], sep) {
      assert OccursAt(s, sep, 0);
      return 0;
    }
    var i := n;
    while i < |s|
      invariant n <= i <= |s|
      invariant h == Wrap(Hash(s[i - n..i]))
      invariant forall j: int :: j <= i - n ==> !OccursAt(s, sep, j)
    {
      h := RollOn(s, i, n, h, pow);
      i := i + 1;
      if HashMatch(h, hashsep, s[i - n..i], sep) {
        assert OccursAt(s, sep, i - n);
        return i - n;
      }
    }
    return -1;
  }

  /** The window moves back by one byte (bytes.go:130-132). */
  method RollBackOn(s: seq<byte>, i: nat, n: nat, h: uint32, pow: uint32) returns (h': uint32)
    requires 1 <= n && i + n < |s|
    requires h == Wrap(HashRev(s[i + 1..i + 1 + n])) && pow == Wrap(Pow(n))
    ensures h' == Wrap(HashRev(s[i..i + n]))
  {
    ghost var w := s[i + 1..i + n];
    assert s[i + 1..i + 1 + n] == w + [s[i + n]] && s[i..i + n] == [s[i]] + w;
    RollBack(s[i], w, s[i + n]);
    h' := RollTo(h, s[i], pow, s[i + n]);
  }

  /** LastIndexByte, by definition. */
  function LastIndexByte(s: seq<byte>, c: byte): (i: int)
    ensures IsLast(s, [c], i)
  {
    if s == [] then -1
    else if s[|s| - 1] == c then
      OneByte(s, c, |s| - 1);
      |s| - 1
    else
      var i := LastIndexByte(s[..|s| - 1], c);
      LastOfFront(s, c, i);
      i
  }

  lemma LastOfFront(s: seq<byte>, c: byte, i: int)
    requires |s| > 0 && s[|s| - 1] != c && IsLast(s[..|s| - 1], [c], i)
    ensures IsLast(s, [c], i)
  {
    forall j: int ensures OccursAt(s, [c], j) <==> OccursAt(s[..|s| - 1], [c], j) {
      OneByte(s, c, j);
      OneByte(s[..|s| - 1], c, j);
    }
  }

  /** LastIndex (bytes.go:104-138) */
  method LastIndex(s: seq<byte>, sep: seq<byte>) returns (r: int)
    ensures IsLast(s, sep, r)
  {
    var n := |sep|;
    if n == 0 {
      assert OccursAt(s, sep, |s|);
      return |s|;
    } else if n == 1 {
      assert sep == [sep[0]];
      return LastIndexByte(s, sep[0]);
    } else if n >= |s| {
      forall j: int ensures OccursAt(s, sep, j) <==> j == 0 && s == sep {
        SameLength(s, sep, j);
      }
      if n == |s| && s == sep {
        return 0;
      }
      return -1;
    }
    r := LastRabinKarp(s, sep);
  }

  /** The Rabin-Karp search from the end (bytes.go:119-137). */
  method LastRabinKarp(s: seq<byte>, sep: seq<byte>) returns (r: int)
    requires 1 <= |sep| <= |s|
    ensures IsLast(s, sep, r)
  {
    var n := |sep|;
    var hashss, pow := HashStrRev(sep);
    var last := |s| - n;
    var h := HashRevOf(s[last..]);
    assert s[last..last + n] == s[last..];
    if HashRevMatch(h, hashss, s[last..], sep) {
      assert OccursAt(s, sep, last);
      return last;
    }
    var i := last - 1;
    while i >= 0
      invariant -1 <= i < last
      invariant h == Wrap(HashRev(s[i + 1..i + 1 + n]))
      invariant forall j: int :: j > i ==> !OccursAt(s, sep, j)
    {
      h := RollBackOn(s, i, n, h, pow);
      if HashRevMatch(h, hashss, s[i..i + n], sep) {
        assert OccursAt(s, sep, i);
        return i;
      }
      i := i - 1;
    }
    return -1;
  }
}
