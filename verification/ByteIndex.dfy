/** bytealg.IndexByte and its relatives, by definition. */
module ByteIndex {
  import opened Common

  /** The index of the first c in s, or -1. */
  function IndexByte(s: seq<byte>, c: byte): (i: int)
    ensures -1 <= i < |s|
    ensures i >= 0 ==> s[i] == c && c !in s[..i]
    ensures i < 0 ==> c !in s
  {
    if s == [] then -1
    else if s[0] == c then 0
    else
      var j := IndexByte(s[1..], c);
      if j < 0 then -1
      else
        assert s[..j + 1] == [s[0]] + s[1..][..j];
        j + 1
  }

  /** A first index is determined by what it promises. */
  lemma IndexByteUnique(s: seq<byte>, c: byte, i: nat)
    requires i < |s| && s[i] == c && c !in s[..i]
    ensures IndexByte(s, c) == i
  {
    var j := IndexByte(s, c);
    assert s[i] in s;
    forall k | 0 <= k < i ensures s[k] != c {
      NotInPrefix(s, c, i, k);
    }
    forall k | 0 <= k < j ensures s[k] != c {
      NotInPrefix(s, c, j, k);
    }
  }

  lemma NotInPrefix(s: seq<byte>, c: byte, n: nat, k: nat)
    requires k < n <= |s| && c !in s[..n]
    ensures s[k] != c
  {
    assert s[..n][k] == s[k];
  }

  /** Before the first c there is no c. */
  lemma NotFirstByte(s: seq<byte>, c: byte, k: nat)
    requires k < |s| && (IndexByte(s, c) < 0 || k < IndexByte(s, c))
    ensures s[k] != c
  {
    var o := IndexByte(s, c);
    if o >= 0 {
      NotInPrefix(s, c, o, k);
    } else {
      assert s[k] in s;
    }
  }

  function Concat(parts: seq<seq<byte>>): seq<byte> {
    if parts == [] then [] else Concat(parts[..|parts| - 1]) + parts[|parts| - 1]
  }

  /** copy(dst[at:], src) for a source that fits. */
  method CopyInto(dst: array<byte>, at: nat, src: seq<byte>)
    requires at + |src| <= dst.Length
    modifies dst
    ensures dst[..] == old(dst[..at]) + src + old(dst[at + |src|..])
  {
    forall i | 0 <= i < |src| {
      dst[at + i] := src[i];
    }
  }
}
