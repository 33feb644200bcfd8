/** The hash of the Rabin-Karp search of src/bytes/bytes.go, in uint32 arithmetic
    and in unbounded integers. */
module RollingHash {
  import opened Common

  /** primeRK (bytes.go:1105) */
  const PRIME_RK: nat := 16777619

  type uint32 = x: int | 0 <= x < 0x1_0000_0000

  /** Conversion of an exact result to uint32. */
  function Wrap(x: int): (w: uint32)
  {
    x % 0x1_0000_0000
  }

  function Pow(n: nat): nat {
    if n == 0 then 1 else PRIME_RK * Pow(n - 1)
  }

  /** A text as the digits of a number in base primeRK, most significant first. */
  function Hash(s: seq<byte>): nat {
    if s == [] then 0 else Hash(s[..|s| - 1]) * PRIME_RK + s[|s| - 1]
  }

  /** The same with the most significant digit last. */
  function HashRev(s: seq<byte>): nat {
    if s == [] then 0 else HashRev(s[1..]) * PRIME_RK + s[0]
  }

  lemma WrapAdd(x: int, k: int)
    ensures Wrap(x + 0x1_0000_0000 * k) == Wrap(x)
  {
  }

  lemma Distribute(x: int, w: int, q: int, y: int)
    requires x == w + 0x1_0000_0000 * q
    ensures x * y == w * y + 0x1_0000_0000 * (q * y)
  {
    assert x * y == w * y + (0x1_0000_0000 * q) * y;
    assert (0x1_0000_0000 * q) * y == 0x1_0000_0000 * (q * y);
  }

  lemma WrapMul(x: int, y: int)
    ensures Wrap(Wrap(x) * y) == Wrap(x * y)
  {
    var q := x / 0x1_0000_0000;
    Distribute(x, Wrap(x), q, y);
    WrapAdd(Wrap(x) * y, q * y);
  }

  lemma WrapMulBoth(x: int, y: int)
    ensures Wrap(Wrap(x) * Wrap(y)) == Wrap(x * y)
  {
    WrapMul(x, Wrap(y));
    assert x * Wrap(y) == Wrap(y) * x && y * x == x * y;
    WrapMul(y, x);
  }

  /** One more digit, as the loops compute it. */
  lemma WrapDigit(h: nat, d: nat)
    ensures Wrap(Wrap(Wrap(h) * PRIME_RK) + d) == Wrap(h * PRIME_RK + d)
  {
    hide Wrap;
    WrapMul(h, PRIME_RK);
    WrapPlus(Wrap(h) * PRIME_RK, d);
    WrapPlus(h * PRIME_RK, d);
  }

  lemma WrapPlus(x: int, d: int)
    ensures Wrap(Wrap(x) + d) == Wrap(x + d)
  {
    WrapAdd(Wrap(x) + d, x / 0x1_0000_0000);
  }

  lemma {:induction false} HashFront(x: byte, s: seq<byte>)
    ensures Hash([x] + s) == x * Pow(|s|) + Hash(s)
    decreases s
  {
    if s == [] {
      assert ([x] + s)[..0] == [];
    } else {
      var n := |s| - 1;
      assert ([x] + s)[..n + 1] == [x] + s[..n];
      HashFront(x, s[..n]);
      assert (x * Pow(n)) * PRIME_RK == x * Pow(n + 1);
    }
  }

  lemma {:induction false} HashRevBack(s: seq<byte>, x: byte)
    ensures HashRev(s + [x]) == x * Pow(|s|) + HashRev(s)
    decreases s
  {
    if s == [] {
      assert (s + [x])[1..] == [];
    } else {
      var n := |s| - 1;
      assert (s + [x])[1..] == s[1..] + [x];
      HashRevBack(s[1..], x);
      assert (x * Pow(n)) * PRIME_RK == x * Pow(n + 1);
    }
  }

  lemma WrapSub(x: int, y: int)
    ensures Wrap(Wrap(x) - Wrap(y)) == Wrap(x - y)
  {
  }

  /** The window moves on (bytes.go:130-132, 1093-1095): a digit comes in with
      weight 1, one with weight p goes. */
  function RollTo(h: uint32, comes: byte, p: uint32, goes: byte): uint32 {
    var h1 := Wrap(h * PRIME_RK);
    var h2 := Wrap(h1 + comes);
    Wrap(h2 - Wrap(p as int * goes as int))
  }

  lemma RollNumbers(h: nat, comes: byte, p: nat, goes: byte, gone: int, h': nat)
    requires gone == p * goes && h * PRIME_RK + comes == gone + h'
    ensures RollTo(Wrap(h), comes, Wrap(p), goes) == Wrap(h')
  {
    WrapDigit(h, comes);
    WrapMul(p, goes);
    WrapSub(h * PRIME_RK + comes, gone);
  }

  lemma HashRolls(x: byte, w: seq<byte>, y: byte) returns (gone: nat)
    ensures gone == Pow(|w| + 1) * x
    ensures Hash([x] + w) * PRIME_RK + y == gone + Hash(w + [y])
  {
    var all := [x] + w + [y];
    assert all[..|w| + 1] == [x] + w;
    assert all == [x] + (w + [y]);
    HashFront(x, w + [y]);
    assert |w + [y]| == |w| + 1;
    gone := x * Pow(|w| + 1);
  }

  lemma HashRevRolls(y: byte, w: seq<byte>, x: byte) returns (gone: nat)
    ensures gone == Pow(|w| + 1) * x
    ensures HashRev(w + [x]) * PRIME_RK + y == gone + HashRev([y] + w)
  {
    var all := [y] + w + [x];
    assert all[1..] == w + [x];
    HashRevBack([y] + w, x);
    assert |[y] + w| == |w| + 1;
    gone := x * Pow(|w| + 1);
  }

  /** The rolling hash of the forward search is the hash of the next window. */
  lemma Roll(x: byte, w: seq<byte>, y: byte)
    ensures RollTo(Wrap(Hash([x] + w)), y, Wrap(Pow(|w| + 1)), x) == Wrap(Hash(w + [y]))
  {
    var gone := HashRolls(x, w, y);
    RollNumbers(Hash([x] + w), y, Pow(|w| + 1), x, gone, Hash(w + [y]));
  }

  /** The rolling hash of the backward search is the hash of the previous window. */
  lemma RollBack(y: byte, w: seq<byte>, x: byte)
    ensures RollTo(Wrap(HashRev(w + [x])), y, Wrap(Pow(|w| + 1)), x) == Wrap(HashRev([y] + w))
  {
    var gone := HashRevRolls(y, w, x);
    RollNumbers(HashRev(w + [x]), y, Pow(|w| + 1), x, gone, HashRev([y] + w));
  }

  /** The power with base b: b^n. */
  function PowOf(b: nat, n: nat): nat {
    if n == 0 then 1 else b * PowOf(b, n - 1)
  }

  lemma {:induction false} PowOfSquare(b: nat, n: nat)
    ensures PowOf(b, 2 * n) == PowOf(b * b, n)
    decreases n
  {
    if n > 0 {
      PowOfSquare(b, n - 1);
      var p := PowOf(b, 2 * (n - 1));
      assert PowOf(b, 2 * n - 1) == b * p;
      assert PowOf(b, 2 * n) == b * (b * p);
      assert b * (b * p) == (b * b) * p;
    }
  }

  lemma {:induction false} PowIsPowOf(n: nat)
    ensures PowOf(PRIME_RK, n) == Pow(n)
    decreases n
  {
    if n > 0 {
      PowIsPowOf(n - 1);
    }
  }

  /** The power by repeated squaring (bytes.go:1114-1120, 1131-1137). */
  method PowRK(n: nat) returns (pow: uint32)
    ensures pow == Wrap(Pow(n))
  {
    var sq: uint32 := PRIME_RK;
    pow := 1;
    var i := n;
    ghost var p: nat, b: nat := 1, PRIME_RK;
    PowIsPowOf(n);
    while i > 0
      invariant pow == Wrap(p) && sq == Wrap(b)
      invariant p * PowOf(b, i) == Pow(n)
    {
      ghost var e, p0 := PowOf(b, i), p;
      if i % 2 != 0 {
        WrapMulBoth(p, b);
        assert PowOf(b, i) == b * PowOf(b, i - 1);
        assert p0 * (b * PowOf(b, i - 1)) == (p0 * b) * PowOf(b, i - 1);
        pow := Wrap(pow as int * sq as int);
        p := p * b;
      }
      assert p * PowOf(b, 2 * (i / 2)) == Pow(n);
      PowOfSquare(b, i / 2);
      WrapMulBoth(b, b);
      sq := Wrap(sq as int * sq as int);
      b := b * b;
      i := i / 2;
    }
  }

  /** hashStr (bytes.go:1109-1122) */
  method HashStr(sep: seq<byte>) returns (hash: uint32, pow: uint32)
    ensures hash == Wrap(Hash(sep)) && pow == Wrap(Pow(|sep|))
  {
    hash := HashOf(sep);
    pow := PowRK(|sep|);
  }

  /** The loop over the bytes in hashStr and in the first window of the search. */
  method HashOf(s: seq<byte>) returns (hash: uint32)
    ensures hash == Wrap(Hash(s))
  {
    hash := 0;
    for i := 0 to |s|
      invariant hash == Wrap(Hash(s[..i]))
    {
      assert s[..i + 1][..i] == s[..i];
      WrapDigit(Hash(s[..i]), s[i]);
      hash := Wrap(Wrap(hash * PRIME_RK) + s[i]);
    }
    assert s[..|s|] == s;
  }

  /** hashStrRev (bytes.go:1126-1139) */
  method HashStrRev(sep: seq<byte>) returns (hash: uint32, pow: uint32)
    ensures hash == Wrap(HashRev(sep)) && pow == Wrap(Pow(|sep|))
  {
    hash := HashRevOf(sep);
    pow := PowRK(|sep|);
  }

  method HashRevOf(s: seq<byte>) returns (hash: uint32)
    ensures hash == Wrap(HashRev(s))
  {
    hash := 0;
    for i := |s| downto 0
      invariant hash == Wrap(HashRev(s[i..]))
    {
      assert s[i..][1..] == s[i + 1..];
      WrapDigit(HashRev(s[i + 1..]), s[i]);
      hash := Wrap(Wrap(hash * PRIME_RK) + s[i]);
    }
  }
}
