/** Go's uint64 operations on naturals below 2^64.  Shifts, negation and
    addition wrap as the language prescribes; the bitwise operators are
    defined bit by bit and related to arithmetic by lemmas. */
module Words {
  import opened Dyadic

  const TWO64: nat := 0x1_0000_0000_0000_0000

  type u64 = x: nat | x < 0x1_0000_0000_0000_0000

  /** Two's complement wrap-around to 64 bits. */
  function Wrap(x: int): u64
    decreases if x < 0 then 0x2_0000_0000_0000_0000 - x else x
  {
    if x < 0 then Wrap(x + 0x1_0000_0000_0000_0000)
    else if x < 0x1_0000_0000_0000_0000 then x
    else Wrap(x - 0x1_0000_0000_0000_0000)
  }

  lemma WrapOnce(x: int)
    requires -0x1_0000_0000_0000_0000 <= x < 0x2_0000_0000_0000_0000
    ensures Wrap(x) == if x < 0 then x + 0x1_0000_0000_0000_0000
                       else if x < 0x1_0000_0000_0000_0000 then x
                       else x - 0x1_0000_0000_0000_0000
  {
  }

  lemma {:induction false} WrapMultiple(k: int, l: u64)
    ensures Wrap(k * 0x1_0000_0000_0000_0000 + l) == l
    decreases if k < 0 then -k else k
  {
    if k > 0 { WrapMultiple(k - 1, l); }
    if k < 0 { WrapMultiple(k + 1, l); }
  }

  function Shl(x: u64, n: nat): u64 { Wrap(Scale(x, n)) }

  function Shr(x: u64, n: nat): (r: u64)
    ensures r <= x
  {
    FloorBounds(x, n);
    Floor(x, n)
  }

  function Add(x: u64, y: u64): (r: u64)
    ensures r == if x + y < 0x1_0000_0000_0000_0000 then x + y else x + y - 0x1_0000_0000_0000_0000
  {
    WrapOnce(x + y);
    Wrap(x + y)
  }

  function Sub(x: u64, y: u64): (r: u64)
    ensures r == if x >= y then x - y else x - y + 0x1_0000_0000_0000_0000
  {
    WrapOnce(x - y);
    Wrap(x - y)
  }

  function Not(x: u64): u64 { 0xFFFF_FFFF_FFFF_FFFF - x }

  function Nonzero(x: nat): u64 { if x != 0 then 1 else 0 }

  function Zero(x: nat): u64 { if x == 0 then 1 else 0 }

  function Or(x: nat, y: nat): nat
    decreases x + y
  {
    if x == 0 then y
    else if y == 0 then x
    else (if x % 2 == 1 || y % 2 == 1 then 1 else 0) + 2 * Or(x / 2, y / 2)
  }

  function And(x: nat, y: nat): nat {
    if x == 0 || y == 0 then 0
    else (if x % 2 == 1 && y % 2 == 1 then 1 else 0) + 2 * And(x / 2, y / 2)
  }

  function Xor(x: nat, y: nat): nat
    decreases x + y
  {
    if x == 0 then y
    else if y == 0 then x
    else (if x % 2 != y % 2 then 1 else 0) + 2 * Xor(x / 2, y / 2)
  }

  /** A left shift that loses no bit is a multiplication. */
  lemma ShlFits(x: u64, n: nat)
    requires Scale(x, n) < 0x1_0000_0000_0000_0000
    ensures Shl(x, n) == Scale(x, n)
  {
    ScaleSign(x, n);
  }

  lemma ShrOne(x: u64)
    ensures Shr(x, 1) == x / 2
  {
    assert Floor(x, 1) == Floor(x / 2, 0);
  }

  lemma ShlOne(x: u64)
    requires 2 * x < TWO64
    ensures Shl(x, 1) == 2 * x
  {
    assert Scale(x, 1) == 2 * x;
  }

  /** A shift by the word size or more leaves nothing. */
  lemma ShlOut(x: u64, n: nat)
    requires n >= 64
    ensures Shl(x, n) == 0
  {
    ScaleCompose(x, n - 64, 64);
    Scale64(Scale(x, n - 64));
    WrapMultiple(Scale(x, n - 64), 0);
  }

  lemma ShrOut(x: u64, n: nat)
    requires n >= 64
    ensures Shr(x, n) == 0
  {
    Scale64(1);
    ScaleGrows(1, 64, n);
    ScaleSign(0, n);
    FloorUnique(x, n, 0);
  }

  /** or of two values that share no bit position is their sum. */
  lemma {:induction false} OrDisjoint(hi: nat, n: nat, lo: nat)
    requires lo < Scale(1, n)
    ensures Scale(hi, n) >= 0 && Or(Scale(hi, n), lo) == Scale(hi, n) + lo
  {
    ScaleSign(hi, n);
    if n > 0 && hi > 0 && lo > 0 {
      OrDisjoint(hi, n - 1, lo / 2);
    }
  }

  lemma {:induction false} OrCommutes(x: nat, y: nat)
    ensures Or(x, y) == Or(y, x)
    decreases x + y
  {
    if x > 0 && y > 0 { OrCommutes(x / 2, y / 2); }
  }

  lemma OrOne(x: nat)
    ensures Or(x, 1) == if x % 2 == 1 then x else x + 1
  {
  }

  lemma {:induction false} OrPositive(x: nat, y: nat)
    ensures Or(x, y) == 0 <==> x == 0 && y == 0
    decreases x + y
  {
    if x > 0 && y > 0 { OrPositive(x / 2, y / 2); }
  }

  lemma {:induction false} OrBound(x: nat, y: nat, n: nat)
    requires x < Scale(1, n) && y < Scale(1, n)
    ensures Or(x, y) < Scale(1, n)
  {
    if x > 0 && y > 0 { OrBound(x / 2, y / 2, n - 1); }
  }

  /** and with n low ones is the remainder modulo 2^n. */
  lemma {:induction false} AndMask(x: nat, n: nat)
    ensures Scale(1, n) >= 1 && And(x, Scale(1, n) - 1) == Low(x, n)
  {
    ScaleSign(1, n);
    if n > 0 {
      AndMask(x / 2, n - 1);
      if x == 0 { FloorOfSum(0, n, 0); ScaleSign(0, n); }
    }
  }

  /** and works on the bits above and below position n separately. */
  lemma {:induction false} AndSplit(x: nat, a: nat, b: nat, n: nat)
    requires b < Scale(1, n)
    ensures Floor(x, n) >= 0 && Low(x, n) >= 0 && Scale(a, n) >= 0
    ensures And(x, Scale(a, n) + b) == Scale(And(Floor(x, n), a), n) + And(Low(x, n), b)
  {
    FloorBounds(x, n);
    ScaleSign(a, n);
    if n > 0 {
      AndSplit(x / 2, a, b / 2, n - 1);
      AndHalves(x, Scale(a, n - 1), b, Low(x / 2, n - 1), Scale(And(Floor(x, n), a), n - 1));
    }
  }

  lemma AndHalves(x: nat, a: nat, b: nat, lo: nat, h: int)
    requires And(x / 2, a + b / 2) == h + And(lo, b / 2)
    ensures And(x, 2 * a + b) == 2 * h + And(2 * lo + x % 2, b)
  {
    AndStep(x, 2 * a + b);
    AndStep(2 * lo + x % 2, b);
  }

  lemma AndOne(x: nat)
    ensures And(x, 1) == x % 2
  {
    AndStep(x, 1);
  }

  lemma AndStep(x: nat, y: nat)
    ensures And(x, y) == (if x % 2 == 1 && y % 2 == 1 then 1 else 0) + 2 * And(x / 2, y / 2)
  {
  }

  /** and with a single bit above every bit of x. */
  lemma {:induction false} AndHighBit(x: nat, n: nat)
    requires x < Scale(1, n)
    ensures And(x, Scale(1, n)) == 0
  {
    if n > 0 { AndHighBit(x / 2, n - 1); }
  }

  lemma AndNotOne(x: u64)
    ensures And(x, Not(1)) == x - x % 2
  {
    Scale64(1);
    AndStep(x, Not(1));
    assert Not(1) / 2 == Scale(1, 63) - 1;
    AndMask(x / 2, 63);
    ScaleSign(0, 63);
    FloorUnique(x / 2, 63, 0);
  }

  lemma {:induction false} AndAllOnes(x: u64)
    ensures And(x, TWO64 - 1) == x
  {
    Scale64(1);
    AndMask(x, 64);
    ShrOut(x, 64);
    ScaleSign(0, 64);
  }

  lemma {:induction false} XorSelf(x: nat, y: nat)
    ensures Xor(x, y) == 0 <==> x == y
    decreases x + y
  {
    if x > 0 && y > 0 { XorSelf(x / 2, y / 2); }
  }
}
