/** The two-word helpers of src/math/fma.go, and what they compute on the
    128-bit value of a pair. */
module WordPairs {
  import opened Dyadic
  import opened Words
  import opened StickyShift

  datatype Pair = Pair(hi: u64, lo: u64)

  function Join(p: Pair): nat {
    p.hi * 0x1_0000_0000_0000_0000 + p.lo
  }

  /** shl: a count of 64 or more makes 64-n wrap, and the other way round. */
  function ShlPair(p: Pair, n: u64): Pair {
    OrFits(Shl(p.hi, n), Shr(p.lo, Sub(64, n)));
    OrFits(Or(Shl(p.hi, n), Shr(p.lo, Sub(64, n))), Shl(p.lo, Sub(n, 64)));
    Pair(Or(Or(Shl(p.hi, n), Shr(p.lo, Sub(64, n))), Shl(p.lo, Sub(n, 64))), Shl(p.lo, n))
  }

  function ShrPair(p: Pair, n: u64): Pair {
    OrFits(Shr(p.lo, n), Shl(p.hi, Sub(64, n)));
    OrFits(Or(Shr(p.lo, n), Shl(p.hi, Sub(64, n))), Shr(p.hi, Sub(n, 64)));
    Pair(Shr(p.hi, n), Or(Or(Shr(p.lo, n), Shl(p.hi, Sub(64, n))), Shr(p.hi, Sub(n, 64))))
  }

  function ShrCompress(p: Pair, n: u64): Pair {
    if n == 0 then p
    else if n == 64 then
      OrFits(p.hi, Nonzero(p.lo));
      Pair(0, Or(p.hi, Nonzero(p.lo)))
    else if n >= 128 then
      Pair(0, Nonzero(Or(p.hi, p.lo)))
    else
      var r := ShrPair(p, n);
      var lost := if n < 64 then Nonzero(And(p.lo, Sub(Shl(1, n), 1)))
                  else Nonzero(Or(And(p.hi, Sub(Shl(1, n - 64), 1)), p.lo));
      OrFits(r.lo, lost);
      r.(lo := Or(r.lo, lost))
  }

  lemma OrFits(x: u64, y: u64)
    ensures Or(x, y) < TWO64
  {
    Scale64(1);
    OrBound(x, y, 64);
  }

  lemma OrAbsorb(x: nat)
    ensures Or(x, 0) == x && Or(0, x) == x
  {
  }

  lemma {:induction false} OrSelf(x: nat)
    ensures Or(x, x) == x
  {
    if x > 0 { OrSelf(x / 2); }
  }

  /** n low ones, also when the shift leaves the word. */
  lemma LowOnes(x: u64, n: nat)
    ensures Nonzero(And(x, Sub(Shl(1, n), 1))) == if Low(x, n) == 0 then 0 else 1
  {
    Scale64(1);
    if n < 64 {
      ScaleGrows(1, n, 63);
      AndMask(x, n);
    } else {
      ShlOut(1, n);
      ShrOut(x, n);
      ScaleSign(0, n);
      AndAllOnes(x);
    }
  }

  /** m>>n | nonzero(m&(1<<n-1)) is the sticky shift of one word. */
  lemma StickyWord(x: u64, n: nat)
    ensures Or(Shr(x, n), Nonzero(And(x, Sub(Shl(1, n), 1)))) == Sticky(x, n)
  {
    LowOnes(x, n);
    OrOne(Shr(x, n));
    OrAbsorb(Shr(x, n));
  }

  // ----- shl

  lemma {:induction false} ScaleOfFloor(x: int, j: nat, n: nat)
    requires n <= j
    ensures Scale(x, n) == Scale(Floor(x, j - n), j) + Scale(Low(x, j - n), n)
  {
    var f, l := Floor(x, j - n), Low(x, j - n);
    ScaleSum(Scale(f, j - n), l, n);
    ScaleCompose(f, j - n, n);
  }

  /** A left shift that stays within 128 bits multiplies by 2^n. */
  lemma ShlPairExact(p: Pair, n: nat)
    requires n < 128 && Scale(Join(p), n) < Scale(1, 128)
    ensures Join(ShlPair(p, n)) == Scale(Join(p), n)
  {
    Scale64(p.hi);
    ScaleSum(Scale(p.hi, 64), p.lo, n);
    ScaleCompose(p.hi, 64, n);
    ScaleCompose(p.hi, n, 64);
    ScaleCompose(1, 64, 64);
    ScaleSign(p.lo, n);
    ScaleOrder(Scale(p.hi, n), Scale(1, 64), 64);
    Scale64(1);
    Scale64(Scale(p.hi, n));
    if n < 64 {
      ShlPairLow(p, n);
    } else {
      ShlPairHigh(p, n);
    }
  }

  lemma ShlPairLow(p: Pair, n: nat)
    requires n < 64 && Scale(p.hi, n) < TWO64
    ensures Join(ShlPair(p, n)) == Scale(p.hi, n) * 0x1_0000_0000_0000_0000 + Scale(p.lo, n)
  {
    ShlFits(p.hi, n);
    var f := Floor(p.lo, 64 - n);
    assert Scale(p.lo, n) == f * 0x1_0000_0000_0000_0000 + Shl(p.lo, n) by { ShlWord(p.lo, n); }
    ShlPairWords(p, n);
    assert Or(Scale(p.hi, n), f) == Scale(p.hi, n) + f by {
      FloorBelow(p.lo, 64, n);
      OrDisjoint(p.hi, n, f);
    }
  }

  /** The high word of shl on either side of a count of 64. */
  lemma ShlPairWords(p: Pair, n: nat)
    requires n < 128
    ensures n < 64 ==> ShlPair(p, n).hi == Or(Shl(p.hi, n), Shr(p.lo, 64 - n))
    ensures n >= 64 && p.hi == 0 ==> ShlPair(p, n).hi == Shl(p.lo, n - 64)
  {
    OrAbsorb(Or(Shl(p.hi, n), Shr(p.lo, Sub(64, n))));
    if n < 64 {
      assert Sub(64, n) == 64 - n;
      ShlOut(p.lo, Sub(n, 64));
    } else if p.hi == 0 {
      assert Sub(n, 64) == n - 64;
      ShlOut(p.hi, n);
      var s := Shl(p.lo, n - 64);
      OrAbsorb(s);
      if n > 64 {
        ShrOut(p.lo, Sub(64, n));
      } else {
        OrAbsorb(p.lo);
        OrSelf(p.lo);
      }
    }
  }

  /** What stays in the word of a left shift, and what leaves it. */
  lemma ShlWord(x: u64, n: nat)
    requires n <= 64
    ensures Shl(x, n) == Scale(Low(x, 64 - n), n)
    ensures Scale(x, n) == Floor(x, 64 - n) * 0x1_0000_0000_0000_0000 + Shl(x, n)
  {
    var f, l := Floor(x, 64 - n), Low(x, 64 - n);
    FloorBounds(x, 64 - n);
    assert 0 <= Scale(l, n) < 0x1_0000_0000_0000_0000 by {
      ScaleSign(l, n);
      ScaleCompose(1, 64 - n, n);
      ScaleOrder(l, Scale(1, 64 - n), n);
      Scale64(1);
    }
    assert Scale(x, n) == f * 0x1_0000_0000_0000_0000 + Scale(l, n) by {
      ScaleOfFloor(x, 64, n);
      Scale64(f);
    }
    WrapMultiple(f, Scale(l, n));
  }

  lemma FloorBelow(x: u64, j: nat, n: nat)
    requires n <= j == 64
    ensures 0 <= Floor(x, j - n) < Scale(1, n)
  {
    FloorBounds(x, j - n);
    Scale64(1);
    ScaleCompose(1, n, j - n);
    ScaleOrder(Floor(x, j - n), Scale(1, n), j - n);
  }

  /** Nothing is left of the high word if it does not fit after the shift. */
  lemma NoHighWord(h: u64, n: nat)
    requires n >= 64 && Scale(h, n) < TWO64
    ensures h == 0
  {
    Scale64(1);
    ScaleGrows(1, 64, n);
    if h > 0 {
      ScaleOrder(0, h - 1, n);
      ScaleOrder(h, 1, n);
    }
  }

  /** A word shifted by 64 or more, as the high word of a pair. */
  lemma LowWordMoves(l: u64, n: nat)
    requires 64 <= n && Scale(l, n) < Scale(1, 128)
    ensures 0 <= Scale(l, n - 64) < 0x1_0000_0000_0000_0000
    ensures Scale(l, n) == Scale(l, n - 64) * 0x1_0000_0000_0000_0000
  {
    var s := Scale(l, n - 64);
    ScaleCompose(l, n - 64, 64);
    ScaleCompose(1, 64, 64);
    ScaleOrder(s, Scale(1, 64), 64);
    ScaleSign(l, n - 64);
    Scale64(1);
    Scale64(s);
  }

  lemma ShlPairHigh(p: Pair, n: nat)
    requires 64 <= n < 128 && Scale(p.hi, n) < TWO64
    requires Scale(Join(p), n) < Scale(1, 128)
    ensures Join(ShlPair(p, n)) == Scale(Join(p), n)
  {
    NoHighWord(p.hi, n);
    assert Join(p) == p.lo;
    LowWordMoves(p.lo, n);
    ShlOut(p.lo, n);
    ShlFits(p.lo, n - 64);
    ShlPairWords(p, n);
  }

  // ----- shr and shrcompress

  lemma ShrPairLow(p: Pair, n: nat)
    requires 0 < n < 64
    ensures Join(ShrPair(p, n)) == Floor(Join(p), n)
    ensures Low(Join(p), n) == Low(p.lo, n) >= 0
  {
    var f, g, l := Floor(p.hi, n), Floor(p.lo, n), Low(p.lo, n);
    assert 0 <= f && 0 <= g && 0 <= l < Scale(1, n) by {
      FloorBounds(p.hi, n);
      FloorBounds(p.lo, n);
    }
    // p.hi << (64 - n) keeps the low n bits of p.hi, above those of g
    var up := Shl(p.hi, 64 - n);
    assert Scale(p.hi, 64 - n) == f * 0x1_0000_0000_0000_0000 + up by { ShlWord(p.hi, 64 - n); }
    assert ShrPair(p, n).lo == up + g by {
      ShlWord(p.hi, 64 - n);
      ShrOut(p.hi, Sub(n, 64));
      FloorBounds(p.hi, n);
      FloorBelow(p.lo, 64, 64 - n);
      OrDisjoint(Low(p.hi, n), 64 - n, g);
      OrCommutes(up, g);
      OrAbsorb(up + g);
    }
    var q := Scale(p.hi, 64 - n) + g;
    assert Scale(q, n) + l == Join(p) by {
      ScaleSum(Scale(p.hi, 64 - n), g, n);
      ScaleCompose(p.hi, 64 - n, n);
      Scale64(p.hi);
    }
    FloorOfSum(q, n, l);
  }

  lemma ShrPairHigh(p: Pair, n: nat)
    requires 64 < n < 128
    ensures Join(ShrPair(p, n)) == Floor(Join(p), n) == Floor(p.hi, n - 64)
    ensures Low(Join(p), n) == Scale(Low(p.hi, n - 64), 64) + p.lo
  {
    ShrOut(p.hi, n);
    ShrOut(p.lo, n);
    ShlOut(p.hi, Sub(64, n));
    FloorBounds(p.hi, n - 64);
    OrAbsorb(Floor(p.hi, n - 64));
    Scale64(p.hi);
    Scale64(1);
    FloorOfSum(p.hi, 64, p.lo);
    FloorCompose(Join(p), 64, n - 64);
    var f := Floor(p.hi, n - 64);
    ScaleCompose(f, n - 64, 64);
    ScaleSum(Scale(f, n - 64), Low(p.hi, n - 64), 64);
  }

  /** shrcompress is the sticky shift of the 128-bit value, for every count. */
  lemma ShrCompressIsSticky(p: Pair, n: u64)
    ensures Join(ShrCompress(p, n)) == Sticky(Join(p), n)
  {
    if n == 0 {
    } else if n == 64 {
      Scale64(p.hi);
      Scale64(1);
      FloorOfSum(p.hi, 64, p.lo);
      OrOne(p.hi);
      OrAbsorb(p.hi);
    } else if n >= 128 {
      CompressAll(p, n);
    } else if n < 64 {
      CompressLow(p, n);
    } else {
      CompressHigh(p, n);
    }
  }

  lemma CompressLow(p: Pair, n: nat)
    requires 0 < n < 64
    ensures Join(ShrCompress(p, n)) == Sticky(Join(p), n)
  {
    var lost := Low(p.lo, n);
    assert Join(ShrPair(p, n)) == Floor(Join(p), n) && Low(Join(p), n) == lost >= 0 by {
      ShrPairLow(p, n);
    }
    LowOnes(p.lo, n);
    SetLowBit(ShrPair(p, n), lost);
  }

  lemma CompressHigh(p: Pair, n: nat)
    requires 64 < n < 128
    ensures Join(ShrCompress(p, n)) == Sticky(Join(p), n)
  {
    var l := Low(p.hi, n - 64);
    var lost := Scale(l, 64) + p.lo;
    assert l >= 0 && lost >= 0 && (lost == 0 <==> l == 0 && p.lo == 0) by {
      FloorBounds(p.hi, n - 64);
      ScaleSign(l, 64);
    }
    assert Join(ShrPair(p, n)) == Floor(Join(p), n) && Low(Join(p), n) == lost by {
      ShrPairHigh(p, n);
    }
    LowOnes(p.hi, n - 64);
    OrPositive(And(p.hi, Sub(Shl(1, n - 64), 1)), p.lo);
    SetLowBit(ShrPair(p, n), lost);
  }

  lemma SetLowBit(r: Pair, lost: nat)
    ensures Or(r.lo, Nonzero(lost)) < TWO64
    ensures Join(r.(lo := Or(r.lo, Nonzero(lost))))
            == if lost == 0 || Join(r) % 2 == 1 then Join(r) else Join(r) + 1
  {
    hide Or;
    OrOne(r.lo);
    OrAbsorb(r.lo);
    JoinParity(r.hi, r.lo);
  }

  lemma JoinParity(hi: nat, lo: nat)
    ensures (hi * 0x1_0000_0000_0000_0000 + lo) % 2 == lo % 2
  {
    var half := hi * 0x8000_0000_0000_0000;
    assert hi * 0x1_0000_0000_0000_0000 == 2 * half;
  }

  lemma CompressAll(p: Pair, n: nat)
    requires n >= 128
    ensures Nonzero(Or(p.hi, p.lo)) == Sticky(Join(p), n)
  {
    OrPositive(p.hi, p.lo);
    Beyond128(Join(p), n);
  }

  lemma Beyond128(x: nat, n: nat)
    requires x < 0x1_0000_0000_0000_0000_0000_0000_0000_0000 && n >= 128
    ensures Floor(x, n) == 0 && Low(x, n) == x
  {
    Scale128();
    ScaleGrows(1, 128, n);
    FloorOfSmall(x, n);
  }

  lemma Scale128()
    ensures Scale(1, 127) == 0x8000_0000_0000_0000_0000_0000_0000_0000
    ensures Scale(1, 128) == 0x1_0000_0000_0000_0000_0000_0000_0000_0000
  {
    ScaleCompose(1, 64, 64);
    Scale64(1);
    Scale64(Scale(1, 64));
    assert Scale(1, 128) == 2 * Scale(1, 127);
  }

  // ----- carries and leading zeros

  function AddCarry(x: u64, y: u64, c: nat): (r: (u64, nat))
    requires c <= 1
    ensures r.1 <= 1 && r.0 + r.1 * 0x1_0000_0000_0000_0000 == x + y + c
  {
    WrapOnce(x + y + c);
    (Wrap(x + y + c), if x + y + c < 0x1_0000_0000_0000_0000 then 0 else 1)
  }

  function SubBorrow(x: u64, y: u64, c: nat): (r: (u64, nat))
    requires c <= 1
    ensures r.1 <= 1 && r.0 - r.1 * 0x1_0000_0000_0000_0000 == x - y - c
  {
    WrapOnce(x - y - c);
    (Wrap(x - y - c), if x < y + c then 1 else 0)
  }

  function AddPair(p: Pair, q: Pair): Pair {
    var (lo, c) := AddCarry(p.lo, q.lo, 0);
    Pair(AddCarry(p.hi, q.hi, c).0, lo)
  }

  function SubPair(p: Pair, q: Pair): Pair {
    var (lo, c) := SubBorrow(p.lo, q.lo, 0);
    Pair(SubBorrow(p.hi, q.hi, c).0, lo)
  }

  lemma AddPairExact(p: Pair, q: Pair)
    requires Join(p) + Join(q) < 0x1_0000_0000_0000_0000_0000_0000_0000_0000
    ensures Join(AddPair(p, q)) == Join(p) + Join(q)
  {
  }

  lemma SubPairExact(p: Pair, q: Pair)
    requires Join(p) >= Join(q)
    ensures Join(SubPair(p, q)) == Join(p) - Join(q)
  {
  }

  function BitLen(x: nat): nat { if x == 0 then 0 else 1 + BitLen(x / 2) }

  /** bits.LeadingZeros64 */
  function LeadingZeros(x: u64): nat {
    if BitLen(x) > 64 then 0 else 64 - BitLen(x)
  }

  lemma {:induction false} BitLenBounds(x: nat)
    ensures x < Scale(1, BitLen(x))
    ensures x > 0 ==> BitLen(x) > 0 && Scale(1, BitLen(x) - 1) <= x
  {
    if x > 0 { BitLenBounds(x / 2); }
  }

  /** Shifting a nonzero word left by its leading zeros sets the top bit. */
  lemma LeadingZerosBounds(x: u64)
    requires x > 0
    ensures LeadingZeros(x) <= 63
    ensures Scale(1, 63) <= Scale(x, LeadingZeros(x)) < Scale(1, 64)
  {
    BitLenBounds(x);
    Scale64(1);
    var n := BitLen(x);
    if n > 64 { ScaleGrows(1, 64, n - 1); }
    ScaleCompose(1, n, 64 - n);
    ScaleCompose(1, n - 1, 64 - n);
    ScaleOrder(x, Scale(1, n), 64 - n);
    ScaleOrder(x, Scale(1, n - 1), 64 - n);
  }

  /** lz */
  function LeadingZerosPair(p: Pair): nat {
    if LeadingZeros(p.hi) == 64 then 64 + LeadingZeros(p.lo) else LeadingZeros(p.hi)
  }

  lemma LeadingZerosPairBounds(p: Pair)
    requires Join(p) > 0
    ensures LeadingZerosPair(p) <= 127
    ensures Scale(1, 127) <= Scale(Join(p), LeadingZerosPair(p)) < Scale(1, 128)
  {
    if p.hi == 0 {
      NoLeadingBit(p.hi);
      LeadingZerosBounds(p.lo);
      LowPartBounds(p.lo, LeadingZeros(p.lo));
    } else {
      LeadingZerosBounds(p.hi);
      HighPartAbove(p, LeadingZeros(p.hi));
      HighPartBelow(p, LeadingZeros(p.hi));
    }
  }

  lemma NoLeadingBit(x: u64)
    requires x == 0
    ensures LeadingZeros(x) == 64
  {
  }

  lemma LowPartBounds(x: u64, n: nat)
    requires Scale(1, 63) <= Scale(x, n) < Scale(1, 64)
    ensures Scale(1, 127) <= Scale(x, 64 + n) < Scale(1, 128)
  {
    ScaleCompose(x, n, 64);
    ScaleCompose(1, 63, 64);
    ScaleCompose(1, 64, 64);
    ScaleOrder(Scale(x, n), Scale(1, 63), 64);
    ScaleOrder(Scale(x, n), Scale(1, 64), 64);
  }

  lemma HighPartAbove(p: Pair, n: nat)
    requires n <= 63 && Scale(1, 63) <= Scale(p.hi, n)
    ensures Scale(1, 127) <= Scale(Join(p), n)
  {
    assert Scale(Join(p), n) >= Scale(Scale(p.hi, 64), n) by {
      Scale64(p.hi);
      ScaleOrder(Join(p), Scale(p.hi, 64), n);
    }
    ScaleCompose(p.hi, 64, n);
    ScaleCompose(p.hi, n, 64);
    ScaleOrder(Scale(p.hi, n), Scale(1, 63), 64);
    ScaleCompose(1, 63, 64);
  }

  lemma HighPartBelow(p: Pair, n: nat)
    requires n <= 63 && Scale(p.hi, n) < Scale(1, 64)
    ensures Scale(Join(p), n) < Scale(1, 128)
  {
    // p.hi + 1 scaled by 2^n is at most 2^64, since 2^64 is a multiple of 2^n
    Scale64(1);
    Scale64(p.hi + 1);
    ScaleCompose(1, 64 - n, n);
    ScaleOrder(p.hi, Scale(1, 64 - n), n);
    ScaleOrder(Scale(1, 64 - n), p.hi + 1, n);
    ScaleOrder(Join(p), Scale(p.hi + 1, 64), n);
    ScaleCompose(p.hi + 1, 64, n);
    ScaleCompose(p.hi + 1, n, 64);
    ScaleOrder(Scale(1, 64), Scale(p.hi + 1, n), 64);
    ScaleCompose(1, 64, 64);
  }
}
