/** math.FMA of src/math/fma.go: x*y + z with a single rounding. */
module Fma {
  import opened Dyadic
  import opened Words
  import opened Float64
  import opened StickyShift
  import opened WordPairs

  // ----- the exact result

  /** x*y + z exactly, in units of 2^-2148. */
  function Exact(x: u64, y: u64, z: u64): int
    requires Finite(x) && Finite(y) && Finite(z)
  {
    Value(x) * Value(y) + Scale(Value(z), 1074)
  }

  function AbsInt(v: int): nat { if v < 0 then -v else v }

  /** Magnitudes count units of 2^-1074, so this is |v| on their scale. */
  ghost function InMagnitudeUnits(v: int): real {
    ScaleSign(1, 1074);
    AbsInt(v) as real / Scale(1, 1074) as real
  }

  // ----- operands as sign, exponent and two-word mantissa

  datatype Term = Term(sign: u64, exp: int, mant: Pair)

  function Signed(sign: u64, m: int): int { if sign == 1 then -m else m }

  /** t is v exactly, in units of 2^-2508, with bit 126 of the mantissa leading
      and its low 21 bits clear. */
  ghost predicate Represents(t: Term, v: int) {
    && t.sign <= 1
    && -1126 <= t.exp <= 3100
    && 0x4000_0000_0000_0000 <= t.mant.hi < 0x8000_0000_0000_0000
    && Low(Join(t.mant), 21) == 0
    && v == Signed(t.sign, Scale(Join(t.mant), t.exp + 1359))
  }

  /** split (fma.go:76-91) */
  method Split(b: u64) returns (sign: u64, exp: int, mantissa: u64)
    requires Finite(b) && !IsZero(b)
    ensures sign == if Negative(b) then 1 else 0
    ensures FRAC <= mantissa < 2 * FRAC && -51 <= exp <= 2046
    ensures Scale(Magnitude(Abs(b)), 52) == Scale(mantissa, exp + 51)
  {
    SplitFields(b);
    sign := Shr(b, 63);
    exp := And(Shr(b, 52), MASK);
    mantissa := And(b, FRAC - 1);
    if exp == 0 {
      NormalizeFraction(mantissa);
      var shift := LeadingZeros(mantissa) - 11;
      mantissa := Shl(mantissa, shift);
      exp := 1 - shift;
    } else {
      ImplicitBit(mantissa, exp);
      mantissa := Or(mantissa, Shl(1, 52));
    }
  }

  lemma SplitFields(b: u64)
    requires Finite(b)
    ensures Shr(b, 63) == if Negative(b) then 1 else 0
    ensures And(Shr(b, 52), MASK) == Abs(b) / FRAC <= 2046
    ensures And(b, FRAC - 1) == Abs(b) % FRAC
  {
    var a := Abs(b);
    FieldsOf(if Negative(b) then 1 else 0, a / FRAC, a % FRAC);
  }

  lemma FieldsOf(s: nat, e: nat, f: nat)
    requires s <= 1 && e <= MASK && f < FRAC
    ensures var b := 0x8000_0000_0000_0000 * s + 0x10_0000_0000_0000 * e + f;
      Shr(b, 63) == s && And(Shr(b, 52), MASK) == e && And(b, FRAC - 1) == f
  {
    var h := 0x800 * s + e;
    var b := 0x10_0000_0000_0000 * h + f;
    assert Shr(b, 63) == s by {
      Scale64(s);
      Scale64(1);
      FloorOfSum(s, 63, 0x10_0000_0000_0000 * e + f);
    }
    assert Floor(b, 52) == h && Low(b, 52) == f by {
      Scale52(1);
      Scale52(h);
      FloorOfSum(h, 52, f);
    }
    assert And(b, FRAC - 1) == f by { AndMask(b, 52); Scale52(1); }
    assert And(h, MASK) == e by {
      Scale10(1);
      Scale10(s);
      FloorOfSum(s, 11, e);
      AndMask(h, 11);
    }
  }

  lemma NormalizeFraction(f: u64)
    requires 0 < f < FRAC
    ensures var shift := LeadingZeros(f) - 11;
      && 1 <= shift <= 52
      && FRAC <= Shl(f, shift) < 2 * FRAC
      && Shl(f, shift) == Scale(f, shift)
      && Magnitude(f) == f
      && Scale(f, 52) == Scale(Shl(f, shift), 52 - shift)
  {
    LeadingZerosBounds(f);
    var n := LeadingZeros(f);
    Scale52(1);
    Scale64(1);
    ShortWord(f);
    ScaleCompose(f, n - 11, 11);
    Scale10(Scale(f, n - 11));
    ShlFits(f, n - 11);
    ScaleCompose(f, n - 11, 63 - n);
  }

  lemma ShortWord(f: u64)
    requires 0 < f < FRAC
    ensures 12 <= LeadingZeros(f) <= 63
  {
    LeadingZerosBounds(f);
    var n := LeadingZeros(f);
    if n < 12 {
      ScaleGrows(f, n, 11);
      Scale10(f);
      Scale64(1);
    }
  }

  lemma ImplicitBit(f: nat, e: nat)
    requires f < FRAC && 0 < e <= 2046
    ensures Or(f, Shl(1, 52)) == FRAC + f
    ensures Scale(Magnitude(e * FRAC + f), 52) == Scale(FRAC + f, e + 51)
  {
    Scale52(1);
    OrDisjoint(1, 52, f);
    OrCommutes(f, FRAC);
    MagnitudeOfFields(e, f);
    ScaleCompose(FRAC + f, e - 1, 52);
  }

  /** bits.Mul64 */
  function Mul64(x: u64, y: u64): (r: Pair)
    ensures Join(r) == x * y
  {
    WordProduct(x, y);
    Pair((x * y) / 0x1_0000_0000_0000_0000, (x * y) % 0x1_0000_0000_0000_0000)
  }

  lemma WordProduct(x: u64, y: u64)
    ensures 0 <= (x * y) / 0x1_0000_0000_0000_0000 < 0x1_0000_0000_0000_0000
  {
    MulMono(x, 0xFFFF_FFFF_FFFF_FFFF, y);
    MulMono(0, x, y);
    WordQuotient(x * y, y);
  }

  lemma WordQuotient(w: nat, y: u64)
    requires w <= 0xFFFF_FFFF_FFFF_FFFF * y
    ensures 0 <= w / 0x1_0000_0000_0000_0000 < 0x1_0000_0000_0000_0000
  {
  }

  lemma SignificandProduct(a: nat, b: nat)
    requires FRAC <= a < 2 * FRAC && FRAC <= b < 2 * FRAC
    ensures FRAC * FRAC <= a * b < 4 * FRAC * FRAC
    ensures Shl(a, 10) == 0x400 * a && Shl(b, 11) == 0x800 * b
    ensures Shl(a, 10) * Shl(b, 11) == Scale(a * b, 21)
  {
    MulMono(FRAC, a, FRAC);
    MulMono(FRAC, b, a);
    MulMono(a, 2 * FRAC, b);
    Scale10(a);
    Scale10(b);
    ScaleMulScale(a, 10, b, 11);
  }

  /** The product of x and y, normalised to bit 62 of its high word. */
  method Product(x: u64, y: u64) returns (t: Term)
    requires Finite(x) && !IsZero(x) && Finite(y) && !IsZero(y)
    ensures Represents(t, Scale(Value(x) * Value(y), 360))
    ensures t.sign == 1 <==> Value(x) * Value(y) < 0
  {
    var xs, xe, xm := Split(x);
    var ys, ye, ym := Split(y);
    var pe := xe + ye - BIAS + 1;
    var pm := SignificandMul(xm, ym);
    SignOfProduct(0, 0, Negative(x), Negative(y));
    var ps := Xor(xs, ys);
    ghost var w: int := xm as int * ym as int;
    NormalizeProduct(pm, w);
    var is62zero := And(Shr(Not(pm.hi), 62), 1);
    pm := ShlPair(pm, is62zero);
    pe := pe - is62zero;
    ProductValue(x, y, xe, ye, xm, ym, is62zero);
    t := Term(ps, pe, pm);
  }

  method SignificandMul(xm: u64, ym: u64) returns (pm: Pair)
    requires FRAC <= xm < 2 * FRAC && FRAC <= ym < 2 * FRAC
    ensures FRAC * FRAC <= xm * ym < 4 * FRAC * FRAC
    ensures Join(pm) == Scale(xm * ym, 21)
  {
    SignificandProduct(xm, ym);
    pm := Mul64(Shl(xm, 10), Shl(ym, 11));
  }

  lemma NormalizeProduct(pm: Pair, w: nat)
    requires FRAC * FRAC <= w < 4 * FRAC * FRAC && Join(pm) == Scale(w, 21)
    ensures var n := And(Shr(Not(pm.hi), 62), 1);
      && n <= 1
      && Join(ShlPair(pm, n)) == Scale(w, 21 + n)
      && 0x4000_0000_0000_0000 <= ShlPair(pm, n).hi < 0x8000_0000_0000_0000
      && Low(Join(ShlPair(pm, n)), 21) == 0
  {
    Scale10(w);
    Scale10(Scale(w, 10));
    ScaleCompose(w, 10, 11);
    assert 0x2000_0000_0000_0000 <= pm.hi < 0x8000_0000_0000_0000;
    TopBit(pm.hi);
    var n := And(Shr(Not(pm.hi), 62), 1);
    ScaleCompose(1, 64, 64);
    Scale64(1);
    Scale64(Scale(1, 64));
    ShlPairExact(pm, n);
    ScaleCompose(w, 21, n);
    ScaleCompose(w, n, 21);
    ScaleSign(1, 21);
    FloorOfSum(Scale(w, n), 21, 0);
  }

  lemma TopBit(h: u64)
    requires h < 0x8000_0000_0000_0000
    ensures And(Shr(Not(h), 62), 1) == if h < 0x4000_0000_0000_0000 then 1 else 0
  {
    var k := if h < 0x4000_0000_0000_0000 then 3 else 2;
    Scale64(k);
    Scale64(k + 1);
    FloorUnique(Not(h), 62, k);
    AndOne(k);
  }

  lemma ProductValue(x: u64, y: u64, xe: int, ye: int, xm: nat, ym: nat, n: nat)
    requires Finite(x) && !IsZero(x) && Finite(y) && !IsZero(y) && n <= 1
    requires -51 <= xe && -51 <= ye && xm > 0 && ym > 0
    requires Scale(Magnitude(Abs(x)), 52) == Scale(xm, xe + 51)
    requires Scale(Magnitude(Abs(y)), 52) == Scale(ym, ye + 51)
    ensures var s := Xor(if Negative(x) then 1 else 0, if Negative(y) then 1 else 0);
      && s <= 1
      && Scale(Value(x) * Value(y), 360)
         == Signed(s, Scale(Scale(xm * ym, 21 + n), xe + ye - 1022 - n + 1359))
      && (s == 1 <==> Value(x) * Value(y) < 0)
  {
    var a, b := Magnitude(Abs(x)), Magnitude(Abs(y));
    ProductMagnitude(a, b, xe, ye, xm, ym, n, 360);
    SignOfProduct(a, b, Negative(x), Negative(y));
    ScaleNeg(a * b, 360);
  }

  lemma ProductMagnitude(a: nat, b: nat, xe: int, ye: int, xm: nat, ym: nat, n: nat, k: nat)
    requires -51 <= xe && -51 <= ye && xm > 0 && ym > 0 && n <= 1 && k == 360
    requires Scale(a, 52) == Scale(xm, xe + 51) && Scale(b, 52) == Scale(ym, ye + 51)
    ensures a * b > 0 && Scale(a * b, k) == Scale(Scale(xm * ym, 21 + n), xe + ye + 337 - n)
  {
    var w := xm * ym;
    assert Scale(a * b, 104) == Scale(w, xe + ye + 102) by {
      ScaleMulScale(a, 52, b, 52);
      ScaleMulScale(xm, xe + 51, ym, ye + 51);
    }
    assert Scale(a * b, k) == Scale(Scale(w, 21 + n), xe + ye + 337 - n) by {
      ScaleCompose(a * b, 104, 256);
      ScaleCompose(w, xe + ye + 102, 256);
      ScaleCompose(w, 21 + n, xe + ye + 337 - n);
    }
    assert w > 0 by { MulStrict(0, xm, ym); }
    ScaleSign(w, xe + ye + 102);
    ScaleSign(a * b, 104);
  }

  lemma SignOfProduct(a: nat, b: nat, na: bool, nb: bool)
    ensures (if na then -1 else 1) * a * ((if nb then -1 else 1) * b)
            == if na != nb then -(a * b) else a * b
    ensures Xor(if na then 1 else 0, if nb then 1 else 0) == if na != nb then 1 else 0
  {
  }

  /** The addend z, shifted to the same alignment. */
  method Addend(z: u64) returns (t: Term)
    requires Finite(z) && !IsZero(z)
    ensures Represents(t, Scale(Scale(Value(z), 1074), 360)) && t.exp <= 2046
  {
    var zs, ze, zm := Split(z);
    AddendValue(z, ze, zm);
    t := Term(zs, ze, Pair(Shl(zm, 10), 0));
  }

  lemma AddendValue(z: u64, ze: int, zm: u64)
    requires Finite(z) && -51 <= ze <= 2046 && FRAC <= zm < 2 * FRAC
    requires Scale(Magnitude(Abs(z)), 52) == Scale(zm, ze + 51)
    ensures Represents(Term(if Negative(z) then 1 else 0, ze, Pair(Shl(zm, 10), 0)),
                       Scale(Scale(Value(z), 1074), 360))
  {
    var m := Magnitude(Abs(z));
    Scale10(zm);
    var p := Pair(Shl(zm, 10), 0);
    assert Join(p) == Scale(zm, 74) by {
      ScaleCompose(zm, 10, 64);
      Scale64(Scale(zm, 10));
    }
    assert Low(Join(p), 21) == 0 by {
      ScaleCompose(zm, 53, 21);
      ScaleSign(1, 21);
      FloorOfSum(Scale(zm, 53), 21, 0);
    }
    assert Scale(Scale(m, 1074), 360) == Scale(Join(p), ze + 1359) by {
      ScaleCompose(m, 1074, 360);
      ScaleCompose(m, 52, 1382);
      ScaleCompose(zm, ze + 51, 1382);
      ScaleCompose(zm, 74, ze + 1359);
    }
    assert Scale(Scale(-(m as int), 1074), 360) == -Scale(Scale(m, 1074), 360) by {
      ScaleNeg(m, 1074);
      ScaleNeg(Scale(m, 1074), 360);
    }
    assert Value(z) == if Negative(z) then -(m as int) else m;
  }

  // ----- aligned addition (fma.go:130-155)

  /** The condition under which FMA swaps its operands. */
  predicate Smaller(p: Term, z: Term) {
    p.exp < z.exp
    || (p.exp == z.exp && (p.mant.hi < z.mant.hi
                           || (p.mant.hi == z.mant.hi && p.mant.lo < z.mant.lo)))
  }

  /** What the sum leaves in m: the exact |v| up to a sticky bit, normalised
      to bit 62 unless v is zero. */
  ghost predicate Normalised(m: u64, pe: int, v: nat) {
    && -1254 <= pe
    && StickyOf(m, v, pe + 1424)
    && m < 0x8000_0000_0000_0000
    && (v == 0 ==> m == 0 && pe <= 2045)
    && (v > 0 ==> 0x4000_0000_0000_0000 <= m)
  }

  const TWO62: nat := 0x4000_0000_0000_0000
  const TWO63: nat := 0x8000_0000_0000_0000

  method Combine(p: Term, z: Term, ghost vp: int, ghost vz: int) returns (ps: u64, pe: int, m: u64)
    requires Represents(p, vp) && Represents(z, vz) && z.exp <= 2046
    ensures ps <= 1 && Normalised(m, pe, AbsInt(vp + vz))
    ensures vp + vz != 0 ==> (ps == 1 <==> vp + vz < 0)
    ensures vp + vz == 0 ==> ps == p.sign
  {
    var a, b := p, z;
    ghost var va, vb := vp, vz;
    if Smaller(p, z) {
      a, b := z, p;
      va, vb := vz, vp;
    }
    var bm := ShrCompress(b.mant, a.exp - b.exp);
    ps := a.sign;
    AlignedSum(a, va, b, vb, bm);
    if a.sign == b.sign {
      m, pe := AddAligned(a.mant, bm, a.exp, AbsInt(vp + vz));
    } else {
      m, pe := SubAligned(a.mant, bm, a.exp, AbsInt(vp + vz));
    }
  }

  /** After the swap the aligned mantissas add (or subtract, without borrow) to
      the exact sum; a difference that lost bits is still large. */
  lemma AlignedSum(a: Term, va: int, b: Term, vb: int, bm: Pair)
    requires Represents(a, va) && Represents(b, vb) && !Smaller(a, b)
    requires bm == ShrCompress(b.mant, a.exp - b.exp)
    ensures bm.hi < TWO63 && Join(bm) <= Join(a.mant)
    ensures var n := a.exp + 1359;
      if a.sign == b.sign
      then && AbsInt(va + vb) == AbsInt(va) + AbsInt(vb) > 0
           && StickyOf(Join(a.mant) + Join(bm), AbsInt(va + vb), n)
           && (a.sign == 1 <==> va + vb < 0)
      else var diff := Join(a.mant) - Join(bm);
           && StickyOf(diff, AbsInt(va + vb), n)
           && (Scale(diff, n) == AbsInt(va + vb) || diff >= 0x2000_0000_0000_0000_0000_0000_0000_0000)
           && (va + vb != 0 ==> (a.sign == 1 <==> va + vb < 0))
           && (va + vb == 0 ==> a.exp == b.exp && a.mant == b.mant)
  {
    hide Low, Scale, StickyOf, ShrCompress;
    var d := a.exp - b.exp;
    ShrCompressIsSticky(b.mant, d);
    AlignedParts(Join(a.mant), Join(b.mant), d, b.exp + 1359);
    assert Join(a.mant) == Join(b.mant) ==> a.mant == b.mant;
  }

  /** The same for magnitudes: p in units of 2^(d + j) and q in units of 2^j. */
  lemma AlignedParts(p: nat, q: nat, d: nat, j: nat)
    requires 0x4000_0000_0000_0000_0000_0000_0000_0000 <= p && Low(p, 21) == 0
    requires 0 < q < 0x8000_0000_0000_0000_0000_0000_0000_0000 && Low(q, 21) == 0
    requires d == 0 ==> q <= p
    ensures var n, s, vp, vq := d + j, Sticky(q, d), Scale(p, d + j), Scale(q, j);
      && 0 <= s <= p && vp > 0 && vq > 0
      && StickyOf(p + s, vp + vq, n) && StickyOf(p - s, vp - vq, n)
      && (Scale(p - s, n) == vp - vq || p - s >= 0x2000_0000_0000_0000_0000_0000_0000_0000)
      && (p - s > 0 ==> vp - vq > 0) && (p - s == 0 ==> d == 0 && p == q && vp == vq)
  {
    var n, s, vp, vq := d + j, Sticky(q, d), Scale(p, d + j), Scale(q, j);
    ScaleSign(p, n);
    ScaleSign(q, j);
    AlignedBounds(p, q, d);
    AlignedSticky(q, d, j);
    assert StickyOf(p + s, vp + vq, n) && StickyOf(p - s, vp - vq, n) by {
      EvenWhenAligned(p);
      StickySum(p, s, vq, n);
    }
    assert d <= 21 ==> Scale(p - s, n) == vp - vq by {
      ScaleSum(p, -s, n);
      ScaleNeg(s, n);
    }
    assert p - s > 0 ==> vp - vq > 0 by { StickyCompare(p - s, vp - vq, n, 0); ScaleSign(0, n); }
    assert p - s == 0 ==> d == 0 && p == q by { ScaleSign(0, 0); }
  }

  lemma EvenWhenAligned(p: int)
    requires Low(p, 21) == 0
    ensures p % 2 == 0
  {
    ScaleEven(Floor(p, 21), 21);
  }

  lemma AlignedBounds(p: nat, q: nat, d: nat)
    requires 0x4000_0000_0000_0000_0000_0000_0000_0000 <= p
    requires q < 0x8000_0000_0000_0000_0000_0000_0000_0000
    requires d == 0 ==> q <= p
    ensures 0 <= Sticky(q, d) <= p
    ensures d > 0 ==> Sticky(q, d) < p && Sticky(q, d) < 0x4000_0000_0000_0000_0000_0000_0000_0000
    ensures d >= 22 ==> Sticky(q, d) < 0x200_0000_0000_0000_0000_0000_0000
  {
    if d > 0 {
      var m := 0x4000_0000_0000_0000_0000_0000_0000_0000;
      assert Scale(m, 1) == 2 * m;
      ScaleGrows(m, 1, d);
      StickyBounds(q, d, m);
    }
    if d >= 22 {
      var m := 0x200_0000_0000_0000_0000_0000_0000;
      Scale10(m);
      Scale10(0x800 * m);
      ScaleCompose(m, 11, 11);
      ScaleGrows(m, 22, d);
      StickyBounds(q, d, m);
    }
  }

  lemma AlignedSticky(q: int, d: nat, j: nat)
    requires Low(q, 21) == 0
    ensures StickyOf(Sticky(q, d), Scale(q, j), d + j)
    ensures d <= 21 ==> Scale(Sticky(q, d), d + j) == Scale(q, j)
  {
    StickyIsStickyOf(q, d);
    StickyUnits(Sticky(q, d), q, d, j);
    if d <= 21 {
      var f := Floor(q, 21);
      ScaleCompose(f, 21 - d, d);
      ScaleSign(1, d);
      FloorOfSum(Scale(f, 21 - d), d, 0);
      ScaleCompose(Sticky(q, d), d, j);
    }
  }

  /** The addition branch (fma.go:140-145). */
  method AddAligned(p: Pair, z: Pair, e: int, ghost v: nat) returns (m: u64, pe: int)
    requires TWO62 <= p.hi < TWO63 && z.hi < TWO63 && -1126 <= e
    requires v > 0 && StickyOf(Join(p) + Join(z), v, e + 1359)
    ensures Normalised(m, pe, v)
  {
    var s := AddPair(p, z);
    AddPairExact(p, z);
    HighBit(s.hi);
    pe := e - Shr(Not(s.hi), 63);
    var n := 64 + Shr(s.hi, 63);
    var r := ShrCompress(s, n);
    m := r.lo;
    ShrCompressIsSticky(s, n);
    SumMantissa(Join(s), n);
    StickyIsStickyOf(Join(s), n);
    StickyCompose(Join(r), Join(s), n, v, e + 1359);
  }

  lemma HighBit(h: u64)
    ensures Shr(h, 63) == if h < TWO63 then 0 else 1
    ensures Shr(Not(h), 63) == if h < TWO63 then 1 else 0
  {
    Scale64(0);
    Scale64(1);
    Scale64(2);
    FloorUnique(h, 63, if h < TWO63 then 0 else 1);
    FloorUnique(Not(h), 63, if h < TWO63 then 1 else 0);
  }

  lemma SumMantissa(x: nat, n: nat)
    requires n == 64 || n == 65
    requires n == 64 ==> 0x4000_0000_0000_0000_0000_0000_0000_0000 <= x < 0x8000_0000_0000_0000_0000_0000_0000_0000
    requires n == 65 ==> 0x8000_0000_0000_0000_0000_0000_0000_0000 <= x < 0x1_0000_0000_0000_0000_0000_0000_0000_0000
    ensures TWO62 <= Sticky(x, n) < TWO63
  {
    Scale64(TWO62);
    Scale64(TWO63);
    assert Scale(TWO62, 65) == 2 * Scale(TWO62, 64) && Scale(TWO63, 65) == 2 * Scale(TWO63, 64);
    StickyBounds(x, n, TWO63);
    FloorBounds(x, n);
    ScaleOrder(Floor(x, n) + 1, TWO62, n);
    ScaleOrder(TWO62, Floor(x, n) + 1, n);
  }

  /** The subtraction branch (fma.go:147-154). */
  method SubAligned(p: Pair, z: Pair, e: int, ghost v: nat) returns (m: u64, pe: int)
    requires TWO62 <= p.hi < TWO63 && Join(z) <= Join(p) && -1126 <= e
    requires StickyOf(Join(p) - Join(z), v, e + 1359) && (v == 0 ==> e <= 2046)
    requires Scale(Join(p) - Join(z), e + 1359) == v
             || Join(p) - Join(z) >= 0x2000_0000_0000_0000_0000_0000_0000_0000
    ensures Normalised(m, pe, v)
  {
    var s := SubPair(p, z);
    SubPairExact(p, z);
    var nz := LeadingZerosPair(s);
    pe := e - nz;
    ZerosOfDifference(s);
    var r := ShlPair(s, nz - 1);
    ShiftOfDifference(s, nz);
    MantissaOfDifference(s, nz);
    Cancellation(Join(s), nz, r, v, e);
    StickyHigh(r);
    m := Or(r.hi, Nonzero(r.lo));
  }

  lemma StickyHigh(r: Pair)
    ensures Or(r.hi, Nonzero(r.lo)) == Sticky(Join(r), 64)
  {
    ShrCompressIsSticky(r, 64);
  }

  /** The difference d, shifted to bit 126, still stands for v. */
  lemma Cancellation(d: nat, nz: nat, r: Pair, v: nat, e: int)
    requires -1126 <= e && 1 <= nz <= 128 && Join(r) == Scale(d, nz - 1)
    requires StickyOf(d, v, e + 1359) && (Scale(d, e + 1359) == v || nz <= 2)
    requires d > 0 ==> TWO62 <= Sticky(Join(r), 64) < TWO63
    requires v == 0 ==> e <= 2046
    ensures 0 <= Sticky(Join(r), 64) < TWO63
    ensures Normalised(Sticky(Join(r), 64), e - nz, v)
  {
    ScaleSign(0, e + 1359);
    StickyCompare(d, v, e + 1359, 0);
    if d == 0 {
      ScaleSign(0, nz - 1);
      StickyZero(Join(r), 64);
      ScaleSign(0, e - nz + 1424);
    } else {
      ShiftedStandsFor(d, nz - 1, v, e + 1359);
    }
  }

  lemma ShiftedStandsFor(d: nat, k: nat, v: nat, n: nat)
    requires StickyOf(d, v, n) && (Scale(d, n) == v || k < 64) && k <= n
    ensures StickyOf(Sticky(Scale(d, k), 64), v, 64 + n - k)
  {
    var x := Scale(d, k);
    StickyIsStickyOf(x, 64);
    StickyShifted(Sticky(x, 64), d, k, v, n);
    StickyUnits(Sticky(x, 64), v, 64 + n - k, k);
  }

  /** A difference below 2^127 has a leading zero, a large one at most two. */
  lemma ZerosOfDifference(s: Pair)
    requires Join(s) < 0x8000_0000_0000_0000_0000_0000_0000_0000
    ensures 1 <= LeadingZerosPair(s) <= 128
    ensures Join(s) >= 0x2000_0000_0000_0000_0000_0000_0000_0000 ==> LeadingZerosPair(s) <= 2
  {
    if Join(s) == 0 {
      NoLeadingBit(s.hi);
      NoLeadingBit(s.lo);
    } else {
      LeadingZerosPairBounds(s);
      Scale128();
      var nz, d := LeadingZerosPair(s), Join(s);
      if nz >= 3 { ScaleGrows(d, 3, nz); Eightfold(d); }
    }
  }

  /** Normalising the difference loses nothing, also when it is zero. */
  lemma ShiftOfDifference(s: Pair, nz: nat)
    requires 1 <= nz <= 128 && nz == LeadingZerosPair(s)
    ensures Join(ShlPair(s, nz - 1)) == Scale(Join(s), nz - 1)
  {
    Scale128();
    if Join(s) > 0 {
      LeadingZerosPairBounds(s);
      assert Scale(Join(s), nz) == 2 * Scale(Join(s), nz - 1);
    } else {
      ScaleSign(Join(s), nz - 1);
    }
    ShlPairExact(s, nz - 1);
  }

  lemma MantissaOfDifference(s: Pair, nz: nat)
    requires 1 <= nz <= 128 && nz == LeadingZerosPair(s)
    ensures Join(s) > 0 ==> TWO62 <= Sticky(Scale(Join(s), nz - 1), 64) < TWO63
  {
    if Join(s) > 0 {
      LeadingZerosPairBounds(s);
      Scale128();
      assert Scale(Join(s), nz) == 2 * Scale(Join(s), nz - 1);
      SumMantissa(Scale(Join(s), nz - 1), 64);
    }
  }

  lemma Eightfold(d: int)
    ensures Scale(d, 3) == 8 * d
  {
    assert Scale(d, 1) == 2 * d;
  }

  // ----- rounding (fma.go:157-169)

  /** m / 1024 rounded to nearest, ties to even. */
  function RoundedTenBits(m: nat): nat {
    var q, l := m / 1024, m % 1024;
    if l < 512 || (l == 512 && q % 2 == 0) then q else q + 1
  }

  /** Half a unit on either side, and only an even result on the boundary. */
  lemma RoundedWithinHalf(m: nat)
    ensures var sig := RoundedTenBits(m);
      && 512 * (2 * sig - 1) <= m <= 512 * (2 * sig + 1)
      && (m == 512 * (2 * sig - 1) || m == 512 * (2 * sig + 1) ==> sig % 2 == 0)
  {
  }

  lemma RoundingWord(m: u64)
    requires m < TWO63
    ensures And(Shr(Add(m, 512), 10), Not(Zero(Xor(And(m, 1023), 512)))) == RoundedTenBits(m)
  {
    var up := (m + 512) / 1024;
    Scale10(1);
    Scale10(up);
    Scale10(up + 1);
    FloorUnique(m + 512, 10, up);
    var q, l := m / 1024, m % 1024;
    Scale10(q);
    FloorOfSum(q, 10, l);
    AndMask(m, 10);
    XorSelf(l, 512);
    AndNotOne(up);
    AndAllOnes(up);
  }

  /** Comparing m with 512k decides how the exact magnitude e compares with k/2
      in the last place: the sticky bit never misleads. */
  lemma HalfwayCompare(m: u64, e: nat, pe: nat, k: int)
    requires StickyOf(m, Scale(e, 360), pe + 1424)
    ensures var v, half := InMagnitudeUnits(e), Scale(k, pe) as real;
      (m < 512 * k <==> 2.0 * v < half) && (m == 512 * k <==> 2.0 * v == half)
  {
    HalfwayInteger(m, e, pe, k);
    RealCompare(e, Scale(k, pe));
  }

  lemma HalfwayInteger(m: u64, e: nat, pe: nat, k: int)
    requires StickyOf(m, Scale(e, 360), pe + 1424)
    ensures m < 512 * k <==> e < Scale(Scale(k, pe), 1073)
    ensures m == 512 * k <==> e == Scale(Scale(k, pe), 1073)
  {
    var t, above := Threshold(pe, k, 1073, 360);
    CompareScaled(m, e, 360, pe + 1424, t, above);
  }

  lemma Threshold(pe: nat, k: int, a: nat, b: nat) returns (t: int, above: int)
    requires a == 1073 && b == 360
    ensures t == 512 * k && t % 2 == 0 && above == Scale(Scale(k, pe), a)
    ensures Scale(t, pe + 1424) == Scale(above, b)
  {
    t, above := 512 * k, Scale(Scale(k, pe), a);
    HalfwayScales(pe, k, pe + 1424, a, b);
    Even512(k, t);
  }

  lemma Even512(k: int, t: int)
    requires t == 512 * k
    ensures t % 2 == 0
  {
    assert t == 2 * (256 * k);
  }

  /** StickyCompare with a threshold given on the scale of e. */
  lemma CompareScaled(m: int, e: int, j: nat, n: nat, t: int, above: int)
    requires StickyOf(m, Scale(e, j), n) && t % 2 == 0 && Scale(t, n) == Scale(above, j)
    ensures m < t <==> e < above
    ensures m == t <==> e == above
  {
    StickyCompare(m, Scale(e, j), n, t);
    ScaleOrder(e, above, j);
  }

  lemma HalfwayScales(pe: nat, k: int, n: nat, a: nat, b: nat)
    requires n + 9 == pe + a + b
    ensures Scale(512 * k, n) == Scale(Scale(Scale(k, pe), a), b)
  {
    Scale9(k, 9);
    ScaleCompose(k, 9, n);
    ScaleCompose(k, pe, a + b);
    ScaleCompose(Scale(k, pe), a, b);
  }

  lemma Scale9(k: int, n: nat)
    requires n == 9
    ensures Scale(k, n) == 512 * k
  {
    Scale10(k);
  }

  /** The real form of the same comparison. */
  lemma RealCompare(e: nat, t: int)
    ensures e < Scale(t, 1073) <==> 2.0 * InMagnitudeUnits(e) < t as real
    ensures e == Scale(t, 1073) <==> 2.0 * InMagnitudeUnits(e) == t as real
  {
    assert Scale(t, 1074) == 2 * Scale(t, 1073);
    ScaleMul(t, 1, 1074);
    ScaleMul(1, t, 1074);
    ScaleSign(1, 1074);
    DivideBoth(e, t, Scale(1, 1074));
  }

  lemma DivideBoth(e: nat, t: int, d: int)
    requires d > 0
    ensures 2 * e < d * t <==> 2.0 * (e as real / d as real) < t as real
    ensures 2 * e == d * t <==> 2.0 * (e as real / d as real) == t as real
  {
    var v, dr := e as real / d as real, d as real;
    assert v * dr == e as real;
    assert (d * t) as real == dr * t as real;
    assert (2.0 * v - t as real) * dr == (2 * e - d * t) as real;
  }

  /** Rounding m to 53 bits rounds the exact value to the nearest pattern. */
  lemma RoundedIsNearest(m: u64, e: nat, pe: nat, sig: nat)
    requires StickyOf(m, Scale(e, 360), pe + 1424)
    requires m < TWO63 && (TWO62 <= m || pe == 0) && sig == RoundedTenBits(m)
    requires pe < 2045 || (pe == 2045 && sig < 2 * FRAC)
    ensures NearestEven(InMagnitudeUnits(e), pe * FRAC + sig)
  {
    var b := pe * FRAC + sig;
    var v := InMagnitudeUnits(e);
    PatternOf(pe, sig);
    assert sig <= 2 * FRAC && (FRAC <= sig || pe == 0);
    assert v >= 0.0 by { ScaleSign(1, 1074); }
    MagnitudeOfParts(pe, sig);
    if b > 0 { LowerMidpoint(m, e, pe, sig); }
    if b < INF_BITS { UpperMidpoint(m, e, pe, sig); }
    NearestFromMidpoints(v, b);
  }

  lemma PatternOf(pe: nat, sig: nat)
    requires sig <= 2 * FRAC && (pe < 2045 || (pe == 2045 && sig < 2 * FRAC))
    ensures pe * FRAC + sig <= INF_BITS && (pe * FRAC + sig) % 2 == sig % 2
  {
    assert pe * FRAC == 2 * (pe * 0x8_0000_0000_0000);
  }

  lemma LowerMidpoint(m: u64, e: nat, pe: nat, sig: nat)
    requires StickyOf(m, Scale(e, 360), pe + 1424)
    requires m < TWO63 && (TWO62 <= m || pe == 0) && sig == RoundedTenBits(m)
    requires sig <= 2 * FRAC && (FRAC <= sig || pe == 0) && 0 < pe * FRAC + sig <= INF_BITS
    ensures var b := pe * FRAC + sig;
      var mid := (Magnitude(b - 1) + Magnitude(b)) as real;
      mid <= 2.0 * InMagnitudeUnits(e) && (mid == 2.0 * InMagnitudeUnits(e) ==> sig % 2 == 0)
  {
    var b := pe * FRAC + sig;
    MagnitudeOfParts(pe, sig);
    if FRAC < sig || pe == 0 {
      MagnitudeOfParts(pe, sig - 1);
      BelowHalfway(m, e, pe, sig);
    } else {
      MagnitudeStep(b - 1);
      AtLeast(m, e, pe, sig);
    }
  }

  lemma BelowHalfway(m: u64, e: nat, pe: nat, sig: nat)
    requires StickyOf(m, Scale(e, 360), pe + 1424) && sig == RoundedTenBits(m)
    ensures var mid := (Scale(sig - 1, pe) + Scale(sig, pe)) as real;
      mid <= 2.0 * InMagnitudeUnits(e) && (mid == 2.0 * InMagnitudeUnits(e) ==> sig % 2 == 0)
  {
    RoundedWithinHalf(m);
    ScaleSum(sig, sig - 1, pe);
    HalfwayCompare(m, e, pe, 2 * sig - 1);
  }

  lemma AboveHalfway(m: u64, e: nat, pe: nat, sig: nat)
    requires StickyOf(m, Scale(e, 360), pe + 1424) && sig == RoundedTenBits(m)
    ensures var mid := (Scale(sig, pe) + Scale(sig + 1, pe)) as real;
      2.0 * InMagnitudeUnits(e) <= mid && (mid == 2.0 * InMagnitudeUnits(e) ==> sig % 2 == 0)
  {
    RoundedWithinHalf(m);
    ScaleSum(sig, sig + 1, pe);
    HalfwayCompare(m, e, pe, 2 * sig + 1);
  }

  /** A mantissa with a zero remainder is not below its own value. */
  lemma AtLeast(m: u64, e: nat, pe: nat, sig: nat)
    requires StickyOf(m, Scale(e, 360), pe + 1424) && 1024 * sig <= m
    ensures (2 * Scale(sig, pe)) as real <= 2.0 * InMagnitudeUnits(e)
  {
    ScaleSum(sig, sig, pe);
    HalfwayCompare(m, e, pe, 2 * sig);
  }

  lemma UpperMidpoint(m: u64, e: nat, pe: nat, sig: nat)
    requires StickyOf(m, Scale(e, 360), pe + 1424)
    requires m < TWO63 && (TWO62 <= m || pe == 0) && sig == RoundedTenBits(m)
    requires sig <= 2 * FRAC && (FRAC <= sig || pe == 0) && pe * FRAC + sig < INF_BITS
    ensures var b := pe * FRAC + sig;
      var mid := (Magnitude(b) + Magnitude(b + 1)) as real;
      2.0 * InMagnitudeUnits(e) <= mid && (mid == 2.0 * InMagnitudeUnits(e) ==> sig % 2 == 0)
  {
    var b := pe * FRAC + sig;
    MagnitudeOfParts(pe, sig);
    if sig < 2 * FRAC {
      MagnitudeOfParts(pe, sig + 1);
      AboveHalfway(m, e, pe, sig);
    } else {
      MagnitudeStep(b);
      ScaleSum(sig, sig, pe);
      HalfwayCompare(m, e, pe, 2 * sig);
    }
  }

  /** At or beyond the midpoint between the largest finite magnitude and
      2^1024, the nearest pattern is infinity. */
  lemma OverflowIsNearest(m: u64, e: nat, pe: nat)
    requires StickyOf(m, Scale(e, 360), pe + 1424) && TWO62 <= m < TWO63
    requires pe > 2045 || (pe == 2045 && m + 512 >= TWO63)
    ensures NearestEven(InMagnitudeUnits(e), INF_BITS)
  {
    var k := 4 * FRAC - 1;
    assert Magnitude(INF_BITS - 1) + Magnitude(INF_BITS) == Scale(k, 2045) by {
      MagnitudeOfParts(2045, 2 * FRAC);
      MagnitudeOfParts(2045, 2 * FRAC - 1);
      ScaleSum(2 * FRAC, 2 * FRAC - 1, 2045);
    }
    var v := InMagnitudeUnits(e);
    assert Scale(k, 2045) as real <= 2.0 * v by {
      if pe == 2045 {
        HalfwayCompare(m, e, 2045, k);
      } else {
        HalfwayCompare(m, e, pe, 2 * FRAC);
        ScaleCompose(2 * FRAC, 1, pe - 1);
        ScaleGrows(4 * FRAC, 2045, pe - 1);
        ScaleOrder(k, 4 * FRAC, 2045);
      }
    }
    assert v >= 0.0 by { ScaleSign(1, 1074); }
    NearestFromMidpoints(v, INF_BITS);
  }

  /** Overflow, denormalisation, and the final rounding. */
  method Round(ps: u64, pe0: int, m0: u64, ghost e: nat) returns (r: u64)
    requires ps <= 1 && Scale(e, 360) >= 0 && Normalised(m0, pe0, Scale(e, 360))
    ensures Negative(r) <==> ps == 1
    ensures e == 0 ==> IsZero(r)
    ensures e > 0 ==> NearestEven(InMagnitudeUnits(e), Abs(r))
  {
    var m, pe := m0, pe0;
    ScaleSign(e, 360);
    HighBit(Add(m, 512));
    if pe > 1022 + BIAS || (pe == 1022 + BIAS && Shr(Add(m, 512), 63) == 1) {
      assert NearestEven(InMagnitudeUnits(e), INF_BITS) by { OverflowIsNearest(m, e, pe); }
      SignWord(ps);
      return Or(Shl(ps, 63), INF_BITS);
    }
    if pe < 0 {
      var n := -pe;
      StickyWord(m, n);
      Denormalise(m, n, e);
      m := Or(Shr(m, n), Nonzero(And(m, Sub(Shl(1, n), 1))));
      pe := 0;
    }
    r := Pack(ps, pe, m, e);
  }

  method Pack(ps: u64, pe0: nat, m0: u64, ghost e: nat) returns (r: u64)
    requires ps <= 1 && pe0 <= 2045 && m0 < TWO63 && (pe0 == 2045 ==> m0 + 512 < TWO63)
    requires if e == 0 then m0 == 0
             else StickyOf(m0, Scale(e, 360), pe0 + 1424) && (TWO62 <= m0 || pe0 == 0)
    ensures Negative(r) <==> ps == 1
    ensures e == 0 ==> IsZero(r)
    ensures e > 0 ==> NearestEven(InMagnitudeUnits(e), Abs(r))
  {
    var m, pe := m0, pe0;
    RoundingWord(m);
    if e > 0 { RoundedIsNearest(m, e, pe, RoundedTenBits(m)); }
    m := And(Shr(Add(m, 512), 10), Not(Zero(Xor(And(m, 1023), 512))));
    if Nonzero(m) == 0 {
      pe := 0;  // pe &= -int32(nonzero(m))
    }
    PackWord(ps, pe, m);
    r := Add(Add(Shl(ps, 63), Shl(pe, 52)), m);
  }

  lemma SignWord(ps: u64)
    requires ps <= 1
    ensures Shl(ps, 63) == 0x8000_0000_0000_0000 * ps
    ensures var inf := Or(Shl(ps, 63), INF_BITS);
      inf < TWO64 && Abs(inf) == INF_BITS && (Negative(inf) <==> ps == 1)
  {
    Scale64(ps);
    Scale64(1);
    OrDisjoint(ps, 63, INF_BITS);
    var inf := Or(Shl(ps, 63), INF_BITS);
    assert inf == 0x8000_0000_0000_0000 * ps + INF_BITS;
  }

  lemma Denormalise(m: u64, n: nat, e: nat)
    requires 0 < n <= 1254 && m < TWO63 && StickyOf(m, Scale(e, 360), 1424 - n)
    ensures 0 <= Sticky(m, n) < TWO63 && (m == 0 ==> Sticky(m, n) == 0)
    ensures StickyOf(Sticky(m, n), Scale(e, 360), 1424)
  {
    ScaleGrows(TWO63, 0, n);
    StickyBounds(m, n, TWO63);
    StickyIsStickyOf(m, n);
    StickyCompose(Sticky(m, n), m, n, Scale(e, 360), 1424 - n);
    if m == 0 { StickyZero(m, n); }
  }

  lemma PackWord(ps: u64, pe: nat, m: u64)
    requires ps <= 1 && pe <= 2045 && m <= 2 * FRAC && pe * FRAC + m <= INF_BITS
    ensures var r := Add(Add(Shl(ps, 63), Shl(pe, 52)), m);
      Abs(r) == pe * FRAC + m && (Negative(r) <==> ps == 1)
  {
    SignWord(ps);
    Scale52(pe);
    AddFields(Shl(ps, 63), Shl(pe, 52), m);
  }

  lemma AddFields(a: u64, b: u64, m: u64)
    requires a + b + m < TWO64
    ensures Add(Add(a, b), m) == a + b + m
  {
  }

  /** math.FMA (fma.go:95-170) for finite nonzero x and y and nonzero z. */
  method FMA(x: u64, y: u64, z: u64) returns (r: u64)
    requires Finite(x) && !IsZero(x) && Finite(y) && !IsZero(y) && !IsZero(z)
    ensures !Finite(z) ==> r == z
    ensures Finite(z) ==>
      var e := Exact(x, y, z);
      && (e != 0 ==> (Negative(r) <==> e < 0) && NearestEven(InMagnitudeUnits(e), Abs(r)))
      && (e == 0 ==> IsZero(r) && (Negative(r) <==> Value(x) * Value(y) < 0))
  {
    if !Finite(z) {
      return z;
    }
    ghost var e := Exact(x, y, z);
    ghost var vp, vz := Scale(Value(x) * Value(y), 360), Scale(Scale(Value(z), 1074), 360);
    ExactScaled(x, y, z);
    var p := Product(x, y);
    var t := Addend(z);
    var ps, pe, m := Combine(p, t, vp, vz);
    r := Round(ps, pe, m, AbsInt(e));
  }

  lemma ExactScaled(x: u64, y: u64, z: u64)
    requires Finite(x) && Finite(y) && Finite(z)
    ensures var e := Exact(x, y, z);
      var v := Scale(Value(x) * Value(y), 360) + Scale(Scale(Value(z), 1074), 360);
      && v == Scale(e, 360)
      && AbsInt(v) == Scale(AbsInt(e), 360)
      && (v < 0 <==> e < 0) && (v == 0 <==> e == 0)
  {
    var e := Exact(x, y, z);
    ScaleSum(Value(x) * Value(y), Scale(Value(z), 1074), 360);
    ScaleNeg(e, 360);
    ScaleSign(e, 360);
    ScaleSign(-e, 360);
  }

  /** The pattern of 1. */
  const ONE: nat := 0x3FF0_0000_0000_0000

  lemma MagnitudeOfOne(n: nat)
    requires n == 1074
    ensures Magnitude(ONE) == Scale(1, n)
  {
    MagnitudeOfFields(1023, 0);
    Scale52(1);
    ScaleCompose(1, 52, 1022);
  }

  /** (-1)*1 + 1 cancels exactly, and the result is the zero with a minus sign. */
  method CancelOne() returns (r: u64)
    ensures IsZero(r) && Negative(r)
  {
    OnesCancel(1074);
    r := FMA(SIGN_BIT + ONE, ONE, ONE);
  }

  lemma OnesCancel(n: nat)
    requires n == 1074
    ensures Exact(SIGN_BIT + ONE, ONE, ONE) == 0 && Value(SIGN_BIT + ONE) * Value(ONE) < 0
  {
    var m: int := Magnitude(ONE);
    MagnitudeOfOne(n);
    ScaleSign(1, n);
    ScaleMul(m, 1, n);
    SquareIsPositive(m);
    assert Value(SIGN_BIT + ONE) == -m && Value(ONE) == m;
  }

  lemma SquareIsPositive(m: int)
    requires m > 0
    ensures -m * m < 0 && (-m) * m == -(m * m) && m * 1 == m
  {
  }
}
