/** math.sqrt: the portable square root of src/math/sqrt.go.  Words are
    naturals below 2^64 and every wrapping operation is written out, so the
    proof also shows that none of them wraps. */
module Sqrt {
  import opened Dyadic
  import opened Words
  import opened Float64

  const TWO53: nat := 0x20_0000_0000_0000
  const TWO54: nat := 0x40_0000_0000_0000

  /** x in the unit of a squared magnitude: magnitudes are multiples of
      2^-1074, so their squares are multiples of 2^-2148. */
  function InSquaredUnits(x: nat): nat
    requires x <= INF_BITS
  {
    ScaleSign(Magnitude(x), 1074);
    Scale(Magnitude(x), 1074)
  }

  /** Twice the midpoint of r and its successor. */
  function TwiceMidpoint(r: nat): nat
    requires r < INF_BITS
  {
    Magnitude(r) + Magnitude(r + 1)
  }

  /** r is the pattern nearest to the square root of x, and no midpoint
      between two patterns is that root: both comparisons are strict. */
  ghost predicate RootOf(x: nat, r: nat)
    requires x < INF_BITS
  {
    && 0 < r < INF_BITS
    && TwiceMidpoint(r - 1) * TwiceMidpoint(r - 1) < 4 * InSquaredUnits(x)
    && 4 * InSquaredUnits(x) < TwiceMidpoint(r) * TwiceMidpoint(r)
  }

  /** What RootOf means for the real square root: r is its roundTiesToEven. */
  lemma RootOfIsNearest(x: nat, r: nat, v: real)
    requires x < INF_BITS && RootOf(x, r)
    requires v >= 0.0 && v * v == InSquaredUnits(x) as real
    ensures NearestEven(v, r)
  {
    assert TwiceMidpoint(r - 1) as real < 2.0 * v by {
      CompareRoots(TwiceMidpoint(r - 1), InSquaredUnits(x), v);
    }
    assert 2.0 * v < TwiceMidpoint(r) as real by {
      CompareRoots(TwiceMidpoint(r), InSquaredUnits(x), v);
    }
    NearestFromMidpoints(v, r);
  }

  lemma CompareRoots(m: nat, t: nat, v: real)
    requires v >= 0.0 && v * v == t as real
    ensures m * m < 4 * t ==> m as real < 2.0 * v
    ensures 4 * t < m * m ==> 2.0 * v < m as real
  {
    var mr, w := m as real, 2.0 * v;
    assert w * w == (4 * t) as real;
    assert (m * m) as real == mr * mr;
    SquareMonotone(mr, w);
    SquareMonotone(w, mr);
  }

  lemma SquareMonotone(a: real, b: real)
    requires a >= 0.0 && b >= 0.0
    ensures a <= b ==> a * a <= b * b
  {
    if a <= b {
      assert a * a <= a * b;
      assert a * b <= b * b;
    }
  }

  // ----- normalisation (sqrt.go:107-119)

  /** The loop that shifts a subnormal fraction up to the implicit bit. */
  method NormalizeSubnormal(x: u64) returns (ix: u64, exp: int)
    requires 0 < x < FRAC
    ensures FRAC <= ix < 2 * FRAC && -52 <= exp <= 0
    ensures Scale(ix, exp + 52) == Scale(x, 52)
  {
    ix := x;
    exp := 0;
    Scale52(x);
    Bit52(ix);
    while Shr(ix, 52) % 2 == 0
      invariant 0 < ix < 2 * FRAC && -52 <= exp <= 0
      invariant Shr(ix, 52) == if ix < FRAC then 0 else 1
      invariant Scale(ix, exp + 52) == Scale(x, 52)
      decreases 2 * FRAC - ix
    {
      assert exp > -52;
      ScaleCompose(ix, 1, exp + 51);
      ix := Shl(ix, 1);
      exp := exp - 1;
      Bit52(ix);
    }
  }

  lemma Bit52(ix: u64)
    requires ix < 2 * FRAC
    ensures Shr(ix, 52) == if ix < FRAC then 0 else 1
  {
    Scale52(0);
    Scale52(1);
    Scale52(2);
    FloorUnique(ix, 52, if ix < FRAC then 0 else 1);
  }

  /** The positive finite x as a 53-bit significand and an unbiased exponent. */
  method Normalize(x: u64) returns (ix: u64, exp: int)
    requires 0 < x < INF_BITS
    ensures FRAC <= ix < 2 * FRAC
    ensures -1074 <= exp <= 1023
    ensures Scale(Magnitude(x), 52) == Scale(ix, exp + 1074)
  {
    ix := x;
    ExponentField(x);
    exp := Shr(ix, 52) % (MASK + 1);
    if exp == 0 {
      ix, exp := NormalizeSubnormal(x);
      exp := exp + 1;
    } else {
      NormalMagnitude(x, exp);
    }
    exp := exp - BIAS;
    SetImplicitBit(ix);
    ix := And(ix, Not(Shl(MASK, 52)));
    ix := Or(FRAC, ix);
  }

  lemma SetImplicitBit(ix: u64)
    requires ix < SIGN_BIT
    ensures And(ix, Not(Shl(MASK, 52))) < FRAC
    ensures Or(FRAC, And(ix, Not(Shl(MASK, 52)))) == FRAC + ix % FRAC
  {
    ClearExponent(ix);
    Scale52(1);
    OrDisjoint(1, 52, ix % FRAC);
  }

  lemma NormalMagnitude(x: nat, e: nat)
    requires x < INF_BITS && e == x / FRAC > 0
    ensures Scale(Magnitude(x), 52) == Scale(FRAC + x % FRAC, e + 51)
  {
    MagnitudeOfFields(e, x % FRAC);
    ScaleCompose(FRAC + x % FRAC, e - 1, 52);
  }

  lemma ExponentField(x: u64)
    requires x < INF_BITS
    ensures Shr(x, 52) == x / FRAC < MASK
  {
    var e := x / FRAC;
    Scale52(e);
    Scale52(e + 1);
    FloorUnique(x, 52, e);
  }

  /** Clearing the exponent field leaves the fraction. */
  lemma ClearExponent(ix: u64)
    requires ix < SIGN_BIT
    ensures And(ix, Not(Shl(MASK, 52))) == ix % FRAC
  {
    var f, e := ix % FRAC, ix / FRAC;
    Scale10(1);
    Scale52(1);
    Scale52(MASK);
    Scale52(0x800);
    Scale52(e);
    assert Not(Shl(MASK, 52)) == Scale(0x800, 52) + (FRAC - 1);
    FloorOfSum(e, 52, f);
    AndSplit(ix, 0x800, FRAC - 1, 52);
    AndHighBit(e, 11);
    Scale52(0);
    AndMask(f, 52);
    FloorOfSum(0, 52, f);
  }

  // ----- digit-by-digit root (sqrt.go:124-137)

  /** One trial bit r: with p * r == 2^53 and the remainder kept in ix, the
      test t <= ix decides whether (q + r)^2 still fits under n. */
  lemma TrialBit(n: nat, q: nat, r: nat, ix: nat, p: nat)
    requires p * r == TWO53 && r > 0 && p > 0
    requires ix * TWO53 == p * (n - q * q)
    ensures 2 * q + r <= ix <==> (q + r) * (q + r) <= n
    ensures (ix - (2 * q + r)) * TWO53 == p * (n - (q + r) * (q + r))
  {
    assert (q + r) * (q + r) == q * q + (2 * q + r) * r;
    var d := (2 * q + r) * r;
    assert (2 * q + r) * TWO53 == p * d by {
      assert (2 * q + r) * (p * r) == p * ((2 * q + r) * r);
    }
    assert p * (n - q * q) - p * d == p * (n - q * q - d);
    var e := n - q * q - d;
    assert p * e >= 0 <==> e >= 0;
  }

  /** The remainder stays far below the word size. */
  lemma RemainderFits(n: nat, q: nat, r: nat, ix: nat, p: nat)
    requires p * r == TWO53 && r > 0 && p > 0
    requires ix * TWO53 == p * (n - q * q)
    requires n < (q + 2 * r) * (q + 2 * r)
    ensures ix <= 4 * (q + r)
  {
    assert (q + 2 * r) * (q + 2 * r) == q * q + (4 * (q + r)) * r;
    var m := (4 * (q + r)) * r;
    MulMono(n - q * q, m, p);
    assert m * p == (4 * (q + r)) * TWO53 by {
      assert ((4 * (q + r)) * r) * p == (4 * (q + r)) * (p * r);
    }
  }

  /** The body of the bit loop, on words: none of the operations wraps. */
  method TrialStep(q: u64, s: u64, ix: u64, r: u64) returns (q': u64, s': u64, ix': u64)
    requires s == 2 * q && q < TWO54 && r <= TWO53 && ix <= 4 * (q + r)
    ensures s' == 2 * q'
    ensures if 2 * q + r <= ix
            then q' == q + r && ix' == 2 * (ix - (2 * q + r))
            else q' == q && ix' == 2 * ix
  {
    q', s', ix' := q, s, ix;
    var t := Add(s, r);
    assert t == s + r;
    if t <= ix {
      s' := Add(t, r);
      ix' := Sub(ix, t);
      q' := Add(q, r);
    }
    ShlOne(ix');
    ix' := Shl(ix', 1);
  }

  /** The bit loop: q is the integer square root of x * 2^53 and the remainder
      left in ix is zero exactly when x * 2^53 is a square. */
  method RootBits(x: u64) returns (q: u64, ix: u64)
    requires TWO53 <= x < 4 * TWO53
    ensures q * q <= x * TWO53 < (q + 1) * (q + 1)
    ensures ix == 0 <==> q * q == x * TWO53
  {
    ix := x;
    q := 0;
    var s: u64 := 0;
    var r: u64 := TWO53;
    ghost var n, k, p := x * TWO53, 0, 1;
    Scale52(1);
    while r != 0
      invariant 0 <= k <= 54 && p == Scale(1, k)
      invariant r == if k <= 53 then Scale(1, 53 - k) else 0
      invariant s == 2 * q
      invariant q * q <= n && q < TWO54
      invariant n < (q + Scale(1, 54 - k)) * (q + Scale(1, 54 - k))
      invariant ix * TWO53 == p * (n - q * q)
      decreases r
    {
      BitStep(n, q, ix, k);
      q, s, ix := TrialStep(q, s, ix, r);
      ShrOne(r);
      r := Shr(r, 1);
      k, p := k + 1, 2 * p;
    }
  }

  /** Both outcomes of one step re-establish the loop invariant. */
  lemma BitStep(n: nat, q: nat, ix: nat, k: nat)
    requires k <= 53 && q * q <= n < TWO54 * TWO54 && q < TWO54
    requires n < (q + Scale(1, 54 - k)) * (q + Scale(1, 54 - k))
    requires ix * TWO53 == Scale(1, k) * (n - q * q)
    ensures var r := Scale(1, 53 - k);
      && r <= TWO53 && ix <= 4 * (q + r)
      && if 2 * q + r <= ix
         then && (q + r) * (q + r) <= n < (q + r + r) * (q + r + r) && q + r < TWO54
              && 2 * (ix - (2 * q + r)) * TWO53 == (2 * Scale(1, k)) * (n - (q + r) * (q + r))
         else && n < (q + r) * (q + r)
              && 2 * ix * TWO53 == (2 * Scale(1, k)) * (n - q * q)
  {
    var r, p := Scale(1, 53 - k), Scale(1, k);
    ScaleSign(1, k);
    ScaleSign(1, 53 - k);
    assert p * r == TWO53 by { ScaleMulScale(1, k, 1, 53 - k); Scale52(1); }
    assert r <= TWO53 by { ScaleGrows(1, 53 - k, 53); Scale52(1); }
    RemainderFits(n, q, r, ix, p);
    TrialBit(n, q, r, ix, p);
    if 2 * q + r <= ix {
      BelowTwo54(q + r, n);
      MulAssociative(2, p, n - (q + r) * (q + r));
    } else {
      MulAssociative(2, p, n - q * q);
    }
  }

  lemma BelowTwo54(q: nat, n: nat)
    requires q * q <= n < TWO54 * TWO54
    ensures q < TWO54
  {
    if q >= TWO54 {
      MulMono(TWO54, q, TWO54);
      MulMono(TWO54, q, q);
    }
  }

  // ----- final rounding (sqrt.go:138-142)

  /** n is even and not the square of an odd number, so the last bit of q never
      marks a tie; and q is too small for the rounding to carry out of the
      significand. */
  lemma RoundedRoot(m: nat, q: nat)
    requires FRAC <= m <= 4 * FRAC - 2
    requires q * q <= m * TWO54 < (q + 1) * (q + 1)
    ensures q % 2 == 1 ==> q * q != m * TWO54
    ensures TWO53 <= q <= TWO54 - 2
  {
    if q % 2 == 1 {
      assert q * q == 2 * (2 * (q / 2) * (q / 2) + 2 * (q / 2)) + 1;
    }
    if q < TWO53 {
      MulMono(q + 1, TWO53, q + 1);
      MulMono(q + 1, TWO53, TWO53);
    }
    if q > TWO54 - 2 {
      MulMono(TWO54 - 1, q, TWO54 - 1);
      MulMono(TWO54 - 1, q, q);
    }
  }

  /** The significand sig is the nearest integer to half the root of
      n = m * 2^54; scaled by 2^e this is RootOf for the assembled pattern. */
  lemma AssembledRoot(x: nat, m: nat, e: int, sig: nat)
    requires x < INF_BITS && -537 <= e <= 511
    requires FRAC <= sig < 2 * FRAC
    requires Scale(Magnitude(x), 52) == Scale(m, 2 * e + 1074)
    requires (2 * sig - 1) * (2 * sig - 1) < m * TWO54 < (2 * sig + 1) * (2 * sig + 1)
    requires sig == FRAC ==> (2 * sig) * (2 * sig) <= m * TWO54
    ensures RootOf(x, (e + 1022) * FRAC + sig)
  {
    var pe: nat := e + 1022;
    var r := pe * FRAC + sig;
    var n := m * TWO54;
    assert 4 * InSquaredUnits(x) == Scale(n, 2 * pe) by { SquaredScale(x, m, e); }
    assert Magnitude(r) == Scale(sig, pe) by { MagnitudeOfParts(pe, sig); }
    assert TwiceMidpoint(r) == Scale(2 * sig + 1, pe) by {
      MagnitudeOfParts(pe, sig + 1);
      ScaleSum(sig, sig + 1, pe);
    }
    SquareOfScale(2 * sig + 1, pe, n);
    if sig > FRAC {
      assert TwiceMidpoint(r - 1) == Scale(2 * sig - 1, pe) by {
        MagnitudeOfParts(pe, sig - 1);
        ScaleSum(sig, sig - 1, pe);
      }
      SquareOfScale(2 * sig - 1, pe, n);
    } else {
      assert TwiceMidpoint(r - 1) < Scale(2 * sig, pe) by {
        MagnitudeStep(r - 1);
        ScaleSum(sig, sig, pe);
      }
      BelowSquareOfScale(TwiceMidpoint(r - 1), 2 * sig, pe, n);
    }
  }

  lemma SquaredScale(x: nat, m: nat, e: int)
    requires x < INF_BITS && -537 <= e <= 511
    requires Scale(Magnitude(x), 52) == Scale(m, 2 * e + 1074)
    ensures 4 * InSquaredUnits(x) == Scale(m * TWO54, 2 * (e + 1022))
  {
    ScaleCompose(Magnitude(x), 52, 1022);
    ScaleCompose(m, 2 * e + 1074, 1022);
    ScaleCompose(m, 54, 2 * e + 2042);
    Scale52(m);
    assert Scale(m * TWO54, 2 * e + 2044) == 4 * Scale(m * TWO54, 2 * e + 2042);
  }

  lemma SquareOfScale(a: nat, k: nat, n: nat)
    ensures a * a < n <==> Scale(a, k) * Scale(a, k) < Scale(n, 2 * k)
    ensures n < a * a <==> Scale(n, 2 * k) < Scale(a, k) * Scale(a, k)
  {
    ScaleMulScale(a, k, a, k);
    ScaleOrder(a * a, n, 2 * k);
    ScaleOrder(n, a * a, 2 * k);
  }

  lemma BelowSquareOfScale(b: nat, a: nat, k: nat, n: nat)
    requires b < Scale(a, k) && a * a <= n
    ensures b * b < Scale(n, 2 * k)
  {
    ScaleMulScale(a, k, a, k);
    ScaleOrder(n, a * a, 2 * k);
    MulMono(b, Scale(a, k), b);
    MulStrict(b, Scale(a, k), Scale(a, k));
  }

  /** After the final rounding, q/2 is the nearest integer to half the root. */
  lemma HalfOfRounded(m: nat, q0: nat, q: nat)
    requires TWO53 <= q0 <= TWO54 - 2
    requires q0 * q0 <= m * TWO54 < (q0 + 1) * (q0 + 1)
    requires q0 % 2 == 1 ==> q0 * q0 != m * TWO54
    requires q == if q0 * q0 == m * TWO54 then q0 else q0 + q0 % 2
    ensures q % 2 == 0 && FRAC <= q / 2 < 2 * FRAC
    ensures (q - 1) * (q - 1) < m * TWO54 < (q + 1) * (q + 1)
    ensures q == 2 * FRAC ==> q * q <= m * TWO54
  {
    if q == q0 {
      MulStrict(q0 - 1, q0, q0);
      MulMono(q0 - 1, q0, q0 - 1);
    } else {
      MulMono(q0 + 1, q0 + 2, q0 + 1);
      MulMono(q0 + 1, q0 + 2, q0 + 2);
    }
  }

  /** The general case of sqrt (sqrt.go:107-143). */
  method SqrtPositive(x: u64) returns (r: u64)
    requires 0 < x < INF_BITS
    ensures RootOf(x, r)
  {
    var ix, exp := Normalize(x);
    var half := (exp - exp % 2) / 2;  // arithmetic shift right
    DoubledSignificand(x, ix, exp);
    if exp % 2 == 1 {
      ix := Shl(ix, 1);
    }
    exp := half;
    ghost var m := ix;
    ShlOne(ix);
    ix := Shl(ix, 1);
    var q;
    q, ix := RootBits(ix);
    r := RoundRoot(x, m, exp, q, ix);
  }

  /** Rounding on the extra bit of q and assembling the pattern (sqrt.go:138-142). */
  method RoundRoot(ghost x: nat, ghost m: nat, exp: int, q: u64, ix: u64) returns (r: u64)
    requires x < INF_BITS && -537 <= exp <= 511
    requires FRAC <= m <= 4 * FRAC - 2
    requires Scale(Magnitude(x), 52) == Scale(m, 2 * exp + 1074)
    requires q * q <= m * TWO54 < (q + 1) * (q + 1)
    requires ix == 0 <==> q * q == m * TWO54
    ensures RootOf(x, r)
  {
    RoundedRoot(m, q);
    AndOne(q);
    var q' := q;
    if ix != 0 {
      q' := Add(q, And(q, 1));
    }
    HalfOfRounded(m, q, q');
    AssembledRoot(x, m, exp, q' / 2);
    AssembleWord(q', exp);
    r := Add(Shr(q', 1), Shl(exp - 1 + BIAS, 52));
  }

  lemma AssembleWord(q: u64, exp: int)
    requires q % 2 == 0 && FRAC <= q / 2 < 2 * FRAC && -537 <= exp <= 511
    ensures Add(Shr(q, 1), Shl(exp - 1 + BIAS, 52)) == (exp + 1022) * FRAC + q / 2
  {
    Scale52(exp + 1022);
    ShrOne(q);
  }

  /** Doubling the significand of an odd exponent makes the exponent even. */
  lemma DoubledSignificand(x: nat, ix: u64, exp: int)
    requires 0 < x < INF_BITS && FRAC <= ix < 2 * FRAC && -1074 <= exp <= 1023
    requires Scale(Magnitude(x), 52) == Scale(ix, exp + 1074)
    ensures var m := if exp % 2 == 1 then Shl(ix, 1) else ix;
      && FRAC <= m <= 4 * FRAC - 2
      && Scale(Magnitude(x), 52) == Scale(m, 2 * ((exp - exp % 2) / 2) + 1074)
  {
    if exp % 2 == 1 {
      ShlOne(ix);
      ScaleCompose(ix, 1, exp + 1073);
    }
  }

  /** math.sqrt (sqrt.go:99-144). */
  method Sqrt(x: u64) returns (r: u64)
    ensures IsZero(x) || IsNaN(x) || x == INF_BITS ==> r == x
    ensures !IsZero(x) && !IsNaN(x) && Negative(x) ==> r == NAN_BITS
    ensures 0 < x < INF_BITS ==> RootOf(x, r)
    ensures 0 < x < INF_BITS ==>
      forall v: real :: v >= 0.0 && v * v == InSquaredUnits(x) as real ==> NearestEven(v, r)
  {
    if IsZero(x) || IsNaN(x) || x == INF_BITS {
      return x;
    }
    if Negative(x) {
      return NAN_BITS;
    }
    r := SqrtPositive(x);
    forall v: real | v >= 0.0 && v * v == InSquaredUnits(x) as real
      ensures NearestEven(v, r)
    {
      RootOfIsNearest(x, r, v);
    }
  }
}
