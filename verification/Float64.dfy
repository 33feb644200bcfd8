/** IEEE 754 binary64 values as bit patterns.  Every finite magnitude is a
    natural multiple of 2^-1074, the least subnormal, so `Magnitude` gives the
    exact value in that unit.  The pattern of infinity gets the magnitude
    2^1024 it would have as a finite number, which is what clause 4.3.1 of
    IEEE 754-2008 compares with when it decides overflow. */
module Float64 {
  import opened Dyadic
  import opened Words

  const FRAC: nat := 0x10_0000_0000_0000
  const SIGN_BIT: nat := 0x8000_0000_0000_0000
  const INF_BITS: nat := 0x7FF0_0000_0000_0000
  const NAN_BITS: nat := 0x7FF8_0000_0000_0001
  const BIAS: int := 1023
  const MASK: nat := 0x7FF

  /** Subnormals and the first binade are their own magnitude; one step of the
      exponent field doubles.  MagnitudeOfFields gives the textbook form. */
  function Magnitude(b: nat): nat
    requires b <= INF_BITS
  {
    if b < 2 * FRAC then b else 2 * Magnitude(b - FRAC)
  }

  /** The pattern without its sign bit. */
  function Abs(b: u64): nat { if b < SIGN_BIT then b else b - SIGN_BIT }

  predicate Negative(b: u64) { b >= SIGN_BIT }

  predicate Finite(b: u64) { Abs(b) < INF_BITS }

  predicate IsZero(b: u64) { Abs(b) == 0 }

  predicate IsNaN(b: u64) { Abs(b) > INF_BITS }

  /** The exact value of a finite pattern, in units of 2^-1074. */
  function Value(b: u64): int
    requires Finite(b)
  {
    (if Negative(b) then -1 else 1) * Magnitude(Abs(b))
  }

  function Distance(b: nat, v: real): real
    requires b <= INF_BITS
  {
    var m := Magnitude(b) as real;
    if m <= v then v - m else m - v
  }

  /** roundTiesToEven of the non-negative v (in units of 2^-1074): b is at
      least as near to v as every other magnitude, and is the one with an even
      last bit when another is as near. */
  ghost predicate NearestEven(v: real, b: nat) {
    && b <= INF_BITS
    && forall c: nat :: c <= INF_BITS ==>
         && Distance(b, v) <= Distance(c, v)
         && (Distance(b, v) == Distance(c, v) && c != b ==> b % 2 == 0)
  }

  /** Exponent field e and fraction f denote f * 2^-1074 when e is zero and
      (1 + f / 2^52) * 2^(e - 1023) otherwise. */
  lemma MagnitudeOfFields(e: nat, f: nat)
    requires f < FRAC && e * FRAC + f <= INF_BITS
    ensures Magnitude(e * FRAC + f) == if e == 0 then f else Scale(FRAC + f, e - 1)
  {
    if e > 0 { MagnitudeOfParts(e - 1, FRAC + f); }
  }

  /** The pattern with exponent field pe + 1 (or 0) reads back as its
      significand times 2^pe, also when the significand has just carried. */
  lemma {:induction false} MagnitudeOfParts(pe: nat, sig: nat)
    requires sig <= 2 * FRAC && (FRAC <= sig || pe == 0)
    requires pe * FRAC + sig <= INF_BITS
    ensures Magnitude(pe * FRAC + sig) == Scale(sig, pe)
  {
    if pe > 0 { MagnitudeOfParts(pe - 1, sig); }
  }

  /** Consecutive patterns have increasing magnitudes. */
  lemma {:induction false} MagnitudeStep(b: nat)
    requires b < INF_BITS
    ensures Magnitude(b) < Magnitude(b + 1)
  {
    if b >= 2 * FRAC { MagnitudeStep(b - FRAC); }
  }

  lemma {:induction false} MagnitudeMonotone(a: nat, b: nat)
    requires a < b <= INF_BITS
    ensures Magnitude(a) < Magnitude(b)
    decreases b - a
  {
    MagnitudeStep(b - 1);
    if a < b - 1 {
      MagnitudeMonotone(a, b - 1);
    }
  }

  /** It is enough to compare v with the midpoints to the two neighbours. */
  lemma NearestFromMidpoints(v: real, b: nat)
    requires b <= INF_BITS && v >= 0.0
    requires b > 0 ==>
      var mid := (Magnitude(b - 1) + Magnitude(b)) as real;
      mid <= 2.0 * v && (mid == 2.0 * v ==> b % 2 == 0)
    requires b < INF_BITS ==>
      var mid := (Magnitude(b) + Magnitude(b + 1)) as real;
      2.0 * v <= mid && (mid == 2.0 * v ==> b % 2 == 0)
    ensures NearestEven(v, b)
  {
    forall c: nat | c <= INF_BITS
      ensures Distance(b, v) <= Distance(c, v)
      ensures Distance(b, v) == Distance(c, v) && c != b ==> b % 2 == 0
    {
      if c < b {
        MagnitudeStep(b - 1);
        if c < b - 1 { MagnitudeMonotone(c, b - 1); }
        assert Magnitude(c) <= Magnitude(b - 1);
      } else if c > b {
        MagnitudeStep(b);
        if c > b + 1 { MagnitudeMonotone(b + 1, c); }
        assert Magnitude(c) >= Magnitude(b + 1);
      }
    }
  }

  /** A pattern strictly between two equally distant ones is nearer than both. */
  lemma BetweenIsNearer(v: real, b: nat, c: nat)
    requires b + 1 < c <= INF_BITS && Distance(b, v) == Distance(c, v)
    ensures Distance(b + 1, v) < Distance(b, v)
  {
    MagnitudeMonotone(b, b + 1);
    MagnitudeMonotone(b + 1, c);
  }

  /** Rounding is a function: no value has two roundings. */
  lemma NearestEvenUnique(v: real, b: nat, c: nat)
    requires NearestEven(v, b) && NearestEven(v, c)
    ensures b == c
  {
    assert Distance(b, v) == Distance(c, v);
    if b + 1 < c {
      BetweenIsNearer(v, b, c);
    } else if c + 1 < b {
      BetweenIsNearer(v, c, b);
    }
  }
}
