/** Sticky shifts: dividing by a power of two while remembering, in the last
    bit, whether anything was lost. */
module StickyShift {
  import opened Dyadic

  /** The low n + 1 bits of x compressed into one: x >> n with the or of the
      lost bits in bit 0. */
  function Sticky(x: int, n: nat): int {
    var f := Floor(x, n);
    if Low(x, n) == 0 || f % 2 == 1 then f else f + 1
  }

  /** a stands for r / 2^n as far as comparisons with even integers go: either
      exactly, or a is odd and r / 2^n lies strictly between its neighbours. */
  predicate StickyOf(a: int, r: int, n: nat) {
    || Scale(a, n) == r
    || (a % 2 == 1 && Scale(a - 1, n) < r < Scale(a + 1, n))
  }

  /** The purpose of the sticky bit: every comparison of r / 2^n with an even
      integer, hence every later rounding, can be decided on a alone. */
  lemma StickyCompare(a: int, r: int, n: nat, t: int)
    requires StickyOf(a, r, n) && t % 2 == 0
    ensures a < t <==> r < Scale(t, n)
    ensures a == t <==> r == Scale(t, n)
  {
    ScaleOrder(a, t, n);
    ScaleOrder(t, a, n);
    if a % 2 == 1 {
      ScaleOrder(a - 1, t, n);
      ScaleOrder(t, a - 1, n);
      ScaleOrder(a + 1, t, n);
      ScaleOrder(t, a + 1, n);
    }
  }

  lemma StickyIsStickyOf(x: int, n: nat)
    ensures StickyOf(Sticky(x, n), x, n)
  {
    var f := Floor(x, n);
    FloorBounds(x, n);
    if Low(x, n) != 0 {
      ScaleOrder(f - 1, f, n);
      ScaleOrder(f + 1, f + 2, n);
    }
  }

  lemma StickySum(p: int, a: int, r: int, n: nat)
    requires StickyOf(a, r, n) && p % 2 == 0
    ensures StickyOf(p + a, Scale(p, n) + r, n)
    ensures StickyOf(p - a, Scale(p, n) - r, n)
  {
    StickyAdd(p, a, r, n);
    assert StickyOf(-a, -r, n) by {
      ScaleNeg(a, n);
      ScaleNeg(a - 1, n);
      ScaleNeg(a + 1, n);
    }
    StickyAdd(p, -a, -r, n);
  }

  lemma StickyAdd(p: int, a: int, r: int, n: nat)
    requires StickyOf(a, r, n) && p % 2 == 0
    ensures StickyOf(p + a, Scale(p, n) + r, n)
  {
    ScaleSum(p, a, n);
    ScaleSum(p, a - 1, n);
    ScaleSum(p, a + 1, n);
  }

  /** Only the units change when both sides are scaled. */
  lemma StickyUnits(a: int, r: int, n: nat, j: nat)
    ensures StickyOf(a, r, n) <==> StickyOf(a, Scale(r, j), n + j)
  {
    ScaleCompose(a, n, j);
    ScaleOrder(Scale(a, n), r, j);
    ScaleCompose(a - 1, n, j);
    ScaleOrder(Scale(a - 1, n), r, j);
    ScaleCompose(a + 1, n, j);
    ScaleOrder(r, Scale(a + 1, n), j);
  }

  lemma StickyCompose(b: int, a: int, k: nat, r: int, n: nat)
    requires StickyOf(b, a, k) && StickyOf(a, r, n)
    ensures StickyOf(b, r, k + n)
  {
    if Scale(a, n) == r {
      StickyUnits(b, a, k, n);
    } else if k == 0 {
      ScaleOrder(b, a, 0);
    } else if Scale(b, k) == a {
      ScaleEven(b, k);
    } else {
      ScaleCompose(b - 1, k, n);
      ScaleCompose(b + 1, k, n);
      ScaleEven(b - 1, k);
      ScaleEven(b + 1, k);
      StickyCompare(a, r, n, Scale(b - 1, k));
      StickyCompare(a, r, n, Scale(b + 1, k));
    }
  }

  /** Shifting left by k before dropping 64 bits.  An inexact a survives if k
      is smaller than the number of bits dropped. */
  lemma StickyShifted(b: int, a: int, k: nat, r: int, n: nat)
    requires StickyOf(a, r, n) && StickyOf(b, Scale(a, k), 64)
    requires Scale(a, n) == r || k < 64
    ensures StickyOf(b, Scale(r, k), 64 + n)
  {
    if Scale(a, n) == r {
      StickyUnits(b, Scale(a, k), 64, n);
      ScaleCompose(a, k, n);
      ScaleCompose(a, n, k);
    } else {
      ScaleCompose(b, 64 - k, k);
      ScaleCompose(b - 1, 64 - k, k);
      ScaleCompose(b + 1, 64 - k, k);
      ScaleOrder(Scale(b, 64 - k), a, k);
      ScaleOrder(Scale(b - 1, 64 - k), a, k);
      ScaleOrder(a, Scale(b + 1, 64 - k), k);
      assert StickyOf(b, a, 64 - k);
      StickyCompose(b, a, 64 - k, r, n);
      StickyUnits(b, r, 64 - k + n, k);
    }
  }

  lemma StickyBounds(x: int, n: nat, m: int)
    requires 0 <= x < Scale(m, n)
    ensures 0 <= Sticky(x, n) <= m
    ensures m % 2 == 0 ==> Sticky(x, n) < m
  {
    FloorBounds(x, n);
    var f := Floor(x, n);
    ScaleOrder(f, m, n);
    ScaleSign(f, n);
    ScaleOrder(0, f + 1, n);
    ScaleSign(0, n);
  }

  lemma StickyZero(x: int, n: nat)
    requires x == 0
    ensures Sticky(x, n) == 0
  {
    ScaleSign(0, n);
    ScaleSign(1, n);
    FloorUnique(0, n, 0);
  }
}
