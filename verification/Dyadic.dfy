/** Multiplication and floor division by powers of two, defined by doubling
    and halving so that reasoning about them stays linear. */
module Dyadic {

  /** m * 2^n */
  function Scale(m: int, n: nat): int {
    if n == 0 then m else 2 * Scale(m, n - 1)
  }

  /** floor(m / 2^n) */
  function Floor(m: int, n: nat): int
    decreases n, m
  {
    if n == 0 then m else Floor(m / 2, n - 1)
  }

  /** m mod 2^n */
  function Low(m: int, n: nat): int {
    m - Scale(Floor(m, n), n)
  }

  lemma {:induction false} ScaleSum(a: int, b: int, n: nat)
    ensures Scale(a + b, n) == Scale(a, n) + Scale(b, n)
  {
    if n > 0 { ScaleSum(a, b, n - 1); }
  }

  lemma {:induction false} ScaleNeg(a: int, n: nat)
    ensures Scale(-a, n) == -Scale(a, n)
  {
    if n > 0 { ScaleNeg(a, n - 1); }
  }

  lemma {:induction false} ScaleCompose(m: int, a: nat, b: nat)
    ensures Scale(Scale(m, a), b) == Scale(m, a + b)
  {
    if b > 0 { ScaleCompose(m, a, b - 1); }
  }

  lemma {:induction false} ScaleOrder(a: int, b: int, n: nat)
    ensures a < b <==> Scale(a, n) < Scale(b, n)
    ensures a == b <==> Scale(a, n) == Scale(b, n)
  {
    if n > 0 { ScaleOrder(a, b, n - 1); }
  }

  lemma {:induction false} ScaleSign(m: int, n: nat)
    ensures m >= 0 ==> Scale(m, n) >= m
    ensures m > 0 <==> Scale(m, n) > 0
    ensures m == 0 <==> Scale(m, n) == 0
  {
    if n > 0 { ScaleSign(m, n - 1); }
  }

  lemma {:induction false} ScaleGrows(m: nat, a: nat, b: nat)
    requires a <= b
    ensures Scale(m, a) <= Scale(m, b)
  {
    if a < b {
      ScaleGrows(m, a, b - 1);
      ScaleSign(m, b - 1);
    }
  }

  lemma {:induction false} ScaleMul(a: int, b: int, n: nat)
    ensures Scale(a, n) * b == Scale(a * b, n)
    ensures a * Scale(b, n) == Scale(a * b, n)
  {
    if n > 0 {
      ScaleMul(a, b, n - 1);
      MulDouble(Scale(a, n - 1), b);
      MulDouble(Scale(b, n - 1), a);
    }
  }

  lemma MulDouble(s: int, b: int)
    ensures (2 * s) * b == 2 * (s * b)
    ensures b * (2 * s) == 2 * (b * s)
  {
  }

  lemma ScaleMulScale(a: int, i: nat, b: int, j: nat)
    ensures Scale(a, i) * Scale(b, j) == Scale(a * b, i + j)
  {
    ScaleMul(Scale(a, i), b, j);
    ScaleMul(a, b, i);
    ScaleCompose(a * b, i, j);
  }

  lemma ScaleEven(m: int, n: nat)
    requires n > 0
    ensures Scale(m, n) % 2 == 0
  {
  }

  /** m lies in [k * 2^n, (k+1) * 2^n) exactly for k = Floor(m, n). */
  lemma {:induction false} FloorBounds(m: int, n: nat)
    ensures Scale(Floor(m, n), n) <= m < Scale(Floor(m, n) + 1, n)
    ensures 0 <= Low(m, n) < Scale(1, n)
    ensures m >= 0 ==> 0 <= Floor(m, n) <= m
    decreases n
  {
    if n > 0 { FloorBounds(m / 2, n - 1); }
    ScaleSum(Floor(m, n), 1, n);
  }

  lemma FloorUnique(m: int, n: nat, k: int)
    requires Scale(k, n) <= m < Scale(k + 1, n)
    ensures Floor(m, n) == k
  {
    FloorBounds(m, n);
    var f := Floor(m, n);
    ScaleOrder(k, f + 1, n);
    ScaleOrder(f, k + 1, n);
  }

  lemma FloorOfSum(k: int, n: nat, l: int)
    requires 0 <= l < Scale(1, n)
    ensures Floor(Scale(k, n) + l, n) == k && Low(Scale(k, n) + l, n) == l
  {
    ScaleSum(k, 1, n);
    FloorUnique(Scale(k, n) + l, n, k);
  }

  lemma FloorOfSmall(m: int, n: nat)
    requires 0 <= m < Scale(1, n)
    ensures Floor(m, n) == 0 && Low(m, n) == m
  {
    ScaleSign(0, n);
    FloorUnique(m, n, 0);
  }

  lemma {:induction false} FloorCompose(m: int, a: nat, b: nat)
    ensures Floor(Floor(m, a), b) == Floor(m, a + b)
    decreases a
  {
    if a > 0 { FloorCompose(m / 2, a - 1, b); }
  }

  /** The word constants, as multiplications by literals. */
  lemma Scale10(m: int)
    ensures Scale(m, 9) == 0x200 * m && Scale(m, 10) == 0x400 * m && Scale(m, 11) == 0x800 * m
  {
    assert Scale(m, 1) == 2 * m;
    assert Scale(m, 3) == 4 * Scale(m, 1);
    assert Scale(m, 5) == 4 * Scale(m, 3);
    assert Scale(m, 7) == 4 * Scale(m, 5);
    assert Scale(m, 9) == 4 * Scale(m, 7);
  }

  lemma Scale26(m: int)
    ensures Scale(m, 26) == 0x400_0000 * m
  {
    Scale10(m);
    Scale10(Scale(m, 10));
    ScaleCompose(m, 10, 10);
    assert Scale(m, 22) == 4 * Scale(m, 20);
    assert Scale(m, 24) == 4 * Scale(m, 22);
    assert Scale(m, 26) == 4 * Scale(m, 24);
  }

  lemma Scale52(m: int)
    ensures Scale(m, 52) == 0x10_0000_0000_0000 * m
    ensures Scale(m, 53) == 0x20_0000_0000_0000 * m
    ensures Scale(m, 54) == 0x40_0000_0000_0000 * m
  {
    Scale26(m);
    Scale26(Scale(m, 26));
    ScaleCompose(m, 26, 26);
  }

  lemma Scale64(m: int)
    ensures Scale(m, 62) == 0x4000_0000_0000_0000 * m
    ensures Scale(m, 63) == 0x8000_0000_0000_0000 * m
    ensures Scale(m, 64) == 0x1_0000_0000_0000_0000 * m
  {
    Scale52(m);
    Scale10(Scale(m, 52));
    ScaleCompose(m, 52, 10);
  }

  // ----- two facts about products

  lemma MulMono(a: int, b: int, c: int)
    requires a <= b && c >= 0
    ensures a * c <= b * c
  {
  }

  lemma MulStrict(a: int, b: int, c: int)
    requires a < b && c > 0
    ensures a * c < b * c
  {
  }

  lemma MulAssociative(a: int, b: int, c: int)
    ensures (a * b) * c == a * (b * c)
  {
  }
}
