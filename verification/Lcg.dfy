/** Linear congruential sequences modulo a power of two.

    The state of the bundled generator moves by s -> a*s + c modulo 2^64.  This module proves
    the full-period theorem for every modulus 2^k, every multiplier a with a % 4 == 1 and every
    odd increment c: the sequence meets each of the 2^k residues exactly once per period.

    The proof never divides: x(n) - x(0) is the geometric sum G(n) = 1 + a + ... + a^(n-1) times
    an odd number, and 2^k divides G(n) exactly when 2^k divides n. */
module Lcg {

  function Pow2(k: nat): (p: nat)
    ensures p > 0
  {
    if k == 0 then 1 else 2 * Pow2(k - 1)
  }

  lemma Pow2Plus8(k: nat)
    ensures Pow2(k + 8) == 0x100 * Pow2(k)
  {
    assert Pow2(k + 4) == 0x10 * Pow2(k) by {
      assert Pow2(k + 2) == 4 * Pow2(k);
    }
    assert Pow2(k + 6) == 4 * Pow2(k + 4);
  }

  /** 2^k divides x, by repeated halving. */
  ghost predicate Halves(k: nat, x: int) {
    k == 0 || (x % 2 == 0 && Halves(k - 1, x / 2))
  }

  /** The state after n steps from s. */
  ghost function Iter(a: nat, c: nat, m: nat, s: nat, n: nat): nat
    requires m > 0
  {
    if n == 0 then s else (a * Iter(a, c, m, s, n - 1) + c) % m
  }

  /** The same recurrence without reduction. */
  ghost function Affine(a: nat, c: nat, s: nat, n: nat): nat {
    if n == 0 then s else a * Affine(a, c, s, n - 1) + c
  }

  /** 1 + a + ... + a^(n-1). */
  ghost function Geometric(a: nat, n: nat): nat {
    if n == 0 then 0 else 1 + a * Geometric(a, n - 1)
  }

  ghost function Power(a: nat, n: nat): nat {
    if n == 0 then 1 else a * Power(a, n - 1)
  }

  // ----- halving is divisibility by a power of two

  lemma {:induction false} HalvesIsDivisibility(k: nat, x: int)
    ensures Halves(k, x) <==> x % Pow2(k) == 0
  {
    if k != 0 {
      HalvesIsDivisibility(k - 1, x / 2);
      DoubledModulus(x, Pow2(k - 1));
    }
  }

  lemma DoubledModulus(x: int, p: nat)
    requires p > 0
    ensures x % (2 * p) == 2 * ((x / 2) % p) + x % 2
  {
    var h := x / 2;
    var q, r := h / p, h % p;
    DoubledQuotient(x, p, q, r);
    ModUnique(x, 2 * p, q, 2 * r + x % 2);
  }

  lemma DoubledQuotient(x: int, p: nat, q: int, r: nat)
    requires x / 2 == p * q + r
    ensures x == (2 * p) * q + (2 * r + x % 2)
  {
    assert (2 * p) * q == 2 * (p * q);
  }

  lemma MultipleMod(p: nat, q: int)
    requires p > 0
    ensures (p * q) % p == 0
  {
    assert p * q == p * q + 0;
    ModUnique(p * q, p, q, 0);
  }

  /** A non-zero multiple of p is at least p away from zero. */
  lemma MultipleAway(p: int, d: int)
    requires p >= 0
    ensures d >= 1 ==> p * d >= p
    ensures d <= -1 ==> p * d <= -p
  {
    if d >= 1 {
      assert p * d == p + p * (d - 1);
    } else if d <= -1 {
      assert p * d == p * (d + 1) - p;
    }
  }

  lemma ModUnique(x: int, p: nat, q: int, r: nat)
    requires r < p && x == p * q + r
    ensures x % p == r && x / p == q
  {
    var q', r' := x / p, x % p;
    assert x == p * q' + r';
    assert p * (q - q') == p * q - p * q' == r' - r;
    MultipleAway(p, q - q');
  }

  lemma {:induction false} HalvesOddMultiple(k: nat, x: int, o: int)
    requires o % 2 == 1
    ensures Halves(k, x * o) <==> Halves(k, x)
  {
    if k != 0 {
      OddTimes(x, o);
      if x % 2 == 0 {
        HalvesOddMultiple(k - 1, x / 2, o);
      }
    }
  }

  lemma OddTimes(x: int, o: int)
    requires o % 2 == 1
    ensures (x * o) % 2 == x % 2 && (x % 2 == 0 ==> (x * o) / 2 == (x / 2) * o)
  {
    var h, y := o / 2, x / 2;
    assert x * (2 * h + 1) == 2 * (x * h) + x;
    if x % 2 == 0 {
      assert (2 * y) * o == 2 * (y * o);
    }
  }

  // ----- the geometric sum

  lemma {:induction false} PowerMod4(a: nat, n: nat)
    requires a % 4 == 1
    ensures Power(a, n) % 4 == 1
  {
    if n != 0 {
      PowerMod4(a, n - 1);
      ProductMod4(a / 4, Power(a, n - 1) / 4);
    }
  }

  lemma ProductMod4(b: nat, p: nat)
    ensures ((4 * b + 1) * (4 * p + 1)) % 4 == 1
  {
    var q := 4 * (b * p) + b + p;
    assert (4 * b + 1) * (4 * p + 1) == 4 * q + 1;
  }

  lemma {:induction false} GeometricSplit(a: nat, m: nat, n: nat)
    ensures Geometric(a, m + n) == Geometric(a, m) + Power(a, m) * Geometric(a, n)
    decreases m
  {
    if m != 0 {
      GeometricSplit(a, m - 1, n);
      Distribute(a, Geometric(a, m - 1), Power(a, m - 1), Geometric(a, n));
    }
  }

  lemma Distribute(a: nat, r: nat, p: nat, g: nat)
    ensures a * (r + p * g) == a * r + (a * p) * g
  {
  }

  lemma {:induction false} GeometricParity(a: nat, n: nat)
    requires a % 2 == 1
    ensures Geometric(a, n) % 2 == n % 2
  {
    if n != 0 {
      GeometricParity(a, n - 1);
      NextParity(a, Geometric(a, n - 1), n - 1);
    }
  }

  lemma NextParity(a: nat, g: nat, n: nat)
    requires a % 2 == 1 && g % 2 == n % 2
    ensures (1 + a * g) % 2 == (n + 1) % 2
  {
    OddTimes(g, a);
    assert (g * a) % 2 == n % 2;
  }

  lemma DoubleOddSum(g: nat, p: nat) returns (o: nat)
    requires p % 4 == 1
    ensures o % 2 == 1 && (g + p * g) / 2 == g * o && (g + p * g) % 2 == 0
  {
    o := (1 + p) / 2;
    assert g + p * g == (p + 1) * g == (2 * o) * g == 2 * (g * o);
  }

  /** The heart: the geometric sum has exactly as many factors of two as its length. */
  lemma {:induction false} GeometricHalves(a: nat, k: nat, n: nat)
    requires a % 4 == 1
    ensures Halves(k, Geometric(a, n)) <==> Halves(k, n)
  {
    if k != 0 {
      GeometricParity(a, n);
      if n % 2 == 0 {
        var m := n / 2;
        var g, p := Geometric(a, m), Power(a, m);
        GeometricSplit(a, m, m);
        PowerMod4(a, m);
        var o := DoubleOddSum(g, p);
        HalvesOddMultiple(k - 1, g, o);
        GeometricHalves(a, k - 1, m);
        HalvesOfDoubles(k, Geometric(a, n), n, g * o);
      }
    }
  }

  lemma HalvesOfDoubles(k: nat, x: nat, n: nat, y: nat)
    requires k > 0 && x % 2 == 0 && x / 2 == y && n % 2 == 0 && (Halves(k - 1, y) <==> Halves(k - 1, n / 2))
    ensures Halves(k, x) <==> Halves(k, n)
  {
  }

  // ----- the recurrence

  lemma {:induction false} AffineDistance(a: nat, c: nat, s: nat, n: nat)
    requires a > 0
    ensures Affine(a, c, s, n) - s == Geometric(a, n) * ((a - 1) * s + c)
  {
    if n != 0 {
      AffineDistance(a, c, s, n - 1);
      AffineStep(a, c, s, Geometric(a, n - 1), (a - 1) * s + c);
    }
  }

  lemma AffineStep(a: nat, c: nat, s: nat, g: nat, d: int)
    requires d == (a - 1) * s + c
    ensures a * (s + g * d) + c - s == (1 + a * g) * d
  {
    assert a * (s + g * d) == a * s + a * (g * d);
    assert (1 + a * g) * d == d + (a * g) * d;
    assert (a * g) * d == a * (g * d);
    assert a * s == (a - 1) * s + s;
  }

  lemma {:induction false} IterIsAffineMod(a: nat, c: nat, m: nat, s: nat, n: nat)
    requires m > 0 && s < m
    ensures Iter(a, c, m, s, n) == Affine(a, c, s, n) % m
  {
    if n == 0 {
      ModUnique(s, m, 0, s);
    } else {
      IterIsAffineMod(a, c, m, s, n - 1);
      AffineMod(a, c, m, Affine(a, c, s, n - 1));
    }
  }

  lemma AffineMod(a: nat, c: nat, m: nat, x: nat)
    requires m > 0
    ensures (a * x + c) % m == (a * (x % m) + c) % m
  {
    var q, r := x / m, x % m;
    assert x == m * q + r;
    MulShuffle(a, m, q, r);
    ModPlusMultiple(a * r + c, m, a * q);
  }

  lemma MulShuffle(a: int, m: int, q: int, r: int)
    ensures a * (m * q + r) == m * (a * q) + a * r
  {
    assert a * (m * q + r) == a * (m * q) + a * r;
    assert a * (m * q) == m * (a * q);
  }

  lemma ModPlusMultiple(x: int, m: nat, q: int)
    requires m > 0
    ensures (x + m * q) % m == x % m
  {
    assert x + m * q == m * (x / m + q) + x % m;
    ModUnique(x + m * q, m, x / m + q, x % m);
  }

  lemma ModEqualIffDistance(x: int, y: int, m: nat)
    requires m > 0
    ensures x % m == y % m <==> (x - y) % m == 0
  {
    if x % m == y % m {
      assert x - y == m * (x / m - y / m);
      MultipleMod(m, x / m - y / m);
    }
    if (x - y) % m == 0 {
      assert x == y + m * ((x - y) / m);
      ModPlusMultiple(y, m, (x - y) / m);
    }
  }

  /** The sequence is back at its start exactly at the multiples of 2^k. */
  lemma ReturnsExactlyAtPeriod(a: nat, c: nat, k: nat, s: nat, n: nat)
    requires a % 4 == 1 && c % 2 == 1 && s < Pow2(k)
    ensures Iter(a, c, Pow2(k), s, n) == s <==> n % Pow2(k) == 0
  {
    var m := Pow2(k);
    var x, g, d := Affine(a, c, s, n), Geometric(a, n), (a - 1) * s + c;
    calc <==> {
      Iter(a, c, m, s, n) == s;
      { IterIsAffineMod(a, c, m, s, n); ModUnique(s, m, 0, s); }
      x % m == s % m;
      { ModEqualIffDistance(x, s, m); }
      (x - s) % m == 0;
      { HalvesIsDivisibility(k, x - s); AffineDistance(a, c, s, n); }
      Halves(k, g * d);
      { OddStride(a, c, s); HalvesOddMultiple(k, g, d); GeometricHalves(a, k, n); }
      Halves(k, n);
      { HalvesIsDivisibility(k, n); }
      n % m == 0;
    }
  }

  lemma OddStride(a: nat, c: nat, s: nat)
    requires a % 4 == 1 && c % 2 == 1
    ensures ((a - 1) * s + c) % 2 == 1
  {
    var b := (a - 1) / 2;
    assert (2 * b) * s == 2 * (b * s);
  }

  lemma {:induction false} IterAdd(a: nat, c: nat, m: nat, s: nat, i: nat, j: nat)
    requires m > 0
    ensures Iter(a, c, m, s, i + j) == Iter(a, c, m, Iter(a, c, m, s, i), j)
    decreases j
  {
    if j != 0 {
      IterAdd(a, c, m, s, i, j - 1);
    }
  }

  lemma IterBelow(a: nat, c: nat, m: nat, s: nat, n: nat)
    requires m > 0 && s < m
    ensures Iter(a, c, m, s, n) < m
  {
  }

  /** Two indices below the period give different states. */
  lemma Injective(a: nat, c: nat, k: nat, s: nat, i: nat, j: nat)
    requires a % 4 == 1 && c % 2 == 1 && s < Pow2(k)
    requires i < j < Pow2(k)
    ensures Iter(a, c, Pow2(k), s, i) != Iter(a, c, Pow2(k), s, j)
  {
    var m := Pow2(k);
    IterBelow(a, c, m, s, i);
    IterAdd(a, c, m, s, i, j - i);
    ReturnsExactlyAtPeriod(a, c, k, Iter(a, c, m, s, i), j - i);
    ModUnique(j - i, m, 0, j - i);
  }

  // ----- pigeonhole

  ghost function Visited(a: nat, c: nat, m: nat, s: nat, n: nat): (r: set<nat>)
    requires m > 0
    ensures forall i: nat :: i < n ==> Iter(a, c, m, s, i) in r
  {
    if n == 0 then {} else Visited(a, c, m, s, n - 1) + {Iter(a, c, m, s, n - 1)}
  }

  lemma {:induction false} VisitedMembers(a: nat, c: nat, m: nat, s: nat, n: nat, x: nat)
    requires m > 0
    requires x in Visited(a, c, m, s, n)
    ensures exists i: nat :: i < n && Iter(a, c, m, s, i) == x
  {
    if x != Iter(a, c, m, s, n - 1) {
      VisitedMembers(a, c, m, s, n - 1, x);
    }
  }

  lemma {:induction false} VisitedSize(a: nat, c: nat, k: nat, s: nat, n: nat)
    requires a % 4 == 1 && c % 2 == 1 && s < Pow2(k) && n <= Pow2(k)
    ensures |Visited(a, c, Pow2(k), s, n)| == n
  {
    if n != 0 {
      var m := Pow2(k);
      VisitedSize(a, c, k, s, n - 1);
      var x := Iter(a, c, m, s, n - 1);
      if x in Visited(a, c, m, s, n - 1) {
        VisitedMembers(a, c, m, s, n - 1, x);
        var i: nat :| i < n - 1 && Iter(a, c, m, s, i) == x;
        Injective(a, c, k, s, i, n - 1);
      }
    }
  }

  ghost function Range(n: nat): (r: set<nat>)
    ensures forall x: nat :: x in r <==> x < n
    ensures |r| == n
  {
    if n == 0 then {} else Range(n - 1) + {n - 1}
  }

  lemma SubsetSameSize(s: set<nat>, t: set<nat>)
    requires s <= t && |s| == |t|
    ensures s == t
  {
    assert |t| == |s| + |t - s| by { assert t == s + (t - s); }
  }

  /** Full period: every residue is met, and met at one index below 2^k only. */
  lemma FullPeriod(a: nat, c: nat, k: nat, s: nat, target: nat) returns (n: nat)
    requires a % 4 == 1 && c % 2 == 1 && s < Pow2(k) && target < Pow2(k)
    ensures n < Pow2(k) && Iter(a, c, Pow2(k), s, n) == target
    ensures forall i: nat :: i < Pow2(k) && Iter(a, c, Pow2(k), s, i) == target ==> i == n
  {
    var m := Pow2(k);
    VisitedSize(a, c, k, s, m);
    forall x | x in Visited(a, c, m, s, m) ensures x in Range(m) {
      VisitedMembers(a, c, m, s, m, x);
      var i: nat :| i < m && Iter(a, c, m, s, i) == x;
      IterBelow(a, c, m, s, i);
    }
    SubsetSameSize(Visited(a, c, m, s, m), Range(m));
    assert target in Visited(a, c, m, s, m);
    VisitedMembers(a, c, m, s, m, target);
    n :| n < m && Iter(a, c, m, s, n) == target;
    forall i: nat | i < m && Iter(a, c, m, s, i) == target ensures i == n {
      if i < n {
        Injective(a, c, k, s, i, n);
      } else if n < i {
        Injective(a, c, k, s, n, i);
      }
    }
  }
}
