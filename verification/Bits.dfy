/** Machine words as numbers: shifts, masks, exclusive or and rotation on binary digits.

    Everything is defined one binary digit at a time, so the proofs are inductions with linear
    steps and hold for every word length. */
module Bits {
  import opened Lcg

  /** x >> k. */
  function Shr(x: nat, k: nat): nat {
    if k == 0 then x else Shr(x / 2, k - 1)
  }

  /** x << k, without truncation. */
  function Shl(x: nat, k: nat): nat {
    if k == 0 then x else 2 * Shl(x, k - 1)
  }

  /** The low k bits of x. */
  function Low(x: nat, k: nat): nat {
    if k == 0 then 0 else 2 * Low(x / 2, k - 1) + x % 2
  }

  function Xor(a: nat, b: nat): nat
    decreases a + b
  {
    if a == 0 then b
    else if b == 0 then a
    else 2 * Xor(a / 2, b / 2) + (a + b) % 2
  }

  function Or(a: nat, b: nat): nat
    decreases a + b
  {
    if a == 0 then b
    else if b == 0 then a
    else 2 * Or(a / 2, b / 2) + (if a % 2 == 1 || b % 2 == 1 then 1 else 0)
  }

  // ----- splitting a word

  lemma {:induction false} SplitJoin(x: nat, k: nat)
    ensures x == Shl(Shr(x, k), k) + Low(x, k)
    ensures Low(x, k) < Pow2(k)
  {
    if k != 0 {
      SplitJoin(x / 2, k - 1);
    }
  }

  lemma {:induction false} JoinSplit(hi: nat, lo: nat, k: nat)
    requires lo < Pow2(k)
    ensures Shr(Shl(hi, k) + lo, k) == hi && Low(Shl(hi, k) + lo, k) == lo
  {
    if k != 0 {
      JoinSplit(hi, lo / 2, k - 1);
      assert (Shl(hi, k) + lo) / 2 == Shl(hi, k - 1) + lo / 2;
    }
  }

  lemma {:induction false} ShlIsProduct(x: nat, k: nat)
    ensures Shl(x, k) == x * Pow2(k)
  {
    if k != 0 {
      ShlIsProduct(x, k - 1);
      assert 2 * (x * Pow2(k - 1)) == x * (2 * Pow2(k - 1));
    }
  }

  lemma {:induction false} ShrAdd(x: nat, j: nat, k: nat)
    ensures Shr(Shr(x, j), k) == Shr(x, j + k)
    decreases j
  {
    if j != 0 {
      ShrAdd(x / 2, j - 1, k);
    }
  }

  lemma {:induction false} ShrBound(x: nat, j: nat, k: nat)
    ensures x < Pow2(j + k) <==> Shr(x, k) < Pow2(j)
    decreases k
  {
    if k != 0 {
      ShrBound(x / 2, j, k - 1);
    }
  }

  lemma {:induction false} ShrZero(x: nat, k: nat)
    requires x < Pow2(k)
    ensures Shr(x, k) == 0 && Low(x, k) == x
  {
    if k != 0 {
      ShrZero(x / 2, k - 1);
    }
  }

  // ----- exclusive or

  lemma {:induction false} XorCancel(a: nat, b: nat)
    ensures Xor(Xor(a, b), b) == a
    decreases a + b
  {
    if a != 0 && b != 0 {
      XorCancel(a / 2, b / 2);
      XorHalf(a, b);
      XorHalf(Xor(a, b), b);
    } else if a == 0 {
      XorSelf(b);
    }
  }

  lemma {:induction false} XorSelf(a: nat)
    ensures Xor(a, a) == 0
  {
    if a != 0 {
      XorSelf(a / 2);
    }
  }

  lemma {:induction false} XorSymmetric(a: nat, b: nat)
    ensures Xor(a, b) == Xor(b, a)
    decreases a + b
  {
    if a != 0 && b != 0 {
      XorSymmetric(a / 2, b / 2);
    }
  }

  lemma XorHalf(a: nat, b: nat)
    ensures Xor(a, b) / 2 == Xor(a / 2, b / 2) && Xor(a, b) % 2 == (a + b) % 2
  {
  }

  lemma {:induction false} XorShr(a: nat, b: nat, k: nat)
    ensures Shr(Xor(a, b), k) == Xor(Shr(a, k), Shr(b, k))
    decreases k
  {
    if k != 0 {
      XorHalf(a, b);
      XorShr(a / 2, b / 2, k - 1);
    }
  }

  lemma {:induction false} XorBound(a: nat, b: nat, k: nat)
    requires a < Pow2(k) && b < Pow2(k)
    ensures Xor(a, b) < Pow2(k)
    decreases k
  {
    if k != 0 && a != 0 && b != 0 {
      XorBound(a / 2, b / 2, k - 1);
    }
  }

  // ----- the xorshift u ^ (u >> k) and its inverse

  function Xorshift(u: nat, k: nat): nat {
    Xor(u, Shr(u, k))
  }

  function UndoXorshift(v: nat, k: nat): nat
    requires k > 0
    decreases v
  {
    if v == 0 then 0
    else
      assert Shr(v, k) < v by { ShrShrinks(v, k); }
      Xor(v, UndoXorshift(Shr(v, k), k))
  }

  lemma {:induction false} ShrShrinks(v: nat, k: nat)
    requires k > 0
    ensures Shr(v, k) <= v / 2
  {
    if k > 1 {
      ShrShrinks(v / 2, k - 1);
    }
  }

  lemma XorshiftShr(u: nat, k: nat, j: nat)
    ensures Shr(Xorshift(u, k), j) == Xorshift(Shr(u, j), k)
  {
    XorShr(u, Shr(u, k), j);
    ShrAdd(u, k, j);
    ShrAdd(u, j, k);
  }

  lemma {:induction false} XorshiftOfUndo(v: nat, k: nat)
    requires k > 0
    ensures Xorshift(UndoXorshift(v, k), k) == v
    decreases v
  {
    if v == 0 {
      ShrZero(0, k);
    } else {
      ShrShrinks(v, k);
      var v' := Shr(v, k);
      var t := UndoXorshift(v', k);
      XorshiftOfUndo(v', k);                 // Xor(t, t >> k) == v'
      XorShr(v, t, k);
      XorCancel(t, Shr(t, k));               // hence Xor(v', t >> k) == t
      XorCancel(v, t);
    }
  }

  lemma {:induction false} XorshiftInjective(u: nat, w: nat, k: nat)
    requires k > 0 && Xorshift(u, k) == Xorshift(w, k)
    ensures u == w
    decreases u + w
  {
    ShrShrinks(u, k);
    ShrShrinks(w, k);
    if u + w != 0 {
      XorshiftShr(u, k, k);
      XorshiftShr(w, k, k);
      XorshiftInjective(Shr(u, k), Shr(w, k), k);
      XorCancel(u, Shr(u, k));
      XorCancel(w, Shr(w, k));
    }
  }

  lemma {:induction false} UndoBound(v: nat, k: nat, m: nat)
    requires k > 0 && v < Pow2(m)
    ensures UndoXorshift(v, k) < Pow2(m)
    decreases v
  {
    if v != 0 {
      ShrShrinks(v, k);
      UndoBound(Shr(v, k), k, m);
      XorBound(v, UndoXorshift(Shr(v, k), k), m);
    }
  }

  // ----- rotation of an m-bit word

  /** Rotation right by one place, n times. */
  function RotateRight(x: nat, m: nat, n: nat): nat
    requires m > 0
    decreases n
  {
    if n == 0 then x else RotateRight(x / 2 + Shl(x % 2, m - 1), m, n - 1)
  }

  function RotateLeft(x: nat, m: nat, n: nat): nat
    requires m > 0
    decreases n
  {
    if n == 0 then x
    else
      var y := RotateLeft(x, m, n - 1);
      2 * Low(y, m - 1) + Shr(y, m - 1)
  }

  lemma OneRight(x: nat, m: nat)
    requires m > 0 && x < Pow2(m)
    ensures var y := x / 2 + Shl(x % 2, m - 1);
            y < Pow2(m) && 2 * Low(y, m - 1) + Shr(y, m - 1) == x
  {
    OneBit(x % 2, m - 1);
    JoinSplit(x % 2, x / 2, m - 1);
  }

  lemma {:induction false} OneBit(b: nat, k: nat)
    requires b < 2
    ensures Shl(b, k) == if b == 0 then 0 else Pow2(k)
  {
    if k != 0 {
      OneBit(b, k - 1);
    }
  }

  lemma OneLeft(x: nat, m: nat)
    requires m > 0 && x < Pow2(m)
    ensures var y := 2 * Low(x, m - 1) + Shr(x, m - 1);
            y < Pow2(m) && y / 2 + Shl(y % 2, m - 1) == x
  {
    SplitJoin(x, m - 1);
    assert Shr(x, m - 1) < 2 by {
      ShrBound(x, 1, m - 1);
      assert Pow2(1) == 2;
    }
  }

  lemma {:induction false} LeftBound(x: nat, m: nat, n: nat)
    requires m > 0 && x < Pow2(m)
    ensures RotateLeft(x, m, n) < Pow2(m)
    decreases n
  {
    if n != 0 {
      LeftBound(x, m, n - 1);
      OneLeft(RotateLeft(x, m, n - 1), m);
    }
  }

  lemma {:induction false} RightBound(x: nat, m: nat, n: nat)
    requires m > 0 && x < Pow2(m)
    ensures RotateRight(x, m, n) < Pow2(m)
    decreases n
  {
    if n != 0 {
      OneRight(x, m);
      RightBound(x / 2 + Shl(x % 2, m - 1), m, n - 1);
    }
  }

  /** Rotation is invertible, so for every count it is a bijection on the m-bit words. */
  lemma {:induction false} RotationInverts(x: nat, y: nat, m: nat, n: nat)
    requires m > 0 && x < Pow2(m) && y < Pow2(m)
    ensures RotateRight(x, m, n) == y <==> x == RotateLeft(y, m, n)
    decreases n
  {
    if n != 0 {
      var one, z := x / 2 + Shl(x % 2, m - 1), RotateLeft(y, m, n - 1);
      LeftBound(y, m, n - 1);
      OneRight(x, m);
      OneLeft(z, m);
      RotationInverts(one, y, m, n - 1);
    }
  }

  lemma {:induction false} AddHigh(h: nat, b: nat, k: nat, j: nat)
    ensures Shr(h + Shl(b, j + k), k) == Shr(h, k) + Shl(b, j)
    ensures Low(h + Shl(b, j + k), k) == Low(h, k)
    decreases k
  {
    if k != 0 {
      AddHigh(h / 2, b, k - 1, j);
      assert (h + Shl(b, j + k)) / 2 == h / 2 + Shl(b, j + (k - 1));
    }
  }

  lemma {:induction false} ShlSum(a: nat, b: nat, k: nat)
    ensures Shl(a + b, k) == Shl(a, k) + Shl(b, k)
  {
    if k != 0 {
      ShlSum(a, b, k - 1);
    }
  }

  /** The bits that a rotation shifts out on the right come in on the left. */
  lemma {:induction false} RotationIsTwoShifts(x: nat, m: nat, n: nat)
    requires n <= m && 0 < m && x < Pow2(m)
    ensures RotateRight(x, m, n) == Shr(x, n) + Shl(Low(x, n), m - n)
    decreases n
  {
    if n == 0 {
      assert RotateRight(x, m, n) == x == Shr(x, n) && Low(x, n) == 0;
      ShlIsProduct(0, m);
    } else {
      var h, b := x / 2, x % 2;
      var l := Low(h, n - 1);
      OneRight(x, m);
      RotationIsTwoShifts(h + Shl(b, m - 1), m, n - 1);
      AddHigh(h, b, n - 1, m - n);
      ShlSum(l, l, m - n);
      ShlSum(2 * l, b, m - n);
    }
  }

  lemma {:induction false} OrSelf(a: nat)
    ensures Or(a, a) == a
  {
    if a != 0 {
      OrSelf(a / 2);
    }
  }

  lemma {:induction false} OrOfDisjoint(a: nat, b: nat, k: nat)
    requires a < Pow2(k)
    ensures Or(a, Shl(b, k)) == a + Shl(b, k)
    decreases k
  {
    if k != 0 && a != 0 {
      OrOfDisjoint(a / 2, b, k - 1);
    }
  }

  lemma {:induction false} LowOfShl(x: nat, n: nat, k: nat)
    ensures Low(Shl(x, k), n + k) == Shl(Low(x, n), k)
    decreases k
  {
    if k != 0 {
      LowOfShl(x, n, k - 1);
    }
  }

  /** The usual rotation idiom: two shifts of an m-bit word, the left count being (-rot) mod m. */
  lemma RotationIdiom(x: nat, m: nat, rot: nat, back: nat)
    requires rot < m && x < Pow2(m) && back == if rot == 0 then 0 else m - rot
    ensures Or(Shr(x, rot), Low(Shl(x, back), m)) == RotateRight(x, m, rot)
  {
    if rot == 0 {
      ShrZero(x, m);
      OrSelf(x);
    } else {
      var k := m - rot;
      LowOfShl(x, rot, k);
      ShrBound(x, k, rot);
      OrOfDisjoint(Shr(x, rot), Low(x, rot), k);
      RotationIsTwoShifts(x, m, rot);
    }
  }

  // ----- digit by digit

  /** Is digit number i of x a one? */
  predicate Bit(x: nat, i: nat) {
    if i == 0 then x % 2 == 1 else Bit(x / 2, i - 1)
  }

  lemma {:induction false} BitOfShr(x: nat, k: nat, i: nat)
    ensures Bit(Shr(x, k), i) <==> Bit(x, k + i)
    decreases k
  {
    if k != 0 {
      BitOfShr(x / 2, k - 1, i);
    }
  }

  lemma {:induction false} BitOfZero(i: nat)
    ensures !Bit(0, i)
  {
    if i != 0 {
      BitOfZero(i - 1);
    }
  }

  lemma {:induction false} BitOfLow(x: nat, k: nat, i: nat)
    ensures Bit(Low(x, k), i) <==> i < k && Bit(x, i)
    decreases k
  {
    if k == 0 {
      BitOfZero(i);
    } else if i != 0 {
      BitOfLow(x / 2, k - 1, i - 1);
    }
  }

  lemma OddSum(a: nat, b: nat)
    ensures (a + b) % 2 == 1 <==> (a % 2 == 1) != (b % 2 == 1)
  {
  }

  /** Exclusive or, digit by digit. */
  lemma {:induction false} BitOfXor(a: nat, b: nat, i: nat)
    ensures Bit(Xor(a, b), i) <==> Bit(a, i) != Bit(b, i)
    decreases i
  {
    XorHalf(a, b);
    if i == 0 {
      OddSum(a, b);
    } else {
      BitOfXor(a / 2, b / 2, i - 1);
    }
  }

  lemma BitOfJoin(hi: nat, lo: nat, k: nat, i: nat)
    requires lo < Pow2(k)
    ensures Bit(Shl(hi, k) + lo, i) <==> if i < k then Bit(lo, i) else Bit(hi, i - k)
  {
    var x := Shl(hi, k) + lo;
    JoinSplit(hi, lo, k);
    BitOfLow(x, k, i);
    if i >= k {
      BitOfShr(x, k, i - k);
    }
  }

  /** After a rotation digit i is the one that was n places further up, counted around the word. */
  lemma BitOfRotation(x: nat, m: nat, n: nat, i: nat)
    requires n < m && i < m && x < Pow2(m)
    ensures Bit(RotateRight(x, m, n), i) <==> Bit(x, if i + n < m then i + n else i + n - m)
  {
    RotationIsTwoShifts(x, m, n);
    ShrBound(x, m - n, n);
    BitOfJoin(Low(x, n), Shr(x, n), m - n, i);
    if i < m - n {
      BitOfShr(x, n, i);
    } else {
      BitOfLow(x, n, i - (m - n));
    }
  }
}
