/** Small notions shared by the models of the different source files. */
module Basics {

  type Byte = b: nat | b < 256

  datatype Option<+T> = None | Some(value: T)

  function Min(x: int, y: int): int {
    if x < y then x else y
  }

  function Pow2(n: nat): (p: nat)
    ensures p > 0
  {
    if n == 0 then 1 else 2 * Pow2(n - 1)
  }

  lemma {:induction false} Pow2Add(m: nat, n: nat)
    ensures Pow2(m + n) == Pow2(m) * Pow2(n)
  {
    if m > 0 {
      Pow2Add(m - 1, n);
      TwiceProduct(Pow2(m - 1), Pow2(n));
    }
  }

  lemma TwiceProduct(p: int, q: int)
    ensures (2 * p) * q == 2 * (p * q)
  {}

  lemma {:induction false} Pow2Mono(m: nat, n: nat)
    requires m <= n
    ensures Pow2(m) <= Pow2(n)
    decreases n
  {
    if m < n {
      Pow2Mono(m, n - 1);
    }
  }

  lemma Pow2Word()
    ensures Pow2(8) == 0x100 && Pow2(16) == 0x1_0000 && Pow2(24) == 0x100_0000 && Pow2(32) == 0x1_0000_0000
  {
    assert Pow2(4) == 2 * Pow2(3) == 4 * Pow2(2) == 8 * Pow2(1) == 16 * Pow2(0) == 16;
    Pow2Add(4, 4);
    Pow2Add(8, 8);
    Pow2Add(8, 16);
    Pow2Add(16, 16);
  }

  // Bits of a number. They are defined by halving, so that proofs meet no division by a variable.

  /** `x & (1 << k)`: bit `k` of `x`, counted from the least significant. */
  predicate BitSet(x: nat, k: nat) {
    if k == 0 then x % 2 == 1 else BitSet(x / 2, k - 1)
  }

  /** The `k` least significant bits of `x` are zero. */
  predicate LowZero(x: nat, k: nat) {
    k == 0 || (x % 2 == 0 && LowZero(x / 2, k - 1))
  }

  /** `x & ~((1 << k) - 1)`: the `k` least significant bits of `x` cleared. */
  function ClearLow(x: nat, k: nat): (r: nat)
    ensures LowZero(r, k) && r <= x < r + Pow2(k)
  {
    if k == 0 then x else 2 * ClearLow(x / 2, k - 1)
  }

  /** Numbers that agree above their `k` lowest bits agree in every bit there. */
  lemma {:induction false} SameHighBits(x: nat, y: nat, k: nat, j: nat)
    requires k <= j && ClearLow(x, k) == ClearLow(y, k)
    ensures BitSet(x, j) == BitSet(y, j)
  {
    if k > 0 { SameHighBits(x / 2, y / 2, k - 1, j - 1); }
  }

  /** Clearing the low bits leads to the one multiple of 2^k that lies less than 2^k below. */
  lemma {:induction false} ClearLowUnique(a: nat, y: nat, k: nat)
    requires LowZero(a, k) && a <= y < a + Pow2(k)
    ensures ClearLow(y, k) == a
  {
    if k > 0 { ClearLowUnique(a / 2, y / 2, k - 1); }
  }

  /** Numbers that agree modulo 2^m agree in their `m` lowest bits. */
  lemma {:induction false} SameLowBits(x: nat, y: nat, m: nat, k: nat)
    requires k < m && LowZero(if x < y then y - x else x - y, m)
    ensures BitSet(x, k) == BitSet(y, k)
  {
    var d := if x < y then y - x else x - y;
    assert d % 2 == 0 && LowZero(d / 2, m - 1);
    if k > 0 {
      assert d / 2 == if x / 2 < y / 2 then y / 2 - x / 2 else x / 2 - y / 2;
      SameLowBits(x / 2, y / 2, m - 1, k - 1);
    }
  }

  lemma {:induction false} BitSetDiv(x: nat, k: nat)
    ensures BitSet(x, k) <==> x / Pow2(k) % 2 == 1
  {
    if k > 0 {
      BitSetDiv(x / 2, k - 1);
      DivTwice(x, Pow2(k - 1));
    }
  }

  lemma DivTwice(x: nat, m: nat)
    requires m > 0
    ensures x / (2 * m) == (x / 2) / m
  {
    var q := (x / 2) / m;
    var r := (x / 2) % m;
    assert x == (2 * q) * m + 2 * r + x % 2;
    assert (2 * q) * m == q * (2 * m);
    DivModUnique(x, q, 2 * r + x % 2, 2 * m);
  }

  lemma {:induction false} LowZeroMod(x: nat, k: nat)
    ensures LowZero(x, k) <==> x % Pow2(k) == 0
  {
    if k > 0 {
      LowZeroMod(x / 2, k - 1);
      ModTwice(x, Pow2(k - 1));
    }
  }

  lemma ModTwice(x: nat, m: nat)
    requires m > 0
    ensures x % (2 * m) == 0 <==> x % 2 == 0 && (x / 2) % m == 0
  {
    var q := (x / 2) / m;
    var r := (x / 2) % m;
    assert x == (2 * q) * m + 2 * r + x % 2;
    assert (2 * q) * m == q * (2 * m);
    DivModUnique(x, q, 2 * r + x % 2, 2 * m);
  }

  /** Multiples of `m` are at least `m` apart. */
  lemma MultiplesApart(i: int, j: int, m: nat)
    requires i * m < j * m
    ensures i * m + m <= j * m
  {
    if i < j {
      MulMono(1, j - i, m);
      assert (j - i) * m == j * m - i * m;
    } else {
      MulMono(j, i, m);
      assert false;
    }
  }

  lemma MulMono(i: int, j: int, m: nat)
    requires i <= j
    ensures i * m <= j * m
  {}

  lemma DivModUnique(x: int, q: int, r: int, m: nat)
    requires m > 0 && x == q * m + r && 0 <= r < m
    ensures x / m == q && x % m == r
  {
    var d := x / m - q;
    assert x / m * m + x % m == x;
    assert d * m == r - x % m;
    if d > 0 {
      MulMono(1, d, m);
      assert false;
    }
    if d < 0 {
      MulMono(d, -1, m);
      assert false;
    }
  }

  /** A multiple of `k * m` is a multiple of `m`. */
  lemma CoarserMultiple(a: nat, k: nat, m: nat)
    requires k * m > 0 && m > 0 && a % (k * m) == 0
    ensures a % m == 0
  {
    var q := a / (k * m);
    assert a == q * (k * m);
    assert q * (k * m) == (q * k) * m;
    DivModUnique(a, q * k, 0, m);
  }

  lemma MultipleSum(a: nat, b: nat, m: nat)
    requires m > 0 && a % m == 0 && b % m == 0
    ensures (a + b) % m == 0
  {
    var p, q := a / m, b / m;
    assert a == p * m && b == q * m;
    assert (p + q) * m == p * m + q * m;
    DivModUnique(a + b, p + q, 0, m);
  }
}
