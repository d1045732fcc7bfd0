/** Aligned address blocks of the 32-bit address space, as the subnet allocator cuts them. */
module VlsmBlocks {
  import opened Basics

  /** Number of addresses in a block with `bits` network bits. */
  function Size(bits: nat): (s: nat)
    requires bits <= 32
    ensures s > 0
    ensures bits < 32 ==> s == 2 * Pow2(31 - bits)
  {
    Pow2(32 - bits)
  }

  /** No host bit of `a` is set. */
  predicate Aligned(a: nat, b: nat)
    requires b <= 32
  {
    LowZero(a, 32 - b)
  }

  lemma AlignedMod(a: nat, b: nat)
    requires b <= 32
    ensures Aligned(a, b) <==> a % Size(b) == 0
  {
    LowZeroMod(a, 32 - b);
  }

  /** (a, b) is an aligned block inside the block (outerA, outerB). */
  predicate Within(outerA: nat, outerB: nat, a: nat, b: nat) {
    outerB <= b <= 32 && Aligned(a, b) && outerA <= a && a + Size(b) <= outerA + Size(outerB)
  }

  /** First address of the aligned block with `b` network bits that holds `x`. */
  function BlockOf(x: nat, b: nat): (a: nat)
    requires b <= 32
    ensures Aligned(a, b) && a <= x < a + Size(b)
  {
    ClearLow(x, 32 - b)
  }

  function Middle(a: nat, b: nat): nat
    requires b < 32
  {
    a + Size(b + 1)
  }

  lemma HalvesAligned(a: nat, b: nat)
    requires b < 32 && Aligned(a, b)
    ensures Aligned(a, b + 1) && Aligned(Middle(a, b), b + 1)
  {
    AlignedMod(a, b);
    AlignedMod(a, b + 1);
    AlignedMod(Middle(a, b), b + 1);
    CoarserMultiple(a, 2, Size(b + 1));
    MultipleSum(a, Size(b + 1), Size(b + 1));
  }

  /** A block is a whole number of smaller blocks. */
  lemma SizeRatio(n: nat, b: nat)
    requires n <= b <= 32
    ensures Size(n) == Pow2(b - n) * Size(b)
  {
    Pow2Add(b - n, 32 - b);
    assert (b - n) + (32 - b) == 32 - n;
  }

  lemma CoarserAligned(a: nat, n: nat, b: nat)
    requires n <= b <= 32 && Aligned(a, n)
    ensures Aligned(a, b) && Aligned(a + Size(n), b)
  {
    AlignedMod(a, n);
    AlignedMod(a, b);
    AlignedMod(a + Size(n), b);
    SizeRatio(n, b);
    CoarserMultiple(a, Pow2(b - n), Size(b));
    CoarserMultiple(Size(n), Pow2(b - n), Size(b));
    MultipleSum(a, Size(n), Size(b));
  }

  /** Aligned addresses that are ordered are a whole block apart. */
  lemma AlignedApart(a: nat, c: nat, b: nat)
    requires b <= 32 && Aligned(a, b) && Aligned(c, b) && a < c
    ensures a + Size(b) <= c
  {
    AlignedMod(a, b);
    AlignedMod(c, b);
    MultiplesApart(a / Size(b), c / Size(b), Size(b));
  }

  /** A smaller aligned block lies in one half or the other, never across the middle. */
  lemma SplitWithin(a0: nat, n: nat, a: nat, b: nat)
    requires n < b <= 32 && Aligned(a0, n)
    ensures Within(a0, n, a, b) <==> Within(a0, n + 1, a, b) || Within(Middle(a0, n), n + 1, a, b)
    ensures Within(a0, n, a, b) ==> (Within(a0, n + 1, a, b) <==> a < Middle(a0, n))
  {
    HalvesAligned(a0, n);
    CoarserAligned(Middle(a0, n), n + 1, b);
    if Within(a0, n, a, b) && a < Middle(a0, n) {
      AlignedApart(a, Middle(a0, n), b);
    }
  }

  /** Two aligned blocks are nested or disjoint. */
  lemma NestedOrDisjoint(a: nat, b: nat, c: nat, d: nat)
    requires b <= d <= 32 && Aligned(a, b) && Aligned(c, d)
    ensures Within(a, b, c, d) || c + Size(d) <= a || a + Size(b) <= c
  {
    CoarserAligned(a, b, d);
    if c < a {
      AlignedApart(c, a, d);
    } else if c < a + Size(b) {
      AlignedApart(c, a + Size(b), d);
    }
  }

  /** The bit tested by the tree walk tells the half an address lies in. */
  lemma BitIsHalf(a: nat, n: nat, x: nat)
    requires n < 32 && Aligned(a, n) && a <= x < a + Size(n)
    ensures BitSet(x, 31 - n) <==> Middle(a, n) <= x
  {
    AlignedMod(a, n);
    BitSetDiv(x, 31 - n);
    HalfOfDouble(a, Size(n + 1), x);
  }

  lemma HalfOfDouble(a: nat, h: nat, x: nat)
    requires h > 0 && a % (2 * h) == 0 && a <= x < a + 2 * h
    ensures x / h % 2 == 1 <==> a + h <= x
  {
    var q := a / (2 * h);
    assert a == q * (2 * h) == (2 * q) * h;
    if x < a + h {
      DivModUnique(x, 2 * q, x - a, h);
    } else {
      assert (2 * q + 1) * h == (2 * q) * h + h;
      DivModUnique(x, 2 * q + 1, x - a - h, h);
    }
  }

  /** The block that holds an address lies in every enclosing aligned block. */
  lemma BlockOfWithin(a0: nat, n: nat, x: nat, b: nat)
    requires n <= b <= 32 && Aligned(a0, n) && a0 <= x < a0 + Size(n)
    ensures Within(a0, n, BlockOf(x, b), b)
  {
    NestedOrDisjoint(a0, n, BlockOf(x, b), b);
  }

  lemma BlockOfSelf(a: nat, b: nat)
    requires b <= 32 && Aligned(a, b)
    ensures BlockOf(a, b) == a
  {
    if BlockOf(a, b) < a { AlignedApart(BlockOf(a, b), a, b); }
  }
}
