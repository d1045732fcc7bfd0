/** The CRC of src/crc.c, and what it is: a polynomial remainder over GF(2), with the errors it detects. */
module Crc {
  import opened Basics

  // ---------- polynomials over GF(2), as numbers whose binary digits are the coefficients ----------

  /** Sum of polynomials: exclusive or. */
  function Xor(a: nat, b: nat): nat {
    if a == 0 && b == 0 then 0
    else 2 * Xor(a / 2, b / 2) + if a % 2 == b % 2 then 0 else 1
  }

  /** `x << k`, the polynomial times X^k. */
  function Shl(x: nat, k: nat): nat {
    if k == 0 then x else 2 * Shl(x, k - 1)
  }

  /** Product of polynomials. */
  function Mul(q: nat, g: nat): nat {
    if q == 0 then 0 else Xor(2 * Mul(q / 2, g), if q % 2 == 1 then g else 0)
  }

  lemma {:induction false} XorZero(a: nat)
    ensures Xor(a, 0) == a && Xor(0, a) == a
  {
    if a != 0 { XorZero(a / 2); }
  }

  lemma {:induction false} XorComm(a: nat, b: nat)
    ensures Xor(a, b) == Xor(b, a)
  {
    if a != 0 || b != 0 { XorComm(a / 2, b / 2); }
  }

  lemma {:induction false} XorSelf(a: nat)
    ensures Xor(a, a) == 0
  {
    if a != 0 { XorSelf(a / 2); }
  }

  /** One digit at a time. */
  lemma XorStep(a: nat, b: nat)
    ensures Xor(a, b) / 2 == Xor(a / 2, b / 2)
    ensures Xor(a, b) % 2 == if a % 2 == b % 2 then 0 else 1
  {}

  lemma SameDigits(x: nat, y: nat)
    requires x / 2 == y / 2 && x % 2 == y % 2
    ensures x == y
  {}

  lemma {:induction false} XorAssoc(a: nat, b: nat, c: nat)
    ensures Xor(Xor(a, b), c) == Xor(a, Xor(b, c))
    decreases a + b + c
  {
    if a != 0 || b != 0 || c != 0 {
      XorAssoc(a / 2, b / 2, c / 2);
      XorStep(a, b);
      XorStep(b, c);
      XorStep(Xor(a, b), c);
      XorStep(a, Xor(b, c));
      SameDigits(Xor(Xor(a, b), c), Xor(a, Xor(b, c)));
    }
  }

  lemma XorCancel(a: nat, b: nat)
    ensures Xor(a, Xor(a, b)) == b
    ensures Xor(a, b) == 0 <==> a == b
  {
    XorAssoc(a, a, b);
    XorSelf(a);
    XorZero(b);
    XorZero(a);
  }

  /** (a + b) + (c + d) == (a + c) + (b + d) */
  lemma XorSwap(a: nat, b: nat, c: nat, d: nat)
    ensures Xor(Xor(a, b), Xor(c, d)) == Xor(Xor(a, c), Xor(b, d))
  {
    XorAssoc(a, b, Xor(c, d));
    XorAssoc(b, c, d);
    XorComm(b, c);
    XorAssoc(c, b, d);
    XorAssoc(a, c, Xor(b, d));
  }

  lemma XorDouble(a: nat, b: nat)
    ensures Xor(2 * a, 2 * b) == 2 * Xor(a, b)
  {
    XorStep(2 * a, 2 * b);
  }

  lemma {:induction false} XorShl(a: nat, b: nat, k: nat)
    ensures Xor(Shl(a, k), Shl(b, k)) == Shl(Xor(a, b), k)
  {
    if k > 0 {
      XorShl(a, b, k - 1);
      XorDouble(Shl(a, k - 1), Shl(b, k - 1));
    }
  }

  lemma {:induction false} ShlShl(a: nat, j: nat, k: nat)
    ensures Shl(Shl(a, j), k) == Shl(a, j + k)
  {
    if k > 0 { ShlShl(a, j, k - 1); }
  }

  /** A number plus one that fits below its lowest digit is their sum as polynomials. */
  lemma {:induction false} XorLow(a: nat, b: nat, k: nat)
    requires b < Pow2(k)
    ensures Xor(Shl(a, k), b) == Shl(a, k) + b
  {
    if k == 0 {
      XorZero(a);
    } else {
      XorLow(a, b / 2, k - 1);
      XorStep(Shl(a, k), b);
      SameDigits(Xor(Shl(a, k), b), Shl(a, k) + b);
    }
  }

  lemma {:induction false} XorBound(a: nat, b: nat, k: nat)
    requires a < Pow2(k) && b < Pow2(k)
    ensures Xor(a, b) < Pow2(k)
  {
    if k > 0 {
      XorBound(a / 2, b / 2, k - 1);
      XorStep(a, b);
    }
  }

  /** Two leading digits cancel. */
  lemma {:induction false} XorLeading(a: nat, b: nat, k: nat)
    requires a < Pow2(k) && b < Pow2(k)
    ensures Xor(Pow2(k) + a, Pow2(k) + b) == Xor(a, b)
  {
    var x, y := Pow2(k) + a, Pow2(k) + b;
    XorStep(x, y);
    XorStep(a, b);
    if k > 0 {
      XorLeading(a / 2, b / 2, k - 1);
      assert x / 2 == Pow2(k - 1) + a / 2 && y / 2 == Pow2(k - 1) + b / 2;
      SameDigits(Xor(x, y), Xor(a, b));
    } else {
      XorSelf(1);
    }
  }

  lemma {:induction false} MulXor(p: nat, q: nat, g: nat)
    ensures Mul(Xor(p, q), g) == Xor(Mul(p, g), Mul(q, g))
    decreases p + q
  {
    if p != 0 || q != 0 {
      MulXor(p / 2, q / 2, g);
      MulDigits(p, g);
      MulDigits(q, g);
      MulDigits(Xor(p, q), g);
      XorStep(p, q);
      XorSwap(2 * Mul(p / 2, g), Digit(p, g), 2 * Mul(q / 2, g), Digit(q, g));
      XorDouble(Mul(p / 2, g), Mul(q / 2, g));
      XorSelf(g);
      XorZero(g);
    } else {
      XorZero(0);
    }
  }

  function Digit(q: nat, g: nat): nat {
    if q % 2 == 1 then g else 0
  }

  lemma MulDigits(q: nat, g: nat)
    ensures Mul(q, g) == Xor(2 * Mul(q / 2, g), Digit(q, g))
  {
    if q == 0 { XorZero(0); }
  }

  // ---------- remainders modulo the generator ----------

  /** CRC_PRZ */
  const POLY := 0x864CFB
  /** CRC_HIBIT */
  const HIBIT := 0x8000_0000
  const WORD := 0x1_0000_0000
  /** The generator: POLY below a leading X^32. */
  const GEN := WORD + POLY

  /** Makes a polynomial of degree at most 32 smaller than that by taking away the generator. */
  function Reduce(x: nat): nat {
    if x >= WORD then Xor(x, GEN) else x
  }

  /** One step of long division: the next digit comes down. */
  function Next(r: nat, digit: nat): nat {
    Reduce(2 * r + digit)
  }

  /** The remainder of a polynomial, by long division from its leading digit. */
  function Rem(m: nat): nat {
    if m == 0 then 0 else Next(Rem(m / 2), m % 2)
  }

  lemma ReduceBound(x: nat)
    requires x < 2 * WORD
    ensures Reduce(x) < WORD
    ensures x >= WORD ==> Reduce(x) == Xor(x - WORD, POLY)
  {
    Pow2Word();
    if x >= WORD {
      XorLeading(x - WORD, POLY, 32);
      XorBound(x - WORD, POLY, 32);
    }
  }

  lemma {:induction false} RemBound(m: nat)
    ensures Rem(m) < WORD
  {
    if m != 0 {
      RemBound(m / 2);
      ReduceBound(2 * Rem(m / 2) + m % 2);
    }
  }

  /** `Rem` divides: m is a multiple of the generator plus Rem(m) ... */
  lemma {:induction false} RemDivides(m: nat) returns (q: nat)
    ensures m == Xor(Mul(q, GEN), Rem(m)) && Rem(m) < WORD
  {
    RemBound(m);
    if m == 0 {
      q := 0;
      XorZero(0);
    } else {
      var q' := RemDivides(m / 2);
      ShiftDividend(m, Mul(q', GEN), Rem(m / 2));
      var x := 2 * Rem(m / 2) + m % 2;
      q := if x >= WORD then 2 * q' + 1 else 2 * q';
      TakeAway(q', x);
    }
  }

  /** Reducing what is left moves one more multiple of the generator into the quotient. */
  lemma TakeAway(q: nat, x: nat)
    ensures Xor(2 * Mul(q, GEN), x) == Xor(Mul(if x >= WORD then 2 * q + 1 else 2 * q, GEN), Reduce(x))
  {
    if x >= WORD {
      MulDigits(2 * q + 1, GEN);
      XorComm(x, GEN);
      XorCancel(GEN, x);
      XorAssoc(2 * Mul(q, GEN), GEN, Xor(x, GEN));
    } else {
      MulDigits(2 * q, GEN);
      XorZero(2 * Mul(q, GEN));
    }
  }

  lemma ShiftDividend(m: nat, p: nat, r: nat)
    requires m / 2 == Xor(p, r)
    ensures m == Xor(2 * p, 2 * r + m % 2)
  {
    XorStep(2 * p, 2 * r + m % 2);
    SameDigits(m, Xor(2 * p, 2 * r + m % 2));
  }

  /** A nonzero multiple of the generator has degree 32 or more. */
  lemma {:induction false} MultipleIsLarge(q: nat)
    requires q != 0
    ensures Mul(q, GEN) >= WORD
  {
    MulDigits(q, GEN);
    Pow2Word();
    assert Pow2(33) == 2 * Pow2(32);
    if q == 1 {
      XorZero(GEN);
    } else {
      MultipleIsLarge(q / 2);
      if q % 2 == 1 {
        XorAbove(2 * Mul(q / 2, GEN), GEN, 33);
      } else {
        XorZero(2 * Mul(q / 2, GEN));
      }
    }
  }

  /** A digit that only one operand reaches stays. */
  lemma {:induction false} XorAbove(a: nat, b: nat, k: nat)
    requires a >= Pow2(k) && b < Pow2(k)
    ensures Xor(a, b) >= Pow2(k)
  {
    XorStep(a, b);
    if k == 0 {
      XorZero(a);
    } else {
      XorAbove(a / 2, b / 2, k - 1);
    }
  }

  /** ... and Rem(m) is the only remainder: no other multiple of the generator comes as close. */
  lemma RemUnique(m: nat, q: nat, r: nat)
    requires m == Xor(Mul(q, GEN), r) && r < WORD
    ensures r == Rem(m)
  {
    Pow2Word();
    var q' := RemDivides(m);
    MulXor(q, q', GEN);
    XorSwap(Mul(q, GEN), r, Mul(q', GEN), Rem(m));
    XorSelf(m);
    XorCancel(Mul(Xor(q, q'), GEN), Xor(r, Rem(m)));
    XorBound(r, Rem(m), 32);
    XorCancel(q, q');
    XorCancel(r, Rem(m));
    if Xor(q, q') != 0 {
      MultipleIsLarge(Xor(q, q'));
    }
  }

  // ---------- the algebra of remainders ----------

  lemma {:induction false} RemSmall(m: nat)
    requires m < WORD
    ensures Rem(m) == m
  {
    if m != 0 { RemSmall(m / 2); }
  }

  /** Remainders add like polynomials. */
  lemma RemXor(a: nat, b: nat)
    ensures Rem(Xor(a, b)) == Xor(Rem(a), Rem(b))
  {
    Pow2Word();
    var p := RemDivides(a);
    var q := RemDivides(b);
    XorSwap(Mul(p, GEN), Rem(a), Mul(q, GEN), Rem(b));
    MulXor(p, q, GEN);
    XorBound(Rem(a), Rem(b), 32);
    RemUnique(Xor(a, b), Xor(p, q), Xor(Rem(a), Rem(b)));
  }

  /** One shift of the register with nothing fed in. */
  function Shift(r: nat): nat {
    Next(r, 0)
  }

  function Shifts(r: nat, k: nat): nat {
    if k == 0 then r else Shift(Shifts(r, k - 1))
  }

  lemma {:induction false} RemShl(m: nat, k: nat)
    ensures Rem(Shl(m, k)) == Shifts(Rem(m), k)
  {
    if k > 0 {
      RemShl(m, k - 1);
      RemDouble(Shl(m, k - 1));
    }
  }

  /** Only the remainder of the part before matters. */
  lemma RemShlRem(m: nat, k: nat)
    ensures Rem(Shl(m, k)) == Rem(Shl(Rem(m), k))
  {
    RemShl(m, k);
    RemBound(m);
    RemSmall(Rem(m));
    RemShl(Rem(m), k);
  }

  /** Shifting loses nothing: the generator's last coefficient is 1. */
  lemma {:induction false} ShiftsNonzero(r: nat, k: nat)
    requires 0 < r < WORD
    ensures 0 < Shifts(r, k) < WORD
  {
    if k > 0 {
      ShiftsNonzero(r, k - 1);
      var s := Shifts(r, k - 1);
      ReduceBound(2 * s);
      XorStep(2 * s, GEN);
    }
  }

  // ---------- the lookup table ----------

  /** Every entry is the remainder of its index times X^32. */
  predicate IsTable(t: seq<nat>) {
    |t| == 256 && forall i :: 0 <= i < 256 ==> t[i] == EntryOf(i)
  }

  lemma {:induction false} ShlDouble(a: nat, k: nat)
    ensures Shl(2 * a, k) == 2 * Shl(a, k)
  {
    if k > 0 { ShlDouble(a, k - 1); }
  }

  lemma {:induction false} ShlOne(k: nat)
    ensures Shl(1, k) == Pow2(k)
  {
    if k > 0 { ShlOne(k - 1); }
  }

  lemma FirstEntries()
    ensures EntryOf(0) == 0 && EntryOf(1) == POLY
  {
    Pow2Word();
    ShlOne(32);
    ShlDouble(0, 32);
    XorLow(1, POLY, 32);
    XorAssoc(WORD, POLY, POLY);
    XorSelf(POLY);
    XorZero(WORD);
    MulDigits(1, GEN);
    XorZero(GEN);
    RemUnique(WORD, 1, POLY);
  }

  /** Entry i of the table. */
  function EntryOf(i: nat): (e: nat)
    ensures e < WORD
  {
    RemBound(Shl(i, 32));
    Rem(Shl(i, 32))
  }

  lemma OddIsXor(i: nat)
    ensures Xor(2 * i, 1) == 2 * i + 1
  {
    var d, o := 2 * i, 1;
    assert d / 2 == i && o / 2 == 0;
    XorStep(d, o);
    XorZero(i);
    SameDigits(Xor(d, o), d + 1);
  }

  lemma ShlNext(i: nat, k: nat)
    ensures Shl(2 * i + 1, k) == Xor(Shl(2 * i, k), Shl(1, k))
  {
    XorShl(2 * i, 1, k);
    OddIsXor(i);
  }

  lemma RemHalves(m: nat, h: nat, digit: nat)
    requires m == 2 * h + digit && digit < 2
    ensures Rem(m) == Next(Rem(h), digit)
  {
    assert m / 2 == h && m % 2 == digit;
  }

  lemma RemDouble(m: nat)
    ensures Rem(2 * m) == Next(Rem(m), 0)
  {
    RemHalves(2 * m, m, 0);
  }

  /** The doubling step: entries 2i and 2i+1 from entry i. */
  lemma DoubledEntries(i: nat)
    ensures EntryOf(2 * i) == Shift(EntryOf(i))
    ensures EntryOf(2 * i + 1) == Xor(Shift(EntryOf(i)), POLY)
  {
    ShlDouble(i, 32);
    RemDouble(Shl(i, 32));
    ShlNext(i, 32);
    FirstEntries();
    RemXor(Shl(2 * i, 32), Shl(1, 32));
  }

  /** Taking the polynomial in and out again. */
  lemma PolyTwice(w: nat)
    ensures Xor(Xor(w, POLY), POLY) == w
  {
    XorAssoc(w, POLY, POLY);
    XorSelf(POLY);
    XorZero(w);
  }

  /** Shifting left by one keeps 32 bits; the bit that falls out decides on the polynomial. */
  lemma ShiftIsXor(t: nat, w: nat)
    requires t < WORD && w == if t >= HIBIT then 2 * t - WORD else 2 * t
    ensures Shift(t) == if t >= HIBIT then Xor(w, POLY) else w
  {
    ReduceBound(2 * t);
  }

  /** How each pair of entries follows from an earlier one. */
  predicate Doubles(t: seq<nat>, i: nat)
    requires |t| == 256 && i < 128
  {
    var w := 2 * t[i] % WORD;
    if t[i] >= HIBIT then t[2 * i] == Xor(w, POLY) && t[2 * i + 1] == w
    else t[2 * i] == w && t[2 * i + 1] == Xor(w, POLY)
  }

  lemma ShiftTwoWays(e: nat, w: nat)
    requires e < WORD && w == 2 * e % WORD
    ensures e >= HIBIT ==> Shift(e) == Xor(w, POLY) && Xor(Shift(e), POLY) == w
    ensures e < HIBIT ==> Shift(e) == w
  {
    assert w == if e >= HIBIT then 2 * e - WORD else 2 * e;
    ShiftIsXor(e, w);
    PolyTwice(w);
  }

  lemma TableDoubles(t: seq<nat>)
    requires IsTable(t)
    ensures t[0] == 0 && t[1] == POLY
    ensures forall i :: 0 <= i < 128 ==> Doubles(t, i)
  {
    FirstEntries();
    forall i | 0 <= i < 128
      ensures Doubles(t, i)
    {
      DoubledEntries(i);
      ShiftTwoWays(t[i], 2 * t[i] % WORD);
      assert t[i] == EntryOf(i) && t[2 * i] == EntryOf(2 * i) && t[2 * i + 1] == EntryOf(2 * i + 1);
    }
  }

  /** mk_crctbl's doubling loop: `p` trails `q`, so that every entry is read after it was written. */
  method FillTable(tab: array<nat>, ghost want: seq<nat>)
    requires tab.Length == 256 && |want| == 256 && want[0] == 0 && want[1] == POLY
    requires forall i :: 0 <= i < 128 ==> Doubles(want, i)
    modifies tab
    ensures tab[..] == want
  {
    var p, q := 0, 0;
    tab[q] := 0;
    q := q + 1;
    tab[q] := POLY;
    q := q + 1;
    var i := 1;
    while i < 128
      invariant 1 <= i <= 128 && p == i - 1 && q == 2 * i
      invariant forall k :: 0 <= k < q ==> tab[k] == want[k]
    {
      p := p + 1;
      assert p < q;
      var t := tab[p];
      assert t == want[p] && Doubles(want, p);
      if t >= HIBIT {
        t := 2 * t % WORD;
        tab[q] := Xor(t, POLY);
        q := q + 1;
        tab[q] := t;
        q := q + 1;
      } else {
        t := 2 * t % WORD;
        tab[q] := t;
        q := q + 1;
        tab[q] := Xor(t, POLY);
        q := q + 1;
      }
      i := i + 1;
    }
    assert forall k :: 0 <= k < 256 ==> tab[k] == want[k];
  }

  /** mk_crctbl */
  method MkCrctbl(tab: array<nat>)
    requires tab.Length == 256
    modifies tab
    ensures IsTable(tab[..]) && tab[0] == 0 && tab[1] == 0x864CFB
  {
    ghost var want := seq(256, i requires 0 <= i => EntryOf(i));
    TableDoubles(want);
    FillTable(tab, want);
  }

  /** Entries add like their indices. */
  lemma EntriesLinear(i: Byte, j: Byte)
    ensures Xor(i, j) < 256 && EntryOf(Xor(i, j)) == Xor(EntryOf(i), EntryOf(j))
  {
    Pow2Word();
    XorBound(i, j, 8);
    XorShl(i, j, 32);
    RemXor(Shl(i, 32), Shl(j, 32));
  }

  // ---------- the byte-wise loop ----------

  /** A buffer as a polynomial, first byte leading. */
  function Message(buf: seq<Byte>): nat {
    if buf == [] then 0 else 256 * Message(buf[..|buf| - 1]) + buf[|buf| - 1]
  }

  /** The CRC of a buffer: the remainder of its polynomial times X^32. */
  function CrcOf(buf: seq<Byte>): nat {
    Rem(Shl(Message(buf), 32))
  }

  lemma ShlEight(a: nat)
    ensures Shl(a, 8) == 256 * a
  {
    assert Shl(a, 2) == 2 * Shl(a, 1) == 4 * Shl(a, 0);
    assert Shl(a, 4) == 2 * Shl(a, 3) == 4 * Shl(a, 2);
    assert Shl(a, 6) == 2 * Shl(a, 5) == 4 * Shl(a, 4);
    assert Shl(a, 8) == 2 * Shl(a, 7) == 4 * Shl(a, 6);
  }

  lemma {:induction false} ShlSplit(a: nat, b: nat, k: nat)
    ensures Shl(a + b, k) == Shl(a, k) + Shl(b, k)
  {
    if k > 0 { ShlSplit(a, b, k - 1); }
  }

  /** The next byte goes 32 places below what was there, moved up by 8. */
  lemma NextByte(m: nat, b: Byte)
    ensures Shl(256 * m + b, 32) == Xor(Shl(Shl(m, 32), 8), Shl(b, 32))
  {
    Pow2Word();
    ShlEight(m);
    XorLow(m, b, 8);
    XorShl(256 * m, b, 32);
    ShlShl(m, 8, 32);
    ShlShl(m, 32, 8);
  }

  /** Moved up by a byte, the register's leading byte turns into its table entry. */
  lemma TopByte(acc: nat)
    requires acc < WORD
    ensures Rem(Shl(acc, 8)) == Xor(256 * (acc % 0x100_0000), EntryOf(acc / 0x100_0000))
  {
    var top, low := acc / 0x100_0000, acc % 0x100_0000;
    ShlEight(acc);
    TopAndRest(acc);
    RemXor(Shl(top, 32), 256 * low);
    RemSmall(256 * low);
    XorComm(EntryOf(top), 256 * low);
  }

  /** Feeding one byte: the leading byte of the register, plus the byte, selects what is added to the rest. */
  lemma ByteStep(m: nat, b: Byte)
    ensures var acc := Rem(Shl(m, 32));
            var top := acc / 0x100_0000;
            && acc < WORD && top < 256 && Xor(top, b) < 256
            && Rem(Shl(256 * m + b, 32)) == Xor(256 * acc % WORD, EntryOf(Xor(top, b)))
  {
    var x := Shl(m, 32);
    var acc := Rem(x);
    RemBound(x);
    var top, low := acc / 0x100_0000, acc % 0x100_0000;
    NextByte(m, b);
    RemXor(Shl(x, 8), Shl(b, 32));
    RemShlRem(x, 8);
    TopByte(acc);
    TopAndRest(acc);
    EntriesLinear(top, b);
    XorAssoc(256 * low, EntryOf(top), EntryOf(b));
  }

  lemma {:induction false} ShlTimes(a: nat, k: nat)
    ensures Shl(a, k) == a * Pow2(k)
  {
    if k > 0 {
      ShlTimes(a, k - 1);
      TwiceProduct(Pow2(k - 1), a);
    }
  }

  lemma TopAndRest(acc: nat)
    requires acc < WORD
    ensures var top, low := acc / 0x100_0000, acc % 0x100_0000;
            256 * acc == Xor(Shl(top, 32), 256 * low) && 256 * acc % WORD == 256 * low
  {
    var top, low := acc / 0x100_0000, acc % 0x100_0000;
    assert acc == 0x100_0000 * top + low;
    TopPlusRest(top, low, 256 * acc);
  }

  lemma TopPlusRest(top: nat, low: nat, x: nat)
    requires low < 0x100_0000 && x == WORD * top + 256 * low
    ensures x == Xor(Shl(top, 32), 256 * low) && x % WORD == 256 * low
  {
    Pow2Word();
    ShlTimes(top, 32);
    XorLow(top, 256 * low, 32);
  }

  lemma MessageAppend(buf: seq<Byte>, b: Byte)
    ensures Message(buf + [b]) == 256 * Message(buf) + b
  {
    assert (buf + [b])[..|buf|] == buf;
  }

  class Crc {
    /** crc_table: absent until crc_init has run. */
    var table: array?<nat>

    ghost predicate Valid()
      reads this, table
    {
      table != null ==> IsTable(table[..])
    }

    constructor ()
      ensures Valid() && table == null
    {
      table := null;
    }

    /** crc_init */
    method Init()
      requires Valid()
      modifies this
      ensures Valid() && table != null
      ensures old(table) != null ==> table == old(table)
    {
      if table != null {
        return;
      }
      var t := new nat[256];
      MkCrctbl(t);
      table := t;
    }

    /** crc_bytes: nothing is computed before the table exists. */
    method Bytes(buf: seq<Byte>) returns (accum: nat)
      requires Valid()
      ensures accum == if table == null then 0 else CrcOf(buf)
    {
      accum := 0;
      assert Shl(0, 32) == 0 by { ShlTimes(0, 32); }
      if table == null {
        return;
      }
      var i := 0;
      while i < |buf|
        invariant 0 <= i <= |buf| && accum == CrcOf(buf[..i])
      {
        ByteStep(Message(buf[..i]), buf[i]);
        assert buf[..i + 1] == buf[..i] + [buf[i]];
        MessageAppend(buf[..i], buf[i]);
        ghost var t := table[..];
        assert forall k :: 0 <= k < 256 ==> table[k] == t[k];
        RemBound(Shl(Message(buf[..i]), 32));
        accum := Xor(256 * accum % WORD, table[Xor(accum / 0x100_0000, buf[i])]);
        i := i + 1;
      }
      assert buf[..i] == buf;
    }
  }

  /** The generator, and the order of bits and bytes: a later byte counts less. */
  lemma GeneratorBytes(buf: seq<Byte>)
    ensures buf == [1] ==> CrcOf(buf) == 0x864CFB
    ensures buf == [2] ==> CrcOf(buf) == 0x10C99F6
    ensures buf == [1, 0] ==> CrcOf(buf) == 0x864CFB00
  {
    var one: nat :| one == 1;
    FirstEntries();
    SmallEntries(one);
    if 1 <= |buf| <= 2 {
      ShortMessage(buf);
    }
  }

  lemma ShortMessage(buf: seq<Byte>)
    requires 1 <= |buf| <= 2
    ensures CrcOf(buf) == EntryOf(if |buf| == 1 then buf[0] as nat else 256 * buf[0] as nat + buf[1])
  {
    var init := buf[..|buf| - 1];
    if |buf| == 2 {
      assert init[..0] == [] && init[0] == buf[0];
      assert Message(init) == buf[0];
    } else {
      assert init == [] && Message(init) == 0;
    }
    assert Message(buf) == 256 * Message(init) + buf[|buf| - 1];
  }

  lemma SmallEntries(i: nat)
    requires EntryOf(i) == POLY
    ensures EntryOf(2 * i) == 0x10C99F6 && EntryOf(256 * i) == 0x864CFB00
  {
    DoubledEntries(i);
    EightShifts(POLY);
    ShlEight(i);
    ShlShl(i, 8, 32);
    ShlShl(i, 32, 8);
    RemShl(Shl(i, 32), 8);
  }

  lemma EightShifts(r: nat)
    requires r < 0x100_0000
    ensures Shifts(r, 8) == 256 * r
  {
    assert Shifts(r, 2) == Shift(Shifts(r, 1)) == 4 * r by { assert Shifts(r, 1) == Shift(Shifts(r, 0)) == 2 * r; }
    assert Shifts(r, 4) == Shift(Shifts(r, 3)) == 16 * r by { assert Shifts(r, 3) == Shift(Shifts(r, 2)) == 8 * r; }
    assert Shifts(r, 6) == Shift(Shifts(r, 5)) == 64 * r by { assert Shifts(r, 5) == Shift(Shifts(r, 4)) == 32 * r; }
    assert Shifts(r, 8) == Shift(Shifts(r, 7)) by { assert Shifts(r, 7) == Shift(Shifts(r, 6)) == 128 * r; }
  }

  /** Zero bytes at the beginning change nothing. */
  lemma {:induction false} LeadingZero(buf: seq<Byte>)
    ensures Message([0] + buf) == Message(buf) && CrcOf([0] + buf) == CrcOf(buf)
  {
    var z := [0] + buf;
    if buf == [] {
      assert z[..0] == [];
    } else {
      LeadingZero(buf[..|buf| - 1]);
      assert z[..|z| - 1] == [0] + buf[..|buf| - 1];
    }
  }

  // ---------- the bit-serial shift register ----------

  /** The textbook register: the bit that falls out, plus the bit that comes in, decides on the polynomial. */
  function Feed(r: nat, bit: nat): nat {
    var w := 2 * r % WORD;
    if (r >= HIBIT) != (bit == 1) then Xor(w, POLY) else w
  }

  /** The `k` digits of `v`, leading digit first. */
  function FeedBits(r: nat, v: nat, k: nat): nat {
    if k == 0 then r else Feed(FeedBits(r, v / 2, k - 1), v % 2)
  }

  function Serial(buf: seq<Byte>): nat {
    if buf == [] then 0 else FeedBits(Serial(buf[..|buf| - 1]), buf[|buf| - 1], 8)
  }

  lemma FeedStep(x: nat, bit: nat)
    requires bit < 2
    ensures Feed(EntryOf(x), bit) == EntryOf(2 * x + bit)
  {
    DoubledEntries(x);
    FeedShifts(EntryOf(x), bit);
  }

  lemma FeedShifts(e: nat, bit: nat)
    requires e < WORD && bit < 2
    ensures Feed(e, bit) == if bit == 1 then Xor(Shift(e), POLY) else Shift(e)
  {
    ShiftTwoWays(e, 2 * e % WORD);
  }

  lemma {:induction false} FeedBitsStep(x: nat, v: nat, k: nat)
    requires v < Pow2(k)
    ensures FeedBits(EntryOf(x), v, k) == EntryOf(Shl(x, k) + v)
  {
    if k > 0 {
      FeedBitsStep(x, v / 2, k - 1);
      FeedStep(Shl(x, k - 1) + v / 2, v % 2);
      assert 2 * (Shl(x, k - 1) + v / 2) + v % 2 == Shl(x, k) + v;
    }
  }

  /** The byte-wise loop computes what the bit-serial register computes, on every buffer. */
  lemma {:induction false} SerialIsCrc(buf: seq<Byte>)
    ensures Serial(buf) == CrcOf(buf)
  {
    if buf == [] {
      FirstEntries();
    } else {
      var init, last := buf[..|buf| - 1], buf[|buf| - 1];
      SerialIsCrc(init);
      Pow2Word();
      FeedBitsStep(Message(init), last, 8);
      ShlEight(Message(init));
    }
  }

  // ---------- the errors it detects ----------

  lemma {:induction false} MessageConcat(a: seq<Byte>, b: seq<Byte>)
    ensures Message(a + b) == Shl(Message(a), 8 * |b|) + Message(b)
    ensures Message(b) < Pow2(8 * |b|)
  {
    if b == [] {
      assert a + b == a;
    } else {
      var init, last := b[..|b| - 1], b[|b| - 1];
      MessageConcat(a, init);
      assert (a + b)[..|a + b| - 1] == a + init && (a + b)[|a + b| - 1] == last;
      ShlShl(Message(a), 8 * |init|, 8);
      ShlEight(Shl(Message(a), 8 * |init|));
      Pow2Add(8, 8 * |init|);
      Pow2Word();
    }
  }

  lemma {:induction false} MessageInjective(a: seq<Byte>, b: seq<Byte>)
    requires |a| == |b| && Message(a) == Message(b)
    ensures a == b
  {
    if a != [] {
      MessageInjective(a[..|a| - 1], b[..|b| - 1]);
      assert a == a[..|a| - 1] + [a[|a| - 1]] && b == b[..|b| - 1] + [b[|b| - 1]];
    }
  }

  /** x and y end in the same digits. */
  lemma SharedEnd(a: nat, b: nat, s: nat, k: nat, x: nat, y: nat)
    requires s < Pow2(k) && x == Xor(Shl(a, k), s) && y == Xor(Shl(b, k), s)
    ensures Xor(x, y) == Shl(Xor(a, b), k)
  {
    XorSwap(Shl(a, k), s, Shl(b, k), s);
    XorSelf(s);
    XorShl(a, b, k);
    XorZero(Shl(Xor(a, b), k));
  }

  /** x and y begin with the same digits. */
  lemma SharedBeginning(a: nat, d: nat, e: nat, k: nat, x: nat, y: nat)
    requires x == Xor(Shl(a, k), d) && y == Xor(Shl(a, k), e)
    ensures Xor(x, y) == Xor(d, e)
  {
    XorSwap(Shl(a, k), d, Shl(a, k), e);
    XorSelf(Shl(a, k));
    XorZero(Xor(d, e));
  }

  lemma MessageXor(a: seq<Byte>, b: seq<Byte>)
    ensures Message(a + b) == Xor(Shl(Message(a), 8 * |b|), Message(b))
    ensures Message(b) < Pow2(8 * |b|)
  {
    MessageConcat(a, b);
    XorLow(Message(a), Message(b), 8 * |b|);
  }

  /** Buffers that share their beginning and their end differ as polynomials only in the middle. */
  lemma DifferenceShifted(p: seq<Byte>, d: seq<Byte>, e: seq<Byte>, s: seq<Byte>)
    requires |d| == |e|
    ensures Xor(Message(p + d + s), Message(p + e + s)) == Shl(Xor(Message(d), Message(e)), 8 * |s|)
  {
    MessageXor(p + d, s);
    MessageXor(p + e, s);
    MessageXor(p, d);
    MessageXor(p, e);
    SharedBeginning(Message(p), Message(d), Message(e), 8 * |d|, Message(p + d), Message(p + e));
    SharedEnd(Message(p + d), Message(p + e), Message(s), 8 * |s|, Message(p + d + s), Message(p + e + s));
  }

  lemma MiddleDetected(p: seq<Byte>, d: seq<Byte>, e: seq<Byte>, s: seq<Byte>)
    requires |d| == |e| <= 4 && d != e
    ensures CrcOf(p + d + s) != CrcOf(p + e + s)
  {
    var x, y := Message(p + d + s), Message(p + e + s);
    var diff, k := Xor(Message(d), Message(e)), 8 * |s|;
    DifferenceShifted(p, d, e, s);
    MessageConcat([], d);
    MessageConcat([], e);
    Pow2Word();
    Pow2Mono(8 * |d|, 32);
    XorBound(Message(d), Message(e), 32);
    XorCancel(Message(d), Message(e));
    if diff == 0 { MessageInjective(d, e); }
    RemSmall(diff);
    ShiftsNonzero(diff, k + 32);
    RemShl(diff, k + 32);
    ShlShl(diff, k, 32);
    XorShl(x, y, 32);
    RemXor(Shl(x, 32), Shl(y, 32));
    XorCancel(CrcOf(p + d + s), CrcOf(p + e + s));
  }

  /** Two messages of the same length that differ only within four consecutive bytes never have the same CRC. */
  lemma BurstDetected(m: seq<Byte>, m': seq<Byte>, i: nat)
    requires |m| == |m'| && m != m'
    requires forall j :: 0 <= j < |m| && (j < i || i + 4 <= j) ==> m[j] == m'[j]
    ensures CrcOf(m) != CrcOf(m')
  {
    var lo := if i < |m| then i else |m|;
    var hi := if i + 4 < |m| then i + 4 else |m|;
    assert m == m[..lo] + m[lo..hi] + m[hi..];
    assert m' == m'[..lo] + m'[lo..hi] + m'[hi..];
    assert m[..lo] == m'[..lo] && m[hi..] == m'[hi..];
    MiddleDetected(m[..lo], m[lo..hi], m'[lo..hi], m[hi..]);
  }

  /** A 32-bit number as four bytes, most significant first. */
  function BigEndian(c: nat): seq<Byte>
    requires c < WORD
  {
    [c / 0x100_0000, c / 0x1_0000 % 256, c / 0x100 % 256, c % 256]
  }

  lemma FourBytes(b: seq<Byte>)
    requires |b| == 4
    ensures Message(b) == 256 * (256 * (256 * (b[0] as int) + b[1]) + b[2]) + b[3]
  {
    MessageAppend([], b[0]);
    MessageAppend(b[..1], b[1]);
    MessageAppend(b[..2], b[2]);
    MessageAppend(b[..3], b[3]);
    assert [] + [b[0]] == b[..1] && b[..1] + [b[1]] == b[..2] && b[..2] + [b[2]] == b[..3] && b[..3] + [b[3]] == b;
  }

  lemma BigEndianMessage(c: nat)
    requires c < WORD
    ensures Message(BigEndian(c)) == c
  {
    FourBytes(BigEndian(c));
    Digits(c);
  }

  lemma Digits(c: nat)
    ensures c == 256 * (256 * (256 * (c / 0x100_0000) + c / 0x1_0000 % 256) + c / 0x100 % 256) + c % 256
  {
    var x, y := c / 0x100, c / 0x1_0000;
    assert c == 256 * x + c % 256;
    assert y == x / 256 && x == 256 * y + x % 256;
    assert c / 0x100_0000 == y / 256 && y == 256 * (y / 256) + y % 256;
  }

  lemma TrailerOf(m: nat, c: nat, x: nat)
    requires c < WORD && x == Xor(Shl(m, 32), c)
    ensures Rem(Shl(x, 32)) == Shifts(Xor(EntryOf(m), c), 32) && Xor(EntryOf(m), c) < WORD
  {
    Pow2Word();
    RemXor(Shl(m, 32), c);
    RemSmall(c);
    RemShl(x, 32);
    XorBound(EntryOf(m), c, 32);
  }

  /** What four bytes after a message leave in the register. */
  lemma TrailerRem(m: seq<Byte>, c: nat)
    requires c < WORD
    ensures CrcOf(m + BigEndian(c)) == Shifts(Xor(CrcOf(m), c), 32) && Xor(CrcOf(m), c) < WORD
  {
    MessageXor(m, BigEndian(c));
    BigEndianMessage(c);
    TrailerOf(Message(m), c, Message(m + BigEndian(c)));
  }

  /** A message followed by four bytes has CRC 0 exactly when they are its own CRC, most significant byte first. */
  lemma CheckedMessage(m: seq<Byte>, c: nat)
    requires c < WORD
    ensures CrcOf(m + BigEndian(c)) == 0 <==> c == CrcOf(m)
  {
    TrailerRem(m, c);
    XorCancel(CrcOf(m), c);
    if c == CrcOf(m) {
      ShiftsZero(32);
    } else {
      ShiftsNonzero(Xor(CrcOf(m), c), 32);
    }
  }

  lemma {:induction false} ShiftsZero(k: nat)
    ensures Shifts(0, k) == 0
  {
    if k > 0 { ShiftsZero(k - 1); }
  }
}
