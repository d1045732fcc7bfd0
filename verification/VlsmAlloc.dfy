/** Allocation in the subnet tree: alloc_net, alloc_left_kid and alloc_right_kid of bin/vlsm.c. */
module VlsmAlloc {
  import opened Basics
  import opened VlsmBlocks
  import opened VlsmTree

  /** `x | (1 << k)` */
  function OrBit(x: nat, k: nat): nat {
    if BitSet(x, k) then x else x + Pow2(k)
  }

  function LeftKid(t: Tree): Tree
    requires t.Node?
  {
    Node(t.addr, t.bits + 1, None, t.zerohole + 1, t.zerohole + 1, Nil, Nil)
  }

  function RightKid(t: Tree): Tree
    requires t.Node? && t.bits < 32
  {
    Node(OrBit(t.addr, 31 - t.bits), t.bits + 1, None, t.onehole + 1, t.onehole + 1, Nil, Nil)
  }

  /** The half to search: towards a requested address, else the bigger hole, the left one on a tie. */
  predicate GoRight(t: Tree, req: Option<nat>)
    requires t.Node? && t.bits < 32
  {
    match req
    case Some(x) => BitSet(x, 31 - t.bits)
    case None => t.onehole < t.zerohole
  }

  /** What alloc_net may be called on: it never walks below 32 bits. */
  predicate MayAlloc(t: Tree, nb: nat) {
    t.Node? && Shape(t) && nb <= 32 && (t.bits == 32 ==> nb == 32)
  }

  // New kids get the block, and the hole numbers, of the half they stand for.

  lemma FreshLeft(t: Tree)
    requires Shape(t) && t.Node? && !Taken(t) && t.zero.Nil?
    ensures Shape(LeftKid(t)) && LeftKid(t).zerohole == t.bits + 2
  {
    FreshAddresses(t.addr, t.bits);
    FreshShape(LeftKid(t));
  }

  lemma FreshRight(t: Tree)
    requires Shape(t) && t.Node? && !Taken(t) && t.one.Nil?
    ensures Shape(RightKid(t)) && RightKid(t).onehole == t.bits + 2
  {
    FreshAddresses(t.addr, t.bits);
    FreshShape(RightKid(t));
  }

  lemma FreshAddresses(a: nat, n: nat)
    requires n < 32 && Aligned(a, n)
    ensures Aligned(a, n + 1) && Aligned(OrBit(a, 31 - n), n + 1)
    ensures OrBit(a, 31 - n) == Middle(a, n)
  {
    HalvesAligned(a, n);
    OrBitIsMiddle(a, n);
  }

  lemma OrBitIsMiddle(a: nat, n: nat)
    requires n < 32 && Aligned(a, n)
    ensures OrBit(a, 31 - n) == Middle(a, n)
  {
    BitIsHalf(a, n, a);
  }

  /** A new node is in shape. */
  lemma FreshShape(t: Tree)
    requires Kidless(t) && t.bits <= 32 && Aligned(t.addr, t.bits) && t.name.None?
    requires t.zerohole == t.onehole == t.bits + 1
    ensures Shape(t)
  {}

  /** The subtree the search goes on with: an existing kid, or a new one. */
  function Step(t: Tree, right: bool): (kid: Tree)
    requires Shape(t) && t.Node? && !Taken(t)
    ensures kid.Node? && Shape(kid) && kid.bits == t.bits + 1
    ensures kid.addr == if right then Middle(t.addr, t.bits) else t.addr
  {
    FreshAddresses(t.addr, t.bits);
    if right then
      if t.one.Nil? then
        FreshRight(t);
        RightKid(t)
      else t.one
    else
      if t.zero.Nil? then
        FreshLeft(t);
        LeftKid(t)
      else t.zero
  }

  /** The tree after a search for a block with `nb` network bits, and the block found. */
  function Alloc(t: Tree, nb: nat, req: Option<nat>): (r: (Tree, Option<Entry>))
    requires MayAlloc(t, nb)
    ensures r.0.Node? && r.0.addr == t.addr && r.0.bits == t.bits && r.0.name == t.name
    decreases 33 - t.bits
  {
    HoleBounds(t);
    if t.bits == nb && Kidless(t) then
      (t.(zerohole := IMPOSSIBLE_HOLE, onehole := IMPOSSIBLE_HOLE), Some(Entry(t.name, t.addr, t.bits)))
    else if GoRight(t, req) then
      if nb < t.onehole then (t, None)
      else
        var (kid, found) := Alloc(Step(t, true), nb, req);
        (t.(one := kid, onehole := MinHole(kid)), found)
    else
      if nb < t.zerohole then (t, None)
      else
        var (kid, found) := Alloc(Step(t, false), nb, req);
        (t.(zero := kid, zerohole := MinHole(kid)), found)
  }

  // The three outcomes of one step of the search.

  lemma AllocHere(t: Tree, nb: nat, req: Option<nat>)
    requires MayAlloc(t, nb) && t.bits == nb && Kidless(t)
    ensures Alloc(t, nb, req)
         == (t.(zerohole := IMPOSSIBLE_HOLE, onehole := IMPOSSIBLE_HOLE), Some(Entry(t.name, t.addr, t.bits)))
  {}

  lemma AllocRefused(t: Tree, nb: nat, req: Option<nat>)
    requires MayAlloc(t, nb) && !(t.bits == nb && Kidless(t))
    ensures t.bits < 32
    ensures nb < (if GoRight(t, req) then t.onehole else t.zerohole) ==> Alloc(t, nb, req) == (t, None)
  {}

  lemma AllocDown(t: Tree, nb: nat, req: Option<nat>)
    requires MayAlloc(t, nb) && !(t.bits == nb && Kidless(t)) && t.bits < 32
    requires (if GoRight(t, req) then t.onehole else t.zerohole) <= nb
    ensures !Taken(t) && MayAlloc(Step(t, GoRight(t, req)), nb)
    ensures var (kid, found) := Alloc(Step(t, GoRight(t, req)), nb, req);
            Alloc(t, nb, req) ==
              (if GoRight(t, req) then t.(one := kid, onehole := MinHole(kid))
               else t.(zero := kid, zerohole := MinHole(kid)), found)
  {
    HoleBounds(t);
  }

  /** A kidless node that is big enough never refuses. */
  lemma {:induction false} KidlessAlloc(t: Tree, nb: nat, req: Option<nat>)
    requires MayAlloc(t, nb) && Kidless(t) && t.bits <= nb && (t.bits < nb ==> !Taken(t))
    ensures Alloc(t, nb, req).1.Some?
    decreases 33 - t.bits
  {
    if t.bits < nb {
      KidlessAlloc(Step(t, GoRight(t, req)), nb, req);
    }
  }

  /** Allocation keeps the shape of the tree ... */
  lemma {:induction false} AllocShape(t: Tree, nb: nat, req: Option<nat>)
    requires MayAlloc(t, nb)
    ensures Shape(Alloc(t, nb, req).0)
    ensures Alloc(t, nb, req).1.Some? && t.name.None? ==> Alloc(t, nb, req).1.value.name == None
    decreases 33 - t.bits
  {
    HoleBounds(t);
    if t.bits == nb && Kidless(t) {
    } else {
      var right := GoRight(t, req);
      if (if right then t.onehole else t.zerohole) <= nb {
        AllocShape(Step(t, right), nb, req);
      }
    }
  }

  /** ... and a failed allocation leaves the whole tree as it was: no new node, no changed hole number. */
  lemma {:induction false} FailureChangesNothing(t: Tree, nb: nat, req: Option<nat>)
    requires MayAlloc(t, nb)
    ensures Alloc(t, nb, req).1.None? ==> Alloc(t, nb, req).0 == t
    decreases 33 - t.bits
  {
    HoleBounds(t);
    if t.bits == nb && Kidless(t) {
    } else {
      var right := GoRight(t, req);
      if (if right then t.onehole else t.zerohole) <= nb {
        var kid := Step(t, right);
        FailureChangesNothing(kid, nb, req);
        if (if right then t.one.Nil? else t.zero.Nil?) {
          KidlessAlloc(kid, nb, req);
        }
      }
    }
  }

  /**
   * A successful search in a tree with room below the root takes a block that was open before,
   * and adds exactly that block to the allocated ones.
   */
  lemma {:induction false} AllocTakesOpen(t: Tree, nb: nat, req: Option<nat>)
    requires MayAlloc(t, nb) && Alloc(t, nb, req).1.Some?
    requires t.bits < nb
    ensures var (t', r) := Alloc(t, nb, req);
            && Within(t.addr, t.bits, r.value.addr, nb) && r.value.bits == nb && r.value.name == None
            && Open(t, r.value.addr, nb)
            && Entries(t') == Entries(t) + {r.value}
            && !Taken(t)
    decreases 33 - t.bits, 1
  {
    HoleBounds(t);
    var right := GoRight(t, req);
    var (kid', r) := Alloc(Step(t, right), nb, req);
    HalfTakes(t, nb, req);
    HalfToWhole(t, right, kid', nb, r.value);
  }

  /** The half that the search went into took the block `e`, which was open there. */
  predicate TookFrom(t: Tree, right: bool, kid': Tree, nb: nat, e: Entry)
    requires Shape(t) && t.Node? && t.bits < nb <= 32
  {
    var half := if right then t.one else t.zero;
    && kid'.Node? && e.bits == nb && e.name == None
    && Entries(kid') == Entries(half) + {e}
    && (half.Node? ==> Open(half, e.addr, nb))
    && Within(if right then Middle(t.addr, t.bits) else t.addr, t.bits + 1, e.addr, nb)
  }

  lemma HalfTakes(t: Tree, nb: nat, req: Option<nat>)
    requires MayAlloc(t, nb) && Alloc(t, nb, req).1.Some?
    requires t.bits < nb
    ensures MayAlloc(Step(t, GoRight(t, req)), nb)
    ensures var (kid', r) := Alloc(Step(t, GoRight(t, req)), nb, req);
            r == Alloc(t, nb, req).1 && TookFrom(t, GoRight(t, req), kid', nb, r.value)
    decreases 33 - t.bits, 0
  {
    WentDown(t, nb, req);
    var kid := Step(t, GoRight(t, req));
    if kid.bits == nb {
      KidTaken(t, nb, req);
    } else {
      AllocTakesOpen(kid, nb, req);
      KidOfStep(t, GoRight(t, req));
    }
  }

  /** A search that succeeds below the root took what a search in one half took. */
  lemma WentDown(t: Tree, nb: nat, req: Option<nat>)
    requires MayAlloc(t, nb) && Alloc(t, nb, req).1.Some? && t.bits < nb
    ensures t.bits < 32 && !Taken(t) && MayAlloc(Step(t, GoRight(t, req)), nb)
    ensures Alloc(t, nb, req).1 == Alloc(Step(t, GoRight(t, req)), nb, req).1
  {
    HoleBounds(t);
  }

  /** The half searched is the kid that is there, or a new one without entries. */
  lemma KidOfStep(t: Tree, right: bool)
    requires t.Node? && Shape(t) && t.bits < 31 && !Taken(t)
    ensures var (half, kid) := (if right then t.one else t.zero, Step(t, right));
            && Entries(kid) == Entries(half) && (half.Node? ==> half == kid)
            && kid.addr == (if right then Middle(t.addr, t.bits) else t.addr) && kid.bits == t.bits + 1
  {
    if (if right then t.one else t.zero).Nil? { assert Leaves(Step(t, right)) == []; }
  }

  /** The half itself is the block. */
  lemma KidTaken(t: Tree, nb: nat, req: Option<nat>)
    requires MayAlloc(t, nb) && Alloc(t, nb, req).1.Some? && t.bits + 1 == nb
    ensures MayAlloc(Step(t, GoRight(t, req)), nb)
    ensures var (kid', r) := Alloc(Step(t, GoRight(t, req)), nb, req);
            r == Alloc(t, nb, req).1 && TookFrom(t, GoRight(t, req), kid', nb, r.value)
  {
    HoleBounds(t);
    var right := GoRight(t, req);
    var kid := Step(t, right);
    var (kid', r) := Alloc(kid, nb, req);
    if (if right then t.one else t.zero).Node? { HoleBounds(kid); }
    assert Leaves(kid') == [r.value];
    HalvesAligned(t.addr, t.bits);
  }

  /** What an allocation in one half means for the whole. */
  lemma HalfToWhole(t: Tree, right: bool, kid': Tree, nb: nat, e: Entry)
    requires Shape(t) && t.Node? && !Taken(t) && t.bits < nb <= 32
    requires kid'.Node?
    requires var half := if right then t.one else t.zero;
             && Entries(kid') == Entries(half) + {e}
             && (half.Node? ==> Open(half, e.addr, nb))
    requires Within(if right then Middle(t.addr, t.bits) else t.addr, t.bits + 1, e.addr, nb)
    ensures Within(t.addr, t.bits, e.addr, nb) && Open(t, e.addr, nb)
    ensures right ==> Entries(t.(one := kid', onehole := MinHole(kid'))) == Entries(t) + {e}
    ensures !right ==> Entries(t.(zero := kid', zerohole := MinHole(kid'))) == Entries(t) + {e}
  {
    SplitWithin(t.addr, t.bits, e.addr, nb);
    OneSided(t, e.addr, nb);
    EntriesOfHalves(t);
    if right {
      EntriesOfHalves(t.(one := kid', onehole := MinHole(kid')));
    } else {
      EntriesOfHalves(t.(zero := kid', zerohole := MinHole(kid')));
    }
  }

  lemma EntriesOfHalves(t: Tree)
    requires t.Node? && !Taken(t)
    ensures Entries(t) == Entries(t.zero) + Entries(t.one)
  {}

  // ---------- where a block is found, and when ----------

  /** Without a request the search takes the first address of the leftmost largest open block. */
  lemma {:induction false} UnrequestedPlace(t: Tree, nb: nat)
    requires MayAlloc(t, nb) && t.bits < nb && MinHole(t) <= nb
    ensures Alloc(t, nb, None).1.Some?
    ensures Alloc(t, nb, None).1.value.addr == LeftHole(t)
    decreases 33 - t.bits
  {
    HoleBounds(t);
    var right := t.onehole < t.zerohole;
    var kid := Step(t, right);
    if (if right then t.one else t.zero).Nil? {
      KidlessPlace(kid, nb);
    } else {
      HoleBounds(kid);
      UnrequestedPlace(kid, nb);
    }
  }

  lemma {:induction false} KidlessPlace(t: Tree, nb: nat)
    requires MayAlloc(t, nb) && Kidless(t) && t.bits <= nb && (t.bits < nb ==> !Taken(t))
    ensures Alloc(t, nb, None).1.Some? && Alloc(t, nb, None).1.value.addr == t.addr
    decreases 33 - t.bits
  {
    if t.bits < nb {
      KidlessPlace(Step(t, false), nb);
    }
  }

  predicate InBlock(x: nat, a: nat, b: nat)
    requires b <= 32
  {
    a <= x < a + Size(b)
  }

  /** With a request the search can only end at the aligned block that holds the address. */
  lemma {:induction false} RequestedPlace(t: Tree, nb: nat, x: nat)
    requires MayAlloc(t, nb) && t.bits <= nb && InBlock(x, t.addr, t.bits)
    requires Alloc(t, nb, Some(x)).1.Some?
    ensures Alloc(t, nb, Some(x)).1.value.addr == BlockOf(x, nb)
    decreases 33 - t.bits
  {
    HoleBounds(t);
    if t.bits == nb {
      BlockOfWithin(t.addr, nb, x, nb);
    } else {
      BitIsHalf(t.addr, t.bits, x);
      RequestedPlace(Step(t, GoRight(t, Some(x))), nb, x);
    }
  }

  /** The half a request is led to is the half its block lies in. */
  lemma RequestHalf(t: Tree, nb: nat, x: nat)
    requires Shape(t) && t.Node? && !Taken(t) && t.bits < nb <= 32 && InBlock(x, t.addr, t.bits)
    ensures var right := GoRight(t, Some(x));
            var a := if right then Middle(t.addr, t.bits) else t.addr;
            && InBlock(x, a, t.bits + 1) && Within(a, t.bits + 1, BlockOf(x, nb), nb)
            && (right <==> Middle(t.addr, t.bits) <= BlockOf(x, nb))
            && Within(t.addr, t.bits, BlockOf(x, nb), nb)
  {
    BlockOfWithin(t.addr, t.bits, x, nb);
    BitIsHalf(t.addr, t.bits, x);
    HalvesAligned(t.addr, t.bits);
    BlockOfWithin(if GoRight(t, Some(x)) then Middle(t.addr, t.bits) else t.addr, t.bits + 1, x, nb);
  }

  /** ... and it succeeds if that block is open. */
  lemma {:induction false} OpenRequestSucceeds(t: Tree, nb: nat, x: nat)
    requires MayAlloc(t, nb) && t.bits < nb && InBlock(x, t.addr, t.bits)
    requires Open(t, BlockOf(x, nb), nb)
    ensures Alloc(t, nb, Some(x)).1.Some?
    decreases 33 - t.bits
  {
    var a := BlockOf(x, nb);
    BlockOfWithin(t.addr, t.bits, x, nb);
    OpenBound(t, a, nb);
    RequestHalf(t, nb, x);
    OneSided(t, a, nb);
    var right := GoRight(t, Some(x));
    var half := if right then t.one else t.zero;
    if half.Node? {
      OpenBound(half, a, nb);
      OpenRequestSucceeds(half, nb, x);
    } else {
      if right { FreshRight(t); } else { FreshLeft(t); }
      KidlessAlloc(Step(t, right), nb, Some(x));
    }
  }

  /** In every run: a requested block is granted exactly when it is free and no node is left over for it. */
  lemma RequestGranted(t: Tree, nb: nat, x: nat)
    requires MayAlloc(t, nb) && t.bits < nb && InBlock(x, t.addr, t.bits)
    ensures Alloc(t, nb, Some(x)).1.Some? <==> Open(t, BlockOf(x, nb), nb)
  {
    if Alloc(t, nb, Some(x)).1.Some? {
      AllocTakesOpen(t, nb, Some(x));
      RequestedPlace(t, nb, x);
    }
    if Open(t, BlockOf(x, nb), nb) {
      OpenRequestSucceeds(t, nb, x);
    }
  }

  /** In every run: some block is granted exactly when a block of the size is open somewhere. */
  lemma SomeBlockGranted(t: Tree, nb: nat)
    requires MayAlloc(t, nb) && t.bits < nb
    ensures Alloc(t, nb, None).1.Some? <==> exists a: nat :: Within(t.addr, t.bits, a, nb) && Open(t, a, nb)
    ensures Alloc(t, nb, None).1.Some? ==> MinHole(t) <= 32 && Alloc(t, nb, None).1.value.addr == LeftHole(t)
  {
    var r := Alloc(t, nb, None).1;
    if r.Some? {
      AllocTakesOpen(t, nb, None);
      OpenBound(t, r.value.addr, nb);
      UnrequestedPlace(t, nb);
    }
    if a: nat :| Within(t.addr, t.bits, a, nb) && Open(t, a, nb) {
      OpenBound(t, a, nb);
      UnrequestedPlace(t, nb);
    }
  }

  /** Once something hangs below the root, a block at least as large as the root is refused. */
  lemma TooLarge(t: Tree, nb: nat, req: Option<nat>)
    requires MayAlloc(t, nb) && nb <= t.bits && !Kidless(t)
    ensures Alloc(t, nb, req).1.None?
  {
    HoleBounds(t);
  }

  /** The search never looks at the network bits of the root: a request outside is taken modulo the block. */
  lemma {:induction false} RequestModuloBlock(t: Tree, nb: nat, x: nat, y: nat)
    requires MayAlloc(t, nb)
    requires forall k: nat :: k < 32 - t.bits ==> BitSet(x, k) == BitSet(y, k)
    ensures Alloc(t, nb, Some(x)) == Alloc(t, nb, Some(y))
    decreases 33 - t.bits
  {
    HoleBounds(t);
    if t.bits == nb && Kidless(t) {
    } else {
      assert BitSet(x, 31 - t.bits) == BitSet(y, 31 - t.bits);
      var right := GoRight(t, Some(x));
      if (if right then t.onehole else t.zerohole) <= nb {
        RequestModuloBlock(Step(t, right), nb, x, y);
      }
    }
  }

  /** So any address that differs from one in the root block by a multiple of the block asks for the same. */
  lemma RequestOutside(t: Tree, nb: nat, x: nat, y: nat)
    requires MayAlloc(t, nb) && InBlock(y, t.addr, t.bits)
    requires Aligned(if x < y then y - x else x - y, t.bits)
    ensures Alloc(t, nb, Some(x)) == Alloc(t, nb, Some(y))
  {
    forall k: nat | k < 32 - t.bits
      ensures BitSet(x, k) == BitSet(y, k)
    {
      SameLowBits(x, y, 32 - t.bits, k);
    }
    RequestModuloBlock(t, nb, x, y);
  }

  // ---------- runs without deletion ----------

  lemma {:induction false} AllocNoHollow(t: Tree, nb: nat, req: Option<nat>)
    requires MayAlloc(t, nb) && Alloc(t, nb, req).1.Some?
    requires NoHollow(t.zero) && NoHollow(t.one)
    ensures NoHollow(Alloc(t, nb, req).0)
    decreases 33 - t.bits
  {
    HoleBounds(t);
    if t.bits == nb && Kidless(t) {
    } else {
      AllocNoHollow(Step(t, GoRight(t, req)), nb, req);
    }
  }
}
