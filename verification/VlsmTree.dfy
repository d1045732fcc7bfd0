/**
 * The subnet tree of bin/vlsm.c as a value: its nodes, what shape every run keeps,
 * and what the two hole numbers of a node mean.
 */
module VlsmTree {
  import opened Basics
  import opened VlsmBlocks

  /** One more than the number of bits in an address. */
  const IMPOSSIBLE_HOLE := 33

  datatype Tree =
    | Nil
    | Node(addr: nat, bits: nat, name: Option<string>,
           zerohole: nat, onehole: nat, zero: Tree, one: Tree)

  /** A block that has been handed out, and the name of the net it was given to. */
  datatype Entry = Entry(name: Option<string>, addr: nat, bits: nat)

  predicate Kidless(t: Tree) {
    t.Node? && t.zero.Nil? && t.one.Nil?
  }

  /** Allocated: a leaf whose hole numbers keep every later search out. */
  predicate Taken(t: Tree) {
    Kidless(t) && t.zerohole == t.onehole == IMPOSSIBLE_HOLE
  }

  /** A leaf that is not allocated, as deletions leave behind. */
  predicate Hollow(t: Tree) {
    Kidless(t) && !Taken(t)
  }

  function MinHole(t: Tree): nat
    requires t.Node?
  {
    Min(t.zerohole, t.onehole)
  }

  /** The hole number of a half of a node with `bits` network bits, from its subtree. */
  function SideHole(kid: Tree, bits: nat): nat {
    if kid.Nil? then bits + 1 else MinHole(kid)
  }

  /** What holds of every subtree in every run. */
  predicate Shape(t: Tree) {
    t.Node? ==>
      && t.bits <= 32
      && Aligned(t.addr, t.bits)
      && (t.name.Some? ==> Taken(t))
      && (Taken(t) || (
            && t.bits < 32
            && t.zerohole == SideHole(t.zero, t.bits)
            && t.onehole == SideHole(t.one, t.bits)
            && (t.zero.Node? ==> t.zero.addr == t.addr && t.zero.bits == t.bits + 1)
            && (t.one.Node? ==> t.one.addr == Middle(t.addr, t.bits) && t.one.bits == t.bits + 1)))
      && Shape(t.zero)
      && Shape(t.one)
  }

  /** The allocated blocks, from left to right. */
  function Leaves(t: Tree): seq<Entry> {
    if t.Nil? then []
    else if Taken(t) then [Entry(t.name, t.addr, t.bits)]
    else Leaves(t.zero) + Leaves(t.one)
  }

  function Entries(t: Tree): set<Entry> {
    set e | e in Leaves(t)
  }

  /** The node that stands for the block (a, b), or Nil. */
  function At(t: Tree, a: nat, b: nat): Tree {
    if t.Nil? then Nil
    else if b <= t.bits || 32 <= t.bits then
      if t.addr == a && t.bits == b then t else Nil
    else if a < Middle(t.addr, t.bits) then At(t.zero, a, b)
    else At(t.one, a, b)
  }

  predicate Apart(e: Entry, a: nat, b: nat)
    requires b <= 32
  {
    e.bits <= 32 && (e.addr + Size(e.bits) <= a || a + Size(b) <= e.addr)
  }

  /** No address of the block (a, b) belongs to an allocated block. */
  predicate Free(t: Tree, a: nat, b: nat)
    requires b <= 32
  {
    forall e :: e in Leaves(t) ==> Apart(e, a, b)
  }

  /** Free, and the tree has no node (left over from deletions) for the block itself. */
  predicate Open(t: Tree, a: nat, b: nat)
    requires b <= 32
  {
    Free(t, a, b) && At(t, a, b).Nil?
  }

  predicate NoHollow(t: Tree) {
    t.Node? ==> !Hollow(t) && NoHollow(t.zero) && NoHollow(t.one)
  }

  /** First address of the leftmost of the largest open blocks. */
  function LeftHole(t: Tree): nat
    requires t.Node? && Shape(t)
  {
    if Taken(t) then t.addr
    else if t.onehole < t.zerohole then
      if t.one.Nil? then Middle(t.addr, t.bits) else LeftHole(t.one)
    else
      if t.zero.Nil? then t.addr else LeftHole(t.zero)
  }

  // ---------- shape ----------

  lemma {:induction false} HoleBounds(t: Tree)
    requires Shape(t) && t.Node?
    ensures t.bits < t.zerohole <= IMPOSSIBLE_HOLE
    ensures t.bits < t.onehole <= IMPOSSIBLE_HOLE
  {
    if !Taken(t) {
      if t.zero.Node? { HoleBounds(t.zero); }
      if t.one.Node? { HoleBounds(t.one); }
    }
  }

  /** Allocated blocks are aligned and lie inside the block of the tree. */
  lemma {:induction false} LeavesInside(t: Tree)
    requires Shape(t) && t.Node?
    ensures forall e :: e in Leaves(t) ==> Within(t.addr, t.bits, e.addr, e.bits)
  {
    if !Taken(t) {
      if t.zero.Node? { LeavesInside(t.zero); }
      if t.one.Node? { LeavesInside(t.one); }
      forall e | e in Leaves(t)
        ensures Within(t.addr, t.bits, e.addr, e.bits)
      {
        assert e in Leaves(t.zero) || e in Leaves(t.one);
        SplitWithin(t.addr, t.bits, e.addr, e.bits);
      }
    }
  }

  /** All addresses of `e` lie before those of `f`. */
  predicate Before(e: Entry, f: Entry) {
    e.bits <= 32 && e.addr + Size(e.bits) <= f.addr
  }

  predicate Ascending(s: seq<Entry>) {
    forall i, j :: 0 <= i < j < |s| ==> Before(s[i], s[j])
  }

  /** ... pairwise disjoint, and listed in strictly ascending address order. */
  lemma {:induction false} LeavesAscending(t: Tree)
    requires Shape(t)
    ensures Ascending(Leaves(t))
  {
    if t.Node? && !Taken(t) {
      LeavesAscending(t.zero);
      LeavesAscending(t.one);
      if t.zero.Node? { LeavesInside(t.zero); }
      if t.one.Node? { LeavesInside(t.one); }
      var l, r := Leaves(t.zero), Leaves(t.one);
      forall i: nat, j: nat | i < j < |l + r|
        ensures Before((l + r)[i], (l + r)[j])
      {
        if i < |l| <= j {
          assert l[i] in l && r[j - |l|] in r;
        }
      }
    }
  }

  lemma {:induction false} AtInside(t: Tree, a: nat, b: nat)
    requires Shape(t) && t.Node? && At(t, a, b).Node?
    ensures Within(t.addr, t.bits, a, b)
    ensures At(t, a, b).addr == a && At(t, a, b).bits == b && Shape(At(t, a, b))
    ensures forall e :: e in Leaves(At(t, a, b)) ==> e in Leaves(t)
  {
    if t.bits < b && t.bits < 32 {
      if a < Middle(t.addr, t.bits) {
        AtInside(t.zero, a, b);
      } else {
        AtInside(t.one, a, b);
      }
      SplitWithin(t.addr, t.bits, a, b);
    }
  }

  /** Subtrees stay on their side: what is free or open in the half is free or open in the node. */
  lemma OneSided(t: Tree, a: nat, b: nat)
    requires Shape(t) && t.Node? && !Taken(t) && t.bits < b <= 32 && Within(t.addr, t.bits, a, b)
    ensures a < Middle(t.addr, t.bits) ==> (Free(t, a, b) <==> Free(t.zero, a, b))
    ensures a >= Middle(t.addr, t.bits) ==> (Free(t, a, b) <==> Free(t.one, a, b))
  {
    SplitWithin(t.addr, t.bits, a, b);
    if t.zero.Node? { LeavesInside(t.zero); }
    if t.one.Node? { LeavesInside(t.one); }
    forall e | e in Leaves(t.zero) || e in Leaves(t.one)
      ensures e in Leaves(t)
      ensures e in Leaves(t.zero) && a >= Middle(t.addr, t.bits) ==> Apart(e, a, b)
      ensures e in Leaves(t.one) && a < Middle(t.addr, t.bits) ==> Apart(e, a, b)
    {
    }
  }

  // ---------- what the hole numbers mean ----------

  lemma TakenNotFree(t: Tree, a: nat, b: nat)
    requires Taken(t) && Within(t.addr, t.bits, a, b)
    ensures !Free(t, a, b)
  {
    var e := Entry(t.name, t.addr, t.bits);
    assert Leaves(t) == [e];
    assert e in Leaves(t) && !Apart(e, a, b);
  }

  /** No open block is larger than the hole number says ... */
  lemma {:induction false} OpenBound(t: Tree, a: nat, b: nat)
    requires Shape(t) && t.Node? && Within(t.addr, t.bits, a, b) && Open(t, a, b)
    ensures MinHole(t) <= b && !Taken(t)
  {
    if Taken(t) {
      TakenNotFree(t, a, b);
    } else {
      OneSided(t, a, b);
      if a < Middle(t.addr, t.bits) {
        if t.zero.Node? {
          SplitWithin(t.addr, t.bits, a, b);
          OpenBound(t.zero, a, b);
        }
      } else if t.one.Node? {
        SplitWithin(t.addr, t.bits, a, b);
        OpenBound(t.one, a, b);
      }
    }
  }

  /** ... and unless it is impossible, a block of exactly that size is open: the leftmost at LeftHole. */
  lemma {:induction false} HoleWitness(t: Tree)
    requires Shape(t) && t.Node? && MinHole(t) <= 32
    ensures Within(t.addr, t.bits, LeftHole(t), MinHole(t)) && t.bits < MinHole(t)
    ensures Open(t, LeftHole(t), MinHole(t))
  {
    HoleBounds(t);
    HalvesAligned(t.addr, t.bits);
    var kid := if t.onehole < t.zerohole then t.one else t.zero;
    if kid.Node? {
      HoleWitness(kid);
    }
    SplitWithin(t.addr, t.bits, LeftHole(t), MinHole(t));
    OneSided(t, LeftHole(t), MinHole(t));
  }

  lemma {:induction false} HoleLeftmost(t: Tree, a: nat)
    requires Shape(t) && t.Node? && MinHole(t) <= 32
    requires Within(t.addr, t.bits, a, MinHole(t)) && Open(t, a, MinHole(t))
    ensures LeftHole(t) <= a
  {
    var h := MinHole(t);
    HoleBounds(t);
    HoleWitness(t);
    SplitWithin(t.addr, t.bits, a, h);
    SplitWithin(t.addr, t.bits, LeftHole(t), h);
    OneSided(t, a, h);
    if a < Middle(t.addr, t.bits) {
      if t.zero.Node? {
        OpenBound(t.zero, a, h);
        HoleLeftmost(t.zero, a);
      }
    } else if t.one.Node? {
      OpenBound(t.one, a, h);
      if t.onehole < t.zerohole {
        HoleLeftmost(t.one, a);
      } else if t.zero.Node? {
        HoleWitness(t.zero);
      }
    }
  }

  /** Open blocks stay open when cut smaller. */
  lemma {:induction false} OpenInside(t: Tree, a: nat, b: nat, c: nat, d: nat)
    requires Shape(t) && t.Node? && Within(t.addr, t.bits, a, b) && Within(a, b, c, d)
    requires Open(t, a, b)
    ensures Open(t, c, d)
  {
    forall e | e in Leaves(t)
      ensures Apart(e, c, d)
    {
      assert Apart(e, a, b);
    }
    OpenBound(t, a, b);
    HoleBounds(t);
    SplitWithin(t.addr, t.bits, a, b);
    NestedOrDisjoint(t.addr, t.bits, c, d);
    SplitWithin(t.addr, t.bits, c, d);
    OneSided(t, a, b);
    if a < Middle(t.addr, t.bits) {
      if t.zero.Node? { OpenInside(t.zero, a, b, c, d); }
    } else {
      if t.one.Node? { OpenInside(t.one, a, b, c, d); }
    }
  }

  // ---------- trees without hollow nodes ----------

  lemma {:induction false} NoHollowHasLeaf(t: Tree)
    requires t.Node? && NoHollow(t)
    ensures Leaves(t) != []
  {
    if !Taken(t) {
      if t.zero.Node? {
        NoHollowHasLeaf(t.zero);
      } else {
        NoHollowHasLeaf(t.one);
      }
    }
  }

  lemma NoHollowNotFree(t: Tree)
    requires Shape(t) && t.Node? && NoHollow(t)
    ensures !Free(t, t.addr, t.bits)
  {
    NoHollowHasLeaf(t);
    LeavesInside(t);
    var e := Leaves(t)[0];
    assert e in Leaves(t) && !Apart(e, t.addr, t.bits);
  }

  lemma {:induction false} NoHollowAt(t: Tree, a: nat, b: nat)
    requires NoHollow(t)
    ensures NoHollow(At(t, a, b))
  {
    if t.Node? && t.bits < b && t.bits < 32 {
      if a < Middle(t.addr, t.bits) { NoHollowAt(t.zero, a, b); } else { NoHollowAt(t.one, a, b); }
    }
  }

  /** Without hollow nodes, open means free. */
  lemma FreeIsOpen(t: Tree, a: nat, b: nat)
    requires Shape(t) && NoHollow(t) && t.Node? && b <= 32 && Free(t, a, b)
    ensures Open(t, a, b)
  {
    var v := At(t, a, b);
    if v.Node? {
      AtInside(t, a, b);
      NoHollowAt(t, a, b);
      NoHollowNotFree(v);
    }
  }

  // ---------- exactness of every hole number ----------

  /** `hole` is the network-bit count of the largest free aligned block inside (a, n), or 33. */
  ghost predicate ExactHole(t: Tree, a: nat, n: nat, hole: nat) {
    && n <= hole <= IMPOSSIBLE_HOLE
    && (forall c, d | Within(a, n, c, d) :: Free(t, c, d) ==> hole <= d)
    && (hole <= 32 ==> exists c :: Within(a, n, c, hole) && Free(t, c, hole))
  }

  /** Every node of the tree states exactly the largest free block of each of its halves. */
  ghost predicate AllExact(t: Tree) {
    t.Node? && !Taken(t) && t.bits < 32 ==>
      && ExactHole(t, t.addr, t.bits + 1, t.zerohole)
      && ExactHole(t, Middle(t.addr, t.bits), t.bits + 1, t.onehole)
      && AllExact(t.zero) && AllExact(t.one)
  }

  /** A half of `t`: its subtree and its first address. */
  predicate IsHalf(t: Tree, kid: Tree, a: nat) {
    && Shape(t) && t.Node? && !Taken(t)
    && ((a == t.addr && kid == t.zero) || (a == Middle(t.addr, t.bits) && kid == t.one))
  }

  lemma SideBound(t: Tree, kid: Tree, a: nat, c: nat, d: nat)
    requires IsHalf(t, kid, a) && NoHollow(kid)
    requires Within(a, t.bits + 1, c, d) && Free(t, c, d)
    ensures SideHole(kid, t.bits) <= d
  {
    HalvesAligned(t.addr, t.bits);
    SplitWithin(t.addr, t.bits, c, d);
    OneSided(t, c, d);
    if kid.Node? {
      FreeIsOpen(kid, c, d);
      OpenBound(kid, c, d);
    }
  }

  lemma SideWitness(t: Tree, kid: Tree, a: nat) returns (c: nat)
    requires IsHalf(t, kid, a) && SideHole(kid, t.bits) <= 32
    ensures Within(a, t.bits + 1, c, SideHole(kid, t.bits)) && Free(t, c, SideHole(kid, t.bits))
  {
    HalvesAligned(t.addr, t.bits);
    c := a;
    if kid.Node? {
      HoleWitness(kid);
      c := LeftHole(kid);
    }
    SplitWithin(t.addr, t.bits, c, SideHole(kid, t.bits));
    OneSided(t, c, SideHole(kid, t.bits));
  }

  lemma SideExact(t: Tree, kid: Tree, a: nat)
    requires IsHalf(t, kid, a) && NoHollow(kid)
    ensures ExactHole(t, a, t.bits + 1, SideHole(kid, t.bits))
  {
    forall c, d | Within(a, t.bits + 1, c, d) && Free(t, c, d)
      ensures SideHole(kid, t.bits) <= d
    {
      SideBound(t, kid, a, c, d);
    }
    if kid.Node? { HoleBounds(kid); }
    if SideHole(kid, t.bits) <= 32 {
      var c := SideWitness(t, kid, a);
    }
  }

  lemma {:induction false} NoHollowExact(t: Tree)
    requires Shape(t) && (t.Node? ==> NoHollow(t.zero) && NoHollow(t.one))
    ensures AllExact(t)
  {
    if t.Node? && !Taken(t) {
      SideExact(t, t.zero, t.addr);
      SideExact(t, t.one, Middle(t.addr, t.bits));
      NoHollowExact(t.zero);
      NoHollowExact(t.one);
    }
  }

  /** The parent of a hollow node understates the half that the node stands for. */
  lemma HollowNotExact(t: Tree, kid: Tree)
    requires Shape(t) && t.Node? && !Taken(t) && Hollow(kid)
    requires kid == t.zero || kid == t.one
    ensures !ExactHole(t, kid.addr, t.bits + 1, SideHole(kid, t.bits))
  {
    var a, n := kid.addr, t.bits + 1;
    HalvesAligned(t.addr, t.bits);
    OneSided(t, a, n);
    assert Leaves(kid) == [];
    assert Within(a, n, a, n) && Free(t, a, n) && n < SideHole(kid, t.bits);
  }

  lemma {:induction false} ExactNoHollow(t: Tree)
    requires Shape(t) && AllExact(t) && t.Node?
    ensures NoHollow(t.zero) && NoHollow(t.one)
  {
    if !Taken(t) {
      if t.zero.Node? {
        ExactNoHollow(t.zero);
        if Hollow(t.zero) { HollowNotExact(t, t.zero); }
      }
      if t.one.Node? {
        ExactNoHollow(t.one);
        if Hollow(t.one) { HollowNotExact(t, t.one); }
      }
    }
  }

  /** The hole numbers are exact in the whole tree exactly when no node below the root is hollow. */
  lemma ExactIffNoHollow(t: Tree)
    requires Shape(t) && t.Node?
    ensures AllExact(t) <==> NoHollow(t.zero) && NoHollow(t.one)
  {
    if AllExact(t) {
      ExactNoHollow(t);
    }
    if NoHollow(t.zero) && NoHollow(t.one) {
      NoHollowExact(t);
    }
  }
}
