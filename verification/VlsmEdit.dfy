/** Finding, naming, growing and deleting nets: find_net, grow_net and del_net of bin/vlsm.c. */
module VlsmEdit {
  import opened Basics
  import opened VlsmBlocks
  import opened VlsmTree

  /** The named node that find_net ends at: towards `x` bit by bit, never past 32 bits. */
  function Find(t: Tree, x: nat): Tree {
    if t.Nil? then Nil
    else if x == t.addr && t.name.Some? then t
    else if 32 <= t.bits then Nil
    else if BitSet(x, 31 - t.bits) then Find(t.one, x)
    else Find(t.zero, x)
  }

  /** The upward walk at one node: each half with a kid takes that kid's hole, a half without keeps its own. */
  function Refresh(t: Tree): Tree
    requires t.Node?
  {
    t.(zerohole := if t.zero.Nil? then t.zerohole else MinHole(t.zero),
       onehole := if t.one.Nil? then t.onehole else MinHole(t.one))
  }

  /** A node that stands strictly below the root. */
  predicate Below(t: Tree, a: nat, b: nat) {
    Shape(t) && t.Node? && t.bits < b <= 32 && At(t, a, b).Node?
  }

  lemma BelowHalf(t: Tree, a: nat, b: nat)
    requires Below(t, a, b)
    ensures !Taken(t) && t.bits < 32 && Within(t.addr, t.bits, a, b)
    ensures var half := if a < Middle(t.addr, t.bits) then t.zero else t.one;
            && half.Node? && At(half, a, b) == At(t, a, b)
            && (forall e :: e in Leaves(At(t, a, b)) ==> e in Leaves(half))
            && (if t.bits + 1 == b then half == At(t, a, b) && half.addr == a else Below(half, a, b))
  {
    AtInside(t, a, b);
    var half := if a < Middle(t.addr, t.bits) then t.zero else t.one;
    AtInside(half, a, b);
  }

  /** The subtree of a block replaced by `k`; a missing subtree leaves its half as a hole. */
  function Put(t: Tree, a: nat, b: nat, k: Tree): (t': Tree)
    requires Below(t, a, b)
    ensures t'.Node? && t'.addr == t.addr && t'.bits == t.bits && t'.name == t.name
  {
    BelowHalf(t, a, b);
    if a < Middle(t.addr, t.bits) then
      if t.bits + 1 == b then t.(zero := k, zerohole := SideHole(k, t.bits))
      else Refresh(t.(zero := Put(t.zero, a, b, k)))
    else
      if t.bits + 1 == b then t.(one := k, onehole := SideHole(k, t.bits))
      else Refresh(t.(one := Put(t.one, a, b, k)))
  }

  /** Put, at the root of `t` itself or below it. */
  function Replace(t: Tree, a: nat, b: nat, k: Tree): Tree
    requires t.Node? && (t.bits == b || Below(t, a, b))
  {
    if t.bits == b then k else Put(t, a, b, k)
  }

  /** del_net: the node goes, and its half of the parent becomes a hole of its size. */
  function Del(t: Tree, a: nat, b: nat): Tree
    requires Below(t, a, b)
  {
    Put(t, a, b, Nil)
  }

  /** grow_net's three refusals: the root, a right-hand node, and a neighbour that has a node. */
  predicate CanGrow(t: Tree, a: nat, b: nat) {
    Below(t, a, b) && var p := At(t, a, b - 1); p.Node? && p.one.Nil?
  }

  /** The parent takes over the net: its name, twice its addresses, and no holes. */
  function Grown(t: Tree, a: nat, b: nat): Tree
    requires CanGrow(t, a, b)
  {
    Node(a, b - 1, At(t, a, b).name, IMPOSSIBLE_HOLE, IMPOSSIBLE_HOLE, Nil, Nil)
  }

  function Grow(t: Tree, a: nat, b: nat): Tree
    requires CanGrow(t, a, b)
  {
    if b - 1 == t.bits then Grown(t, a, b) else Put(t, a, b - 1, Grown(t, a, b))
  }

  /** The caller of alloc_net stores the name in the node it got back. */
  function SetName(t: Tree, a: nat, b: nat, name: Option<string>): Tree
    requires Below(t, a, b)
  {
    Put(t, a, b, At(t, a, b).(name := name))
  }

  /** (a, b) stands at or below the root of `t`. */
  predicate OnPath(t: Tree, a: nat, b: nat) {
    t.Node? && Shape(t) && if t.bits == b then t.addr == a else Below(t, a, b)
  }

  /** Seen from below: what happened to one half happens to the node, by one step of the upward walk. */
  lemma ReplaceUp(t: Tree, right: bool, a: nat, b: nat, k: Tree)
    requires Shape(t) && t.Node? && !Taken(t)
    requires OnPath(if right then t.one else t.zero, a, b)
    requires Replace(if right then t.one else t.zero, a, b, k).Node?
    ensures OnPath(t, a, b)
    ensures Replace(t, a, b, k) == Refresh(
              if right then t.(one := Replace(t.one, a, b, k)) else t.(zero := Replace(t.zero, a, b, k)))
  {
    var half := if right then t.one else t.zero;
    HalvesAligned(t.addr, t.bits);
    if half.bits < b { AtInside(half, a, b); }
    assert right <==> Middle(t.addr, t.bits) <= a;
    assert At(t, a, b) == if half.bits == b then half else At(half, a, b);
  }

  /** A change below that keeps the better hole of the half changes nothing in the hole numbers above. */
  lemma SameHolesUp(t: Tree, right: bool, k: Tree)
    requires Shape(t) && t.Node? && !Taken(t) && k.Node?
    requires var half := if right then t.one else t.zero; half.Node? && MinHole(k) == MinHole(half)
    ensures Refresh(if right then t.(one := k) else t.(zero := k)) == if right then t.(one := k) else t.(zero := k)
  {}

  /** A half of a node, cut off or replaced, at the node itself. */
  lemma PutAtParent(t: Tree, right: bool, k: Tree)
    requires Shape(t) && t.Node? && !Taken(t)
    requires (if right then t.one else t.zero).Node?
    ensures var half := if right then t.one else t.zero;
            && Below(t, half.addr, half.bits) && At(t, half.addr, half.bits) == half
            && Put(t, half.addr, half.bits, k) ==
                 if right then t.(one := k, onehole := SideHole(k, t.bits))
                 else t.(zero := k, zerohole := SideHole(k, t.bits))
  {
    HalvesAligned(t.addr, t.bits);
  }

  /** The half of a node that is in the tree is in the tree. */
  lemma {:induction false} HalfAt(t: Tree, a: nat, b: nat, right: bool)
    requires Shape(t) && At(t, a, b).Node?
    requires var v := At(t, a, b); (if right then v.one else v.zero).Node?
    ensures var v := At(t, a, b);
            var half := if right then v.one else v.zero;
            At(t, half.addr, half.bits) == half && half.bits == b + 1 && b < 32
  {
    var v := At(t, a, b);
    var half := if right then v.one else v.zero;
    AtInside(t, a, b);
    assert Shape(v) && !Taken(v);
    HalvesAligned(a, b);
    if t.bits < b {
      SplitWithin(t.addr, t.bits, a, b);
      HalfAt(if a < Middle(t.addr, t.bits) then t.zero else t.one, a, b, right);
      SplitWithin(t.addr, t.bits, half.addr, b + 1);
      AlignedWithinOuter(t, a, b, half.addr);
    }
  }

  /** Both halves of a block lie on the same side of any larger block's middle. */
  lemma AlignedWithinOuter(t: Tree, a: nat, b: nat, c: nat)
    requires t.Node? && t.bits < b < 32 && Aligned(t.addr, t.bits) && Within(t.addr, t.bits, a, b)
    requires c == a || c == Middle(a, b)
    ensures a < Middle(t.addr, t.bits) <==> c < Middle(t.addr, t.bits)
  {
    SplitWithin(t.addr, t.bits, a, b);
  }

  lemma {:induction false} PutShape(t: Tree, a: nat, b: nat, k: Tree)
    requires Below(t, a, b) && Shape(k)
    requires k.Node? ==> k.addr == a && k.bits == b
    ensures Shape(Put(t, a, b, k))
  {
    HalvesAligned(t.addr, t.bits);
    BelowHalf(t, a, b);
    if t.bits + 1 == b {
    } else if a < Middle(t.addr, t.bits) {
      PutShape(t.zero, a, b, k);
    } else {
      PutShape(t.one, a, b, k);
    }
  }

  /** Replacing a subtree replaces exactly its allocated blocks. */
  lemma {:induction false} PutEntries(t: Tree, a: nat, b: nat, k: Tree)
    requires Below(t, a, b) && Shape(k)
    requires k.Node? ==> k.addr == a && k.bits == b
    ensures Entries(Put(t, a, b, k)) == Entries(t) - Entries(At(t, a, b)) + Entries(k)
  {
    BelowHalf(t, a, b);
    PutShape(t, a, b, k);
    var left := a < Middle(t.addr, t.bits);
    var half := if left then t.zero else t.one;
    var t' := Put(t, a, b, k);
    HalvesApart(t, left, At(t, a, b));
    Union(t');
    if t.bits + 1 < b {
      PutEntries(half, a, b, k);
      assert (if left then t'.zero else t'.one) == Put(half, a, b, k);
    }
    Swap(Entries(half), Entries(if left then t.one else t.zero), Entries(At(t, a, b)), Entries(k));
  }

  lemma Union(t: Tree)
    requires t.Node? && !Taken(t)
    ensures Entries(t) == Entries(t.zero) + Entries(t.one)
  {}

  lemma Swap<T>(x: set<T>, y: set<T>, v: set<T>, k: set<T>)
    requires v !! y
    ensures x - v + k + y == (x + y) - v + k
    ensures y + (x - v + k) == (x + y) - v + k
  {}

  /** The blocks below a node of one half are not among those of the other half. */
  lemma HalvesApart(t: Tree, left: bool, v: Tree)
    requires Shape(t) && t.Node? && !Taken(t)
    requires var half := if left then t.zero else t.one;
             half.Node? && forall e :: e in Leaves(v) ==> e in Leaves(half)
    ensures Entries(v) !! Entries(if left then t.one else t.zero)
    ensures Entries(t) == Entries(t.zero) + Entries(t.one)
  {
    HalvesAligned(t.addr, t.bits);
    if t.zero.Node? { LeavesInside(t.zero); }
    if t.one.Node? { LeavesInside(t.one); }
  }

  lemma {:induction false} PutNoHollow(t: Tree, a: nat, b: nat, k: Tree)
    requires Below(t, a, b) && NoHollow(t) && k.Node? && NoHollow(k)
    ensures NoHollow(Put(t, a, b, k))
  {
    BelowHalf(t, a, b);
    if t.bits + 1 < b {
      PutNoHollow(if a < Middle(t.addr, t.bits) then t.zero else t.one, a, b, k);
    }
  }

  // ---------- find ----------

  predicate NamedAt(e: Entry, x: nat) {
    e.addr == x && e.name.Some?
  }

  lemma {:induction false} FindSound(t: Tree, x: nat)
    requires Shape(t)
    ensures var f := Find(t, x);
            f.Node? ==> Taken(f) && f.name.Some? && f.addr == x && Entry(f.name, x, f.bits) in Leaves(t)
  {
    if t.Nil? || (x == t.addr && t.name.Some?) || 32 <= t.bits {
    } else if BitSet(x, 31 - t.bits) {
      FindSound(t.one, x);
    } else {
      FindSound(t.zero, x);
    }
  }

  /** Every allocated block has its node. */
  lemma {:induction false} LeafAt(t: Tree, e: Entry)
    requires Shape(t) && e in Leaves(t)
    ensures Taken(At(t, e.addr, e.bits)) && At(t, e.addr, e.bits).name == e.name
  {
    if !Taken(t) {
      LeavesInside(t);
      if t.zero.Node? { LeavesInside(t.zero); }
      if t.one.Node? { LeavesInside(t.one); }
      HalvesAligned(t.addr, t.bits);
      LeafAt(if e in Leaves(t.zero) then t.zero else t.one, e);
    }
  }

  lemma {:induction false} FindComplete(t: Tree, e: Entry)
    requires Shape(t) && e in Leaves(t) && e.name.Some?
    ensures Find(t, e.addr) == At(t, e.addr, e.bits) && Find(t, e.addr).Node?
  {
    LeafAt(t, e);
    if !Taken(t) {
      LeavesInside(t);
      BitIsHalf(t.addr, t.bits, e.addr);
      if t.zero.Node? { LeavesInside(t.zero); }
      if t.one.Node? { LeavesInside(t.one); }
      FindComplete(if e in Leaves(t.zero) then t.zero else t.one, e);
    }
  }

  /** find_net returns the named block that starts at `x` if there is one, and nothing otherwise. */
  lemma FindIff(t: Tree, x: nat)
    requires Shape(t)
    ensures Find(t, x).Node? <==> exists e :: e in Leaves(t) && NamedAt(e, x)
    ensures var f := Find(t, x);
            f.Node? ==> Entry(f.name, f.addr, f.bits) in Leaves(t) && NamedAt(Entry(f.name, f.addr, f.bits), x)
                        && Taken(f) && At(t, f.addr, f.bits) == f
  {
    FindSound(t, x);
    var f := Find(t, x);
    if f.Node? {
      var e := Entry(f.name, f.addr, f.bits);
      assert e in Leaves(t) && NamedAt(e, x);
      FindComplete(t, e);
    }
    if e :| e in Leaves(t) && NamedAt(e, x) {
      FindComplete(t, e);
    }
  }

  // ---------- what delete and grow do to the allocated blocks ----------

  function EntryAt(t: Tree, a: nat, b: nat): Entry
    requires At(t, a, b).Node?
  {
    Entry(At(t, a, b).name, a, b)
  }

  lemma TakenEntries(t: Tree, a: nat, b: nat)
    requires Shape(t) && Taken(At(t, a, b))
    ensures Entries(At(t, a, b)) == {EntryAt(t, a, b)} && EntryAt(t, a, b) in Entries(t)
  {
    AtInside(t, a, b);
    var v := At(t, a, b);
    assert Leaves(v) == [Entry(v.name, v.addr, v.bits)];
    assert EntryAt(t, a, b) in Leaves(v);
  }

  /** Deleting a net frees exactly its block. */
  lemma DelFrees(t: Tree, a: nat, b: nat)
    requires Below(t, a, b) && Taken(At(t, a, b))
    ensures Shape(Del(t, a, b))
    ensures Entries(Del(t, a, b)) == Entries(t) - {EntryAt(t, a, b)}
  {
    PutShape(t, a, b, Nil);
    PutEntries(t, a, b, Nil);
    TakenEntries(t, a, b);
  }

  lemma SetNameRenames(t: Tree, a: nat, b: nat, name: Option<string>)
    requires Below(t, a, b) && Taken(At(t, a, b))
    ensures Shape(SetName(t, a, b, name))
    ensures Entries(SetName(t, a, b, name)) == Entries(t) - {EntryAt(t, a, b)} + {Entry(name, a, b)}
    ensures NoHollow(t) ==> NoHollow(SetName(t, a, b, name))
  {
    AtInside(t, a, b);
    var k := At(t, a, b).(name := name);
    PutShape(t, a, b, k);
    PutEntries(t, a, b, k);
    TakenEntries(t, a, b);
    assert Leaves(k) == [Entry(name, a, b)];
    if NoHollow(t) { PutNoHollow(t, a, b, k); }
  }

  /** The parent of a node that can grow: the node is its left half, its right half is open. */
  lemma GrowParent(t: Tree, a: nat, b: nat)
    requires CanGrow(t, a, b) && Kidless(At(t, a, b))
    ensures var p := At(t, a, b - 1);
            && p.addr == a && p.bits == b - 1 && Shape(p) && !Taken(p)
            && p.zero == At(t, a, b) && Entries(p) == Entries(At(t, a, b))
    ensures Aligned(a, b - 1) && Within(t.addr, t.bits, a, b - 1)
    ensures b - 1 == t.bits ==> At(t, a, b - 1) == t
    ensures b - 1 > t.bits ==> Below(t, a, b - 1)
  {
    AtInside(t, a, b - 1);
    AtParent(t, a, b);
    Union(At(t, a, b - 1));
  }

  lemma {:induction false} AtParent(t: Tree, a: nat, b: nat)
    requires CanGrow(t, a, b)
    ensures At(t, a, b - 1).zero == At(t, a, b) && !Taken(At(t, a, b - 1))
  {
    BelowHalf(t, a, b);
    if t.bits + 1 < b {
      AtParent(if a < Middle(t.addr, t.bits) then t.zero else t.one, a, b);
    } else {
      AtInside(t, a, b);
    }
  }

  /** Growing a net doubles its block into the neighbouring half, which held no allocated address. */
  lemma GrowDoubles(t: Tree, a: nat, b: nat)
    requires CanGrow(t, a, b) && Taken(At(t, a, b))
    ensures Shape(Grow(t, a, b))
    ensures Entries(Grow(t, a, b)) == Entries(t) - {EntryAt(t, a, b)} + {Entry(At(t, a, b).name, a, b - 1)}
    ensures Within(t.addr, t.bits, a, b - 1) && Size(b - 1) == 2 * Size(b)
    ensures NoHollow(t) ==> NoHollow(Grow(t, a, b))
  {
    GrowParent(t, a, b);
    TakenEntries(t, a, b);
    var k := Grown(t, a, b);
    GrownEntries(k);
    if b - 1 > t.bits {
      PutShape(t, a, b - 1, k);
      PutEntries(t, a, b - 1, k);
      if NoHollow(t) { PutNoHollow(t, a, b - 1, k); }
    }
  }

  /** Seen from the parent: only a left half can grow, and only when the right half has no node. */
  lemma GrowFromParent(t: Tree, a: nat, b: nat, right: bool)
    requires Shape(t) && At(t, a, b).Node? && b < 32
    requires (if right then At(t, a, b).one else At(t, a, b).zero).Node?
    ensures var v := At(t, a, b);
            var half := if right then v.one else v.zero;
            && half.bits == b + 1 && (CanGrow(t, half.addr, b + 1) <==> !right && v.one.Nil?)
            && (!right ==> half.addr == a)
  {
    var v := At(t, a, b);
    HalfAt(t, a, b, right);
    AtInside(t, a, b);
    assert Shape(v) && !Taken(v);
    var half := if right then v.one else v.zero;
    if right {
      MiddleNotAligned(a, b);
      if At(t, half.addr, b).Node? { AtInside(t, half.addr, b); }
    }
  }

  lemma GrowKeepsShape(t: Tree, a: nat, b: nat)
    requires CanGrow(t, a, b)
    ensures Shape(Grow(t, a, b))
  {
    AtInside(t, a, b - 1);
    if b - 1 > t.bits { PutShape(t, a, b - 1, Grown(t, a, b)); }
  }

  lemma GrownEntries(k: Tree)
    requires Taken(k)
    ensures Entries(k) == {Entry(k.name, k.addr, k.bits)} && NoHollow(k)
  {
    assert Leaves(k) == [Entry(k.name, k.addr, k.bits)];
  }

  /** Growth is granted exactly to the left half of a parent whose right half has no node. */
  lemma {:induction false} GrowGranted(t: Tree, a: nat, b: nat)
    requires Below(t, a, b)
    ensures CanGrow(t, a, b) <==> Aligned(a, b - 1) && At(t, a + Size(b), b).Nil?
  {
    BelowHalf(t, a, b);
    if t.bits + 1 == b {
      GrowGrantedKid(t, a, b);
    } else {
      var half := if a < Middle(t.addr, t.bits) then t.zero else t.one;
      GrowGranted(half, a, b);
      assert CanGrow(t, a, b) <==> CanGrow(half, a, b);
      if Aligned(a, b - 1) {
        SameHalf(t, a, b);
      }
    }
  }

  lemma SameHalf(t: Tree, a: nat, b: nat)
    requires Below(t, a, b) && t.bits + 1 < b && Aligned(a, b - 1)
    ensures a < Middle(t.addr, t.bits) <==> a + Size(b) < Middle(t.addr, t.bits)
  {
    BelowHalf(t, a, b);
    HalvesAligned(t.addr, t.bits);
    NestedOrDisjoint(t.addr, t.bits, a, b - 1);
    SplitWithin(t.addr, t.bits, a, b - 1);
  }

  lemma GrowGrantedKid(t: Tree, a: nat, b: nat)
    requires Below(t, a, b) && t.bits + 1 == b
    ensures CanGrow(t, a, b) <==> Aligned(a, b - 1) && At(t, a + Size(b), b).Nil?
  {
    BelowHalf(t, a, b);
    if a == t.addr {
      assert At(t, a + Size(b), b) == At(t.one, a + Size(b), b);
      assert t.one.Node? ==> At(t.one, a + Size(b), b) == t.one;
    } else {
      MiddleNotAligned(t.addr, t.bits);
    }
  }

  lemma MiddleNotAligned(a: nat, n: nat)
    requires n < 32 && Aligned(a, n)
    ensures !Aligned(Middle(a, n), n)
  {
    if Aligned(Middle(a, n), n) { AlignedApart(a, Middle(a, n), n); }
  }

  // ---------- the upward walk as the code writes it ----------

  /** The walk reads both kids of the node it is at: None when one of them is the null pointer. */
  function ReadBothKids(t: Tree): Option<Tree>
    requires t.Node?
  {
    if t.zero.Nil? || t.one.Nil? then None
    else Some(t.(onehole := MinHole(t.one), zerohole := MinHole(t.zero)))
  }

  /** del_net with the walk as written: from the grandparent up to the root, reading both kids of each. */
  function DelAsWritten(t: Tree, a: nat, b: nat): Option<Tree>
    requires Below(t, a, b)
  {
    BelowHalf(t, a, b);
    if t.bits + 1 == b then Some(Del(t, a, b))
    else if a < Middle(t.addr, t.bits) then
      match DelAsWritten(t.zero, a, b)
      case None => None
      case Some(kid) => if kid.Nil? then None else ReadBothKids(t.(zero := kid))
    else
      match DelAsWritten(t.one, a, b)
      case None => None
      case Some(kid) => if kid.Nil? then None else ReadBothKids(t.(one := kid))
  }

  /** A node strictly above the parent of (a, b) has only one kid. */
  predicate WalkFaults(t: Tree, a: nat, b: nat) {
    t.Node? && t.bits + 1 < b && t.bits < 32 &&
    (t.zero.Nil? || t.one.Nil? || WalkFaults(if a < Middle(t.addr, t.bits) then t.zero else t.one, a, b))
  }

  /** As written, a deletion goes wrong exactly when a node above the parent has only one kid. */
  lemma {:induction false} DelFaultsIff(t: Tree, a: nat, b: nat)
    requires Below(t, a, b)
    ensures DelAsWritten(t, a, b) == if WalkFaults(t, a, b) then None else Some(Del(t, a, b))
  {
    BelowHalf(t, a, b);
    if t.bits + 1 < b {
      DelFaultsIff(if a < Middle(t.addr, t.bits) then t.zero else t.one, a, b);
    }
  }

  /** grow_net with the walk as written, from the grandparent up. */
  function GrowAsWritten(t: Tree, a: nat, b: nat): Option<Tree>
    requires CanGrow(t, a, b)
    decreases t
  {
    BelowHalf(t, a, b);
    if t.bits + 1 == b then Some(Grown(t, a, b))
    else
      CanGrowHalf(t, a, b);
      if a < Middle(t.addr, t.bits) then
        match GrowAsWritten(t.zero, a, b)
        case None => None
        case Some(kid) => if kid.Nil? then None else ReadBothKids(t.(zero := kid))
      else
        match GrowAsWritten(t.one, a, b)
        case None => None
        case Some(kid) => if kid.Nil? then None else ReadBothKids(t.(one := kid))
  }

  lemma CanGrowHalf(t: Tree, a: nat, b: nat)
    requires CanGrow(t, a, b) && t.bits + 1 < b
    ensures var half := if a < Middle(t.addr, t.bits) then t.zero else t.one;
            CanGrow(half, a, b) && Grown(half, a, b) == Grown(t, a, b) && half.bits < b
            && (t.bits + 2 == b ==> half == At(t, a, b - 1) && half.addr == a)
            && (t.bits + 2 < b ==> Below(half, a, b - 1))
            && Below(t, a, b - 1)
  {
    BelowHalf(t, a, b);
    AtInside(t, a, b - 1);
    BelowHalf(t, a, b - 1);
  }

  /** Growth goes wrong under the same condition as deletion. */
  lemma {:induction false} GrowFaultsIff(t: Tree, a: nat, b: nat)
    requires CanGrow(t, a, b)
    ensures GrowAsWritten(t, a, b) == if WalkFaults(t, a, b) then None else Some(Grow(t, a, b))
  {
    BelowHalf(t, a, b);
    if t.bits + 1 < b {
      CanGrowHalf(t, a, b);
      GrowFaultsIff(if a < Middle(t.addr, t.bits) then t.zero else t.one, a, b);
    }
  }
}
