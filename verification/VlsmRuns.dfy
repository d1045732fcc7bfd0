/** Whole sessions of bin/vlsm.c: init_tree, then any sequence of ALLOCATE, GROW and FREE; WRITE and LOAD. */
module VlsmRuns {
  import opened Basics
  import opened VlsmBlocks
  import opened VlsmTree
  import opened VlsmAlloc
  import opened VlsmEdit

  // ---------- init_tree ----------

  /** Fails on the all-ones address and on 7 or fewer, or 29 or more, network bits. */
  predicate MayInit(a: nat, n: nat) {
    a < Size(0) - 1 && 8 <= n <= 28
  }

  function EmptyRoot(a: nat, n: nat): Tree {
    Node(a, n, None, n + 1, n + 1, Nil, Nil)
  }

  /** The last address of the block, with all host bits set. */
  function LastOf(a: nat, n: nat): nat
    requires n <= 32
  {
    a + Size(n) - 1
  }

  /** The root with its all-zeros and all-ones addresses set aside, unnamed. */
  function Init(a: nat, n: nat): Tree
    requires MayInit(a, n) && Aligned(a, n)
  {
    FreshShape(EmptyRoot(a, n));
    var t1 := Alloc(EmptyRoot(a, n), 32, Some(a)).0;
    AllocShape(EmptyRoot(a, n), 32, Some(a));
    Alloc(t1, 32, Some(LastOf(a, n))).0
  }

  /** The two reserved addresses of a root block. */
  function Reserved(a: nat, n: nat): set<Entry>
    requires n <= 32
  {
    {Entry(None, a, 32), Entry(None, LastOf(a, n), 32)}
  }

  /** What holds in every state of a session whose root is (a, n). */
  predicate Good(t: Tree, a: nat, n: nat) {
    && t.Node? && Shape(t) && t.addr == a && t.bits == n && n <= 28
    && !Kidless(t)
    && Reserved(a, n) <= Entries(t)
    && (forall e :: e in Entries(t) && e.name.None? ==> e in Reserved(a, n))
  }

  lemma {:induction false} OneAddressFree(t: Tree, x: nat)
    requires MayAlloc(t, 32) && t.bits < 32 && InBlock(x, t.addr, t.bits) && Open(t, x, 32)
    ensures var (t', r) := Alloc(t, 32, Some(x));
            r == Some(Entry(None, x, 32)) && Entries(t') == Entries(t) + {Entry(None, x, 32)}
  {
    assert Size(32) == 1;
    BlockOfSelf(x, 32);
    OpenRequestSucceeds(t, 32, x);
    RequestedPlace(t, 32, x);
    AllocTakesOpen(t, 32, Some(x));
  }

  /** Setting one free address aside, as init_tree does. */
  lemma SetAside(t: Tree, x: nat)
    requires Shape(t) && t.Node? && t.bits < 32 && InBlock(x, t.addr, t.bits) && Open(t, x, 32)
    requires NoHollow(t.zero) && NoHollow(t.one)
    ensures var t' := Alloc(t, 32, Some(x)).0;
            && Shape(t') && t'.addr == t.addr && t'.bits == t.bits && NoHollow(t') && !Kidless(t')
            && Entries(t') == Entries(t) + {Entry(None, x, 32)}
  {
    OneAddressFree(t, x);
    AllocShape(t, 32, Some(x));
    AllocNoHollow(t, 32, Some(x));
  }

  lemma LastInBlock(a: nat, n: nat)
    requires n <= 28
    ensures a < LastOf(a, n) && InBlock(LastOf(a, n), a, n) && Size(32) == 1
  {
    Pow2Mono(1, 32 - n);
  }

  lemma InitGood(a: nat, n: nat)
    requires MayInit(a, n) && Aligned(a, n)
    ensures Good(Init(a, n), a, n) && Entries(Init(a, n)) == Reserved(a, n) && NoHollow(Init(a, n))
  {
    var t0 := EmptyRoot(a, n);
    FreshShape(EmptyRoot(a, n));
    LastInBlock(a, n);
    assert Leaves(t0) == [];
    assert Open(t0, a, 32);
    SetAside(t0, a);
    var t1 := Alloc(t0, 32, Some(a)).0;
    var last := LastOf(a, n);
    forall e | e in Leaves(t1)
      ensures Apart(e, last, 32)
    {
      assert e in Entries(t1);
    }
    FreeIsOpen(t1, last, 32);
    SetAside(t1, last);
  }

  /** What `Good` means for the nets that users hold. */
  lemma GoodIsSafe(t: Tree, a: nat, n: nat)
    requires Good(t, a, n)
    ensures forall e :: e in Entries(t) && e.name.Some? ==>
              && Within(a, n, e.addr, e.bits) && n < e.bits
              && Apart(e, a, 32) && Apart(e, LastOf(a, n), 32)
    ensures forall e, f :: e in Entries(t) && f in Entries(t) && e != f ==> Before(e, f) || Before(f, e)
  {
    LeavesInside(t);
    LeavesAscending(t);
    LastInBlock(a, n);
    forall e, f | e in Entries(t) && f in Entries(t) && e != f
      ensures Before(e, f) || Before(f, e)
    {
      var s := Leaves(t);
      var i :| 0 <= i < |s| && s[i] == e;
      var j :| 0 <= j < |s| && s[j] == f;
      assert i < j ==> Before(s[i], s[j]);
      assert j < i ==> Before(s[j], s[i]);
    }
    forall e | e in Entries(t) && e.name.Some?
      ensures Apart(e, a, 32) && Apart(e, LastOf(a, n), 32) && n < e.bits && Within(a, n, e.addr, e.bits)
    {
      assert Entry(None, a, 32) in Entries(t);
      assert Entry(None, LastOf(a, n), 32) in Entries(t);
      assert e in Leaves(t);
    }
  }

  // ---------- the commands that change the tree ----------

  /**
   * The network bits for a number of hosts: the smallest block with more addresses than the hosts, the network and the
   * broadcast address need. A power of two is not filled: 6 hosts get 16 addresses.
   */
  method NetBits(hosts: nat) returns (nb: nat)
    requires 0 < hosts && hosts + 2 < 0x8000_0000
    ensures nb < 32 && Size(nb + 1) <= hosts + 2 < Size(nb)
  {
    var left := hosts + 2;
    ghost var total := left;
    nb := 32;
    while left > 0
      invariant nb <= 32 && left == Shifted(total, 32 - nb)
      invariant left == 0 ==> nb < 32 && Shifted(total, 31 - nb) > 0
    {
      BitsLeft(total, nb);
      left := left / 2;
      nb := nb - 1;
    }
    BitsFit(total, nb);
  }

  lemma BitsLeft(total: nat, nb: nat)
    requires nb <= 32 && 0 < Shifted(total, 32 - nb) && total < 0x8000_0000
    ensures 1 < nb && Shifted(total, 33 - nb) == Shifted(total, 32 - nb) / 2
  {
    ShiftedZero(total, 32 - nb);
    ShiftedMore(total, 32 - nb);
    Pow2Word();
    if nb <= 1 { Pow2Mono(31, 32 - nb); }
  }

  lemma BitsFit(total: nat, nb: nat)
    requires nb < 32 && Shifted(total, 32 - nb) == 0 && Shifted(total, 31 - nb) > 0
    ensures Size(nb + 1) <= total < Size(nb)
  {
    ShiftedZero(total, 32 - nb);
    ShiftedZero(total, 31 - nb);
  }

  function Shifted(x: nat, k: nat): nat {
    if k == 0 then x else Shifted(x / 2, k - 1)
  }

  lemma {:induction false} ShiftedMore(x: nat, k: nat)
    ensures Shifted(x, k + 1) == Shifted(x, k) / 2
  {
    if k > 0 { ShiftedMore(x / 2, k - 1); }
  }

  lemma {:induction false} ShiftedZero(x: nat, k: nat)
    ensures Shifted(x, k) == 0 <==> x < Pow2(k)
  {
    if k > 0 { ShiftedZero(x / 2, k - 1); }
  }

  type Bits = b: nat | b <= 32

  datatype Cmd =
    | Allocate(name: string, bits: Bits, req: Option<nat>)
    | GrowNet(x: nat)
    | FreeNet(x: nat)

  lemma AllocatedNode(t: Tree, a: nat, n: nat, nb: nat, req: Option<nat>)
    requires Good(t, a, n) && nb <= 32 && Alloc(t, nb, req).1.Some?
    ensures var (t', r) := Alloc(t, nb, req);
            && n < nb && Below(t', r.value.addr, nb) && Taken(At(t', r.value.addr, nb))
            && Open(t, r.value.addr, nb) && Within(a, n, r.value.addr, nb)
            && r.value == Entry(None, r.value.addr, nb)
            && Entries(t') == Entries(t) + {r.value} && !Kidless(t')
            && EntryAt(t', r.value.addr, nb) == r.value
  {
    if nb <= n { TooLarge(t, nb, req); }
    AllocTakesOpen(t, nb, req);
    AllocShape(t, nb, req);
    var (t', r) := Alloc(t, nb, req);
    assert r.value in Entries(t');
    LeafAt(t', r.value);
  }

  /** ALLOCATE, and one line of LOAD: a block for the request, then its name. */
  function AllocNamed(t: Tree, a: nat, n: nat, nb: Bits, req: Option<nat>, name: string): Option<Tree>
    requires Good(t, a, n)
  {
    var (t', r) := Alloc(t, nb, req);
    if r.None? then None
    else
      AllocatedNode(t, a, n, nb, req);
      Some(SetName(t', r.value.addr, nb, Some(name)))
  }

  lemma AllocNamedAdds(t: Tree, a: nat, n: nat, nb: Bits, req: Option<nat>, name: string)
    requires Good(t, a, n) && AllocNamed(t, a, n, nb, req, name).Some?
    ensures var t' := AllocNamed(t, a, n, nb, req, name).value;
            var x := Alloc(t, nb, req).1.value.addr;
            && Good(t', a, n) && Open(t, x, nb) && Within(a, n, x, nb)
            && Entries(t') == Entries(t) + {Entry(Some(name), x, nb)}
            && (NoHollow(t) ==> NoHollow(t'))
  {
    AllocatedNode(t, a, n, nb, req);
    var (t1, r) := Alloc(t, nb, req);
    var t' := SetName(t1, r.value.addr, nb, Some(name));
    SetNameRenames(t1, r.value.addr, nb, Some(name));
    assert r.value !in Entries(t) by {
      assert Free(t, r.value.addr, nb);
      assert !Apart(r.value, r.value.addr, nb);
    }
    if NoHollow(t) { AllocNoHollow(t, nb, req); }
    NotKidless(t', a, n);
  }

  /** The block at `x` is open, and it is the leftmost of the largest open ones. */
  ghost predicate FirstLargest(t: Tree, a: nat, n: nat, x: nat, h: nat) {
    && Within(a, n, x, h) && Open(t, x, h)
    && (forall d: nat, k: nat :: Within(a, n, d, k) && Open(t, d, k) ==> h < k || (h == k && x <= d))
  }

  /** The address of the root block that a request means: its network bits are taken for those of the root. */
  function Meant(x: nat, a: nat, n: nat): nat
    requires n <= 32
  {
    a + x % Size(n)
  }

  lemma MeantInBlock(t: Tree, nb: nat, x: nat)
    requires MayAlloc(t, nb)
    ensures InBlock(Meant(x, t.addr, t.bits), t.addr, t.bits)
    ensures Alloc(t, nb, Some(x)) == Alloc(t, nb, Some(Meant(x, t.addr, t.bits)))
  {
    var (m, y) := (Size(t.bits), Meant(x, t.addr, t.bits));
    AlignedMod(t.addr, t.bits);
    AlignedMod(if x < y then y - x else x - y, t.bits);
    SameResidue(x, t.addr, m);
    RequestOutside(t, nb, x, y);
  }

  lemma SameResidue(x: nat, a: nat, m: nat)
    requires m > 0 && a % m == 0
    ensures var y := a + x % m; (if x < y then y - x else x - y) % m == 0
  {
    var p, q := a / m, x / m;
    assert a == p * m && x == q * m + x % m;
    var d := if x < a + x % m then p - q else q - p;
    assert d * m == if x < a + x % m then p * m - q * m else q * m - p * m;
    if d < 0 {
      MulMono(d, -1, m);
      assert false;
    }
    DivModUnique(if x < a + x % m then a + x % m - x else x - (a + x % m), d, 0, m);
  }

  /** When ALLOCATE succeeds without an address, and the one new block then: the leftmost largest open space. */
  lemma AllocateSome(t: Tree, a: nat, n: nat, nb: Bits, name: string)
    requires Good(t, a, n) && n < nb
    ensures var r := AllocNamed(t, a, n, nb, None, name);
            && (r.Some? <==> exists c: nat :: Within(a, n, c, nb) && Open(t, c, nb))
            && (r.Some? ==> Entries(r.value) == Entries(t) + {Entry(Some(name), LeftHole(t), nb)}
                            && MinHole(t) <= nb && FirstLargest(t, a, n, LeftHole(t), MinHole(t)))
  {
    SomeBlockGranted(t, nb);
    if Alloc(t, nb, None).1.Some? {
      AllocNamedAdds(t, a, n, nb, None, name);
      OpenBound(t, LeftHole(t), nb);
      LargestIsFirst(t, a, n);
    }
  }

  lemma LargestIsFirst(t: Tree, a: nat, n: nat)
    requires Good(t, a, n) && MinHole(t) <= 32
    ensures FirstLargest(t, a, n, LeftHole(t), MinHole(t))
  {
    HoleWitness(t);
    forall d: nat, k: nat | Within(a, n, d, k) && Open(t, d, k)
      ensures MinHole(t) < k || (MinHole(t) == k && LeftHole(t) <= d)
    {
      OpenBound(t, d, k);
      if MinHole(t) == k { HoleLeftmost(t, d); }
    }
  }

  /** ... and with an address: the aligned block that holds it, if that is open. */
  lemma AllocateAt(t: Tree, a: nat, n: nat, nb: Bits, x: nat, name: string)
    requires Good(t, a, n) && n < nb
    ensures var (r, c) := (AllocNamed(t, a, n, nb, Some(x), name), BlockOf(Meant(x, a, n), nb));
            && Within(a, n, c, nb)
            && (r.Some? <==> Open(t, c, nb))
            && (r.Some? ==> Entries(r.value) == Entries(t) + {Entry(Some(name), c, nb)})
  {
    var y := Meant(x, a, n);
    MeantInBlock(t, nb, x);
    RequestGranted(t, nb, y);
    BlockOfWithin(a, n, y, nb);
    if Alloc(t, nb, Some(x)).1.Some? {
      RequestedPlace(t, nb, y);
      AllocNamedAdds(t, a, n, nb, Some(x), name);
    }
  }

  /** A block as large as the root block, or larger, is refused. */
  lemma AllocateTooLarge(t: Tree, a: nat, n: nat, nb: Bits, req: Option<nat>, name: string)
    requires Good(t, a, n) && nb <= n
    ensures AllocNamed(t, a, n, nb, req, name).None?
  {
    TooLarge(t, nb, req);
  }

  /** ALLOCATE in all its cases. */
  lemma AllocateMeans(t: Tree, a: nat, n: nat, nb: Bits, req: Option<nat>, name: string)
    requires Good(t, a, n)
    ensures var r := AllocNamed(t, a, n, nb, req, name);
            && (nb <= n ==> r.None?)
            && (n < nb && req.None? ==>
                  && (r.Some? <==> exists c: nat :: Within(a, n, c, nb) && Open(t, c, nb))
                  && (r.Some? ==> exists x: nat, h: nat :: h <= nb && FirstLargest(t, a, n, x, h) &&
                                    Entries(r.value) == Entries(t) + {Entry(Some(name), x, nb)}))
            && (n < nb && req.Some? ==>
                  var x := BlockOf(a + req.value % Size(n), nb);
                  && (r.Some? <==> Open(t, x, nb))
                  && (r.Some? ==> Entries(r.value) == Entries(t) + {Entry(Some(name), x, nb)}))
  {
    if nb <= n {
      AllocateTooLarge(t, a, n, nb, req, name);
    } else if req.None? {
      AllocateSome(t, a, n, nb, name);
    } else {
      AllocateAt(t, a, n, nb, req.value, name);
    }
  }

  lemma AllocNamedGood(t: Tree, a: nat, n: nat, nb: Bits, req: Option<nat>, name: string)
    requires Good(t, a, n) && AllocNamed(t, a, n, nb, req, name).Some?
    ensures Good(AllocNamed(t, a, n, nb, req, name).value, a, n)
  {
    AllocNamedAdds(t, a, n, nb, req, name);
  }

  /** A tree that holds the reserved addresses branches at its root. */
  lemma NotKidless(t: Tree, a: nat, n: nat)
    requires t.Node? && Shape(t) && t.addr == a && t.bits == n && n <= 28
    requires Entry(None, a, 32) in Entries(t)
    ensures !Kidless(t)
  {
    if Kidless(t) { KidlessEntries(t); }
  }

  lemma KidlessEntries(t: Tree)
    requires Kidless(t)
    ensures Entries(t) == if Taken(t) then {Entry(t.name, t.addr, t.bits)} else {}
  {
    assert Leaves(t) == if Taken(t) then [Entry(t.name, t.addr, t.bits)] else [];
  }

  function DoCmd(t: Tree, a: nat, n: nat, cmd: Cmd): Tree
    requires Good(t, a, n)
  {
    match cmd
    case Allocate(name, nb, req) =>
      (match AllocNamed(t, a, n, nb, req, name) case Some(t') => t' case None => t)
    case GrowNet(x) =>
      var f := Find(t, x);
      if f.Node? && CanGrow(t, x, f.bits) then Grow(t, x, f.bits) else t
    case FreeNet(x) =>
      var f := Find(t, x);
      if f.Node? then
        FoundBelow(t, a, n, x);
        Del(t, x, f.bits)
      else t
  }

  /** Named nets are below the root. */
  lemma FoundBelow(t: Tree, a: nat, n: nat, x: nat)
    requires Good(t, a, n) && Find(t, x).Node?
    ensures var f := Find(t, x); Below(t, x, f.bits) && Taken(At(t, x, f.bits)) && f.name.Some? && f.addr == x
    ensures At(t, x, Find(t, x).bits) == Find(t, x)
    ensures EntryAt(t, x, Find(t, x).bits) in Entries(t) && EntryAt(t, x, Find(t, x).bits).name.Some?
  {
    FindIff(t, x);
    GoodIsSafe(t, a, n);
  }

  /** Every command keeps the invariant. */
  lemma CmdKeepsGood(t: Tree, a: nat, n: nat, cmd: Cmd)
    requires Good(t, a, n)
    ensures Good(DoCmd(t, a, n, cmd), a, n)
    ensures NoHollow(t) && !cmd.FreeNet? ==> NoHollow(DoCmd(t, a, n, cmd))
  {
    match cmd
    case Allocate(name, nb, req) =>
      if AllocNamed(t, a, n, nb, req, name).Some? {
        AllocNamedAdds(t, a, n, nb, req, name);
      }
    case GrowNet(x) =>
      var f := Find(t, x);
      if f.Node? && CanGrow(t, x, f.bits) {
        FoundBelow(t, a, n, x);
        GrowDoubles(t, x, f.bits);
        NotKidless(Grow(t, x, f.bits), a, n);
      }
    case FreeNet(x) =>
      var f := Find(t, x);
      if f.Node? {
        FoundBelow(t, a, n, x);
        DelFrees(t, x, f.bits);
        NotKidless(Del(t, x, f.bits), a, n);
      }
  }

  /** FREE takes exactly the net at `x` away, if there is one. */
  lemma FreeRemoves(t: Tree, a: nat, n: nat, x: nat)
    requires Good(t, a, n)
    ensures Find(t, x).Node? <==> exists e :: e in Entries(t) && NamedAt(e, x)
    ensures Find(t, x).Nil? ==> DoCmd(t, a, n, FreeNet(x)) == t
    ensures forall e :: e in Entries(t) && NamedAt(e, x) ==> Entries(DoCmd(t, a, n, FreeNet(x))) == Entries(t) - {e}
  {
    FoundIff(t, x);
    forall e | e in Entries(t) && NamedAt(e, x)
      ensures Entries(DoCmd(t, a, n, FreeNet(x))) == Entries(t) - {e}
    {
      FoundEntry(t, a, n, e);
      DelFrees(t, x, e.bits);
    }
  }

  lemma FoundIff(t: Tree, x: nat)
    requires Shape(t)
    ensures Find(t, x).Node? <==> exists e :: e in Entries(t) && NamedAt(e, x)
  {
    FindIff(t, x);
    if e :| e in Leaves(t) && NamedAt(e, x) {
      assert e in Entries(t);
    }
  }

  /** The net is a left half, and its right half has no node. */
  predicate CanDouble(t: Tree, e: Entry) {
    0 < e.bits <= 32 && Aligned(e.addr, e.bits - 1) && At(t, e.addr + Size(e.bits), e.bits).Nil?
  }

  lemma GrowEntry(t: Tree, a: nat, n: nat, e: Entry)
    requires Good(t, a, n) && e in Entries(t) && e.name.Some?
    ensures Doubled(t, DoCmd(t, a, n, GrowNet(e.addr)), a, n, e)
  {
    FoundEntry(t, a, n, e);
    GrowGranted(t, e.addr, e.bits);
    if CanDouble(t, e) {
      DoubleEntry(t, a, n, e);
    }
  }

  lemma DoubleEntry(t: Tree, a: nat, n: nat, e: Entry)
    requires Good(t, a, n) && e in Entries(t) && e.name.Some? && CanGrow(t, e.addr, e.bits)
    ensures Grew(t, Grow(t, e.addr, e.bits), e) && Free(t, e.addr + Size(e.bits), e.bits)
  {
    FoundEntry(t, a, n, e);
    GrowDoubles(t, e.addr, e.bits);
    GrownIntoFree(t, Grow(t, e.addr, e.bits), e);
  }

  /** GROW makes the net at `x` twice as large where it is, over free space, iff it can be doubled. */
  lemma GrowReplaces(t: Tree, a: nat, n: nat, x: nat)
    requires Good(t, a, n)
    ensures Find(t, x).Node? <==> exists e :: e in Entries(t) && NamedAt(e, x)
    ensures Find(t, x).Nil? ==> DoCmd(t, a, n, GrowNet(x)) == t
    ensures forall e :: e in Entries(t) && NamedAt(e, x) ==> Doubled(t, DoCmd(t, a, n, GrowNet(x)), a, n, e)
  {
    FoundIff(t, x);
    forall e | e in Entries(t) && NamedAt(e, x)
      ensures Doubled(t, DoCmd(t, a, n, GrowNet(x)), a, n, e)
    {
      GrowEntry(t, a, n, e);
    }
  }

  /** The same with the test that the program makes. */
  lemma GrowMeans(t: Tree, a: nat, n: nat, x: nat)
    requires Good(t, a, n)
    ensures var ok := Find(t, x).Node? && CanGrow(t, x, Find(t, x).bits);
            && (ok ==> exists e :: e in Entries(t) && NamedAt(e, x))
            && (!ok ==> DoCmd(t, a, n, GrowNet(x)) == t)
    ensures var (ok, t') := (Find(t, x).Node? && CanGrow(t, x, Find(t, x).bits), DoCmd(t, a, n, GrowNet(x)));
            && (forall e :: e in Entries(t) && NamedAt(e, x) ==>
                 && n < e.bits <= 32
                 && (ok <==> Aligned(x, e.bits - 1) && At(t, x + Size(e.bits), e.bits).Nil?))
            && (forall e :: e in Entries(t) && NamedAt(e, x) && ok ==> Grew(t, t', e))
  {
    GrowReplaces(t, a, n, x);
    forall e | e in Entries(t) && NamedAt(e, x)
      ensures Find(t, x).Node? && Find(t, x).bits == e.bits && Doubled(t, DoCmd(t, a, n, GrowNet(x)), a, n, e)
    {
      FoundEntry(t, a, n, e);
    }
  }

  /** The net is replaced by one of twice its size at the same place, and no other is touched. */
  predicate Grew(t: Tree, t': Tree, e: Entry) {
    0 < e.bits && Entries(t') == Entries(t) - {e} + {Entry(e.name, e.addr, e.bits - 1)}
  }

  predicate Doubled(t: Tree, t': Tree, a: nat, n: nat, e: Entry) {
    && n < e.bits <= 32
    && (CanDouble(t, e) <==> CanGrow(t, e.addr, e.bits))
    && (CanDouble(t, e) ==> Free(t, e.addr + Size(e.bits), e.bits)
                            && Grew(t, t', e))
    && (!CanDouble(t, e) ==> t' == t)
  }

  /** What a net grows into was free. */
  lemma GrownIntoFree(t: Tree, t': Tree, e: Entry)
    requires Shape(t) && Shape(t') && t.Node? && e in Entries(t) && 0 < e.bits <= 32
    requires Entries(t') == Entries(t) - {e} + {Entry(e.name, e.addr, e.bits - 1)}
    ensures Free(t, e.addr + Size(e.bits), e.bits)
  {
    var g := Entry(e.name, e.addr, e.bits - 1);
    LeavesInside(t);
    forall f | f in Leaves(t)
      ensures Apart(f, e.addr + Size(e.bits), e.bits)
    {
      assert f in Entries(t);
      if f == g {
        InOrder(t, e, g);
      } else if f != e {
        InOrder(t', f, g);
      }
      ApartFromGrown(e, f);
    }
  }

  lemma ApartFromGrown(e: Entry, f: Entry)
    requires 0 < e.bits <= 32 && f.bits <= 32
    requires var g := Entry(e.name, e.addr, e.bits - 1); f == e || Before(f, g) || Before(g, f)
    ensures Apart(f, e.addr + Size(e.bits), e.bits)
  {}

  lemma InOrder(t: Tree, e: Entry, f: Entry)
    requires Shape(t) && e in Entries(t) && f in Entries(t) && e != f
    ensures Before(e, f) || Before(f, e)
  {
    LeavesAscending(t);
    var s := Leaves(t);
    var i :| 0 <= i < |s| && s[i] == e;
    var j :| 0 <= j < |s| && s[j] == f;
    assert i < j ==> Before(s[i], s[j]);
    assert j < i ==> Before(s[j], s[i]);
  }

  /** The net found at `x` is the only named one there, and it is below the root. */
  lemma FoundEntry(t: Tree, a: nat, n: nat, e: Entry)
    requires Good(t, a, n) && e in Entries(t) && e.name.Some?
    ensures var f := Find(t, e.addr);
            && f.Node? && f.bits == e.bits && n < e.bits <= 32
            && Below(t, e.addr, e.bits) && Taken(At(t, e.addr, e.bits)) && EntryAt(t, e.addr, e.bits) == e
  {
    assert e in Leaves(t);
    FindComplete(t, e);
    LeafAt(t, e);
    LeavesInside(t);
    AtInside(t, e.addr, e.bits);
    GoodIsSafe(t, a, n);
  }

  /** The state after a session. */
  function Run(a: nat, n: nat, cmds: seq<Cmd>): (t: Tree)
    requires MayInit(a, n) && Aligned(a, n)
    ensures Good(t, a, n)
  {
    if cmds == [] then
      InitGood(a, n);
      Init(a, n)
    else
      var t := Run(a, n, cmds[..|cmds| - 1]);
      CmdKeepsGood(t, a, n, cmds[|cmds| - 1]);
      DoCmd(t, a, n, cmds[|cmds| - 1])
  }

  /**
   * In every state of every session the nets are aligned blocks inside the root block, pairwise
   * disjoint, and none of them covers the all-zeros or the all-ones address.
   */
  lemma SessionSafe(a: nat, n: nat, cmds: seq<Cmd>)
    requires MayInit(a, n) && Aligned(a, n)
    ensures var t := Run(a, n, cmds);
            && Reserved(a, n) <= Entries(t)
            && (forall e :: e in Entries(t) && e.name.Some? ==>
                  Within(a, n, e.addr, e.bits) && Apart(e, a, 32) && Apart(e, LastOf(a, n), 32))
            && (forall e, f :: e in Entries(t) && f in Entries(t) && e != f ==> Before(e, f) || Before(f, e))
  {
    GoodIsSafe(Run(a, n, cmds), a, n);
  }

  lemma {:induction false} NothingFreed(a: nat, n: nat, cmds: seq<Cmd>)
    requires MayInit(a, n) && Aligned(a, n)
    requires forall c :: c in cmds ==> !c.FreeNet?
    ensures NoHollow(Run(a, n, cmds))
  {
    if cmds == [] {
      InitGood(a, n);
    } else {
      NothingFreed(a, n, cmds[..|cmds| - 1]);
      CmdKeepsGood(Run(a, n, cmds[..|cmds| - 1]), a, n, cmds[|cmds| - 1]);
    }
  }

  /**
   * In sessions that free nothing, every hole number is exact, so a request for some block succeeds
   * iff a free aligned block of the size exists, and one for an address iff its block is free.
   */
  lemma ExactSession(a: nat, n: nat, cmds: seq<Cmd>, nb: Bits, x: nat)
    requires MayInit(a, n) && Aligned(a, n)
    requires forall c :: c in cmds ==> !c.FreeNet?
    ensures AllExact(Run(a, n, cmds))
    ensures var t := Run(a, n, cmds);
            && (Alloc(t, nb, None).1.Some? <==> exists c: nat :: Within(a, n, c, nb) && Free(t, c, nb))
            && (InBlock(x, a, n) && n <= nb ==>
                  (Alloc(t, nb, Some(x)).1.Some? <==> Free(t, BlockOf(x, nb), nb)))
  {
    NothingFreed(a, n, cmds);
    ExactState(Run(a, n, cmds), a, n, nb, x);
  }

  /** ... as it is in every state without hollow nodes. */
  lemma ExactState(t: Tree, a: nat, n: nat, nb: Bits, x: nat)
    requires Good(t, a, n) && NoHollow(t)
    ensures AllExact(t)
    ensures Alloc(t, nb, None).1.Some? <==> exists c: nat :: Within(a, n, c, nb) && Free(t, c, nb)
    ensures InBlock(x, a, n) && n <= nb ==> (Alloc(t, nb, Some(x)).1.Some? <==> Free(t, BlockOf(x, nb), nb))
  {
    NoHollowExact(t);
    if n < nb {
      SomeBlockGranted(t, nb);
      if c: nat :| Within(a, n, c, nb) && Free(t, c, nb) { FreeIsOpen(t, c, nb); }
      if InBlock(x, a, n) {
        RequestGranted(t, nb, x);
        if Free(t, BlockOf(x, nb), nb) { FreeIsOpen(t, BlockOf(x, nb), nb); }
      }
    } else {
      TooLarge(t, nb, None);
      TooLarge(t, nb, Some(x));
      if n == nb {
        assert Entry(None, a, 32) in Leaves(t) && Size(32) == 1;
        assert !Free(t, a, n);
        if InBlock(x, a, n) { BlockOfWithin(a, n, x, n); }
      }
    }
  }

  /** ... and a block without a request starts at the first address of the leftmost largest free block. */
  lemma LeftmostLargest(a: nat, n: nat, cmds: seq<Cmd>, nb: Bits)
    requires MayInit(a, n) && Aligned(a, n)
    requires forall c :: c in cmds ==> !c.FreeNet?
    requires Alloc(Run(a, n, cmds), nb, None).1.Some?
    ensures var t := Run(a, n, cmds);
            var (c, h) := (Alloc(t, nb, None).1.value.addr, MinHole(t));
            && h <= nb && Within(a, n, c, h) && Free(t, c, h)
            && (forall d, k :: Within(a, n, d, k) && Free(t, d, k) ==> h <= k)
            && (forall d :: Within(a, n, d, h) && Free(t, d, h) ==> c <= d)
  {
    NothingFreed(a, n, cmds);
    var t := Run(a, n, cmds);
    AllocatedNode(t, a, n, nb, None);
    SomeBlockGranted(t, nb);
    HoleWitness(t);
    OpenBound(t, Alloc(t, nb, None).1.value.addr, nb);
    forall d, k | Within(a, n, d, k) && Free(t, d, k)
      ensures MinHole(t) <= k && (k == MinHole(t) ==> LeftHole(t) <= d)
    {
      FreeIsOpen(t, d, k);
      OpenBound(t, d, k);
      if k == MinHole(t) { HoleLeftmost(t, d); }
    }
  }

  // ---------- WRITE and LOAD ----------

  /** print_tree: the named blocks, in the order of the tree. */
  function Listing(t: Tree): seq<Entry> {
    if t.Nil? then []
    else if t.name.Some? then [Entry(t.name, t.addr, t.bits)]
    else Listing(t.zero) + Listing(t.one)
  }

  lemma {:induction false} ListingNamed(t: Tree)
    requires Shape(t)
    ensures forall e :: e in Listing(t) <==> e in Leaves(t) && e.name.Some?
  {
    if t.Node? && t.name.None? {
      ListingNamed(t.zero);
      ListingNamed(t.one);
    }
  }

  /** The file is written in strictly ascending address order. */
  lemma {:induction false} ListingAscending(t: Tree)
    requires Shape(t)
    ensures Ascending(Listing(t))
  {
    if t.Node? && t.name.None? {
      ListingAscending(t.zero);
      ListingAscending(t.one);
      ListingNamed(t.zero);
      ListingNamed(t.one);
      if t.zero.Node? { LeavesInside(t.zero); }
      if t.one.Node? { LeavesInside(t.one); }
      var l, r := Listing(t.zero), Listing(t.one);
      forall i: nat, j: nat | i < j < |l + r|
        ensures Before((l + r)[i], (l + r)[j])
      {
        if i < |l| <= j {
          assert l[i] in l && r[j - |l|] in r;
        }
      }
    }
  }

  predicate IsLine(e: Entry) {
    e.name.Some? && e.bits <= 32
  }

  /** The lines after the header, each replayed as a specific request; None when one is refused. */
  function Replay(t: Tree, a: nat, n: nat, lines: seq<Entry>): Option<Tree>
    requires Good(t, a, n)
    requires forall e :: e in lines ==> IsLine(e)
    decreases |lines|
  {
    if lines == [] then Some(t)
    else
      var e := lines[0];
      assert IsLine(e) && forall f :: f in lines[1..] ==> f in lines;
      match AllocNamed(t, a, n, e.bits, Some(e.addr), e.name.value)
      case None => None
      case Some(t') =>
        AllocNamedGood(t, a, n, e.bits, Some(e.addr), e.name.value);
        Replay(t', a, n, lines[1..])
  }

  /** A line whose block is still free is replayed at its own address. */
  lemma ReplayLine(t: Tree, a: nat, n: nat, e: Entry)
    requires Good(t, a, n) && NoHollow(t)
    requires IsLine(e) && n < e.bits && Within(a, n, e.addr, e.bits) && Free(t, e.addr, e.bits)
    ensures AllocNamed(t, a, n, e.bits, Some(e.addr), e.name.value).Some?
    ensures var t' := AllocNamed(t, a, n, e.bits, Some(e.addr), e.name.value).value;
            Good(t', a, n) && NoHollow(t') && Entries(t') == Entries(t) + {e}
  {
    BlockOfSelf(e.addr, e.bits);
    FreeIsOpen(t, e.addr, e.bits);
    RequestGranted(t, e.bits, e.addr);
    RequestedPlace(t, e.bits, e.addr);
    AllocNamedAdds(t, a, n, e.bits, Some(e.addr), e.name.value);
  }

  /** The lines fit into what is free. */
  ghost predicate Fits(t: Tree, a: nat, n: nat, lines: seq<Entry>) {
    forall e :: e in lines ==>
      IsLine(e) && n < e.bits && Within(a, n, e.addr, e.bits) && Free(t, e.addr, e.bits)
  }

  lemma StillFits(t: Tree, t': Tree, a: nat, n: nat, lines: seq<Entry>)
    requires lines != [] && Ascending(lines) && Fits(t, a, n, lines)
    requires Entries(t') == Entries(t) + {lines[0]}
    ensures Fits(t', a, n, lines[1..])
  {
    forall f | f in lines[1..]
      ensures f in lines && Free(t', f.addr, f.bits)
    {
      var i :| 0 <= i < |lines[1..]| && lines[1..][i] == f;
      assert Before(lines[0], lines[i + 1]);
      assert IsLine(f);
      forall g | g in Leaves(t')
        ensures Apart(g, f.addr, f.bits)
      {
        assert g in Entries(t');
      }
    }
  }

  lemma {:induction false} ReplayAddsAll(t: Tree, a: nat, n: nat, lines: seq<Entry>)
    requires Good(t, a, n) && NoHollow(t) && Ascending(lines) && Fits(t, a, n, lines)
    ensures Replay(t, a, n, lines).Some?
    ensures var t' := Replay(t, a, n, lines).value;
            Good(t', a, n) && NoHollow(t') && Entries(t') == Entries(t) + set e | e in lines
    decreases |lines|
  {
    if lines != [] {
      var e := lines[0];
      assert e in lines && IsLine(e);
      ReplayLine(t, a, n, e);
      var t' := AllocNamed(t, a, n, e.bits, Some(e.addr), e.name.value).value;
      StillFits(t, t', a, n, lines);
      ReplayAddsAll(t', a, n, lines[1..]);
      assert (set g | g in lines) == {e} + set g | g in lines[1..];
    }
  }

  /** The block that a line is loaded into: aligned, and taken modulo the root block. */
  function Placed(e: Entry, a: nat, n: nat): Entry
    requires IsLine(e) && n <= 32
  {
    Entry(e.name, BlockOf(Meant(e.addr, a, n), e.bits), e.bits)
  }

  /** A line is refused: its block is too large, or not open. */
  predicate Refused(t: Tree, a: nat, n: nat, e: Entry)
    requires IsLine(e) && n <= 32
  {
    e.bits <= n || !Open(t, Placed(e, a, n).addr, e.bits)
  }

  lemma ReplayOne(t: Tree, a: nat, n: nat, e: Entry)
    requires Good(t, a, n) && IsLine(e)
    ensures var r := AllocNamed(t, a, n, e.bits, Some(e.addr), e.name.value);
            && (r.None? <==> Refused(t, a, n, e))
            && (r.Some? ==> Good(r.value, a, n) && Entries(r.value) == Entries(t) + {Placed(e, a, n)})
  {
    if e.bits <= n {
      AllocateTooLarge(t, a, n, e.bits, Some(e.addr), e.name.value);
    } else {
      AllocateAt(t, a, n, e.bits, e.addr, e.name.value);
      if AllocNamed(t, a, n, e.bits, Some(e.addr), e.name.value).Some? {
        AllocNamedGood(t, a, n, e.bits, Some(e.addr), e.name.value);
      }
    }
  }

  /** LOAD that gets through has added every line, in its own place, and nothing else. */
  lemma {:induction false} ReplayAdds(t: Tree, a: nat, n: nat, lines: seq<Entry>)
    requires Good(t, a, n) && forall e :: e in lines ==> IsLine(e)
    ensures var r := Replay(t, a, n, lines);
            r.Some? ==> Good(r.value, a, n) && Entries(r.value) == Entries(t) + set e | e in lines :: Placed(e, a, n)
    decreases |lines|
  {
    if lines != [] {
      var e := lines[0];
      assert IsLine(e) && forall f :: f in lines[1..] ==> f in lines;
      ReplayOne(t, a, n, e);
      var r := AllocNamed(t, a, n, e.bits, Some(e.addr), e.name.value);
      if r.Some? {
        ReplayAdds(r.value, a, n, lines[1..]);
        assert (set f | f in lines :: Placed(f, a, n)) ==
               {Placed(e, a, n)} + set f | f in lines[1..] :: Placed(f, a, n);
      }
    }
  }

  /** The lines before line `k` are loaded, and line `k` is refused. */
  predicate StopsAt(t: Tree, a: nat, n: nat, lines: seq<Entry>, k: nat)
    requires Good(t, a, n) && (forall e :: e in lines ==> IsLine(e)) && k < |lines|
  {
    var r := Replay(t, a, n, lines[..k]);
    r.Some? && Refused(r.value, a, n, lines[k])
  }

  /** LOAD fails iff it comes to a line that is refused. */
  lemma ReplayFails(t: Tree, a: nat, n: nat, lines: seq<Entry>)
    requires Good(t, a, n) && forall e :: e in lines ==> IsLine(e)
    ensures Replay(t, a, n, lines).None? <==> exists k: nat :: k < |lines| && StopsAt(t, a, n, lines, k)
  {
    if Replay(t, a, n, lines).None? {
      var k := WhereItStops(t, a, n, lines);
    }
    if k: nat :| k < |lines| && StopsAt(t, a, n, lines, k) {
      StoppedFails(t, a, n, lines, k);
    }
  }

  lemma {:induction false} WhereItStops(t: Tree, a: nat, n: nat, lines: seq<Entry>) returns (k: nat)
    requires Good(t, a, n) && (forall e :: e in lines ==> IsLine(e)) && Replay(t, a, n, lines).None?
    ensures k < |lines| && StopsAt(t, a, n, lines, k)
    decreases |lines|
  {
    var e := lines[0];
    assert IsLine(e) && forall f :: f in lines[1..] ==> f in lines;
    ReplayOne(t, a, n, e);
    if Refused(t, a, n, e) {
      k := 0;
    } else {
      var t' := AllocNamed(t, a, n, e.bits, Some(e.addr), e.name.value).value;
      k := WhereItStops(t', a, n, lines[1..]);
      assert lines[..k + 1][1..] == lines[1..][..k];
      k := k + 1;
    }
  }

  lemma {:induction false} StoppedFails(t: Tree, a: nat, n: nat, lines: seq<Entry>, k: nat)
    requires Good(t, a, n) && (forall e :: e in lines ==> IsLine(e)) && k < |lines| && StopsAt(t, a, n, lines, k)
    ensures Replay(t, a, n, lines).None?
    decreases |lines|
  {
    var e := lines[0];
    assert IsLine(e) && forall f :: f in lines[1..] ==> f in lines;
    ReplayOne(t, a, n, e);
    if k > 0 && !Refused(t, a, n, e) {
      var t' := AllocNamed(t, a, n, e.bits, Some(e.addr), e.name.value).value;
      assert lines[..k][1..] == lines[1..][..k - 1];
      StoppedFails(t', a, n, lines[1..], k - 1);
    }
  }

  /** Two ascending listings of the same blocks are the same listing. */
  lemma {:induction false} AscendingUnique(s: seq<Entry>, r: seq<Entry>)
    requires Ascending(s) && Ascending(r)
    requires forall e :: e in s <==> e in r
    ensures s == r
  {
    if r != [] {
      assert r[0] in r;
    }
    if s != [] {
      assert s[0] in r && (r != [] ==> r[0] in s);
      SameFirst(s, r);
      forall e
        ensures e in s[1..] <==> e in r[1..]
      {
        TailMember(s, e);
        TailMember(r, e);
      }
      AscendingUnique(s[1..], r[1..]);
    }
  }

  lemma SameFirst(s: seq<Entry>, r: seq<Entry>)
    requires Ascending(s) && Ascending(r) && s != [] && r != [] && s[0] in r && r[0] in s
    ensures s[0] == r[0]
  {
    var i :| 0 <= i < |r| && r[i] == s[0];
    var j :| 0 <= j < |s| && s[j] == r[0];
  }

  lemma TailMember(s: seq<Entry>, e: Entry)
    requires Ascending(s) && s != []
    ensures e in s[1..] <==> e in s && e != s[0]
  {
    if e in s[1..] {
      var i :| 0 <= i < |s[1..]| && s[1..][i] == e;
      assert Before(s[0], s[i + 1]);
    }
  }

  /**
   * Saving and loading gives back the same blocks under the same names, from any state of any
   * session, deletions included; and the loaded tree has exact hole numbers again.
   */
  lemma SaveThenLoad(a: nat, n: nat, cmds: seq<Cmd>)
    requires MayInit(a, n) && Aligned(a, n)
    ensures var t := Run(a, n, cmds);
            && (forall e :: e in Listing(t) ==> IsLine(e))
            && Good(Init(a, n), a, n)
            && var loaded := Replay(Init(a, n), a, n, Listing(t));
            && loaded.Some?
            && Leaves(loaded.value) == Leaves(t) && Listing(loaded.value) == Listing(t)
            && AllExact(loaded.value)
  {
    SavedLoads(Run(a, n, cmds), a, n);
  }

  /** ... as it is from every state that keeps the invariant. */
  lemma SavedLoads(t: Tree, a: nat, n: nat)
    requires MayInit(a, n) && Aligned(a, n) && Good(t, a, n)
    ensures forall e :: e in Listing(t) ==> IsLine(e)
    ensures Good(Init(a, n), a, n)
    ensures var loaded := Replay(Init(a, n), a, n, Listing(t));
            && loaded.Some?
            && Leaves(loaded.value) == Leaves(t) && Listing(loaded.value) == Listing(t)
            && AllExact(loaded.value)
  {
    InitGood(a, n);
    ListingNamed(t);
    ListingAscending(t);
    GoodIsSafe(t, a, n);
    forall e | e in Listing(t)
      ensures IsLine(e) && n < e.bits && Within(a, n, e.addr, e.bits) && Free(Init(a, n), e.addr, e.bits)
    {
      assert e in Entries(t);
      assert forall g :: g in Leaves(Init(a, n)) ==> g in Entries(Init(a, n));
      assert Apart(e, a, 32) && Apart(e, LastOf(a, n), 32);
    }
    ReplayAddsAll(Init(a, n), a, n, Listing(t));
    var u := Replay(Init(a, n), a, n, Listing(t)).value;
    assert Entries(u) == Entries(t);
    SameBlocks(t, u);
    NoHollowExact(u);
  }

  lemma SameBlocks(t: Tree, u: Tree)
    requires Shape(t) && Shape(u) && Entries(t) == Entries(u)
    ensures Leaves(t) == Leaves(u) && Listing(t) == Listing(u)
  {
    LeavesAscending(t);
    LeavesAscending(u);
    ListingAscending(t);
    ListingAscending(u);
    ListingNamed(t);
    ListingNamed(u);
    assert forall e :: e in Leaves(t) <==> e in Entries(t);
    assert forall e :: e in Leaves(u) <==> e in Entries(u);
    AscendingUnique(Leaves(t), Leaves(u));
    AscendingUnique(Listing(t), Listing(u));
  }
}
