/** The allocated blocks and the holes of a subnet tree tile its root block: nothing is lost or counted twice. */
module VlsmTiles {
  import opened Basics
  import opened VlsmBlocks
  import opened VlsmTree
  import opened VlsmAlloc
  import opened VlsmEdit
  import opened VlsmRuns

  datatype Tile = Tile(addr: nat, bits: nat, used: bool)

  /** A missing kid leaves its half as one hole. */
  function SideTiles(kid: Tree, a: nat, n: nat): seq<Tile>
    decreases kid, 1
  {
    if kid.Nil? then [Tile(a, n, false)] else Tiles(kid)
  }

  function Tiles(t: Tree): seq<Tile>
    decreases t, 0
  {
    if t.Nil? then []
    else if Taken(t) then [Tile(t.addr, t.bits, true)]
    else if 32 <= t.bits then []
    else SideTiles(t.zero, t.addr, t.bits + 1) + SideTiles(t.one, Middle(t.addr, t.bits), t.bits + 1)
  }

  /** The tiles follow each other without gap or overlap. */
  predicate Tiling(s: seq<Tile>, from: nat, to: nat) {
    if s == [] then from == to
    else s[0].bits <= 32 && s[0].addr == from && Tiling(s[1..], from + Size(s[0].bits), to)
  }

  function Total(s: seq<Tile>, used: bool): nat {
    if s == [] then 0
    else (if s[0].used == used && s[0].bits <= 32 then Size(s[0].bits) else 0) + Total(s[1..], used)
  }

  function UsedTiles(s: seq<Entry>): seq<Tile> {
    seq(|s|, i requires 0 <= i < |s| => Tile(s[i].addr, s[i].bits, true))
  }

  function AllocatedSize(t: Tree): nat {
    Total(UsedTiles(Leaves(t)), true)
  }

  function HoleSize(t: Tree): nat {
    Total(Tiles(t), false)
  }

  lemma {:induction false} TilingConcat(s: seq<Tile>, r: seq<Tile>, from: nat, mid: nat, to: nat)
    requires Tiling(s, from, mid) && Tiling(r, mid, to)
    ensures Tiling(s + r, from, to)
  {
    if s == [] {
      assert s + r == r;
    } else {
      assert (s + r)[1..] == s[1..] + r;
      TilingConcat(s[1..], r, from + Size(s[0].bits), mid, to);
    }
  }

  lemma {:induction false} TotalConcat(s: seq<Tile>, r: seq<Tile>, used: bool)
    ensures Total(s + r, used) == Total(s, used) + Total(r, used)
  {
    if s == [] {
      assert s + r == r;
    } else {
      assert (s + r)[1..] == s[1..] + r;
      TotalConcat(s[1..], r, used);
    }
  }

  lemma OneTile(k: Tile, to: nat)
    requires k.bits <= 32 && to == k.addr + Size(k.bits)
    ensures Tiling([k], k.addr, to)
    ensures Total([k], true) == if k.used then Size(k.bits) else 0
  {
    assert [k][1..] == [];
  }

  lemma {:induction false} TilesTile(t: Tree, to: nat)
    requires Shape(t) && t.Node? && to == t.addr + Size(t.bits)
    ensures Tiling(Tiles(t), t.addr, to)
    decreases t, 0
  {
    if Taken(t) {
      OneTile(Tile(t.addr, t.bits, true), to);
    } else {
      var m := Middle(t.addr, t.bits);
      SideTiling(t.zero, t.addr, t.bits + 1, m);
      SideTiling(t.one, m, t.bits + 1, to);
      TilingConcat(SideTiles(t.zero, t.addr, t.bits + 1), SideTiles(t.one, m, t.bits + 1), t.addr, m, to);
    }
  }

  lemma {:induction false} SideTiling(kid: Tree, a: nat, n: nat, to: nat)
    requires n <= 32 && Shape(kid) && (kid.Node? ==> kid.addr == a && kid.bits == n) && to == a + Size(n)
    ensures Tiling(SideTiles(kid, a, n), a, to)
    decreases kid, 1
  {
    if kid.Node? {
      TilesTile(kid, to);
    } else {
      OneTile(Tile(a, n, false), to);
    }
  }

  lemma {:induction false} TilingTotal(s: seq<Tile>, from: nat, to: nat)
    requires Tiling(s, from, to)
    ensures from + Total(s, true) + Total(s, false) == to
  {
    if s != [] {
      TilingTotal(s[1..], from + Size(s[0].bits), to);
    }
  }

  lemma AllocatedHalves(t: Tree)
    requires t.Node? && !Taken(t)
    ensures AllocatedSize(t) == AllocatedSize(t.zero) + AllocatedSize(t.one)
  {
    TotalConcat(UsedTiles(Leaves(t.zero)), UsedTiles(Leaves(t.one)), true);
    assert UsedTiles(Leaves(t)) == UsedTiles(Leaves(t.zero)) + UsedTiles(Leaves(t.one));
  }

  lemma {:induction false} UsedAreLeaves(t: Tree)
    requires Shape(t)
    ensures Total(Tiles(t), true) == AllocatedSize(t)
    decreases t, 0
  {
    if t.Node? {
      if Taken(t) {
        assert UsedTiles(Leaves(t)) == Tiles(t);
      } else {
        AllocatedHalves(t);
        SideUsed(t.zero, t.addr, t.bits + 1);
        SideUsed(t.one, Middle(t.addr, t.bits), t.bits + 1);
        TotalConcat(SideTiles(t.zero, t.addr, t.bits + 1), SideTiles(t.one, Middle(t.addr, t.bits), t.bits + 1), true);
      }
    }
  }

  lemma {:induction false} SideUsed(kid: Tree, a: nat, n: nat)
    requires n <= 32 && Shape(kid)
    ensures Total(SideTiles(kid, a, n), true) == AllocatedSize(kid)
    decreases kid, 1
  {
    if kid.Nil? { OneTile(Tile(a, n, false), a + Size(n)); } else { UsedAreLeaves(kid); }
  }

  /** Every unused tile is open to a request. */
  lemma {:induction false} HolesOpen(t: Tree, k: Tile)
    requires Shape(t) && t.Node? && k in Tiles(t) && !k.used
    ensures Within(t.addr, t.bits, k.addr, k.bits) && t.bits < k.bits && Open(t, k.addr, k.bits)
  {
    HalvesAligned(t.addr, t.bits);
    var left := k in SideTiles(t.zero, t.addr, t.bits + 1);
    var half := if left then t.zero else t.one;
    if half.Node? {
      HolesOpen(half, k);
    }
    SplitWithin(t.addr, t.bits, k.addr, k.bits);
    OneSided(t, k.addr, k.bits);
  }

  /**
   * In every state of every session the allocated blocks and the holes, in address order, tile the root
   * block; so allocated and free sizes add up to 2^(32 - root bits), whatever was allocated, grown or freed.
   */
  lemma NothingLost(a: nat, n: nat, cmds: seq<Cmd>)
    requires MayInit(a, n) && Aligned(a, n)
    ensures var t := Run(a, n, cmds);
            && Tiling(Tiles(t), a, a + Size(n))
            && (forall k :: k in Tiles(t) && !k.used ==> k.bits <= 32 && Open(t, k.addr, k.bits))
            && AllocatedSize(t) + HoleSize(t) == Size(n)
  {
    var t := Run(a, n, cmds);
    TilesTile(t, a + Size(n));
    TilingTotal(Tiles(t), a, a + Size(n));
    UsedAreLeaves(t);
    forall k | k in Tiles(t) && !k.used
      ensures k.bits <= 32 && Open(t, k.addr, k.bits)
    {
      HolesOpen(t, k);
    }
  }

  // ---------- when the upward walk, as written, meets a null kid ----------

  /** A block cut from a hole more than twice its size hangs below a node with one kid. */
  lemma {:induction false} CutDeepFaults(t: Tree, nb: nat)
    requires MayAlloc(t, nb) && t.bits < nb && MinHole(t) + 2 <= nb
    ensures Alloc(t, nb, None).1.Some?
    ensures WalkFaults(Alloc(t, nb, None).0, Alloc(t, nb, None).1.value.addr, nb)
    decreases 33 - t.bits
  {
    HoleBounds(t);
    UnrequestedPlace(t, nb);
    AllocTakesOpen(t, nb, None);
    var right := t.onehole < t.zerohole;
    var kid := Step(t, right);
    AllocTakesOpen(kid, nb, None);
    var addr := Alloc(t, nb, None).1.value.addr;
    SplitWithin(t.addr, t.bits, addr, nb);
    HalvesAligned(t.addr, t.bits);
    if (if right then t.one else t.zero).Node? {
      CutDeepFaults(kid, nb);
    } else {
      if right { FreshRight(t); } else { FreshLeft(t); }
    }
  }

  /** The quarter next to the reserved first address is open at the start. */
  lemma QuarterOpen(a: nat, n: nat)
    requires MayInit(a, n) && Aligned(a, n)
    ensures var c := Middle(a, n + 1); Within(a, n, c, n + 2) && Open(Init(a, n), c, n + 2)
  {
    var t, c := Init(a, n), Middle(a, n + 1);
    InitGood(a, n);
    HalvesAligned(a, n);
    HalvesAligned(a, n + 1);
    LastInBlock(a, n);
    SplitWithin(a, n, c, n + 2);
    SplitWithin(a, n + 1, c, n + 2);
    forall e | e in Leaves(t)
      ensures Apart(e, c, n + 2)
    {
      assert e in Entries(t);
    }
    FreeIsOpen(t, c, n + 2);
  }

  /** Freeing a net right after it was cut from a hole more than twice its size goes wrong as written. */
  lemma FreeAtOnceFaults(t: Tree, a: nat, n: nat, nb: Bits)
    requires Good(t, a, n) && MinHole(t) + 2 <= nb
    ensures var (t', r) := Alloc(t, nb, None);
            r.Some? && Below(t', r.value.addr, nb) && DelAsWritten(t', r.value.addr, nb) == None
  {
    HoleBounds(t);
    CutDeepFaults(t, nb);
    AllocatedNode(t, a, n, nb, None);
    var (t', r) := Alloc(t, nb, None);
    DelFaultsIff(t', r.value.addr, nb);
  }

  /** Concretely: the first net of any session, when it is a sixteenth of the root block or smaller. */
  lemma FirstFreeFaults(a: nat, n: nat, nb: Bits)
    requires MayInit(a, n) && Aligned(a, n) && n + 4 <= nb
    ensures Good(Init(a, n), a, n)
    ensures var (t, r) := Alloc(Init(a, n), nb, None);
            r.Some? && Below(t, r.value.addr, nb) && DelAsWritten(t, r.value.addr, nb) == None
  {
    InitGood(a, n);
    QuarterOpen(a, n);
    var t := Init(a, n);
    OpenBound(t, Middle(a, n + 1), n + 2);
    FreeAtOnceFaults(t, a, n, nb);
  }
}
