/** Sessions of bin/vlsm.c with the upward walk as the code writes it: it reads both kids of every node it comes to. */
module VlsmWritten {
  import opened Basics
  import opened VlsmBlocks
  import opened VlsmTree
  import opened VlsmAlloc
  import opened VlsmEdit
  import opened VlsmRuns
  import opened VlsmTiles

  /** The command makes the walk read a null pointer. */
  predicate Faults(t: Tree, cmd: Cmd) {
    match cmd
    case Allocate(_, _, _) => false
    case GrowNet(x) => Find(t, x).Node? && CanGrow(t, x, Find(t, x).bits) && WalkFaults(t, x, Find(t, x).bits)
    case FreeNet(x) => Find(t, x).Node? && WalkFaults(t, x, Find(t, x).bits)
  }

  /** A command as the code runs it; None when it reads a null pointer. */
  function DoAsWritten(t: Tree, a: nat, n: nat, cmd: Cmd): (r: Option<Tree>)
    requires Good(t, a, n)
    ensures r == if Faults(t, cmd) then None else Some(DoCmd(t, a, n, cmd))
  {
    match cmd
    case Allocate(name, nb, req) => Some(DoCmd(t, a, n, cmd))
    case GrowNet(x) =>
      var f := Find(t, x);
      if f.Node? && CanGrow(t, x, f.bits) then
        GrowFaultsIff(t, x, f.bits);
        GrowAsWritten(t, x, f.bits)
      else Some(t)
    case FreeNet(x) =>
      var f := Find(t, x);
      if f.Node? then
        FoundBelow(t, a, n, x);
        DelFaultsIff(t, x, f.bits);
        DelAsWritten(t, x, f.bits)
      else Some(t)
  }

  /** The state after a session as the code runs it. */
  function RunAsWritten(a: nat, n: nat, cmds: seq<Cmd>): (r: Option<Tree>)
    requires MayInit(a, n) && Aligned(a, n)
    ensures r.Some? ==> r.value == Run(a, n, cmds)
  {
    if cmds == [] then Some(Run(a, n, cmds))
    else match RunAsWritten(a, n, cmds[..|cmds| - 1])
      case None => None
      case Some(t) => DoAsWritten(t, a, n, cmds[|cmds| - 1])
  }

  /** No command of a session meets a node with a missing kid on its walk. */
  predicate NeverFaults(a: nat, n: nat, cmds: seq<Cmd>)
    requires MayInit(a, n) && Aligned(a, n)
  {
    forall k {:trigger FaultAt(a, n, cmds, k)} :: 0 <= k < |cmds| ==> !FaultAt(a, n, cmds, k)
  }

  predicate FaultAt(a: nat, n: nat, cmds: seq<Cmd>, k: nat)
    requires MayInit(a, n) && Aligned(a, n) && k < |cmds|
  {
    Faults(Run(a, n, cmds[..k]), cmds[k])
  }

  lemma NeverFaultsMore(a: nat, n: nat, cmds: seq<Cmd>)
    requires MayInit(a, n) && Aligned(a, n) && cmds != []
    ensures var last := |cmds| - 1;
            NeverFaults(a, n, cmds) <==> NeverFaults(a, n, cmds[..last]) && !FaultAt(a, n, cmds, last)
  {
    var last := |cmds| - 1;
    forall k | 0 <= k < last
      ensures FaultAt(a, n, cmds[..last], k) == FaultAt(a, n, cmds, k)
    {
      assert cmds[..last][..k] == cmds[..k];
    }
  }

  /**
   * The code as written goes through a session exactly when no command of it meets a node with a missing kid on its
   * walk; and then its states are the ones all other results are about.
   */
  lemma {:induction false} AsWrittenIff(a: nat, n: nat, cmds: seq<Cmd>)
    requires MayInit(a, n) && Aligned(a, n)
    ensures RunAsWritten(a, n, cmds) == if NeverFaults(a, n, cmds) then Some(Run(a, n, cmds)) else None
  {
    if cmds != [] {
      AsWrittenIff(a, n, cmds[..|cmds| - 1]);
      NeverFaultsMore(a, n, cmds);
    }
  }

  // ---------- growing at once ----------

  /** A block cut from a larger hole is the left half of a parent without a right kid, so it can grow. */
  lemma {:induction false} CutCanGrow(t: Tree, nb: nat)
    requires MayAlloc(t, nb) && t.bits < nb
    requires MinHole(t) + 1 <= nb || (Kidless(t) && !Taken(t) && t.bits + 1 == nb)
    ensures Alloc(t, nb, None).1.Some?
    ensures CanGrow(Alloc(t, nb, None).0, Alloc(t, nb, None).1.value.addr, nb)
    decreases 33 - t.bits
  {
    HoleBounds(t);
    UnrequestedPlace(t, nb);
    AllocTakesOpen(t, nb, None);
    var right := t.onehole < t.zerohole;
    var kid := Step(t, right);
    var addr := Alloc(t, nb, None).1.value.addr;
    if t.bits + 1 < nb {
      AllocTakesOpen(kid, nb, None);
      SplitWithin(t.addr, t.bits, addr, nb);
      HalvesAligned(t.addr, t.bits);
      if (if right then t.one else t.zero).Nil? {
        if right { FreshRight(t); } else { FreshLeft(t); }
      }
      CutCanGrow(kid, nb);
      GrowSeenAbove(Alloc(t, nb, None).0, addr, nb);
    }
  }

  /** What can grow in a half can grow in the whole. */
  lemma GrowSeenAbove(t: Tree, a: nat, b: nat)
    requires Below(t, a, b) && t.bits + 1 < b
    requires CanGrow(if a < Middle(t.addr, t.bits) then t.zero else t.one, a, b)
    ensures CanGrow(t, a, b)
  {
    BelowHalf(t, a, b);
  }

  /** Growing a net right after it was cut from a hole more than twice its size goes wrong as written. */
  lemma GrowAtOnceFaults(t: Tree, a: nat, n: nat, nb: Bits)
    requires Good(t, a, n) && MinHole(t) + 2 <= nb
    ensures var (t', r) := Alloc(t, nb, None);
            r.Some? && CanGrow(t', r.value.addr, nb) && GrowAsWritten(t', r.value.addr, nb) == None
  {
    HoleBounds(t);
    CutDeepFaults(t, nb);
    CutCanGrow(t, nb);
    var (t', r) := Alloc(t, nb, None);
    GrowFaultsIff(t', r.value.addr, nb);
  }

  /** Concretely: the first net of any session, when it is a sixteenth of the root block or smaller. */
  lemma FirstGrowFaults(a: nat, n: nat, nb: Bits)
    requires MayInit(a, n) && Aligned(a, n) && n + 4 <= nb
    ensures Good(Init(a, n), a, n)
    ensures var (t, r) := Alloc(Init(a, n), nb, None);
            r.Some? && CanGrow(t, r.value.addr, nb) && GrowAsWritten(t, r.value.addr, nb) == None
  {
    InitGood(a, n);
    QuarterOpen(a, n);
    OpenBound(Init(a, n), Middle(a, n + 1), n + 2);
    GrowAtOnceFaults(Init(a, n), a, n, nb);
  }
}
