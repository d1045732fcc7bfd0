/**
 * bin/vlsm.c as it runs: nodes on the heap with kid and parent pointers, changed in place.
 * Every node carries, as ghost state, the value (VlsmTree.Tree) of its subtree.
 */
module VlsmHeap {
  import opened Basics
  import opened VlsmBlocks
  import opened VlsmTree
  import opened VlsmAlloc
  import opened VlsmEdit
  import opened VlsmRuns

  class Net {
    var addr: nat
    var netbits: nat
    var name: Option<string>
    var zeroptr: Net?
    var zerohole: nat
    var oneptr: Net?
    var onehole: nat
    var parentptr: Net?
    ghost var model: Tree
    /** How far below the top the node hangs, in bits: what netbits always is. */
    ghost const level: nat

    constructor (addr: nat, netbits: nat, hole: nat, parent: Net?)
      ensures this.addr == addr && this.netbits == netbits && name == None
      ensures level == netbits && zerohole == onehole == hole
      ensures zeroptr == null && oneptr == null && parentptr == parent
      ensures model == Node(addr, netbits, None, hole, hole, Nil, Nil)
    {
      this.addr, this.netbits, name := addr, netbits, None;
      zerohole, onehole := hole, hole;
      zeroptr, oneptr, parentptr := null, null, parent;
      model := Node(addr, netbits, None, hole, hole, Nil, Nil);
      level := netbits;
    }
  }

  ghost function ModelOf(p: Net?): Tree
    reads p
  {
    if p == null then Nil else p.model
  }

  /** The value of a node from its own fields and the values of its two subtrees. */
  ghost function Fields(p: Net, zero: Tree, one: Tree): Tree
    reads p
  {
    Node(p.addr, p.netbits, p.name, p.zerohole, p.onehole, zero, one)
  }

  /** The ghost value of `p` agrees with its fields and its kids. */
  ghost predicate Local(nodes: set<Net>, p: Net)
    requires p in nodes
    reads nodes
  {
    && (p.zeroptr != null ==> p.zeroptr in nodes)
    && (p.oneptr != null ==> p.oneptr in nodes)
    && p.model == Fields(p, ModelOf(p.zeroptr), ModelOf(p.oneptr))
  }

  /** A kid is a node one level down that points back. */
  ghost predicate KidLink(nodes: set<Net>, p: Net, kid: Net?)
    requires p in nodes
    reads nodes
  {
    kid != null ==> kid in nodes && kid.parentptr == p && kid.level == p.level + 1
  }

  /** A node other than the root is one of its parent's two kids. */
  ghost predicate ParentLink(nodes: set<Net>, p: Net)
    requires p in nodes
    reads nodes
  {
    p.parentptr != null ==> p.parentptr in nodes && (p.parentptr.zeroptr == p || p.parentptr.oneptr == p)
  }

  ghost predicate Linked(nodes: set<Net>, root: Net, p: Net)
    requires p in nodes
    reads nodes
  {
    && KidLink(nodes, p, p.zeroptr) && KidLink(nodes, p, p.oneptr)
    && (p.zeroptr != null ==> p.zeroptr != p.oneptr)
    && p.netbits == p.level
    && ParentLink(nodes, p) && (p.parentptr == null <==> p == root)
  }

  /** Kid and parent pointers agree: a tree rooted at `root` whose nodes are `nodes`. */
  ghost predicate Links(nodes: set<Net>, root: Net)
    reads nodes
  {
    root in nodes && forall p {:trigger Linked(nodes, root, p)} :: p in nodes ==> Linked(nodes, root, p)
  }

  twostate predicate Same(p: Net)
    reads p
  {
    unchanged(p)
  }

  class Vlsm {
    var groot: Net
    ghost var nodes: set<Net>

    /** Links agree everywhere, ghost values from level `bits` down. */
    ghost predicate ValidFrom(bits: int)
      reads this, nodes
    {
      && Links(nodes, groot)
      && forall q {:trigger Local(nodes, q)} :: q in nodes && q.level >= bits ==> Local(nodes, q)
    }

    ghost predicate Valid()
      reads this, nodes
    {
      ValidFrom(0) && Shape(groot.model)
    }

    /** The root alone, before init_tree sets the reserved addresses aside. */
    constructor (addr: nat, netbits: nat)
      requires netbits < 32 && Aligned(addr, netbits)
      ensures Valid() && fresh(nodes) && groot.model == EmptyRoot(addr, netbits)
    {
      var root := new Net(addr, netbits, netbits + 1, null);
      groot := root;
      nodes := {root};
      FreshShape(EmptyRoot(addr, netbits));
    }

    /** alloc_left_kid */
    method AllocLeftKid(parent: Net) returns (p: Net)
      requires parent in nodes && ValidFrom(parent.level + 1)
      requires parent.zeroptr == null
      modifies this`nodes, parent`zeroptr
      ensures ValidFrom(parent.level + 1) && groot == old(groot)
      ensures fresh(p) && parent.zeroptr == p && nodes == old(nodes) + {p}
      ensures p.model == LeftKid(Fields(parent, Nil, Nil)) && p.level == parent.level + 1
    {
      assert Linked(nodes, groot, parent);
      p := new Net(parent.addr, parent.netbits + 1, parent.zerohole + 1, parent);
      parent.zeroptr := p;
      nodes := nodes + {p};
      KidAdded(parent, p);
    }

    /** alloc_right_kid */
    method AllocRightKid(parent: Net) returns (p: Net)
      requires parent in nodes && ValidFrom(parent.level + 1)
      requires parent.oneptr == null && parent.netbits < 32
      modifies this`nodes, parent`oneptr
      ensures ValidFrom(parent.level + 1) && groot == old(groot)
      ensures fresh(p) && parent.oneptr == p && nodes == old(nodes) + {p}
      ensures p.model == RightKid(Fields(parent, Nil, Nil)) && p.level == parent.level + 1
    {
      assert Linked(nodes, groot, parent);
      var addr := OrBit(parent.addr, 31 - parent.netbits);
      p := new Net(addr, parent.netbits + 1, parent.onehole + 1, parent);
      parent.oneptr := p;
      nodes := nodes + {p};
      KidAdded(parent, p);
    }

    /** A new leaf hung in an empty place of `parent` keeps everything below it in order. */
    twostate lemma KidAdded(parent: Net, new p: Net)
      requires old(parent in nodes && ValidFrom(parent.level + 1))
      requires p !in old(nodes) && nodes == old(nodes) + {p} && groot == old(groot)
      requires forall q :: q in old(nodes) && q != parent ==> unchanged(q)
      requires unchanged(parent`addr, parent`netbits, parent`parentptr, parent`model)
      requires (old(parent.zeroptr) == null && parent.zeroptr == p && unchanged(parent`oneptr))
            || (old(parent.oneptr) == null && parent.oneptr == p && unchanged(parent`zeroptr))
      requires p.zeroptr == null && p.oneptr == null && p.parentptr == parent
      requires p.level == p.netbits == parent.level + 1
      requires p.model == Fields(p, Nil, Nil)
      ensures ValidFrom(parent.level + 1)
    {
      forall q | q in nodes
        ensures Linked(nodes, groot, q)
      {
        assert q != p ==> old(Linked(nodes, groot, q));
        assert old(Linked(nodes, groot, parent));
      }
      forall q | q in nodes && q.level >= parent.level + 1
        ensures Local(nodes, q)
      {
        assert q != p ==> old(Local(nodes, q));
        assert q != p ==> old(Linked(nodes, groot, q));
      }
    }

    /** The kid to search, allocated if necessary. */
    method KidFor(p: Net, right: bool) returns (kid: Net)
      requires p in nodes && ValidFrom(p.level) && p.model.Node? && Shape(p.model) && !Taken(p.model)
      modifies this`nodes, p`zeroptr, p`oneptr
      ensures ValidFrom(p.level + 1) && groot == old(groot)
      ensures old(nodes) <= nodes <= old(nodes) + {kid} && fresh(nodes - old(nodes))
      ensures kid in nodes && kid == (if right then p.oneptr else p.zeroptr)
      ensures kid != p && kid.level == p.level + 1
      ensures p.model == old(p.model) && kid.model == Step(old(p.model), right)
      ensures if right then unchanged(p`zeroptr) else unchanged(p`oneptr)
      ensures var other := if right then p.zeroptr else p.oneptr;
              other != null ==> other in old(nodes) && other.level == p.level + 1 && other != kid
      ensures p.model == Fields(p, p.model.zero, p.model.one)
      ensures ModelOf(if right then p.zeroptr else p.oneptr) == (if right then p.model.zero else p.model.one)
    {
      assert Local(nodes, p) && Linked(nodes, groot, p);
      assert p.zeroptr != null ==> Local(nodes, p.zeroptr);
      assert p.oneptr != null ==> Local(nodes, p.oneptr);
      if !right {
        if p.zeroptr == null {
          kid := AllocLeftKid(p);
        } else {
          kid := p.zeroptr;
        }
      } else {
        if p.oneptr == null {
          kid := AllocRightKid(p);
        } else {
          kid := p.oneptr;
        }
      }
      assert Linked(nodes, groot, p);
    }

    /** After the search below `kid`: the hole number of its half is the better of its two. */
    method TakeHole(p: Net, kid: Net, right: bool)
      requires p in nodes && ValidFrom(p.level + 1) && p.model.Node?
      requires kid == if right then p.oneptr else p.zeroptr
      requires kid in nodes && kid.level == p.level + 1
      requires p.model == Fields(p, p.model.zero, p.model.one)
      requires ModelOf(if right then p.zeroptr else p.oneptr) == if right then p.model.zero else p.model.one
      modifies p`zerohole, p`onehole, p`model
      ensures ValidFrom(p.level + 1) && Local(nodes, p) && kid.parentptr == p
      ensures kid.model == old(kid.model) && kid.model.Node?
      ensures p.model == if right then old(p.model).(one := kid.model, onehole := MinHole(kid.model))
                         else old(p.model).(zero := kid.model, zerohole := MinHole(kid.model))
    {
      assert Linked(nodes, groot, p) && Local(nodes, kid);
      if !right {
        p.zerohole := Min(kid.zerohole, kid.onehole);
      } else {
        p.onehole := Min(kid.zerohole, kid.onehole);
      }
      p.model := Fields(p, ModelOf(p.zeroptr), ModelOf(p.oneptr));
      NodeWritten(p);
    }

    /** alloc_net */
    method AllocNet(nb: nat, p: Net, req: Option<nat>) returns (r: Net?)
      requires p in nodes && ValidFrom(p.level) && MayAlloc(p.model, nb)
      modifies this`nodes, nodes
      ensures ValidFrom(p.level) && groot == old(groot)
      ensures old(nodes) <= nodes && fresh(nodes - old(nodes))
      ensures p.model == Alloc(old(p.model), nb, req).0
      ensures IsFound(r, p.level, Alloc(old(p.model), nb, req).1)
      ensures OnlyBelow(p, old(nodes))
      decreases 33 - p.level, 1
    {
      KidlessPointers(p);
      ghost var t := p.model;
      if p.netbits == nb && p.zeroptr == null && p.oneptr == null {
        AllocHere(t, nb, req);
        p.zerohole, p.onehole := IMPOSSIBLE_HOLE, IMPOSSIBLE_HOLE;
        p.model := Fields(p, Nil, Nil);
        NodeWritten(p);
        OthersKept(p, p);
        return p;
      }
      AllocRefused(t, nb, req);
      var right: bool;
      if req.Some? {
        right := BitSet(req.value, 31 - p.netbits);
      } else {
        right := p.onehole < p.zerohole;
      }
      if nb < (if right then p.onehole else p.zerohole) {
        return null;
      }
      AllocDown(t, nb, req);
      r := AllocInHalf(nb, p, right, req);
    }

    /** The second half of alloc_net: the search goes on in the chosen half. */
    method AllocInHalf(nb: nat, p: Net, right: bool, req: Option<nat>) returns (r: Net?)
      requires p in nodes && ValidFrom(p.level) && p.model.Node? && Shape(p.model) && !Taken(p.model)
      requires MayAlloc(Step(p.model, right), nb)
      modifies this`nodes, nodes
      ensures ValidFrom(p.level) && groot == old(groot)
      ensures old(nodes) <= nodes && fresh(nodes - old(nodes))
      ensures var t, kid := old(p.model), Alloc(Step(old(p.model), right), nb, req).0;
              p.model == if right then t.(one := kid, onehole := MinHole(kid))
                         else t.(zero := kid, zerohole := MinHole(kid))
      ensures IsFound(r, p.level, Alloc(Step(old(p.model), right), nb, req).1)
      ensures OnlyBelow(p, old(nodes))
      decreases 33 - p.level, 0
    {
      KidlessPointers(p);
      var kid := KidFor(p, right);
      ghost var other := if right then p.zeroptr else p.oneptr;
      label Down:
      r := AllocNet(nb, kid, req);
      assert Same@Down(p) && (other != null ==> Same@Down(other));
      TakeHole(p, kid, right);
      forall q | q in old(nodes) && q.level <= p.level + 1 && q != p && q != kid
        ensures Same(q)
      {
        assert Same@Down(q);
      }
      OthersKept(p, kid);
    }

    /** `r` is the allocated node for what the search found, null for nothing. */
    ghost predicate IsFound(r: Net?, level: nat, found: Option<Entry>)
      reads this, nodes
    {
      match found
      case None => r == null
      case Some(e) =>
        && r != null && r in nodes && r.level >= level && Taken(r.model)
        && Entry(r.name, r.addr, r.netbits) == e
    }

    /** Nothing on the level of `p` or above changed but `p` itself, and new nodes are below. */
    twostate predicate OnlyBelow(p: Net, before: set<Net>)
      requires before <= old(nodes)
      reads this, nodes, before
    {
      && (forall q :: q in nodes && q !in before ==> q.level > p.level)
      && (forall q {:trigger Same(q)} :: q in before && q.level <= p.level && q != p ==> Same(q))
    }

    lemma KidlessPointers(p: Net)
      requires p in nodes && ValidFrom(p.level)
      ensures p.model.Node? && (Kidless(p.model) <==> p.zeroptr == null && p.oneptr == null)
      ensures p.model == Fields(p, p.model.zero, p.model.one) && p.netbits == p.level
    {
      assert Local(nodes, p) && Linked(nodes, groot, p);
      assert p.zeroptr != null ==> Local(nodes, p.zeroptr);
      assert p.oneptr != null ==> Local(nodes, p.oneptr);
    }

    /** Only hole numbers and the ghost value of `p` were written: everything below stays in order. */
    twostate lemma NodeWritten(p: Net)
      requires old(p in nodes && ValidFrom(p.level + 1))
      requires nodes == old(nodes) && groot == old(groot)
      requires forall q :: q in nodes && q != p ==> unchanged(q)
      requires unchanged(p`netbits, p`parentptr, p`zeroptr, p`oneptr)
      ensures ValidFrom(p.level + 1)
    {
      forall q | q in nodes
        ensures Linked(nodes, groot, q)
      {
        assert old(Linked(nodes, groot, q));
      }
      forall q | q in nodes && q.level >= p.level + 1
        ensures Local(nodes, q)
      {
        assert old(Local(nodes, q)) && old(Linked(nodes, groot, q));
      }
    }

    /** Nodes on the level of `p` stay in order when they and their kids, all other than `kid`, did not change. */
    twostate lemma OthersKept(p: Net, new kid: Net)
      requires old(p in nodes && ValidFrom(p.level)) && old(nodes) <= nodes
      requires ValidFrom(p.level + 1) && Local(nodes, p)
      requires kid == p || kid.parentptr == p
      requires forall q :: q in nodes && q !in old(nodes) ==> q.level > p.level
      requires forall q {:trigger Same(q)} :: q in old(nodes) && q.level == p.level && q != p ==> Same(q)
      requires forall q {:trigger Same(q)} :: q in old(nodes) && q.level == p.level + 1 && q != kid && q != p ==>
                Same(q)
      ensures ValidFrom(p.level)
    {
      forall q | q in nodes && q.level >= p.level
        ensures Local(nodes, q)
      {
        if q.level == p.level && q != p {
          assert old(Local(nodes, q)) && old(Linked(nodes, groot, q)) && Linked(nodes, groot, q);
          assert Same(q);
          assert q.zeroptr != null ==> Same(q.zeroptr);
          assert q.oneptr != null ==> Same(q.oneptr);
        }
      }
    }

    // ---------- positions ----------

    /** Every node is in the value of the tree, at its own block. */
    lemma NodeAt(q: Net)
      requires q in nodes && Valid()
      ensures q.model.Node? && Shape(q.model) && At(groot.model, q.addr, q.netbits) == q.model
      ensures q.model.addr == q.addr && q.model.bits == q.netbits == q.level
      ensures q != groot ==> Below(groot.model, q.addr, q.netbits)
      decreases q.level
    {
      assert Local(nodes, q) && Linked(nodes, groot, q);
      if q != groot {
        var p := q.parentptr;
        assert Local(nodes, p) && Linked(nodes, groot, p);
        NodeAt(p);
        HalfAt(groot.model, p.addr, p.netbits, p.oneptr == q);
        AtInside(groot.model, q.addr, q.netbits);
      }
    }

    // ---------- the upward walk ----------

    /** As Local, except that the value of `c` still counts as `was`. */
    ghost predicate LocalBut(p: Net, c: Net, was: Tree)
      requires p in nodes
      reads this, nodes
    {
      && (p.zeroptr != null ==> p.zeroptr in nodes)
      && (p.oneptr != null ==> p.oneptr in nodes)
      && p.model == Fields(p, if p.zeroptr == c then was else ModelOf(p.zeroptr),
                              if p.oneptr == c then was else ModelOf(p.oneptr))
      && Shape(p.model)
    }

    /** The walk has dealt with `c` and everything below; everything above is as it was. */
    ghost predicate Reached(c: Net, was: Tree)
      reads this, nodes
    {
      && c in nodes && Links(nodes, groot)
      && (forall q {:trigger Local(nodes, q)} :: q in nodes && q.level >= c.level ==> Local(nodes, q))
      && (forall q {:trigger LocalBut(q, c, was)} :: q in nodes && q.level < c.level ==> LocalBut(q, c, was))
    }

    /** The better hole of a kid; a half without a kid keeps the hole it has. */
    function BetterHole(kid: Net?, hole: nat): nat
      reads kid
    {
      if kid == null then hole else Min(kid.zerohole, kid.onehole)
    }

    /** One step of the upward walk: a half with a kid takes that kid's hole. */
    method RefreshHoles(p: Net, ghost c: Net, ghost was: Tree)
      requires Reached(c, was) && was.Node? && c.parentptr == p && p in nodes
      modifies p`zerohole, p`onehole, p`model
      ensures Reached(p, old(p.model))
      ensures old(p.model).Node? && Shape(old(p.model)) && !Taken(old(p.model))
      ensures p.oneptr == c ==> old(p.model).one == was && p.model == Refresh(old(p.model).(one := c.model))
      ensures p.oneptr != c ==> old(p.model).zero == was && p.model == Refresh(old(p.model).(zero := c.model))
    {
      assert Linked(nodes, groot, c) && Linked(nodes, groot, p) && LocalBut(p, c, was) && Local(nodes, c);
      assert p.zeroptr != null ==> Local(nodes, p.zeroptr);
      assert p.oneptr != null ==> Local(nodes, p.oneptr);
      p.onehole := BetterHole(p.oneptr, p.onehole);
      p.zerohole := BetterHole(p.zeroptr, p.zerohole);
      p.model := Fields(p, ModelOf(p.zeroptr), ModelOf(p.oneptr));
      ReachedParent(p, c, was);
    }

    twostate predicate OnlyHoles(p: Net)
      reads this, nodes
    {
      && nodes == old(nodes) && groot == old(groot) && p in nodes
      && (forall q :: q in nodes && q != p ==> unchanged(q))
      && unchanged(p`addr, p`netbits, p`name, p`parentptr, p`zeroptr, p`oneptr)
    }

    twostate lemma LinksKept(p: Net)
      requires old(Links(nodes, groot)) && OnlyHoles(p)
      ensures Links(nodes, groot)
    {
      forall q | q in nodes
        ensures Linked(nodes, groot, q)
      {
        assert old(Linked(nodes, groot, q));
      }
    }

    twostate lemma ReachedParent(p: Net, new c: Net, new was: Tree)
      requires old(allocated(c)) && old(Reached(c, was))
      requires old(c.parentptr) == p
      requires OnlyHoles(p)
      requires p.model == Fields(p, ModelOf(p.zeroptr), ModelOf(p.oneptr))
      ensures Reached(p, old(p.model))
    {
      assert old(Linked(nodes, groot, p) && Linked(nodes, groot, c) && LocalBut(p, c, was));
      LinksKept(p);
      forall q | q in nodes && q.level >= p.level
        ensures Local(nodes, q)
      {
        assert old(Linked(nodes, groot, q));
        if q.level >= c.level {
          assert old(Local(nodes, q));
        } else if q != p {
          assert old(LocalBut(q, c, was));
        }
      }
      forall q | q in nodes && q.level < p.level
        ensures LocalBut(q, p, old(p.model))
      {
        assert old(LocalBut(q, c, was) && Linked(nodes, groot, q));
      }
    }

    /**
     * The upward walk. `start` has just become what `Replace` makes of its old value `was0`, with subtree `k`
     * at (a, b); afterwards the whole tree is what `Replace` makes of its old value `t0`.
     */
    method WalkUp(start: Net, ghost was0: Tree, ghost t0: Tree, ghost a: nat, ghost b: nat, ghost k: Tree)
      requires Reached(start, was0) && OnPath(was0, a, b)
      requires Replace(was0, a, b, k).Node? && start.model == Replace(was0, a, b, k)
      requires if start == groot then was0 == t0 else groot.model == t0
      modifies nodes
      ensures ValidFrom(0) && OnPath(t0, a, b) && groot.model == Replace(t0, a, b, k) && unchanged(start)
    {
      ghost var c: Net, was := start, was0;
      var p := start.parentptr;
      assert Linked(nodes, groot, start);
      assert p != null ==> Linked(nodes, groot, p);
      while p != null
        invariant Reached(c, was) && OnPath(was, a, b)
        invariant Replace(was, a, b, k).Node? && c.model == Replace(was, a, b, k)
        invariant if c == groot then was == t0 else groot.model == t0
        invariant p == c.parentptr && c.level <= start.level && (p != null ==> p in nodes && p.level < c.level)
        invariant unchanged(start)
        decreases if p == null then 0 else p.level + 1
      {
        assert Linked(nodes, groot, c) && Linked(nodes, groot, p);
        ghost var t := p.model;
        RefreshHoles(p, c, was);
        ReplaceUp(t, p.oneptr == c, a, b, k);
        c, was := p, t;
        p := p.parentptr;
        assert Linked(nodes, groot, c);
        assert p != null ==> Linked(nodes, groot, p);
      }
      assert Linked(nodes, groot, c);
      RootIsTop(c);
    }

    lemma RootIsTop(c: Net)
      requires Links(nodes, groot) && c in nodes && c.parentptr == null
      requires forall q {:trigger Local(nodes, q)} :: q in nodes && q.level >= c.level ==> Local(nodes, q)
      ensures c == groot && ValidFrom(0)
    {
      assert Linked(nodes, groot, c);
      forall q | q in nodes
        ensures q.level >= groot.level
      {
        Above(q);
      }
    }

    lemma Above(q: Net)
      requires Links(nodes, groot) && q in nodes
      ensures q.level >= groot.level
      decreases q.level
    {
      assert Linked(nodes, groot, q);
      if q != groot {
        assert Linked(nodes, groot, q.parentptr);
        Above(q.parentptr);
      }
    }

    // ---------- del_net and grow_net ----------

    lemma AllShape()
      requires Valid()
      ensures forall q :: q in nodes ==> Shape(q.model)
    {
      forall q | q in nodes
        ensures Shape(q.model)
      {
        NodeAt(q);
      }
    }

    /** `p`, which has no kids, was cut off `parent`; nothing else changed but fields of `parent`. */
    twostate predicate CutOff(parent: Net, p: Net)
      reads this, nodes
    {
      && old(parent in nodes && p in nodes && p.parentptr == parent && p.zeroptr == null && p.oneptr == null)
      && nodes == old(nodes) - {p} && groot == old(groot) && parent in nodes
      && (forall q {:trigger Same(q)} :: q in nodes && q != parent ==> Same(q))
      && unchanged(parent`parentptr) && parent.netbits == parent.level
      && parent.zeroptr == (if old(parent.zeroptr) == p then null else old(parent.zeroptr))
      && parent.oneptr == (if old(parent.oneptr) == p then null else old(parent.oneptr))
      && (parent.zeroptr != null ==> parent.zeroptr in nodes) && (parent.oneptr != null ==> parent.oneptr in nodes)
      && parent.model == Fields(parent, ModelOf(parent.zeroptr), ModelOf(parent.oneptr))
    }

    twostate lemma LinksCut(parent: Net, new p: Net)
      requires old(allocated(p)) && old(Links(nodes, groot)) && CutOff(parent, p)
      ensures Links(nodes, groot)
    {
      assert old(Linked(nodes, groot, p));
      forall q | q in nodes
        ensures Linked(nodes, groot, q)
      {
        assert old(Linked(nodes, groot, q));
        assert q != parent ==> Same(q);
        assert q.parentptr != null && q.parentptr != parent ==> Same(q.parentptr);
        assert q.zeroptr != null && q.zeroptr != parent ==> Same(q.zeroptr);
        assert q.oneptr != null && q.oneptr != parent ==> Same(q.oneptr);
      }
    }

    /** A node other than `parent`, whose kids, but for `parent`, are as they were. */
    twostate lemma LocalCut(parent: Net, new p: Net, new q: Net)
      requires old(allocated(p)) && old(allocated(q)) && old(Links(nodes, groot)) && CutOff(parent, p)
      requires q in nodes && q != parent
      requires old(Local(nodes, q)) && old(Shape(q.model))
      ensures LocalBut(q, parent, old(parent.model))
      ensures q.level >= parent.level ==> Local(nodes, q)
    {
      assert old(Linked(nodes, groot, q) && Linked(nodes, groot, p)) && Same(q);
      assert q.zeroptr != null && q.zeroptr != parent ==> Same(q.zeroptr);
      assert q.oneptr != null && q.oneptr != parent ==> Same(q.oneptr);
    }

    /** After a cut the walk starts at the parent. */
    twostate lemma KidCut(parent: Net, new p: Net)
      requires old(allocated(p)) && old(Valid()) && CutOff(parent, p)
      requires old(forall q :: q in nodes ==> Shape(q.model))
      ensures Reached(parent, old(parent.model))
    {
      assert old(Linked(nodes, groot, p) && Linked(nodes, groot, parent));
      LinksCut(parent, p);
      forall q | q in nodes && q.level >= parent.level
        ensures Local(nodes, q)
      {
        if q != parent {
          assert old(Local(nodes, q));
          LocalCut(parent, p, q);
        }
      }
      forall q | q in nodes && q.level < parent.level
        ensures LocalBut(q, parent, old(parent.model))
      {
        assert old(Local(nodes, q));
        LocalCut(parent, p, q);
      }
    }

    /** The first part of del_net: the parent's half becomes a hole. */
    method UnlinkKid(parent: Net, p: Net)
      requires Valid() && p in nodes && p.parentptr == parent && p.zeroptr == null && p.oneptr == null
      modifies this`nodes, parent
      ensures groot == old(groot) && nodes == old(nodes) - {p}
      ensures Reached(parent, old(parent.model)) && parent in nodes
      ensures OnPath(old(parent.model), old(p.addr), old(p.netbits)) && old(parent.model).bits < old(p.netbits)
      ensures parent.model == Put(old(parent.model), old(p.addr), old(p.netbits), Nil)
      ensures parent != groot ==> groot.model == old(groot.model)
    {
      AllShape();
      NodeAt(p);
      assert Linked(nodes, groot, p) && Linked(nodes, groot, parent) && Local(nodes, parent) && Local(nodes, p);
      PutAtParent(parent.model, parent.oneptr == p, Nil);
      if parent.zeroptr == p {
        parent.zerohole := p.netbits;
        parent.zeroptr := null;
      } else {
        parent.onehole := p.netbits;
        parent.oneptr := null;
      }
      nodes := nodes - {p};
      parent.model := Fields(parent, ModelOf(parent.zeroptr), ModelOf(parent.oneptr));
      KidCut(parent, p);
    }

    /** del_net: the root cannot go; any other net's half of its parent becomes a hole. */
    method DelNet(p: Net)
      requires Valid() && p in nodes && (p != groot ==> p.zeroptr == null && p.oneptr == null)
      modifies this`nodes, nodes
      ensures Valid() && groot == old(groot)
      ensures p == groot ==> nodes == old(nodes) && groot.model == old(groot.model)
      ensures p != groot ==> nodes == old(nodes) - {p} && Below(old(groot.model), old(p.addr), old(p.netbits))
                             && groot.model == Del(old(groot.model), old(p.addr), old(p.netbits))
    {
      var parent := p.parentptr;
      assert Linked(nodes, groot, p);
      if parent == null {
        return;
      }
      ghost var t, t0, a, b := parent.model, groot.model, p.addr, p.netbits;
      NodeAt(p);
      UnlinkKid(parent, p);
      WalkUp(parent, t, t0, a, b, Nil);
      PutShape(t0, a, b, Nil);
    }

    /** The first part of grow_net: the parent takes over the net of its left kid. */
    method JoinParent(parent: Net, p: Net)
      requires Valid() && p in nodes && p.parentptr == parent && p.zeroptr == null && p.oneptr == null
      requires parent.zeroptr == p && parent.oneptr == null
      modifies this`nodes, parent
      ensures groot == old(groot) && nodes == old(nodes) - {p}
      ensures Reached(parent, old(parent.model)) && parent in nodes
      ensures var (a, b) := (old(p.addr), old(p.netbits));
              && b > 0 && OnPath(old(parent.model), a, b - 1) && old(parent.model).bits == b - 1
              && parent.model == Node(a, b - 1, old(p.name), IMPOSSIBLE_HOLE, IMPOSSIBLE_HOLE, Nil, Nil)
      ensures parent != groot ==> groot.model == old(groot.model)
    {
      AllShape();
      assert Linked(nodes, groot, p) && Linked(nodes, groot, parent) && Local(nodes, parent) && Local(nodes, p);
      NodeAt(p);
      NodeAt(parent);
      parent.addr := p.addr;
      parent.netbits := p.netbits - 1;
      parent.name := p.name;
      parent.oneptr, parent.zeroptr := null, null;
      parent.zerohole, parent.onehole := IMPOSSIBLE_HOLE, IMPOSSIBLE_HOLE;
      nodes := nodes - {p};
      parent.model := Fields(parent, Nil, Nil);
      KidCut(parent, p);
    }

    /** What grow_net's refusals test, in terms of the value of the tree. */
    lemma GrowTests(p: Net)
      requires Valid() && p in nodes
      ensures CanGrow(groot.model, p.addr, p.netbits) <==>
                p.parentptr != null && p.parentptr.zeroptr == p && p.parentptr.oneptr == null
      ensures p.parentptr != null && p.parentptr.zeroptr == p ==>
                && p.netbits > 0 && At(groot.model, p.addr, p.netbits - 1) == p.parentptr.model
                && p.parentptr.addr == p.addr
    {
      NodeAt(p);
      assert Linked(nodes, groot, p) && Local(nodes, p);
      var parent := p.parentptr;
      if parent != null {
        NodeAt(parent);
        assert Linked(nodes, groot, parent) && Local(nodes, parent);
        assert parent.oneptr != null ==> Local(nodes, parent.oneptr);
        GrowFromParent(groot.model, parent.addr, parent.netbits, parent.oneptr == p);
      }
    }

    /** grow_net */
    method GrowNet(p: Net) returns (r: Net?)
      requires Valid() && p in nodes && p.zeroptr == null && p.oneptr == null
      modifies this`nodes, nodes
      ensures Valid() && groot == old(groot)
      ensures (r != null) == old(CanGrow(groot.model, p.addr, p.netbits))
      ensures r == null ==> nodes == old(nodes) && groot.model == old(groot.model)
      ensures r != null ==> r in nodes && nodes == old(nodes) - {p}
      ensures r != null ==> groot.model == Grow(old(groot.model), old(p.addr), old(p.netbits))
    {
      var parent := p.parentptr;
      GrowTests(p);
      assert Linked(nodes, groot, p);
      if parent == null {
        return null;
      }
      assert Linked(nodes, groot, parent);
      if parent.zeroptr != p {
        return null;
      }
      if parent.oneptr != null {
        return null;
      }
      ghost var t, t0, a, b := parent.model, groot.model, p.addr, p.netbits;
      NodeAt(p);
      NodeAt(parent);
      assert Local(nodes, p);
      ghost var k := Grown(t0, a, b);
      JoinParent(parent, p);
      WalkUp(parent, t, t0, a, b - 1, k);
      GrowKeepsShape(t0, a, b);
      return parent;
    }

    // ---------- find_net and print_tree ----------

    /** What a walk down needs to know of the node it is at. */
    lemma NodePlain(p: Net)
      requires Valid() && p in nodes
      ensures p.netbits == p.level <= 32 && p.model == Fields(p, ModelOf(p.zeroptr), ModelOf(p.oneptr))
      ensures p.zeroptr != null ==> p.zeroptr in nodes && p.zeroptr.level == p.level + 1
      ensures p.oneptr != null ==> p.oneptr in nodes && p.oneptr.level == p.level + 1
    {
      NodeAt(p);
      assert Linked(nodes, groot, p) && Local(nodes, p);
    }

    /** find_net */
    method FindNet(p: Net?, x: nat) returns (r: Net?)
      requires Valid() && (p != null ==> p in nodes)
      ensures r != null ==> r in nodes && r.model == Find(ModelOf(p), x) && r.addr == x && r.name.Some?
      ensures r == null ==> Find(ModelOf(p), x).Nil?
      decreases if p == null then 0 else 34 - p.level
    {
      if p == null {
        return null;
      }
      NodePlain(p);
      if x == p.addr && p.name.Some? {
        return p;
      }
      if 32 <= p.netbits {
        return null;
      }
      if BitSet(x, 31 - p.netbits) {
        r := FindNet(p.oneptr, x);
      } else {
        r := FindNet(p.zeroptr, x);
      }
    }

    /** print_tree: the lines written, in order. */
    method PrintTree(p: Net) returns (lines: seq<Entry>)
      requires Valid() && p in nodes
      ensures lines == Listing(p.model)
      decreases 34 - p.level
    {
      NodePlain(p);
      if p.name.Some? {
        return [Entry(p.name, p.addr, p.netbits)];
      }
      lines := [];
      if p.zeroptr != null {
        lines := PrintTree(p.zeroptr);
      }
      if p.oneptr != null {
        var more := PrintTree(p.oneptr);
        lines := lines + more;
      }
    }

    // ---------- names ----------

    /** The ghost values above a node whose name was written. */
    ghost method RenameAbove(start: Net, was0: Tree, t0: Tree, a: nat, b: nat, k: Tree)
      requires Reached(start, was0) && OnPath(was0, a, b)
      requires Replace(was0, a, b, k).Node? && start.model == Replace(was0, a, b, k)
      requires MinHole(start.model) == MinHole(was0)
      requires if start == groot then was0 == t0 else groot.model == t0
      modifies nodes
      ensures ValidFrom(0) && OnPath(t0, a, b) && groot.model == Replace(t0, a, b, k) && unchanged(start)
    {
      var c: Net, was := start, was0;
      var p := start.parentptr;
      assert Linked(nodes, groot, start);
      assert p != null ==> Linked(nodes, groot, p);
      while p != null
        invariant Reached(c, was) && OnPath(was, a, b)
        invariant Replace(was, a, b, k).Node? && c.model == Replace(was, a, b, k)
        invariant MinHole(c.model) == MinHole(was)
        invariant if c == groot then was == t0 else groot.model == t0
        invariant p == c.parentptr && c.level <= start.level && (p != null ==> p in nodes && p.level < c.level)
        invariant unchanged(start)
        decreases if p == null then 0 else p.level + 1
      {
        assert Linked(nodes, groot, c) && Linked(nodes, groot, p);
        var t := p.model;
        var right := p.oneptr == c;
        RenameStep(p, c, was);
        ReplaceUp(t, right, a, b, k);
        c, was := p, t;
        p := p.parentptr;
        assert Linked(nodes, groot, c);
        assert p != null ==> Linked(nodes, groot, p);
      }
      RootIsTop(c);
    }

    ghost method RenameStep(p: Net, c: Net, was: Tree)
      requires Reached(c, was) && was.Node? && c.parentptr == p && p in nodes
      requires c.model.Node? && MinHole(c.model) == MinHole(was)
      modifies p`model
      ensures Reached(p, old(p.model))
      ensures old(p.model).Node? && Shape(old(p.model)) && !Taken(old(p.model))
      ensures p.model.Node? && MinHole(p.model) == MinHole(old(p.model))
      ensures p.oneptr == c ==> old(p.model).one == was && p.model == Refresh(old(p.model).(one := c.model))
      ensures p.oneptr != c ==> old(p.model).zero == was && p.model == Refresh(old(p.model).(zero := c.model))
    {
      assert Linked(nodes, groot, c) && Linked(nodes, groot, p) && LocalBut(p, c, was) && Local(nodes, c);
      SameHolesUp(p.model, p.oneptr == c, c.model);
      p.model := Fields(p, ModelOf(p.zeroptr), ModelOf(p.oneptr));
      ReachedParent(p, c, was);
    }

    /** The caller of alloc_net gives the net its name. */
    method NameNet(p: Net, name: string)
      requires Valid() && p in nodes && p != groot && Taken(p.model)
      modifies nodes
      ensures Valid()
      ensures Below(old(groot.model), old(p.addr), old(p.netbits))
      ensures groot.model == SetName(old(groot.model), old(p.addr), old(p.netbits), Some(name))
    {
      AllShape();
      NodeAt(p);
      assert Linked(nodes, groot, p) && Local(nodes, p);
      ghost var t, t0, a, b := p.model, groot.model, p.addr, p.netbits;
      p.name := Some(name);
      p.model := t.(name := Some(name));
      NameWritten(p);
      RenameAbove(p, t, t0, a, b, p.model);
      PutShape(t0, a, b, t.(name := Some(name)));
    }

    twostate lemma NameWritten(p: Net)
      requires old(Valid() && p in nodes) && old(forall q :: q in nodes ==> Shape(q.model))
      requires nodes == old(nodes) && groot == old(groot)
      requires forall q {:trigger Same(q)} :: q in nodes && q != p ==> Same(q)
      requires unchanged(p`addr, p`netbits, p`parentptr, p`zeroptr, p`oneptr, p`zerohole, p`onehole)
      requires old(p.model).Node? && p.model == old(p.model).(name := p.name)
      ensures Reached(p, old(p.model))
    {
      assert old(Linked(nodes, groot, p) && Local(nodes, p));
      forall q | q in nodes
        ensures Linked(nodes, groot, q)
        ensures q.level >= p.level ==> Local(nodes, q)
        ensures q.level < p.level ==> LocalBut(q, p, old(p.model))
      {
        assert old(Local(nodes, q) && Linked(nodes, groot, q));
        assert q != p ==> Same(q);
        assert q.parentptr != null && q.parentptr != p ==> Same(q.parentptr);
        assert q.zeroptr != null && q.zeroptr != p ==> Same(q.zeroptr);
        assert q.oneptr != null && q.oneptr != p ==> Same(q.oneptr);
      }
    }

    // ---------- the commands ----------

    ghost predicate Session(a: nat, n: nat)
      reads this, nodes
    {
      Valid() && Good(groot.model, a, n)
    }

    /** ALLOCATE, and one line of LOAD. */
    method CmdAlloc(name: string, nb: Bits, req: Option<nat>, ghost a: nat, ghost n: nat) returns (ok: bool)
      requires Session(a, n)
      modifies this`nodes, nodes
      ensures Session(a, n) && groot == old(groot) && fresh(nodes - old(nodes))
      ensures var r := AllocNamed(old(groot.model), a, n, nb, req, name);
              ok == r.Some? && groot.model == if r.Some? then r.value else old(groot.model)
      ensures !ok ==> groot.model == old(groot.model)
      ensures nb <= n ==> !ok
      ensures n < nb && req.None? ==>
                && (ok <==> exists c: nat :: Within(a, n, c, nb) && Open(old(groot.model), c, nb))
                && (ok ==> exists x: nat, h: nat :: h <= nb && FirstLargest(old(groot.model), a, n, x, h) &&
                             Entries(groot.model) == Entries(old(groot.model)) + {Entry(Some(name), x, nb)})
      ensures n < nb && req.Some? ==>
                var x := BlockOf(a + req.value % Size(n), nb);
                && (ok <==> Open(old(groot.model), x, nb))
                && (ok ==> Entries(groot.model) == Entries(old(groot.model)) + {Entry(Some(name), x, nb)})
    {
      AllocateMeans(groot.model, a, n, nb, req, name);
      NodeAt(groot);
      ghost var t := groot.model;
      var p := AllocNet(nb, groot, req);
      AllocShape(t, nb, req);
      assert Valid() by { LowestLevel(); }
      if p == null {
        FailureChangesNothing(t, nb, req);
        return false;
      }
      AllocatedNode(t, a, n, nb, req);
      AllocNamedGood(t, a, n, nb, req, name);
      NodeAt(p);
      NodeAt(groot);
      NameNet(p, name);
      return true;
    }

    /** From the root's level down is everything. */
    lemma LowestLevel()
      requires ValidFrom(groot.level)
      ensures ValidFrom(0)
    {
      forall q | q in nodes
        ensures q.level >= groot.level
      {
        Above(q);
      }
    }

    /** GROW */
    method CmdGrow(x: nat, ghost a: nat, ghost n: nat) returns (ok: bool)
      requires Session(a, n)
      modifies this`nodes, nodes
      ensures Session(a, n) && groot == old(groot)
      ensures groot.model == DoCmd(old(groot.model), a, n, Cmd.GrowNet(x))
      ensures ok ==> exists e :: e in Entries(old(groot.model)) && NamedAt(e, x)
      ensures !ok ==> groot.model == old(groot.model)
      ensures forall e :: e in Entries(old(groot.model)) && NamedAt(e, x) ==>
                && n < e.bits <= 32
                && (ok <==> Aligned(x, e.bits - 1) && At(old(groot.model), x + Size(e.bits), e.bits).Nil?)
                && (ok ==> Entries(groot.model) == Entries(old(groot.model)) - {e} + {Entry(e.name, x, e.bits - 1)})
    {
      CmdKeepsGood(groot.model, a, n, Cmd.GrowNet(x));
      GrowMeans(groot.model, a, n, x);
      var p := FindNet(groot, x);
      if p == null {
        return false;
      }
      NodeAt(p);
      FindIff(groot.model, x);
      KidlessPointers(p);
      var r := GrowNet(p);
      ok := r != null;
    }

    /** FREE */
    method CmdFree(x: nat, ghost a: nat, ghost n: nat) returns (ok: bool)
      requires Session(a, n)
      modifies this`nodes, nodes
      ensures Session(a, n) && groot == old(groot)
      ensures groot.model == DoCmd(old(groot.model), a, n, Cmd.FreeNet(x))
      ensures ok <==> exists e :: e in Entries(old(groot.model)) && NamedAt(e, x)
      ensures !ok ==> groot.model == old(groot.model)
      ensures forall e :: e in Entries(old(groot.model)) && NamedAt(e, x) ==>
                Entries(groot.model) == Entries(old(groot.model)) - {e}
    {
      FreeRemoves(groot.model, a, n, x);
      CmdKeepsGood(groot.model, a, n, Cmd.FreeNet(x));
      var p := FindNet(groot, x);
      if p == null {
        return false;
      }
      NodeAt(p);
      FindIff(groot.model, x);
      FoundBelow(groot.model, a, n, x);
      KidlessPointers(p);
      DelNet(p);
      ok := true;
    }

    /** init_tree: refused on the all-ones address, and unless there are 8 to 28 network bits. */
    static method InitTree(addr: nat, netbits: nat) returns (v: Vlsm?)
      requires addr <= 0xffffffff && (netbits <= 32 ==> Aligned(addr, netbits))
      ensures v == null <==> !MayInit(addr, netbits)
      ensures v == null <==> addr == 0xffffffff || netbits < 8 || netbits > 28
      ensures v != null ==>
                fresh(v) && fresh(v.nodes) && v.Session(addr, netbits) && v.groot.model == Init(addr, netbits)
      ensures v != null ==>
                Entries(v.groot.model) == {Entry(None, addr, 32), Entry(None, addr + Pow2(32 - netbits) - 1, 32)}
    {
      AddressSpace();
      if addr == 0xffffffff {
        return null;
      }
      if netbits < 8 || netbits > 28 {
        return null;
      }
      InitGood(addr, netbits);
      InitSteps(addr, netbits);
      v := new Vlsm(addr, netbits);
      v.SetAsideAddress(addr);
      v.SetAsideAddress(LastOf(addr, netbits));
    }

    /** init_tree's two requests for a single address. */
    method SetAsideAddress(x: nat)
      requires Valid() && MayAlloc(groot.model, 32)
      modifies this`nodes, nodes
      ensures Valid() && groot == old(groot) && fresh(nodes - old(nodes)) && old(nodes) <= nodes
      ensures groot.model == Alloc(old(groot.model), 32, Some(x)).0
    {
      NodeAt(groot);
      AllocShape(groot.model, 32, Some(x));
      var p := AllocNet(32, groot, Some(x));
      LowestLevel();
    }

    /** LOAD, after its header: every line as a specific request; the first refusal ends it. */
    method CmdLoad(lines: seq<Entry>, ghost a: nat, ghost n: nat) returns (ok: bool)
      requires Session(a, n)
      requires forall e :: e in lines ==> IsLine(e)
      modifies this`nodes, nodes
      ensures Session(a, n) && groot == old(groot)
      ensures ok == Replay(old(groot.model), a, n, lines).Some?
      ensures ok ==> groot.model == Replay(old(groot.model), a, n, lines).value
      ensures ok <==> forall k: nat :: k < |lines| ==> !StopsAt(old(groot.model), a, n, lines, k)
      ensures ok ==> Entries(groot.model) == Entries(old(groot.model)) + set e | e in lines :: Placed(e, a, n)
    {
      ghost var t0 := groot.model;
      ReplayFails(t0, a, n, lines);
      ReplayAdds(t0, a, n, lines);
      var i := 0;
      while i < |lines|
        invariant 0 <= i <= |lines| && Session(a, n) && groot == old(groot)
        invariant fresh(nodes - old(nodes))
        invariant forall e :: e in lines[i..] ==> IsLine(e)
        invariant Replay(t0, a, n, lines) == Replay(groot.model, a, n, lines[i..])
      {
        assert lines[i] in lines[i..] && lines[i..][1..] == lines[i + 1..];
        ok := CmdAlloc(lines[i].name.value, lines[i].bits, Some(lines[i].addr), a, n);
        if !ok {
          return;
        }
        i := i + 1;
      }
      ok := true;
    }
  }

  lemma AddressSpace()
    ensures Size(0) == 0x1_0000_0000
  {
    Pow2Word();
  }

  lemma InitSteps(a: nat, n: nat)
    requires MayInit(a, n) && Aligned(a, n)
    ensures MayAlloc(EmptyRoot(a, n), 32) && MayAlloc(Alloc(EmptyRoot(a, n), 32, Some(a)).0, 32)
    ensures Init(a, n) == Alloc(Alloc(EmptyRoot(a, n), 32, Some(a)).0, 32, Some(LastOf(a, n))).0
    ensures Shape(Init(a, n))
  {
    FreshShape(EmptyRoot(a, n));
    AllocShape(EmptyRoot(a, n), 32, Some(a));
    AllocShape(Alloc(EmptyRoot(a, n), 32, Some(a)).0, 32, Some(LastOf(a, n)));
  }
}
