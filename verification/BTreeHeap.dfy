/** src/btree.c as it runs: nodes on the heap with left, right and parent pointers, relinked in place. */
module BTreeHeap {
  import opened BTreeSpec

  class TreeNode<T> {
    var left: TreeNode?<T>
    var right: TreeNode?<T>
    var parent: TreeNode?<T>
    var info: T
    /** The value of the subtree that hangs here. */
    ghost var model: Tree<T>

    constructor (info: T)
      ensures left == null && right == null && parent == null && this.info == info
      ensures model == Node(Leaf, info, Leaf)
    {
      left, right, parent := null, null, null;
      this.info := info;
      model := Node(Leaf, info, Leaf);
    }
  }

  ghost function ModelOf<T>(p: TreeNode?<T>): Tree<T>
    reads p
  {
    if p == null then Leaf else p.model
  }

  ghost predicate KidLink<T>(nodes: set<TreeNode<T>>, p: TreeNode<T>, kid: TreeNode?<T>)
    reads nodes
  {
    kid != null ==> kid in nodes && kid.parent == p
  }

  ghost predicate Linked<T>(nodes: set<TreeNode<T>>, root: TreeNode?<T>, p: TreeNode<T>)
    requires p in nodes
    reads nodes
  {
    && KidLink(nodes, p, p.left) && KidLink(nodes, p, p.right)
    && (p.left != null ==> p.left != p.right) && p.left != p && p.right != p
    && (p.parent != null ==> p.parent in nodes && (p.parent.left == p || p.parent.right == p))
    && (p.parent == null <==> p == root)
  }

  /** Kid and parent pointers agree everywhere. */
  ghost predicate Links<T>(nodes: set<TreeNode<T>>, root: TreeNode?<T>)
    reads nodes
  {
    && (root != null ==> root in nodes)
    && forall p {:trigger Linked(nodes, root, p)} :: p in nodes ==> Linked(nodes, root, p)
  }

  /** The ghost value agrees with the fields, where `c`, if it is a kid, still counts as `was`. */
  ghost predicate LocalBut<T>(nodes: set<TreeNode<T>>, p: TreeNode<T>, c: TreeNode?<T>, was: Tree<T>)
    requires p in nodes
    reads nodes
  {
    && (p.left != null ==> p.left in nodes)
    && (p.right != null ==> p.right in nodes)
    && p.model == Node(if c != null && p.left == c then was else ModelOf(p.left), p.info,
                       if c != null && p.right == c then was else ModelOf(p.right))
  }

  ghost predicate Local<T>(nodes: set<TreeNode<T>>, p: TreeNode<T>)
    requires p in nodes
    reads nodes
  {
    LocalBut(nodes, p, null, Leaf)
  }

  twostate predicate Same<T>(p: TreeNode<T>)
    reads p
  {
    unchanged(p)
  }

  twostate predicate SameWay<T>(p: TreeNode<T>)
    reads p
  {
    unchanged(p`parent, p`right)
  }

  class BinTree<T(!new)> {
    const cmp: Cmp<T>
    var root: TreeNode?<T>
    ghost var nodes: set<TreeNode<T>>

    ghost predicate Valid()
      reads this, nodes
    {
      && Links(nodes, root)
      && forall p {:trigger Local(nodes, p)} :: p in nodes ==> Local(nodes, p)
    }

    ghost function Model(): Tree<T>
      reads this, nodes
      requires Valid()
    {
      ModelOf(root)
    }

    constructor (cmp: Cmp<T>)
      ensures Valid() && nodes == {} && root == null && this.cmp == cmp
    {
      this.cmp := cmp;
      root := null;
      nodes := {};
    }

    /** tree_find */
    method Find(info: T) returns (node: TreeNode?<T>)
      requires Valid()
      ensures node != null ==> node in nodes
      ensures ModelOf(node) == BTreeSpec.Find(Model(), info, cmp)
    {
      node := root;
      while node != null
        invariant node != null ==> node in nodes
        invariant BTreeSpec.Find(ModelOf(node), info, cmp) == BTreeSpec.Find(Model(), info, cmp)
        decreases ModelOf(node)
      {
        assert Local(nodes, node);
        var cmp_val := cmp(info, node.info);
        if cmp_val == 0 {
          break;
        }
        if cmp_val < 0 {
          node := node.left;
        } else {
          node := node.right;
        }
      }
    }

    // ---------- bringing the ghost values above a changed node up to date ----------

    /** Only the parent of `c` is out of date: it still counts the value of `c` as `was`. */
    ghost predicate Reached(c: TreeNode<T>, was: Tree<T>)
      reads this, nodes
    {
      && c in nodes && Links(nodes, root)
      && forall q {:trigger LocalBut(nodes, q, c, was)} :: q in nodes ==> LocalBut(nodes, q, c, was)
    }

    /** Larger than every value in the tree. */
    ghost function Bound(s: set<TreeNode<T>>): (b: nat)
      reads s
      ensures forall q :: q in s ==> Size(q.model) < b
    {
      if s == {} then 0
      else
        var q :| q in s;
        var b := Bound(s - {q});
        if Size(q.model) < b then b else Size(q.model) + 1
    }

    /** One step up: the parent's value is formed anew. */
    ghost method StepUp(p: TreeNode<T>, c: TreeNode<T>, was: Tree<T>)
      requires Reached(c, was) && c.parent == p && p in nodes && p != c
      modifies p`model
      ensures Reached(p, old(p.model)) && old(p.model).Node?
      ensures if p.right == c then old(p.model).right == was && p.model == old(p.model).(right := c.model)
              else old(p.model).left == was && p.model == old(p.model).(left := c.model)
    {
      assert Linked(nodes, root, c) && Linked(nodes, root, p);
      assert LocalBut(nodes, p, c, was);
      p.model := Node(ModelOf(p.left), p.info, ModelOf(p.right));
      SteppedUp(p, c, was);
    }

    twostate lemma SteppedUp(p: TreeNode<T>, new c: TreeNode<T>, new was: Tree<T>)
      requires old(allocated(c)) && old(allocated(was)) && old(Reached(c, was)) && old(c.parent) == p && p in nodes
      requires nodes == old(nodes) && root == old(root)
      requires forall q {:trigger Same(q)} :: q in nodes && q != p ==> Same(q)
      requires unchanged(p`left, p`right, p`parent, p`info) && p.left != p && p.right != p
      requires p.model == Node(ModelOf(p.left), p.info, ModelOf(p.right))
      ensures Reached(p, old(p.model))
    {
      assert old(Linked(nodes, root, c) && Linked(nodes, root, p));
      forall q | q in nodes
        ensures Linked(nodes, root, q) && LocalBut(nodes, q, p, old(p.model))
      {
        assert old(Linked(nodes, root, q) && LocalBut(nodes, q, c, was));
        assert q != p ==> Same(q);
        assert q.parent != null && q.parent != p ==> Same(q.parent);
        assert q.left != null && q.left != p ==> Same(q.left);
        assert q.right != null && q.right != p ==> Same(q.right);
      }
    }

    /** At the root nothing is out of date any more. */
    lemma TopReached(c: TreeNode<T>, was: Tree<T>)
      requires Reached(c, was) && c.parent == null
      ensures Valid() && c == root
    {
      assert Linked(nodes, root, c);
      forall q | q in nodes
        ensures Local(nodes, q)
      {
        assert LocalBut(nodes, q, c, was) && Linked(nodes, root, q);
      }
    }

    /** The way from `c` up to the root. */
    ghost predicate Chain(c: TreeNode<T>, chain: seq<TreeNode<T>>)
      reads this, nodes
      decreases |chain|
    {
      && chain != [] && chain[0] == c && c in nodes
      && (if |chain| == 1 then c.parent == null
          else c.parent == chain[1] && chain[1] in nodes && c !in chain[1..] && Chain(chain[1], chain[1..]))
    }

    /** The turns taken from the root down to the start of a chain. */
    ghost predicate Turns(c: TreeNode<T>, chain: seq<TreeNode<T>>, path: Path)
      requires Chain(c, chain)
      reads this, nodes
      decreases |chain|
    {
      && |path| == |chain| - 1
      && (|chain| > 1 ==>
            && path[|path| - 1] == (chain[1].right == c)
            && Turns(chain[1], chain[1..], path[..|path| - 1]))
    }

    lemma ChainOf(q: TreeNode<T>) returns (chain: seq<TreeNode<T>>, path: Path)
      requires Valid() && q in nodes
      ensures Chain(q, chain) && Turns(q, chain, path)
      ensures forall m :: m in chain[1..] ==> Size(q.model) < Size(m.model)
      decreases Bound(nodes) - Size(q.model)
    {
      assert Local(nodes, q) && Linked(nodes, root, q);
      if q == root {
        chain, path := [q], [];
      } else {
        assert Local(nodes, q.parent);
        var c, p := ChainOf(q.parent);
        chain, path := [q] + c, p + [q.parent.right == q];
        assert chain[1..] == c && path[..|path| - 1] == p;
        assert c == [q.parent] + c[1..];
      }
    }

    /** A tree without a root has no nodes. */
    lemma EmptyTree()
      requires Valid() && root == null
      ensures nodes == {}
    {
      if q :| q in nodes {
        var chain, path := ChainOf(q);
        TopOfChain(q, chain);
      }
    }

    lemma TopOfChain(q: TreeNode<T>, chain: seq<TreeNode<T>>)
      requires Valid() && Chain(q, chain)
      ensures root != null && root in chain
      decreases |chain|
    {
      assert Linked(nodes, root, q);
      if |chain| > 1 { TopOfChain(chain[1], chain[1..]); }
    }

    /** A chain depends on parent pointers and, above its start, on right pointers. */
    twostate lemma ChainKept(c: TreeNode<T>, new chain: seq<TreeNode<T>>, new path: Path)
      requires old(allocated(chain)) && old(Chain(c, chain)) && old(Turns(c, chain, path))
      requires unchanged(c`parent) && forall q :: q in chain ==> q in nodes
      requires forall q {:trigger SameWay(q)} :: q in chain && q != c ==> SameWay(q)
      ensures Chain(c, chain) && Turns(c, chain, path)
      decreases |chain|
    {
      if |chain| > 1 {
        assert SameWay(chain[1]);
        ChainKept(chain[1], chain[1..], path[..|path| - 1]);
      }
    }

    lemma ChainNodes(c: TreeNode<T>, chain: seq<TreeNode<T>>)
      requires Chain(c, chain)
      ensures forall q :: q in chain ==> q in nodes
      decreases |chain|
    {
      assert chain == [c] + chain[1..];
      if |chain| > 1 { ChainNodes(chain[1], chain[1..]); }
    }

    /** Up to the root from a node whose value changed from `was0`. */
    ghost method WalkUp(c: TreeNode<T>, was: Tree<T>, chain: seq<TreeNode<T>>, path: Path)
      requires Reached(c, was) && was.Node? && Chain(c, chain) && Turns(c, chain, path) && root != null
      modifies nodes`model
      ensures Valid()
      ensures var t0 := if c == root then was else old(root.model);
              && Sub(t0, path) == was && root.model == Replace(t0, path, old(c.model))
      decreases |chain|
    {
      assert Linked(nodes, root, c);
      if |chain| == 1 {
        TopReached(c, was);
      } else {
        var p := chain[1];
        var t, turn, k := p.model, path[|path| - 1], c.model;
        ChainNodes(c, chain);
        StepUp(p, c, was);
        ChainKept(c, chain, path);
        var t0 := if p == root then t else root.model;
        WalkUp(p, t, chain[1..], path[..|path| - 1]);
        assert path == path[..|path| - 1] + [turn];
        ReplaceStep(t0, path[..|path| - 1], turn, k);
      }
    }

    // ---------- tree_insert ----------

    /** Where the search for the place of `x` has got to. */
    ghost predicate SearchedTo(node: TreeNode<T>, chain: seq<TreeNode<T>>, path: Path, x: T)
      reads this, nodes
    {
      && root != null && root in nodes && Chain(node, chain) && Turns(node, chain, path)
      && Sub(root.model, path) == node.model && node.model.Node?
      && BTreeSpec.Insert(root.model, x, cmp) == Replace(root.model, path, BTreeSpec.Insert(node.model, x, cmp))
    }

    /** One turn of the search. */
    lemma SearchStep(node: TreeNode<T>, chain: seq<TreeNode<T>>, path: Path, x: T)
      requires Valid() && node in nodes && SearchedTo(node, chain, path, x)
      ensures var right := cmp(x, node.info) > 0;
              var kid := if right then node.right else node.left;
              kid != null && cmp(x, node.info) != 0 ==> SearchedTo(kid, [kid] + chain, path + [right], x)
    {
      assert Local(nodes, node) && Linked(nodes, root, node);
      var right := cmp(x, node.info) > 0;
      var kid := if right then node.right else node.left;
      if kid != null && cmp(x, node.info) != 0 {
        assert Local(nodes, kid) && Linked(nodes, root, kid);
        ReplaceStep(root.model, path, right, BTreeSpec.Insert(kid.model, x, cmp));
        assert ([kid] + chain)[1..] == chain && (path + [right])[..|path|] == path;
        SmallerNotAbove(node, chain, kid);
      }
    }

    /** A kid is not among the nodes above. */
    lemma SmallerNotAbove(node: TreeNode<T>, chain: seq<TreeNode<T>>, kid: TreeNode<T>)
      requires Valid() && Chain(node, chain) && Size(kid.model) < Size(node.model)
      ensures kid !in chain
      decreases |chain|
    {
      assert Local(nodes, node) && Linked(nodes, root, node);
      if |chain| > 1 {
        assert Local(nodes, chain[1]);
        SmallerNotAbove(chain[1], chain[1..], kid);
      }
      assert chain == [node] + chain[1..];
    }

    /** tree_insert */
    method Insert(info: T)
      requires Valid()
      modifies this, nodes
      ensures Valid() && fresh(nodes - old(nodes)) && old(nodes) <= nodes
      ensures Model() == BTreeSpec.Insert(old(Model()), info, cmp)
    {
      if root == null {
        EmptyTree();
        var node := new TreeNode(info);
        root := node;
        nodes := nodes + {node};
        return;
      }
      var node: TreeNode<T> := root;
      assert Linked(nodes, root, root) && Local(nodes, root);
      ghost var chain: seq<TreeNode<T>>, path := [node], [];
      while true
        invariant node in nodes && SearchedTo(node, chain, path, info)
        modifies {}
        decreases node.model
      {
        assert Local(nodes, node);
        SearchStep(node, chain, path, info);
        var diff := cmp(info, node.info);
        if diff == 0 {
          break;
        } else if diff < 0 {
          if node.left == null {
            break;
          }
          chain, path := [node.left] + chain, path + [false];
          node := node.left;
        } else {
          if node.right == null {
            break;
          }
          chain, path := [node.right] + chain, path + [true];
          node := node.right;
        }
      }
      Load(node, info, chain, path);
    }

    /** The end of tree_insert: the entry is stored at `node`, or in a new leaf below it. */
    method Load(node: TreeNode<T>, info: T, ghost chain: seq<TreeNode<T>>, ghost path: Path)
      requires Valid() && node in nodes && SearchedTo(node, chain, path, info)
      requires cmp(info, node.info) < 0 ==> node.left == null
      requires cmp(info, node.info) > 0 ==> node.right == null
      modifies this`nodes, nodes
      ensures Valid() && fresh(nodes - old(nodes)) && old(nodes) <= nodes && root == old(root)
      ensures Model() == BTreeSpec.Insert(old(Model()), info, cmp)
    {
      assert Local(nodes, node) && Linked(nodes, root, node);
      ghost var was := node.model;
      ChainNodes(node, chain);
      var diff := cmp(info, node.info);
      if diff == 0 {
        node.info := info;
        node.model := node.model.(info := info);
        InfoReplaced(node);
      } else {
        var leaf := new TreeNode(info);
        leaf.parent := node;
        if diff < 0 {
          node.left := leaf;
        } else {
          node.right := leaf;
        }
        nodes := nodes + {leaf};
        node.model := Node(ModelOf(node.left), node.info, ModelOf(node.right));
        LeafAdded(node, leaf);
      }
      assert node.model == BTreeSpec.Insert(was, info, cmp);
      ChainKept(node, chain, path);
      WalkUp(node, was, chain, path);
    }

    /** The load at an existing node. */
    twostate lemma InfoReplaced(node: TreeNode<T>)
      requires old(Valid() && node in nodes) && nodes == old(nodes) && root == old(root)
      requires forall q {:trigger Same(q)} :: q in nodes && q != node ==> Same(q)
      requires unchanged(node`left, node`right, node`parent)
      requires old(node.model).Node? && node.model == old(node.model).(info := node.info)
      ensures Reached(node, old(node.model))
    {
      assert old(Local(nodes, node));
      forall q | q in nodes
        ensures Linked(nodes, root, q) && LocalBut(nodes, q, node, old(node.model))
      {
        assert old(Linked(nodes, root, q) && Local(nodes, q));
        assert q != node ==> Same(q);
        assert q.parent != null && q.parent != node ==> Same(q.parent);
        assert q.left != null && q.left != node ==> Same(q.left);
        assert q.right != null && q.right != node ==> Same(q.right);
      }
    }

    /** A new leaf in an empty place of `node`. */
    twostate lemma LeafAdded(node: TreeNode<T>, new leaf: TreeNode<T>)
      requires old(Valid() && node in nodes) && nodes == old(nodes) + {leaf} && root == old(root)
      requires leaf !in old(nodes) && leaf.left == null && leaf.right == null && leaf.parent == node
      requires leaf.model == Node(Leaf, leaf.info, Leaf)
      requires forall q {:trigger Same(q)} :: q in old(nodes) && q != node ==> Same(q)
      requires unchanged(node`info, node`parent)
      requires (old(node.left) == null && node.left == leaf && unchanged(node`right))
            || (old(node.right) == null && node.right == leaf && unchanged(node`left))
      requires node.model == Node(ModelOf(node.left), node.info, ModelOf(node.right))
      ensures Reached(node, old(node.model))
    {
      assert old(Local(nodes, node) && Linked(nodes, root, node));
      forall q | q in nodes
        ensures Linked(nodes, root, q) && LocalBut(nodes, q, node, old(node.model))
      {
        if q != leaf {
          assert old(Linked(nodes, root, q) && Local(nodes, q));
          assert q != node ==> Same(q);
          assert q.parent != null && q.parent != node ==> Same(q.parent);
          assert q.left != null && q.left != node && q.left != leaf ==> Same(q.left);
          assert q.right != null && q.right != node && q.right != leaf ==> Same(q.right);
        }
      }
    }

    // ---------- tree_delete ----------

    /** `node` is about to go; `n` carries what remains below it, and all other nodes are in order. */
    ghost predicate Loose(node: TreeNode<T>, n: TreeNode?<T>)
      reads this, nodes
    {
      && node in nodes && root != null && root in nodes
      && (node.parent != null ==>
            node.parent in nodes && (node.parent.left == node || node.parent.right == node)
            && (node.parent.left != null ==> node.parent.left != node.parent.right))
      && (node.parent == null <==> node == root)
      && (forall q {:trigger Linked(nodes, root, q)} :: q in nodes && q != node ==> Linked(nodes, root, q))
      && (forall q {:trigger Local(nodes, q)} :: q in nodes && q != node ==> Local(nodes, q))
      && node.parent != node
      && (n != null ==> n in nodes && n != node && n != node.parent && n.parent == node)
      && (forall q :: q in nodes && q != node && q.parent == node ==> q == n)
    }

    /** The left spine from `r` down to `temp`. */
    ghost predicate Spine(spine: set<TreeNode<T>>, r: TreeNode<T>, temp: TreeNode<T>)
      reads this, nodes, spine
    {
      && r in spine && temp in spine && spine <= nodes
      && (forall q :: q in spine && q != temp ==> q.left != null && q.left in spine)
      && (forall q :: q in spine && q != r ==> q.parent != null && q.parent in spine && q.parent.left == q)
      && (forall q :: q in spine ==> Size(q.model) <= Size(r.model))
    }

    /** `l` was hung under `temp`, the end of the spine; nothing else changed but ghost values on the spine. */
    twostate predicate HungUnder(node: TreeNode<T>, l: TreeNode<T>, temp: TreeNode<T>, spine: set<TreeNode<T>>)
      reads this, nodes
    {
      && nodes == old(nodes) && root == old(root) && root != null && l in nodes && temp in nodes
      && old(temp.left) == null && temp.left == l && l.parent == temp
      && (forall q {:trigger Kept(q, l, temp)} :: q in nodes ==> Kept(q, l, temp))
      && (forall q {:trigger q.model} :: q in nodes ==>
            q.model == if q in spine then HangLeft(old(q.model), old(l.model)) else old(q.model))
    }

    twostate predicate Kept(q: TreeNode<T>, l: TreeNode<T>, temp: TreeNode<T>)
      reads q
    {
      && unchanged(q`right, q`info)
      && (q != temp ==> unchanged(q`left))
      && (q != l ==> unchanged(q`parent))
    }

    twostate lemma HungNode(node: TreeNode<T>, new l: TreeNode<T>, new r: TreeNode<T>, new temp: TreeNode<T>,
                            new spine: set<TreeNode<T>>, new q: TreeNode<T>)
      requires old(allocated(l)) && old(allocated(r)) && old(allocated(temp))
      requires old(allocated(spine)) && old(allocated(q))
      requires old(Valid() && node in nodes && node.left == l && node.right == r && Spine(spine, r, temp))
      requires HungUnder(node, l, temp, spine) && q in nodes && q != node
      ensures Linked(nodes, root, q) && Local(nodes, q) && (q.parent == node ==> q == r)
    {
      OffSpine(node, l, r, temp, spine);
      assert old(Local(nodes, q) && Linked(nodes, root, q)) && Kept(q, l, temp);
      assert old(q.parent) != null ==> Kept(old(q.parent), l, temp);
      assert q.left != null ==> Kept(q.left, l, temp);
      assert q.right != null ==> Kept(q.right, l, temp);
      if q in spine {
        assert q.model == Node(HangLeft(old(q.model.left), old(l.model)), q.info, old(q.model.right));
      }
    }

    /** After the left subtree was hung under the leftmost node of the right one. */
    twostate lemma Hung(node: TreeNode<T>, new l: TreeNode<T>, new r: TreeNode<T>, new temp: TreeNode<T>,
                        new spine: set<TreeNode<T>>)
      requires old(allocated(l)) && old(allocated(r)) && old(allocated(temp)) && old(allocated(spine))
      requires old(Valid() && node in nodes && node.left == l && node.right == r && Spine(spine, r, temp))
      requires HungUnder(node, l, temp, spine)
      ensures Loose(node, r) && r.model == HangLeft(old(r.model), old(l.model))
    {
      OffSpine(node, l, r, temp, spine);
      assert Kept(node, l, temp) && Kept(r, l, temp);
      if node.parent != null {
        assert Kept(node.parent, l, temp);
        assert old(Linked(nodes, root, node.parent));
      }
      forall q | q in nodes && q != node
        ensures Linked(nodes, root, q) && Local(nodes, q) && (q.parent == node ==> q == r)
      {
        HungNode(node, l, r, temp, spine, q);
      }
    }

    twostate lemma HungBelow(node: TreeNode<T>, new l: TreeNode<T>, new r: TreeNode<T>, new temp: TreeNode<T>,
                             new spine: set<TreeNode<T>>)
      requires old(allocated(l)) && old(allocated(r)) && old(allocated(temp)) && old(allocated(spine))
      requires old(Valid() && node in nodes && node.left == l && node.right == r && Spine(spine, r, temp))
      requires HungUnder(node, l, temp, spine)
      ensures OnlyBelow(node) && unchanged(node`right) && old(node.model).Node?
      ensures HangLeft(old(r.model), old(l.model)) == Remains(old(node.model))
    {
      OffSpine(node, l, r, temp, spine);
      assert Kept(node, l, temp);
      assert old(Local(nodes, l) && Local(nodes, r));
      assert old(Size(l.model) < Size(node.model) && Size(r.model) < Size(node.model));
      forall q | q in nodes
        ensures SameAbove(q, node)
      {
        assert Kept(q, l, temp);
        assert q in spine ==> old(Size(q.model) <= Size(r.model));
      }
    }

    /** Nodes off the spine do not have kids on it, but for `node`; and right kids are never on it. */
    twostate lemma OffSpine(node: TreeNode<T>, new l: TreeNode<T>, new r: TreeNode<T>, new temp: TreeNode<T>,
                            new spine: set<TreeNode<T>>)
      requires old(allocated(l)) && old(allocated(r)) && old(allocated(temp)) && old(allocated(spine))
      requires old(Valid() && node in nodes && node.left == l && node.right == r && Spine(spine, r, temp))
      ensures node !in spine && l !in spine && l != r && l != node && r != node
      ensures old(l.parent) == old(r.parent) == node
      ensures l in old(nodes) && r in old(nodes)
      ensures old(node.parent) != l && old(node.parent) != r && old(node.parent) != node
      ensures old(Linked(nodes, root, node)) && (old(node.parent) != null ==> old(node.parent) !in spine)
      ensures old(node.model == Node(l.model, node.info, r.model))
      ensures forall q :: q in old(nodes) && q != node ==> old(q.right) !in spine
      ensures forall q :: q in old(nodes) && q != node && old(q.left) in spine ==> q in spine
    {
      assert old(Local(nodes, node) && Linked(nodes, root, node));
      assert old(Local(nodes, l) && Linked(nodes, root, l) && Local(nodes, r) && Linked(nodes, root, r));
      assert old(Size(r.model) < Size(node.model));
      if old(node.parent) != null {
        assert old(Local(nodes, node.parent) && Linked(nodes, root, node.parent));
        assert old(Size(node.model) < Size(node.parent.model));
      }
      forall q | q in old(nodes) && q != node
        ensures old(q.right) !in spine
        ensures old(q.left) in spine ==> q in spine
      {
        assert old(Linked(nodes, root, q));
      }
    }

    /** Nothing but ghost values smaller than that of `node`, and links below it, changed. */
    twostate predicate OnlyBelow(node: TreeNode<T>)
      reads this, nodes
    {
      && nodes == old(nodes) && root == old(root) && node in nodes
      && unchanged(node`parent, node`info, node`model)
      && (forall q {:trigger SameAbove(q, node)} :: q in nodes ==> SameAbove(q, node))
    }

    twostate predicate SameAbove(q: TreeNode<T>, node: TreeNode<T>)
      reads q
    {
      old(Size(q.model)) > old(Size(node.model)) ==> unchanged(q`left, q`right, q`parent, q`info, q`model)
    }

    /** The first part of tree_delete: what remains when `node` goes, in one piece. */
    method TakeOut(node: TreeNode<T>) returns (n: TreeNode?<T>)
      requires Valid() && node in nodes && root != null
      modifies nodes
      ensures Loose(node, n) && OnlyBelow(node) && (n != null ==> old(Size(n.model)) < Size(node.model))
      ensures old(node.model).Node? && ModelOf(n) == Remains(old(node.model))
    {
      assert Local(nodes, node) && Linked(nodes, root, node);
      assert node.left != null ==> Local(nodes, node.left);
      assert node.right != null ==> Local(nodes, node.right);
      if node.parent != null { assert Linked(nodes, root, node.parent); }
      if node.right == null {
        n := node.left;
        OneKid(node, n);
      } else if node.left == null {
        n := node.right;
        OneKid(node, n);
      } else {
        HangLeftKid(node);
        n := node.right;
      }
    }

    /** A node with at most one kid needs no relinking below it. */
    lemma OneKid(node: TreeNode<T>, n: TreeNode?<T>)
      requires Valid() && node in nodes && root != null
      requires (node.right == null && n == node.left) || (node.left == null && n == node.right)
      ensures Loose(node, n) && node.model.Node? && ModelOf(n) == Remains(node.model)
    {
      assert Local(nodes, node) && Linked(nodes, root, node);
      if node.parent != null {
        assert Linked(nodes, root, node.parent) && Local(nodes, node.parent);
        assert Size(node.model) < Size(node.parent.model);
      }
      if n != null { assert Local(nodes, n) && Size(n.model) < Size(node.model); }
      forall q | q in nodes && q != node && q.parent == node
        ensures q == n
      {
        assert Linked(nodes, root, q);
      }
    }

    /** The leftmost node below `r`, with the nodes passed on the way. */
    method Leftmost(r: TreeNode<T>) returns (temp: TreeNode<T>, ghost spine: set<TreeNode<T>>)
      requires Valid() && r in nodes
      ensures temp.left == null && Spine(spine, r, temp)
    {
      assert Local(nodes, r);
      temp := r;
      spine := {temp};
      while temp.left != null
        invariant Spine(spine, r, temp) && Size(temp.model) <= Size(r.model)
        decreases temp.model
      {
        assert Local(nodes, temp) && Linked(nodes, root, temp);
        assert Local(nodes, temp.left) && Linked(nodes, root, temp.left);
        spine := spine + {temp.left};
        temp := temp.left;
      }
    }

    /** The two-kid case: the left subtree goes under the leftmost node of the right one. */
    method HangLeftKid(node: TreeNode<T>)
      requires Valid() && node in nodes && root != null && node.left != null && node.right != null
      modifies nodes
      ensures Loose(node, node.right) && OnlyBelow(node) && unchanged(node`right)
      ensures old(node.model).Node? && ModelOf(node.right) == Remains(old(node.model))
    {
      assert Local(nodes, node) && Linked(nodes, root, node);
      ghost var l, r := node.left, node.right;
      assert Local(nodes, l) && Local(nodes, r);
      var temp, spine := Leftmost(node.right);
      OffSpine(node, l, r, temp, spine);
      label Before:
      Attach(node, temp, node.left, spine);
      HungBelow@Before(node, l, r, temp, spine);
      forall q | q in nodes
        ensures SameAbove(q, node)
      {
        assert SameAbove@Before(q, node);
      }
      Hung@Before(node, l, r, temp, spine);
    }

    /** The two assignments that hang `l` under `temp`. */
    method Attach(ghost node: TreeNode<T>, temp: TreeNode<T>, l: TreeNode<T>, ghost spine: set<TreeNode<T>>)
      requires root != null && temp in nodes && l in nodes && temp.left == null && spine <= nodes && l !in spine
      modifies nodes
      ensures HungUnder(node, l, temp, spine)
    {
      temp.left := l;
      temp.left.parent := temp;
      forall q | q in spine {
        q.model := HangLeft(q.model, l.model);
      }
    }

    /** The second part of tree_delete below the root: the parent takes what remains. */
    method Splice(node: TreeNode<T>, n: TreeNode?<T>)
      requires Loose(node, n) && node.parent != null
      modifies this`nodes, nodes
      ensures nodes == old(nodes) - {node} && root == old(root)
      ensures var p := old(node.parent);
              && p in nodes && Reached(p, old(p.model)) && old(p.model).Node?
              && (if old(p.left == node) then
                    old(p.model.left) == old(node.model) && p.model == old(p.model).(left := old(ModelOf(n)))
                  else old(p.model.right) == old(node.model) && p.model == old(p.model).(right := old(ModelOf(n))))
      ensures forall q {:trigger Same(q)} :: q in nodes && q != old(node.parent) && q != n ==> Same(q)
      ensures unchanged(old(node.parent)`parent)
    {
      var p := node.parent;
      assert Local(nodes, p) && Linked(nodes, root, p);
      if p.left == node {
        p.left := n;
      } else {
        p.right := n;
      }
      if n != null {
        n.parent := p;
      }
      nodes := nodes - {node};
      p.model := Node(ModelOf(p.left), p.info, ModelOf(p.right));
      Spliced(node, n, p);
    }

    twostate lemma Spliced(node: TreeNode<T>, new n: TreeNode?<T>, new p: TreeNode<T>)
      requires old(allocated(n)) && old(allocated(p))
      requires old(Loose(node, n)) && p == old(node.parent) && nodes == old(nodes) - {node} && root == old(root)
      requires p in nodes && p != n
      requires unchanged(p`parent, p`info)
      requires if old(p.left) == node then p.left == n && unchanged(p`right) else p.right == n && unchanged(p`left)
      requires n != null ==> n.parent == p && unchanged(n`left, n`right, n`info, n`model)
      requires forall q {:trigger Same(q)} :: q in nodes && q != p && q != n ==> Same(q)
      requires p.model == Node(ModelOf(p.left), p.info, ModelOf(p.right))
      ensures Reached(p, old(p.model))
    {
      assert old(Linked(nodes, root, p) && Local(nodes, p));
      forall q | q in nodes
        ensures Linked(nodes, root, q) && LocalBut(nodes, q, p, old(p.model))
      {
        assert old(Linked(nodes, root, q) && Local(nodes, q));
        assert q != p && q != n ==> Same(q);
        assert q.parent != null && q.parent != p && q.parent != n ==> Same(q.parent);
        assert q.left != null && q.left != p && q.left != n ==> Same(q.left);
        assert q.right != null && q.right != p && q.right != n ==> Same(q.right);
      }
    }

    /**
     * tree_delete: the node goes, and what remains below it takes its place; `path` is where it stood.
     */
    method Delete(node: TreeNode?<T>) returns (ghost path: Path)
      requires Valid() && (node != null ==> node in nodes)
      modifies this, nodes
      ensures Valid()
      ensures node == null ==> nodes == old(nodes) && Model() == old(Model())
      ensures node != null ==> nodes == old(nodes) - {node}
      ensures node != null ==> old(node.model).Node? && old(node.model).info == old(node.info)
      ensures node != null ==> Sub(old(Model()), path) == old(node.model)
      ensures node != null ==> Model() == BTreeSpec.Delete(old(Model()), path)
    {
      path := [];
      if node == null || root == null {
        if root == null { EmptyTree(); }
        return;
      }
      assert Linked(nodes, root, node) && Local(nodes, node);
      if root == node {
        DeleteRoot(node);
      } else {
        path := DeleteBelow(node);
      }
    }

    /** NOT_CHILD: what remains becomes the tree. */
    method DeleteRoot(node: TreeNode<T>)
      requires Valid() && node in nodes && root == node
      modifies this, nodes
      ensures Valid() && nodes == old(nodes) - {node}
      ensures old(node.model).Node? && Model() == Remains(old(node.model))
    {
      assert Linked(nodes, root, node);
      var n := TakeOut(node);
      label Out:
      if n != null {
        n.parent := null;
      }
      root := n;
      nodes := nodes - {node};
      RootTaken@Out(node, n);
    }

    twostate lemma RootTaken(node: TreeNode<T>, new n: TreeNode?<T>)
      requires old(allocated(n)) && old(Loose(node, n)) && old(root) == node
      requires root == n && nodes == old(nodes) - {node}
      requires n != null ==> n.parent == null && unchanged(n`left, n`right, n`info, n`model)
      requires forall q {:trigger Same(q)} :: q in nodes && q != n ==> Same(q)
      ensures Valid()
    {
      forall q | q in nodes
        ensures Linked(nodes, root, q) && Local(nodes, q)
      {
        assert old(Linked(nodes, root, q) && Local(nodes, q));
        assert q != n ==> Same(q);
        assert q.parent != null && q.parent != n ==> Same(q.parent);
        assert q.left != null && q.left != n ==> Same(q.left);
        assert q.right != null && q.right != n ==> Same(q.right);
      }
    }

    /** The nodes above `node` with the ways to them: none is in reach of what happens below `node`. */
    ghost predicate Above(node: TreeNode<T>, chain: seq<TreeNode<T>>, way: Path)
      reads this, nodes, node
    {
      && node.parent != null && Chain(node.parent, chain) && Turns(node.parent, chain, way)
      && root != null && root in chain
      && (forall q :: q in chain ==> q in nodes && Size(node.model) < Size(q.model))
    }

    lemma AboveOf(node: TreeNode<T>) returns (chain: seq<TreeNode<T>>, way: Path)
      requires Valid() && node in nodes && root != node
      ensures Above(node, chain, way)
      ensures Sub(root.model, way) == node.parent.model
    {
      assert Linked(nodes, root, node) && Local(nodes, node);
      var p := node.parent;
      assert Local(nodes, p);
      chain, way := ChainOf(p);
      ChainNodes(p, chain);
      TopOfChain(p, chain);
      assert chain == [p] + chain[1..];
      SubOfChain(p, chain, way);
    }

    /** The turns of a chain lead from the root to its start. */
    lemma SubOfChain(c: TreeNode<T>, chain: seq<TreeNode<T>>, way: Path)
      requires Valid() && Chain(c, chain) && Turns(c, chain, way)
      ensures root != null && Sub(root.model, way) == c.model && c.model.Node?
      decreases |chain|
    {
      assert Linked(nodes, root, c) && Local(nodes, c);
      if |chain| > 1 {
        var p := chain[1];
        assert Linked(nodes, root, p) && Local(nodes, p);
        SubOfChain(p, chain[1..], way[..|way| - 1]);
        SubStep(root.model, way[..|way| - 1], p.right == c);
        assert way == way[..|way| - 1] + [p.right == c];
      }
    }

    /** LEFT_CHILD and RIGHT_CHILD, the pointers: what remains goes to the parent. */
    method Unlink(node: TreeNode<T>, ghost chain: seq<TreeNode<T>>, ghost way: Path)
      requires Valid() && node in nodes && root != node && Above(node, chain, way)
      modifies this`nodes, nodes
      ensures nodes == old(nodes) - {node} && root == old(root) && root != null
      ensures old(node.model).Node?
      ensures var p := old(node.parent);
              && p != null && Chain(p, chain) && Turns(p, chain, way)
              && Reached(p, old(p.model)) && old(p.model).Node?
              && p.model == (if old(p.right == node) then old(p.model).(right := Remains(old(node.model)))
                             else old(p.model).(left := Remains(old(node.model))))
              && (if old(p.right == node) then old(p.model).right else old(p.model).left) == old(node.model)
              && (p != root ==> root.model == old(root.model))
    {
      assert Linked(nodes, root, node) && Linked(nodes, root, node.parent);
      ghost var p: TreeNode<T> := node.parent;
      assert p == chain[0];
      label Start:
      var n := TakeOut(node);
      assert forall q :: q in chain ==> SameAbove@Start(q, node);
      assert SameAbove@Start(p, node) && SameAbove@Start(root, node);
      label Out:
      Splice(node, n);
      assert root != p ==> Same@Out(root);
      forall q | q in chain && q != p
        ensures SameWay@Start(q)
      {
        assert Same@Out(q) && SameAbove@Start(q, node);
      }
      ChainKept@Start(p, chain, way);
    }

    method DeleteBelow(node: TreeNode<T>) returns (ghost path: Path)
      requires Valid() && node in nodes && root != null && root != node
      modifies this`nodes, nodes
      ensures Valid() && nodes == old(nodes) - {node} && root == old(root)
      ensures old(node.model).Node? && Sub(old(root.model), path) == old(node.model)
      ensures root.model == BTreeSpec.Delete(old(root.model), path)
    {
      ghost var chain, way := AboveOf(node);
      ghost var p: TreeNode<T> := node.parent;
      ghost var side, t0, t, was := p.right == node, root.model, node.model, p.model;
      Unlink(node, chain, way);
      ghost var k := p.model;
      WalkUp(p, was, chain, way);
      ReplaceStep(t0, way, side, Remains(t));
      path := way + [side];
    }

    // ---------- runs ----------

    /** tree_find, and tree_delete of what it found, as the test driver does it. */
    method Remove(info: T)
      requires Valid() && IsComparator(cmp) && SearchTree(Model(), cmp)
      modifies this, nodes
      ensures Valid() && nodes <= old(nodes) && Model() == Do(old(Model()), Del(info), cmp)
    {
      FindIff(Model(), info, cmp);
      var found := Find(info);
      ghost var t := Model();
      if found != null { assert Local(nodes, found); }
      ghost var path := Delete(found);
      if found != null {
        PathUnique(t, path, FindPath(t, info, cmp), cmp);
      }
    }

    /** Any sequence of insertions and removals: the tree on the heap is the one of the specified run. */
    method Session(ops: seq<Op<T>>)
      requires Valid() && root == null && IsComparator(cmp)
      modifies this, nodes
      ensures Valid() && Model() == Run(ops, cmp)
    {
      EmptyTree();
      var i := 0;
      while i < |ops|
        invariant 0 <= i <= |ops| && Valid() && fresh(nodes) && Model() == Run(ops[..i], cmp)
      {
        assert ops[..i + 1][..i] == ops[..i];
        match ops[i] {
          case Ins(x) => Insert(x);
          case Del(x) =>
            RunRefines(ops[..i], cmp);
            Remove(x);
        }
        i := i + 1;
      }
      assert ops[..i] == ops;
    }
  }

  lemma {:induction false} SubStep<T>(t: Tree<T>, path: Path, right: bool)
    requires Sub(t, path).Node?
    ensures Sub(t, path + [right]) == if right then Sub(t, path).right else Sub(t, path).left
    decreases |path|
  {
    if path != [] {
      assert (path + [right])[1..] == path[1..] + [right];
      SubStep(if path[0] then t.right else t.left, path[1..], right);
    }
  }

  /** Replacing below a node is replacing the node by itself with that half replaced. */
  lemma {:induction false} ReplaceStep<T>(t: Tree<T>, path: Path, right: bool, k: Tree<T>)
    requires Sub(t, path).Node?
    ensures Sub(t, path + [right]) == if right then Sub(t, path).right else Sub(t, path).left
    ensures Sub(t, path + [right]).Node? ==>
              Replace(t, path + [right], k)
              == Replace(t, path, if right then Sub(t, path).(right := k) else Sub(t, path).(left := k))
    decreases |path|
  {
    if path == [] {
      assert ([right])[1..] == [];
    } else {
      assert (path + [right])[1..] == path[1..] + [right];
      ReplaceStep(if path[0] then t.right else t.left, path[1..], right, k);
    }
  }
}
