/** The binary search tree of src/btree.c as a value, and the ordered collection it stands for. */
module BTreeSpec {

  datatype Tree<T> = Leaf | Node(left: Tree<T>, info: T, right: Tree<T>)

  type Cmp<!T> = (T, T) -> int

  /** What a comparison function must be: a total order up to "equal". */
  ghost predicate IsComparator<T(!new)>(cmp: Cmp<T>) {
    && (forall a :: cmp(a, a) == 0)
    && (forall a, b :: cmp(a, b) < 0 <==> cmp(b, a) > 0)
    && (forall a, b, c :: cmp(a, b) <= 0 && cmp(b, c) <= 0 ==> cmp(a, c) <= 0)
  }

  /** tree_insert: an equal entry is replaced, else a leaf is added where the search ends. */
  function Insert<T>(t: Tree<T>, x: T, cmp: Cmp<T>): Tree<T> {
    match t
    case Leaf => Node(Leaf, x, Leaf)
    case Node(l, y, r) =>
      var diff := cmp(x, y);
      if diff == 0 then Node(l, x, r)
      else if diff < 0 then Node(Insert(l, x, cmp), y, r)
      else Node(l, y, Insert(r, x, cmp))
  }

  /** tree_find: the subtree whose root compares equal. */
  function Find<T>(t: Tree<T>, x: T, cmp: Cmp<T>): Tree<T> {
    match t
    case Leaf => Leaf
    case Node(l, y, r) =>
      var diff := cmp(x, y);
      if diff == 0 then t
      else if diff < 0 then Find(l, x, cmp)
      else Find(r, x, cmp)
  }

  /** `l` under the leftmost node of `t`. */
  function HangLeft<T>(t: Tree<T>, l: Tree<T>): Tree<T> {
    match t
    case Leaf => l
    case Node(tl, x, r) => Node(HangLeft(tl, l), x, r)
  }

  /** What takes the place of a deleted node. */
  function Remains<T>(t: Tree<T>): Tree<T>
    requires t.Node?
  {
    if t.right.Leaf? then t.left
    else if t.left.Leaf? then t.right
    else HangLeft(t.right, t.left)
  }

  // ---------- positions: false is left, true is right ----------

  type Path = seq<bool>

  function Sub<T>(t: Tree<T>, path: Path): Tree<T> {
    if path == [] then t
    else if t.Leaf? then Leaf
    else Sub(if path[0] then t.right else t.left, path[1..])
  }

  function Replace<T>(t: Tree<T>, path: Path, k: Tree<T>): Tree<T>
    requires Sub(t, path).Node?
  {
    if path == [] then k
    else if path[0] then t.(right := Replace(t.right, path[1..], k))
    else t.(left := Replace(t.left, path[1..], k))
  }

  /** tree_delete */
  function Delete<T>(t: Tree<T>, path: Path): Tree<T>
    requires Sub(t, path).Node?
  {
    Replace(t, path, Remains(Sub(t, path)))
  }

  /** The way tree_find goes. */
  function FindPath<T>(t: Tree<T>, x: T, cmp: Cmp<T>): Path {
    match t
    case Leaf => []
    case Node(l, y, r) =>
      var diff := cmp(x, y);
      if diff == 0 then []
      else if diff < 0 then [false] + FindPath(l, x, cmp)
      else [true] + FindPath(r, x, cmp)
  }

  function Size<T>(t: Tree<T>): nat {
    match t
    case Leaf => 0
    case Node(l, _, r) => 1 + Size(l) + Size(r)
  }

  // ---------- the ordered collection ----------

  function InOrder<T>(t: Tree<T>): seq<T> {
    match t
    case Leaf => []
    case Node(l, x, r) => InOrder(l) + [x] + InOrder(r)
  }

  /** Strictly ascending: the entries are in order and no two are equal. */
  ghost predicate Sorted<T>(s: seq<T>, cmp: Cmp<T>) {
    forall i, j :: 0 <= i < j < |s| ==> cmp(s[i], s[j]) < 0
  }

  ghost predicate SearchTree<T>(t: Tree<T>, cmp: Cmp<T>) {
    Sorted(InOrder(t), cmp)
  }

  lemma {:induction false} HangLeftInOrder<T>(t: Tree<T>, l: Tree<T>)
    ensures InOrder(HangLeft(t, l)) == InOrder(l) + InOrder(t)
  {
    if t.Node? {
      HangLeftInOrder(t.left, l);
    }
  }

  /** Deletion takes out exactly one entry and keeps the order of all others, in all three cases. */
  lemma {:induction false} DeleteInOrder<T>(t: Tree<T>, path: Path) returns (before: seq<T>, after: seq<T>)
    requires Sub(t, path).Node?
    ensures InOrder(t) == before + [Sub(t, path).info] + after
    ensures InOrder(Delete(t, path)) == before + after
    decreases |path|
  {
    if path == [] {
      before, after := InOrder(t.left), InOrder(t.right);
      HangLeftInOrder(t.right, t.left);
    } else if path[0] {
      before, after := DeleteInOrder(t.right, path[1..]);
      before := InOrder(t.left) + [t.info] + before;
    } else {
      before, after := DeleteInOrder(t.left, path[1..]);
      after := after + [t.info] + InOrder(t.right);
    }
  }

  lemma SortedParts<T>(s: seq<T>, x: T, r: seq<T>, cmp: Cmp<T>)
    requires Sorted(s + [x] + r, cmp)
    ensures Sorted(s, cmp) && Sorted(r, cmp) && Sorted(s + r, cmp)
    ensures forall y :: y in s ==> cmp(y, x) < 0
    ensures forall y :: y in r ==> cmp(x, y) < 0
  {
    var w := s + [x] + r;
    assert forall i :: 0 <= i < |s| ==> w[i] == s[i];
    assert w[|s|] == x;
    assert forall i :: 0 <= i < |r| ==> w[|s| + 1 + i] == r[i];
    forall i, j | 0 <= i < j < |s + r|
      ensures cmp((s + r)[i], (s + r)[j]) < 0
    {
      var i', j' := if i < |s| then i else i + 1, if j < |s| then j else j + 1;
      assert w[i'] == (s + r)[i] && w[j'] == (s + r)[j];
    }
  }

  lemma SortedJoin<T(!new)>(s: seq<T>, x: T, r: seq<T>, cmp: Cmp<T>)
    requires IsComparator(cmp) && Sorted(s, cmp) && Sorted(r, cmp)
    requires forall y :: y in s ==> cmp(y, x) < 0
    requires forall y :: y in r ==> cmp(x, y) < 0
    ensures Sorted(s + [x] + r, cmp)
  {
    var w := s + [x] + r;
    forall i, j | 0 <= i < j < |w|
      ensures cmp(w[i], w[j]) < 0
    {
      if i < |s| {
        assert w[i] in s;
        if j > |s| {
          assert w[j] in r;
          Transitive(w[i], x, w[j], cmp);
        }
      } else {
        assert w[j] in r;
      }
    }
  }

  lemma Transitive<T(!new)>(a: T, b: T, c: T, cmp: Cmp<T>)
    requires IsComparator(cmp) && cmp(a, b) < 0 && cmp(b, c) < 0
    ensures cmp(a, c) < 0
  {
    assert cmp(a, c) <= 0;
    if cmp(a, c) == 0 { EqualsAlike(a, c, b, cmp); }
  }

  /** Equal entries compare alike with every other. */
  lemma EqualsAlike<T(!new)>(x: T, y: T, z: T, cmp: Cmp<T>)
    requires IsComparator(cmp) && cmp(x, y) == 0
    ensures cmp(y, x) == 0
    ensures cmp(x, z) < 0 <==> cmp(y, z) < 0
    ensures cmp(x, z) == 0 <==> cmp(y, z) == 0
  {
    assert cmp(y, x) == 0;
    assert cmp(x, z) <= 0 ==> cmp(y, z) <= 0;
    assert cmp(y, z) <= 0 ==> cmp(x, z) <= 0;
    assert cmp(z, x) <= 0 ==> cmp(z, y) <= 0;
    assert cmp(z, y) <= 0 ==> cmp(z, x) <= 0;
  }

  /** Insertion keeps the search order; it adds the entry and drops only an entry equal to it. */
  lemma {:induction false} InsertOrdered<T(!new)>(t: Tree<T>, x: T, cmp: Cmp<T>)
    requires IsComparator(cmp) && SearchTree(t, cmp)
    ensures SearchTree(Insert(t, x, cmp), cmp)
    ensures forall y :: y in InOrder(Insert(t, x, cmp)) <==> y == x || (y in InOrder(t) && cmp(x, y) != 0)
  {
    match t
    case Leaf =>
      assert InOrder(Insert(t, x, cmp)) == [x];
    case Node(l, z, r) =>
      SortedParts(InOrder(l), z, InOrder(r), cmp);
      var diff := cmp(x, z);
      if diff == 0 {
        InsertEqual(InOrder(l), z, InOrder(r), x, cmp);
      } else if diff < 0 {
        InsertOrdered(l, x, cmp);
        forall y | y in InOrder(r) ensures cmp(x, y) < 0 { Transitive(x, z, y, cmp); }
        SortedJoin(InOrder(Insert(l, x, cmp)), z, InOrder(r), cmp);
      } else {
        InsertOrdered(r, x, cmp);
        forall y | y in InOrder(l) ensures cmp(x, y) > 0 { Transitive(y, z, x, cmp); }
        SortedJoin(InOrder(l), z, InOrder(Insert(r, x, cmp)), cmp);
      }
  }

  lemma InsertEqual<T(!new)>(s: seq<T>, z: T, r: seq<T>, x: T, cmp: Cmp<T>)
    requires IsComparator(cmp) && Sorted(s + [z] + r, cmp) && cmp(x, z) == 0
    ensures Sorted(s + [x] + r, cmp)
    ensures forall y :: y in s || y in r ==> cmp(x, y) != 0
  {
    SortedParts(s, z, r, cmp);
    forall y | y in s ensures cmp(y, x) < 0 { EqualsAlike(x, z, y, cmp); }
    forall y | y in r ensures cmp(x, y) < 0 { EqualsAlike(x, z, y, cmp); }
    SortedJoin(s, x, r, cmp);
  }

  /** The search ends at an entry equal to the one sought if there is one, and finds nothing otherwise. */
  lemma {:induction false} FindIff<T(!new)>(t: Tree<T>, x: T, cmp: Cmp<T>)
    requires IsComparator(cmp) && SearchTree(t, cmp)
    ensures Find(t, x, cmp).Node? <==> exists y :: y in InOrder(t) && cmp(x, y) == 0
    ensures Find(t, x, cmp) == Sub(t, FindPath(t, x, cmp))
    ensures Find(t, x, cmp).Node? ==> cmp(x, Find(t, x, cmp).info) == 0 && Find(t, x, cmp).info in InOrder(t)
  {
    match t
    case Leaf =>
    case Node(l, z, r) =>
      SortedParts(InOrder(l), z, InOrder(r), cmp);
      var diff := cmp(x, z);
      if diff == 0 {
        assert z in InOrder(t);
      } else if diff < 0 {
        FindIff(l, x, cmp);
        forall y | y in InOrder(r) ensures cmp(x, y) < 0 { Transitive(x, z, y, cmp); }
        PathHead(t, false, FindPath(l, x, cmp));
      } else {
        FindIff(r, x, cmp);
        forall y | y in InOrder(l) ensures cmp(x, y) > 0 { Transitive(y, z, x, cmp); }
        PathHead(t, true, FindPath(r, x, cmp));
      }
  }

  lemma PathHead<T>(t: Tree<T>, right: bool, path: Path)
    requires t.Node?
    ensures Sub(t, [right] + path) == Sub(if right then t.right else t.left, path)
  {
    assert ([right] + path)[1..] == path;
  }

  /** Finding and deleting keeps the search order and removes exactly the entry that compares equal. */
  lemma DeleteFound<T(!new)>(t: Tree<T>, x: T, cmp: Cmp<T>)
    requires IsComparator(cmp) && SearchTree(t, cmp) && Find(t, x, cmp).Node?
    ensures Sub(t, FindPath(t, x, cmp)).Node?
    ensures SearchTree(Delete(t, FindPath(t, x, cmp)), cmp)
    ensures forall y :: y in InOrder(Delete(t, FindPath(t, x, cmp))) <==> y in InOrder(t) && cmp(x, y) != 0
  {
    FindIff(t, x, cmp);
    var z := Find(t, x, cmp).info;
    var before, after := DeleteInOrder(t, FindPath(t, x, cmp));
    SortedParts(before, z, after, cmp);
    forall y | y in before || y in after
      ensures cmp(x, y) != 0
    {
      EqualsAlike(x, z, y, cmp);
    }
  }

  /** In a search tree an entry stands at one place. */
  lemma {:induction false} PathUnique<T(!new)>(t: Tree<T>, p: Path, q: Path, cmp: Cmp<T>)
    requires IsComparator(cmp) && SearchTree(t, cmp)
    requires Sub(t, p).Node? && Sub(t, q).Node? && Sub(t, p).info == Sub(t, q).info
    ensures p == q
    decreases |p|
  {
    SortedParts(InOrder(t.left), t.info, InOrder(t.right), cmp);
    Placed(t, p);
    Placed(t, q);
    var y := Sub(t, p).info;
    assert cmp(y, y) == 0;
    if p != [] && q != [] && p[0] == q[0] {
      PathUnique(if p[0] then t.right else t.left, p[1..], q[1..], cmp);
    } else if p != [] || q != [] {
      assert false;
    }
  }

  /** Where an entry is in the order tells on which side of the root it stands. */
  lemma Placed<T>(t: Tree<T>, p: Path)
    requires Sub(t, p).Node?
    ensures t.Node?
    ensures if p == [] then Sub(t, p).info == t.info
            else if p[0] then Sub(t, p).info in InOrder(t.right)
            else Sub(t, p).info in InOrder(t.left)
  {
    if p != [] {
      var before, after := DeleteInOrder(if p[0] then t.right else t.left, p[1..]);
    }
  }

  // ---------- runs ----------

  datatype Op<T> = Ins(x: T) | Del(x: T)

  /** One call of tree_insert, or tree_find followed by tree_delete of what it found. */
  function Do<T>(t: Tree<T>, op: Op<T>, cmp: Cmp<T>): Tree<T> {
    match op
    case Ins(x) => Insert(t, x, cmp)
    case Del(x) =>
      var path := FindPath(t, x, cmp);
      if Sub(t, path).Node? then Delete(t, path) else t
  }

  function Run<T>(ops: seq<Op<T>>, cmp: Cmp<T>): Tree<T> {
    if ops == [] then Leaf else Do(Run(ops[..|ops| - 1], cmp), ops[|ops| - 1], cmp)
  }

  /** The same run on the ordered collection: whether `y` is in it at the end. */
  predicate Holds<T(==)>(ops: seq<Op<T>>, y: T, cmp: Cmp<T>) {
    ops != [] &&
    var last := ops[|ops| - 1];
    if last.Ins? && last.x == y then true
    else cmp(last.x, y) != 0 && Holds(ops[..|ops| - 1], y, cmp)
  }

  /** Any sequence of insertions and deletions keeps the search order and holds what it should hold. */
  lemma {:induction false} RunRefines<T(!new)>(ops: seq<Op<T>>, cmp: Cmp<T>)
    requires IsComparator(cmp)
    ensures SearchTree(Run(ops, cmp), cmp)
    ensures forall y :: y in InOrder(Run(ops, cmp)) <==> Holds(ops, y, cmp)
  {
    if ops != [] {
      var before, last := ops[..|ops| - 1], ops[|ops| - 1];
      RunRefines(before, cmp);
      var t := Run(before, cmp);
      match last
      case Ins(x) =>
        InsertOrdered(t, x, cmp);
      case Del(x) =>
        FindIff(t, x, cmp);
        if Find(t, x, cmp).Node? {
          DeleteFound(t, x, cmp);
        }
    }
  }
}
