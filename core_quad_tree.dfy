/**
 * The older corner-origin quadtree of src/core/quad_tree.ts: a node is the square
 * [x, x + size) x [y, y + size), children are built eagerly while the level is
 * below 2, and `traverse` walks the tree in pre-order.
 */
module CoreQuadTree {
  import opened Common

  /** Children are created while the level is below this depth. */
  const MaxLevel: int := 2

  datatype Node = Node(x: real, y: real, size: real, level: int,
                       subTL: Option<Node>, subTR: Option<Node>,
                       subBL: Option<Node>, subBR: Option<Node>)

  datatype Quadrant = TL | TR | BL | BR

  predicate HasAllChildren(n: Node) {
    n.subTL.Some? && n.subTR.Some? && n.subBL.Some? && n.subBR.Some?
  }

  predicate HasNoChildren(n: Node) {
    n.subTL.None? && n.subTR.None? && n.subBL.None? && n.subBR.None?
  }

  function Child(n: Node, q: Quadrant): Option<Node> {
    match q
    case TL => n.subTL
    case TR => n.subTR
    case BL => n.subBL
    case BR => n.subBR
  }

  // ---------------------------------------------------------------------------
  // Construction
  // ---------------------------------------------------------------------------

  /** `new Node(x, y, size, level)`: four children of half the size while level < 2. */
  function Build(x: real, y: real, size: real, level: int): (n: Node)
    decreases if level < MaxLevel then MaxLevel - level else 0
  {
    if level < MaxLevel then
      Node(x, y, size, level,
           Some(Build(x, y, size / 2.0, level + 1)),
           Some(Build(x + size / 2.0, y, size / 2.0, level + 1)),
           Some(Build(x, y + size / 2.0, size / 2.0, level + 1)),
           Some(Build(x + size / 2.0, y + size / 2.0, size / 2.0, level + 1)))
    else
      Node(x, y, size, level, None, None, None, None)
  }

  /** Child `c` sits in quadrant `q` of `n`: half the size, one level deeper, corner offset by it. */
  predicate ChildGeometry(n: Node, q: Quadrant, c: Node) {
    var s := n.size / 2.0;
    && c.size == s
    && c.level == n.level + 1
    && c.x == (if q == TL || q == BL then n.x else n.x + s)
    && c.y == (if q == TL || q == TR then n.y else n.y + s)
  }

  /** Child `q` of `n` exists, has the quadrant geometry and is itself well formed. */
  predicate ChildOk(n: Node, q: Quadrant)
    decreases n, 0
  {
    Child(n, q).Some? && ChildGeometry(n, q, Child(n, q).value) && WellFormed(Child(n, q).value)
  }

  /** The shape every constructed tree has: never a partial set of children, quadrant geometry everywhere. */
  predicate WellFormed(n: Node)
    decreases n, 1
  {
    if n.level < MaxLevel then
      ChildOk(n, TL) && ChildOk(n, TR) && ChildOk(n, BL) && ChildOk(n, BR)
    else
      HasNoChildren(n)
  }

  lemma {:induction false} BuildWellFormed(x: real, y: real, size: real, level: int)
    decreases if level < MaxLevel then MaxLevel - level else 0, 1
    ensures WellFormed(Build(x, y, size, level))
  {
    if level < MaxLevel {
      BuildChildOk(x, y, size, level, TL);
      BuildChildOk(x, y, size, level, TR);
      BuildChildOk(x, y, size, level, BL);
      BuildChildOk(x, y, size, level, BR);
    }
  }

  lemma {:induction false} BuildChildOk(x: real, y: real, size: real, level: int, q: Quadrant)
    requires level < MaxLevel
    decreases MaxLevel - level, 0
    ensures ChildOk(Build(x, y, size, level), q)
  {
    match q
    case TL => BuildWellFormed(x, y, size / 2.0, level + 1);
    case TR => BuildWellFormed(x + size / 2.0, y, size / 2.0, level + 1);
    case BL => BuildWellFormed(x, y + size / 2.0, size / 2.0, level + 1);
    case BR => BuildWellFormed(x + size / 2.0, y + size / 2.0, size / 2.0, level + 1);
  }

  /** A well-formed tree is the one `Build` makes from its root's corner, size and level. */
  lemma {:induction false} WellFormedIsBuild(n: Node)
    requires WellFormed(n)
    decreases n
    ensures n == Build(n.x, n.y, n.size, n.level)
  {
    if n.level < MaxLevel {
      WellFormedIsBuild(n.subTL.value);
      WellFormedIsBuild(n.subTR.value);
      WellFormedIsBuild(n.subBL.value);
      WellFormedIsBuild(n.subBR.value);
    }
  }

  // ---------------------------------------------------------------------------
  // The children partition the parent square
  // ---------------------------------------------------------------------------

  /** The half-open square [x, x + size) x [y, y + size) of `n` holds the point (px, py). */
  predicate Contains(n: Node, px: real, py: real) {
    n.x <= px < n.x + n.size && n.y <= py < n.y + n.size
  }

  /** Child `q` of `n` exists and its square holds the point (px, py). */
  predicate InChild(n: Node, q: Quadrant, px: real, py: real) {
    Child(n, q).Some? && Contains(Child(n, q).value, px, py)
  }

  /**
   * The four child squares of a node with children are pairwise disjoint, and a point
   * lies in the parent square exactly when it lies in one of them.
   */
  lemma ChildrenPartition(n: Node, px: real, py: real)
    requires WellFormed(n) && n.level < MaxLevel
    ensures Contains(n, px, py) <==> exists q :: InChild(n, q, px, py)
    ensures forall q1, q2 :: q1 != q2 && InChild(n, q1, px, py) ==> !InChild(n, q2, px, py)
  {
    var s := n.size / 2.0;
    var tl, tr, bl, br := n.subTL.value, n.subTR.value, n.subBL.value, n.subBR.value;
    assert ChildGeometry(n, TL, tl) && ChildGeometry(n, TR, tr);
    assert ChildGeometry(n, BL, bl) && ChildGeometry(n, BR, br);
    if Contains(n, px, py) {
      var q := if px < n.x + s then (if py < n.y + s then TL else BL)
               else (if py < n.y + s then TR else BR);
      assert InChild(n, q, px, py);
    }
  }

  // ---------------------------------------------------------------------------
  // Traversal
  // ---------------------------------------------------------------------------

  /** `traverse`: the node itself, then the TL, TR, BL and BR subtrees, as the sequence of callback calls. */
  function Traverse(n: Node): (visits: seq<Node>)
    decreases n
    ensures |visits| >= 1 && visits[0] == n
  {
    [n] + Visit(n.subTL) + Visit(n.subTR) + Visit(n.subBL) + Visit(n.subBR)
  }

  /** `child?.traverse(cb)`: nothing when the child is null. */
  function Visit(c: Option<Node>): seq<Node>
    decreases c
  {
    if c.Some? then Traverse(c.value) else []
  }

  /** A well-formed node at depth `level` <= 2 has (4^(3-level) - 1) / 3 nodes and the traversal visits each of them. */
  lemma {:induction false} TraverseLength(n: Node)
    requires WellFormed(n) && 0 <= n.level <= MaxLevel
    decreases n
    ensures 3 * |Traverse(n)| + 1 == Pow2(2 * (MaxLevel + 1 - n.level))
  {
    if n.level < MaxLevel {
      var a, b, c, d := n.subTL.value, n.subTR.value, n.subBL.value, n.subBR.value;
      assert |Traverse(n)| == 1 + |Traverse(a)| + |Traverse(b)| + |Traverse(c)| + |Traverse(d)|;
      TraverseLength(a);
      TraverseLength(b);
      TraverseLength(c);
      TraverseLength(d);
      var k := 2 * (MaxLevel - n.level);
      assert 2 * (MaxLevel + 1 - a.level) == k;
      assert 2 * (MaxLevel + 1 - n.level) == k + 2;
      assert Pow2(k + 2) == 2 * Pow2(k + 1) == 4 * Pow2(k);
      FourSubtrees(|Traverse(n)|, |Traverse(a)|, |Traverse(b)|, |Traverse(c)|, |Traverse(d)|, Pow2(k));
    } else {
      assert |Traverse(n)| == 1;
    }
  }

  /** A well-formed root at level 0 is traversed in 21 = 1 + 4 + 16 visits. */
  lemma RootTraverseLength(root: Node)
    requires WellFormed(root) && root.level == 0
    ensures |Traverse(root)| == 21
  {
    TraverseLength(root);
    assert Pow2(6) == 64 by { assert Pow2(2) == 4; }
  }

  /**
   * Every node visited from `n` is at most two levels deep and not shallower than `n`,
   * and its size is the size of `n` halved once per level of depth below `n`.
   */
  lemma {:induction false} TraverseSizes(n: Node)
    requires WellFormed(n) && 0 <= n.level <= MaxLevel
    decreases n
    ensures forall d :: d in Traverse(n) ==>
      && n.level <= d.level <= MaxLevel
      && d.size * (Pow2(d.level - n.level) as real) == n.size
  {
    if n.level < MaxLevel {
      ChildSizes(n, TL);
      ChildSizes(n, TR);
      ChildSizes(n, BL);
      ChildSizes(n, BR);
    }
  }

  lemma {:induction false} ChildSizes(n: Node, q: Quadrant)
    requires WellFormed(n) && 0 <= n.level < MaxLevel
    decreases n, 0
    ensures forall d :: d in Visit(Child(n, q)) ==>
      && n.level < d.level <= MaxLevel
      && d.size * (Pow2(d.level - n.level) as real) == n.size
  {
    var c := Child(n, q).value;
    assert ChildGeometry(n, q, c) && WellFormed(c);
    TraverseSizes(c);
    forall d | d in Traverse(c)
      ensures d.size * (Pow2(d.level - n.level) as real) == n.size
    {
      var k := d.level - c.level;
      assert d.level - n.level == k + 1;
      assert Pow2(k + 1) == 2 * Pow2(k);
      assert d.size * (Pow2(k) as real) == c.size;
    }
  }

  /** A well-formed root at level 0 of size `size` yields nodes of level 0..2 and size `size / 2^level`. */
  lemma RootSizes(root: Node)
    requires WellFormed(root) && root.level == 0
    ensures forall d :: d in Traverse(root) ==>
      0 <= d.level <= MaxLevel && d.size == root.size / (Pow2(d.level) as real)
  {
    TraverseSizes(root);
  }

  /** `d` has its corner inside the square of `n` and is not shallower; at equal depth it is `n`. */
  predicate Inside(n: Node, d: Node) {
    && n.x <= d.x < n.x + n.size
    && n.y <= d.y < n.y + n.size
    && d.level >= n.level
    && (d.level == n.level ==> d == n)
  }

  /** `d` is deeper than `n` and its corner is in the quarter of `n` that quadrant `q` covers. */
  predicate OnSide(n: Node, q: Quadrant, d: Node) {
    && (if q == TL || q == BL then d.x < n.x + n.size / 2.0 else d.x >= n.x + n.size / 2.0)
    && (if q == TL || q == TR then d.y < n.y + n.size / 2.0 else d.y >= n.y + n.size / 2.0)
    && d.level > n.level
  }

  /** With a positive size, every node visited from `n` has its corner inside the square of `n`. */
  lemma {:induction false} TraverseWithin(n: Node)
    requires WellFormed(n) && n.size > 0.0
    decreases n, 1
    ensures forall d :: d in Traverse(n) ==> Inside(n, d)
  {
    if n.level < MaxLevel {
      VisitWithin(n, TL);
      VisitWithin(n, TR);
      VisitWithin(n, BL);
      VisitWithin(n, BR);
    }
  }

  lemma {:induction false} VisitWithin(n: Node, q: Quadrant)
    requires WellFormed(n) && n.size > 0.0 && n.level < MaxLevel
    decreases n, 0
    ensures forall d :: d in Visit(Child(n, q)) ==> Inside(n, d) && OnSide(n, q, d)
  {
    var c := Child(n, q).value;
    assert ChildGeometry(n, q, c) && WellFormed(c);
    TraverseWithin(c);
    forall d | d in Traverse(c)
      ensures Inside(n, d) && OnSide(n, q, d)
    {
      assert Inside(c, d);
    }
  }

  /** In a well-formed tree with a positive size the traversal visits no node twice. */
  lemma {:induction false} TraverseDistinct(n: Node)
    requires WellFormed(n) && n.size > 0.0
    decreases n
    ensures Distinct(Traverse(n))
  {
    if n.level < MaxLevel {
      var a, b, c, d := Visit(Child(n, TL)), Visit(Child(n, TR)), Visit(Child(n, BL)), Visit(Child(n, BR));
      assert Traverse(n) == [n] + a + b + c + d;
      VisitWithin(n, TL);
      VisitWithin(n, TR);
      VisitWithin(n, BL);
      VisitWithin(n, BR);
      TraverseDistinct(n.subTL.value);
      TraverseDistinct(n.subTR.value);
      TraverseDistinct(n.subBL.value);
      TraverseDistinct(n.subBR.value);
      DistinctConcat([n], a);
      DistinctConcat([n] + a, b);
      DistinctConcat([n] + a + b, c);
      DistinctConcat([n] + a + b + c, d);
    }
  }
}
