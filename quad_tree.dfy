/**
 * The centre-origin LOD quadtree of src/quad_tree.ts: eager construction down to
 * depth 5, the pre-order `traverse`, and the recursive `selectNodes`.
 *
 * A JavaScript `Node` object is a value here.  Object identity, which the source
 * relies on when it hands nodes to its callback, is modelled by the path of
 * quadrants that leads from the root to the node; every emitted `Pick` carries it.
 * The sphere test and the frustum test of three.js are parameters of the selection.
 */
module QuadTree {
  import opened Common

  /** Children are created while the level is below this depth. */
  const MaxLevel: int := 5

  datatype Node = Node(x: real, y: real, halfSize: real, level: int,
                       subTL: Option<Node>, subTR: Option<Node>,
                       subBL: Option<Node>, subBR: Option<Node>)

  datatype Quadrant = TL | TR | BL | BR

  predicate HasAllChildren(n: Node) {
    n.subTL.Some? && n.subTR.Some? && n.subBL.Some? && n.subBR.Some?
  }

  predicate HasNoChildren(n: Node) {
    n.subTL.None? && n.subTR.None? && n.subBL.None? && n.subBR.None?
  }

  function Child(n: Node, q: Quadrant): Option<Node> {
    match q
    case TL => n.subTL
    case TR => n.subTR
    case BL => n.subBL
    case BR => n.subBR
  }

  /** The node reached from `n` by following the quadrants of `rel`, if every step exists. */
  function At(n: Node, rel: seq<Quadrant>): Option<Node>
    decreases |rel|
  {
    if rel == [] then Some(n)
    else match Child(n, rel[0])
      case None => None
      case Some(c) => At(c, rel[1..])
  }

  // ---------------------------------------------------------------------------
  // Construction
  // ---------------------------------------------------------------------------

  /** `new Node(x, y, halfSize, level)`: all four children are built while level < 5. */
  function Build(x: real, y: real, halfSize: real, level: int): (n: Node)
    decreases if level < MaxLevel then MaxLevel - level else 0
  {
    if level < MaxLevel then
      Node(x, y, halfSize, level,
           Some(Build(x - halfSize / 2.0, y - halfSize / 2.0, halfSize / 2.0, level + 1)),
           Some(Build(x + halfSize / 2.0, y - halfSize / 2.0, halfSize / 2.0, level + 1)),
           Some(Build(x - halfSize / 2.0, y + halfSize / 2.0, halfSize / 2.0, level + 1)),
           Some(Build(x + halfSize / 2.0, y + halfSize / 2.0, halfSize / 2.0, level + 1)))
    else
      Node(x, y, halfSize, level, None, None, None, None)
  }

  /** Child `c` sits in quadrant `q` of `n`: half the half-size, one level deeper, centre offset by it. */
  predicate ChildGeometry(n: Node, q: Quadrant, c: Node) {
    var s := n.halfSize / 2.0;
    && c.halfSize == s
    && c.level == n.level + 1
    && c.x == (if q == TL || q == BL then n.x - s else n.x + s)
    && c.y == (if q == TL || q == TR then n.y - s else n.y + s)
  }

  /** The shape every constructed tree has: never a partial set of children, quadrant geometry everywhere. */
  predicate WellFormed(n: Node)
    decreases n
  {
    if n.level < MaxLevel then
      && HasAllChildren(n)
      && ChildGeometry(n, TL, n.subTL.value) && WellFormed(n.subTL.value)
      && ChildGeometry(n, TR, n.subTR.value) && WellFormed(n.subTR.value)
      && ChildGeometry(n, BL, n.subBL.value) && WellFormed(n.subBL.value)
      && ChildGeometry(n, BR, n.subBR.value) && WellFormed(n.subBR.value)
    else
      HasNoChildren(n)
  }

  lemma {:induction false} BuildWellFormed(x: real, y: real, halfSize: real, level: int)
    decreases if level < MaxLevel then MaxLevel - level else 0, 1
    ensures WellFormed(Build(x, y, halfSize, level))
  {
    if level < MaxLevel {
      BuildChildWellFormed(x, y, halfSize, level, TL);
      BuildChildWellFormed(x, y, halfSize, level, TR);
      BuildChildWellFormed(x, y, halfSize, level, BL);
      BuildChildWellFormed(x, y, halfSize, level, BR);
      WellFormedIntro(Build(x, y, halfSize, level));
    }
  }

  /** Child `q` of a node built below level 5 exists, sits in quadrant `q` and is well formed. */
  lemma {:induction false} BuildChildWellFormed(x: real, y: real, halfSize: real, level: int, q: Quadrant)
    requires level < MaxLevel
    decreases MaxLevel - level, 0
    ensures var n := Build(x, y, halfSize, level);
      Child(n, q).Some? && ChildGeometry(n, q, Child(n, q).value) && WellFormed(Child(n, q).value)
  {
    var s := halfSize / 2.0;
    var cx := if q == TL || q == BL then x - s else x + s;
    var cy := if q == TL || q == TR then y - s else y + s;
    var c := Build(cx, cy, s, level + 1);
    assert Child(Build(x, y, halfSize, level), q) == Some(c);
    BuildWellFormed(cx, cy, s, level + 1);
    assert WellFormed(c);
  }

  /** A well-formed tree is the one `Build` makes from its root's centre, half-size and level. */
  lemma {:induction false} WellFormedIsBuild(n: Node)
    requires WellFormed(n)
    decreases n
    ensures n == Build(n.x, n.y, n.halfSize, n.level)
  {
    if n.level < MaxLevel {
      WellFormedIsBuild(n.subTL.value);
      WellFormedIsBuild(n.subTR.value);
      WellFormedIsBuild(n.subBL.value);
      WellFormedIsBuild(n.subBR.value);
    }
  }

  lemma WellFormedIntro(n: Node)
    requires n.level < MaxLevel && HasAllChildren(n)
    requires ChildGeometry(n, TL, n.subTL.value) && ChildGeometry(n, TR, n.subTR.value)
    requires ChildGeometry(n, BL, n.subBL.value) && ChildGeometry(n, BR, n.subBR.value)
    requires WellFormed(n.subTL.value) && WellFormed(n.subTR.value)
    requires WellFormed(n.subBL.value) && WellFormed(n.subBR.value)
    ensures WellFormed(n)
  {
  }

  // ---------------------------------------------------------------------------
  // Traversal
  // ---------------------------------------------------------------------------

  /** `traverse`: the node itself, then the TL, TR, BL and BR subtrees, as the sequence of callback calls. */
  function Traverse(n: Node): (visits: seq<Node>)
    decreases n
    ensures |visits| >= 1 && visits[0] == n
  {
    [n] + Visit(n.subTL) + Visit(n.subTR) + Visit(n.subBL) + Visit(n.subBR)
  }

  /** `child?.traverse(cb)`: nothing when the child is null. */
  function Visit(c: Option<Node>): seq<Node>
    decreases c
  {
    if c.Some? then Traverse(c.value) else []
  }

  /** A well-formed node at depth `level` <= 5 has (4^(6-level) - 1) / 3 nodes and the traversal visits each of them. */
  lemma {:induction false} TraverseLength(n: Node)
    requires WellFormed(n) && 0 <= n.level <= MaxLevel
    decreases n
    ensures 3 * |Traverse(n)| + 1 == Pow2(2 * (MaxLevel + 1 - n.level))
  {
    if n.level < MaxLevel {
      var a, b, c, d := n.subTL.value, n.subTR.value, n.subBL.value, n.subBR.value;
      assert |Traverse(n)| == 1 + |Traverse(a)| + |Traverse(b)| + |Traverse(c)| + |Traverse(d)|;
      TraverseLength(a);
      TraverseLength(b);
      TraverseLength(c);
      TraverseLength(d);
      var k := 2 * (MaxLevel - n.level);
      assert 2 * (MaxLevel + 1 - a.level) == k;
      assert 2 * (MaxLevel + 1 - n.level) == k + 2;
      assert Pow2(k + 2) == 2 * Pow2(k + 1) == 4 * Pow2(k);
      FourSubtrees(|Traverse(n)|, |Traverse(a)|, |Traverse(b)|, |Traverse(c)|, |Traverse(d)|, Pow2(k));
    } else {
      assert |Traverse(n)| == 1;
    }
  }

  /** A well-formed root at level 0, such as the tree of src/terrain.ts, is traversed in 1365 = 1 + 4 + ... + 4^5 visits. */
  lemma RootTraverseLength(root: Node)
    requires WellFormed(root) && root.level == 0
    ensures |Traverse(root)| == 1365
  {
    TraverseLength(root);
    assert Pow2(12) == 4096 by { assert Pow2(2) == 4; }
  }

  /** `d` lies strictly inside the square of `n` and is not shallower; at equal depth it is `n`. */
  predicate Inside(n: Node, d: Node) {
    && n.x - n.halfSize < d.x < n.x + n.halfSize
    && n.y - n.halfSize < d.y < n.y + n.halfSize
    && d.level >= n.level
    && (d.level == n.level ==> d == n)
  }

  /** `d` is deeper than `n` and on the side of the centre of `n` that quadrant `q` covers. */
  predicate OnSide(n: Node, q: Quadrant, d: Node) {
    && (if q == TL || q == BL then d.x < n.x else d.x > n.x)
    && (if q == TL || q == TR then d.y < n.y else d.y > n.y)
    && d.level > n.level
  }

  /** Every node visited from `n` lies strictly inside the square of `n` and is not shallower. */
  lemma {:induction false} TraverseWithin(n: Node)
    requires WellFormed(n) && n.halfSize > 0.0
    decreases n, 1
    ensures forall d :: d in Traverse(n) ==> Inside(n, d)
  {
    if n.level < MaxLevel {
      VisitWithin(n, TL);
      VisitWithin(n, TR);
      VisitWithin(n, BL);
      VisitWithin(n, BR);
    }
  }

  /** The nodes visited below child `q` of `n` lie inside `n`, on the side of quadrant `q`. */
  lemma {:induction false} VisitWithin(n: Node, q: Quadrant)
    requires WellFormed(n) && n.halfSize > 0.0 && n.level < MaxLevel
    decreases n, 0
    ensures forall d :: d in Visit(Child(n, q)) ==> Inside(n, d) && OnSide(n, q, d)
  {
    var c := Child(n, q).value;
    assert ChildGeometry(n, q, c) && WellFormed(c);
    TraverseWithin(c);
    forall d | d in Traverse(c)
      ensures Inside(n, d) && OnSide(n, q, d)
    {
      assert Inside(c, d);
    }
  }

  /** In a well-formed tree with a positive half-size the traversal visits no node twice. */
  lemma {:induction false} TraverseDistinct(n: Node)
    requires WellFormed(n) && n.halfSize > 0.0
    decreases n
    ensures Distinct(Traverse(n))
  {
    if n.level < MaxLevel {
      var a, b, c, d := Visit(Child(n, TL)), Visit(Child(n, TR)), Visit(Child(n, BL)), Visit(Child(n, BR));
      assert Traverse(n) == [n] + a + b + c + d;
      VisitWithin(n, TL);
      VisitWithin(n, TR);
      VisitWithin(n, BL);
      VisitWithin(n, BR);
      TraverseDistinct(n.subTL.value);
      TraverseDistinct(n.subTR.value);
      TraverseDistinct(n.subBL.value);
      TraverseDistinct(n.subBR.value);
      DistinctConcat([n], a);
      DistinctConcat([n] + a, b);
      DistinctConcat([n] + a + b, c);
      DistinctConcat([n] + a + b + c, d);
    }
  }

  // ---------------------------------------------------------------------------
  // Selection
  // ---------------------------------------------------------------------------

  /** One callback call `cb(node, level)`; `path` names the node object by its position below the root. */
  datatype Pick = Pick(node: Node, level: int, path: seq<Quadrant>)

  /** What `selectNodes` returns, and the callback calls it made, in order. */
  datatype Selection = Selection(handled: bool, picks: seq<Pick>)

  /** The four children of `n` in the order TL, TR, BL, BR, tagged with the depth of `n`; nothing unless all four exist. */
  function QuadPicks(n: Node, path: seq<Quadrant>): seq<Pick> {
    if HasAllChildren(n) then
      [Pick(n.subTL.value, n.level, path + [TL]), Pick(n.subTR.value, n.level, path + [TR]),
       Pick(n.subBL.value, n.level, path + [BL]), Pick(n.subBR.value, n.level, path + [BR])]
    else []
  }

  /**
   * `selectNodes(eye, ranges, level, frustum, cb)` on the node `n` found at `path`.
   * `inSphere(m, r)` stands for `m.aabb.intersectsSphere(new Sphere(eye, r))` and
   * `inFrustum(m)` for `frustum.intersectsBox(m.aabb)`.
   */
  function SelectNodes(n: Node, path: seq<Quadrant>, ranges: seq<real>, level: nat,
                       inSphere: (Node, real) -> bool, inFrustum: Node -> bool): (r: Selection)
    requires level < |ranges|
    decreases level, 1
    ensures r.handled <==> inSphere(n, ranges[level])
    ensures !r.handled ==> r.picks == []
    ensures inSphere(n, ranges[level]) && !inFrustum(n) ==> r.picks == []
    ensures inSphere(n, ranges[level]) && inFrustum(n) && (level == 0 || !inSphere(n, ranges[level - 1])) ==>
              r.picks == QuadPicks(n, path)
  {
    if !inSphere(n, ranges[level]) then
      Selection(false, [])
    else if !inFrustum(n) then
      Selection(true, [])
    else if level == 0 || !inSphere(n, ranges[level - 1]) then
      Selection(true, QuadPicks(n, path))
    else
      Selection(true,
        SelectChild(n, TL, path, ranges, level, inSphere, inFrustum) +
        SelectChild(n, TR, path, ranges, level, inSphere, inFrustum) +
        SelectChild(n, BL, path, ranges, level, inSphere, inFrustum) +
        SelectChild(n, BR, path, ranges, level, inSphere, inFrustum))
  }

  /**
   * `if (sub !== null && !sub.selectNodes(eye, ranges, level - 1, frustum, cb)) cb(sub, this.level)`:
   * the calls the child's own selection made, then the child itself when that selection returned false.
   */
  function SelectChild(n: Node, q: Quadrant, path: seq<Quadrant>, ranges: seq<real>, level: nat,
                       inSphere: (Node, real) -> bool, inFrustum: Node -> bool): seq<Pick>
    requires 0 < level < |ranges|
    decreases level, 0
  {
    match Child(n, q)
    case None => []
    case Some(c) =>
      var r := SelectNodes(c, path + [q], ranges, level - 1, inSphere, inFrustum);
      if r.handled then r.picks else [Pick(c, n.level, path + [q])]
  }

  /** No emitted node is the ancestor of another, nor emitted twice: no path is a prefix of another one. */
  predicate PrefixFree(picks: seq<Pick>) {
    forall i, j :: 0 <= i < |picks| && 0 <= j < |picks| && i != j ==> !(picks[i].path <= picks[j].path)
  }

  /** Every pick names a node strictly below `path`. */
  predicate AllBelow(picks: seq<Pick>, path: seq<Quadrant>) {
    forall p :: p in picks ==> |p.path| > |path| && path <= p.path
  }

  lemma PrefixFreeConcat(a: seq<Pick>, b: seq<Pick>, k: nat, qa: set<Quadrant>, qb: set<Quadrant>)
    requires PrefixFree(a) && PrefixFree(b) && qa !! qb
    requires forall p :: p in a ==> |p.path| > k && p.path[k] in qa
    requires forall p :: p in b ==> |p.path| > k && p.path[k] in qb
    ensures PrefixFree(a + b)
  {
    forall i, j | 0 <= i < |a + b| && 0 <= j < |a + b| && i != j
      ensures !((a + b)[i].path <= (a + b)[j].path)
    {
      if i < |a| && j < |a| {
        assert (a + b)[i] == a[i] && (a + b)[j] == a[j];
      } else if i >= |a| && j >= |a| {
        assert (a + b)[i] == b[i - |a|] && (a + b)[j] == b[j - |a|];
      } else if i < |a| {
        assert (a + b)[i] in a && (a + b)[j] in b;
        assert (a + b)[i].path[k] != (a + b)[j].path[k];
      } else {
        assert (a + b)[i] in b && (a + b)[j] in a;
        assert (a + b)[i].path[k] != (a + b)[j].path[k];
      }
    }
  }

  /** The selection below `path` emits only nodes strictly below it, and a prefix-free set of them. */
  lemma {:induction false} SelectPrefixFree(n: Node, path: seq<Quadrant>, ranges: seq<real>, level: nat,
                                            inSphere: (Node, real) -> bool, inFrustum: Node -> bool)
    requires level < |ranges|
    decreases level, 1
    ensures AllBelow(SelectNodes(n, path, ranges, level, inSphere, inFrustum).picks, path)
    ensures PrefixFree(SelectNodes(n, path, ranges, level, inSphere, inFrustum).picks)
  {
    var r := SelectNodes(n, path, ranges, level, inSphere, inFrustum);
    if !inSphere(n, ranges[level]) || !inFrustum(n) {
    } else if level == 0 || !inSphere(n, ranges[level - 1]) {
      QuadPicksPrefixFree(n, path);
    } else {
      var a := SelectChild(n, TL, path, ranges, level, inSphere, inFrustum);
      var b := SelectChild(n, TR, path, ranges, level, inSphere, inFrustum);
      var c := SelectChild(n, BL, path, ranges, level, inSphere, inFrustum);
      var d := SelectChild(n, BR, path, ranges, level, inSphere, inFrustum);
      SelectChildPrefixFree(n, TL, path, ranges, level, inSphere, inFrustum);
      SelectChildPrefixFree(n, TR, path, ranges, level, inSphere, inFrustum);
      SelectChildPrefixFree(n, BL, path, ranges, level, inSphere, inFrustum);
      SelectChildPrefixFree(n, BR, path, ranges, level, inSphere, inFrustum);
      FourPrefixFree(a, b, c, d, path);
      assert r.picks == a + b + c + d;
    }
  }

  lemma FourPrefixFree(a: seq<Pick>, b: seq<Pick>, c: seq<Pick>, d: seq<Pick>, path: seq<Quadrant>)
    requires PrefixFree(a) && PrefixFree(b) && PrefixFree(c) && PrefixFree(d)
    requires forall p :: p in a ==> path <= p.path && |p.path| > |path| && p.path[|path|] == TL
    requires forall p :: p in b ==> path <= p.path && |p.path| > |path| && p.path[|path|] == TR
    requires forall p :: p in c ==> path <= p.path && |p.path| > |path| && p.path[|path|] == BL
    requires forall p :: p in d ==> path <= p.path && |p.path| > |path| && p.path[|path|] == BR
    ensures AllBelow(a + b + c + d, path) && PrefixFree(a + b + c + d)
  {
    var k := |path|;
    PrefixFreeConcat(a, b, k, {TL}, {TR});
    PrefixFreeConcat(c, d, k, {BL}, {BR});
    PrefixFreeConcat(a + b, c + d, k, {TL, TR}, {BL, BR});
    assert a + b + c + d == (a + b) + (c + d);
  }

  lemma QuadPicksPrefixFree(n: Node, path: seq<Quadrant>)
    ensures AllBelow(QuadPicks(n, path), path)
    ensures forall p :: p in QuadPicks(n, path) ==> |p.path| == |path| + 1
    ensures PrefixFree(QuadPicks(n, path))
  {
    var qs := QuadPicks(n, path);
    if HasAllChildren(n) {
      forall i, j | 0 <= i < |qs| && 0 <= j < |qs| && i != j
        ensures !(qs[i].path <= qs[j].path)
      {
        assert qs[i].path[|path|] != qs[j].path[|path|];
      }
    }
  }

  lemma {:induction false} SelectChildPrefixFree(n: Node, q: Quadrant, path: seq<Quadrant>, ranges: seq<real>,
                                                 level: nat, inSphere: (Node, real) -> bool, inFrustum: Node -> bool)
    requires 0 < level < |ranges|
    decreases level, 0
    ensures forall p :: p in SelectChild(n, q, path, ranges, level, inSphere, inFrustum) ==>
      path <= p.path && |p.path| > |path| && p.path[|path|] == q
    ensures PrefixFree(SelectChild(n, q, path, ranges, level, inSphere, inFrustum))
  {
    match Child(n, q)
    case None =>
    case Some(c) =>
      SelectPrefixFree(c, path + [q], ranges, level - 1, inSphere, inFrustum);
      forall p | p in SelectChild(n, q, path, ranges, level, inSphere, inFrustum)
        ensures path <= p.path && |p.path| > |path| && p.path[|path|] == q
      {
        assert path + [q] <= p.path;
        assert (path + [q])[|path|] == q;
      }
  }

  /** Each pick of the selection below `path` is the node found in the tree at its path. */
  lemma {:induction false} SelectAt(n: Node, path: seq<Quadrant>, ranges: seq<real>, level: nat,
                                    inSphere: (Node, real) -> bool, inFrustum: Node -> bool)
    requires level < |ranges|
    decreases level, 1
    ensures forall p :: p in SelectNodes(n, path, ranges, level, inSphere, inFrustum).picks ==>
      path <= p.path && At(n, p.path[|path|..]) == Some(p.node)
  {
    if !inSphere(n, ranges[level]) || !inFrustum(n) {
    } else if level == 0 || !inSphere(n, ranges[level - 1]) {
      forall p | p in QuadPicks(n, path)
        ensures path <= p.path && At(n, p.path[|path|..]) == Some(p.node)
      {
        assert p.path[|path|..] == [p.path[|path|]];
      }
    } else {
      SelectChildAt(n, TL, path, ranges, level, inSphere, inFrustum);
      SelectChildAt(n, TR, path, ranges, level, inSphere, inFrustum);
      SelectChildAt(n, BL, path, ranges, level, inSphere, inFrustum);
      SelectChildAt(n, BR, path, ranges, level, inSphere, inFrustum);
    }
  }

  lemma {:induction false} SelectChildAt(n: Node, q: Quadrant, path: seq<Quadrant>, ranges: seq<real>,
                                         level: nat, inSphere: (Node, real) -> bool, inFrustum: Node -> bool)
    requires 0 < level < |ranges|
    decreases level, 0
    ensures forall p :: p in SelectChild(n, q, path, ranges, level, inSphere, inFrustum) ==>
      path <= p.path && At(n, p.path[|path|..]) == Some(p.node)
  {
    match Child(n, q)
    case None =>
    case Some(c) =>
      var sub := path + [q];
      SelectAt(c, sub, ranges, level - 1, inSphere, inFrustum);
      SelectPrefixFree(c, sub, ranges, level - 1, inSphere, inFrustum);
      forall p | p in SelectChild(n, q, path, ranges, level, inSphere, inFrustum)
        ensures path <= p.path && At(n, p.path[|path|..]) == Some(p.node)
      {
        var rel := p.path[|path|..];
        assert sub <= p.path;
        assert rel[0] == q && rel[1..] == p.path[|sub|..];
      }
  }

  /** Each emitted node is tagged with the depth of its parent, one less than its own. */
  lemma {:induction false} SelectLevels(n: Node, path: seq<Quadrant>, ranges: seq<real>, level: nat,
                                        inSphere: (Node, real) -> bool, inFrustum: Node -> bool)
    requires level < |ranges| && WellFormed(n)
    decreases level, 1
    ensures forall p :: p in SelectNodes(n, path, ranges, level, inSphere, inFrustum).picks ==>
      p.level + 1 == p.node.level && p.level >= n.level
  {
    if !inSphere(n, ranges[level]) || !inFrustum(n) {
    } else if level == 0 || !inSphere(n, ranges[level - 1]) {
    } else {
      SelectChildLevels(n, TL, path, ranges, level, inSphere, inFrustum);
      SelectChildLevels(n, TR, path, ranges, level, inSphere, inFrustum);
      SelectChildLevels(n, BL, path, ranges, level, inSphere, inFrustum);
      SelectChildLevels(n, BR, path, ranges, level, inSphere, inFrustum);
    }
  }

  lemma {:induction false} SelectChildLevels(n: Node, q: Quadrant, path: seq<Quadrant>, ranges: seq<real>,
                                             level: nat, inSphere: (Node, real) -> bool, inFrustum: Node -> bool)
    requires 0 < level < |ranges| && WellFormed(n)
    decreases level, 0
    ensures forall p :: p in SelectChild(n, q, path, ranges, level, inSphere, inFrustum) ==>
      p.level + 1 == p.node.level && p.level >= n.level
  {
    match Child(n, q)
    case None =>
    case Some(c) =>
      assert ChildGeometry(n, q, c) && WellFormed(c);
      SelectLevels(c, path + [q], ranges, level - 1, inSphere, inFrustum);
  }

  /** The selection emits fewer nodes than the subtree holds (the root itself is never emitted). */
  lemma {:induction false} SelectCount(n: Node, path: seq<Quadrant>, ranges: seq<real>, level: nat,
                                       inSphere: (Node, real) -> bool, inFrustum: Node -> bool)
    requires level < |ranges|
    decreases level, 1
    ensures |SelectNodes(n, path, ranges, level, inSphere, inFrustum).picks| < |Traverse(n)|
  {
    if !inSphere(n, ranges[level]) || !inFrustum(n) {
    } else if level == 0 || !inSphere(n, ranges[level - 1]) {
      if HasAllChildren(n) {
        assert |Traverse(n)| >= 5;
      }
    } else {
      SelectChildCount(n, TL, path, ranges, level, inSphere, inFrustum);
      SelectChildCount(n, TR, path, ranges, level, inSphere, inFrustum);
      SelectChildCount(n, BL, path, ranges, level, inSphere, inFrustum);
      SelectChildCount(n, BR, path, ranges, level, inSphere, inFrustum);
    }
  }

  lemma {:induction false} SelectChildCount(n: Node, q: Quadrant, path: seq<Quadrant>, ranges: seq<real>,
                                            level: nat, inSphere: (Node, real) -> bool, inFrustum: Node -> bool)
    requires 0 < level < |ranges|
    decreases level, 0
    ensures |SelectChild(n, q, path, ranges, level, inSphere, inFrustum)| <= |Visit(Child(n, q))|
  {
    match Child(n, q)
    case None =>
    case Some(c) =>
      SelectCount(c, path + [q], ranges, level - 1, inSphere, inFrustum);
  }

  /**
   * The end-to-end guarantees of a selection started at the root: the root is never emitted,
   * every pick is the tree's node at its path, no node is emitted twice, no emitted node has an
   * emitted ancestor, each is tagged with its parent's depth, and from a level-0 root fewer than
   * 1365 nodes are emitted.
   */
  lemma SelectFromRoot(root: Node, ranges: seq<real>, level: nat,
                       inSphere: (Node, real) -> bool, inFrustum: Node -> bool)
    requires level < |ranges| && WellFormed(root)
    ensures var picks := SelectNodes(root, [], ranges, level, inSphere, inFrustum).picks;
      && (forall p :: p in picks ==> p.path != [] && At(root, p.path) == Some(p.node))
      && (forall i, j :: 0 <= i < j < |picks| ==> picks[i].path != picks[j].path)
      && (forall i, j :: 0 <= i < |picks| && 0 <= j < |picks| && i != j ==> !(picks[i].path < picks[j].path))
      && (forall p :: p in picks ==> p.level + 1 == p.node.level)
      && |picks| < |Traverse(root)|
    ensures root.level == 0 ==> |SelectNodes(root, [], ranges, level, inSphere, inFrustum).picks| < 1365
  {
    var picks := SelectNodes(root, [], ranges, level, inSphere, inFrustum).picks;
    SelectPrefixFree(root, [], ranges, level, inSphere, inFrustum);
    SelectAt(root, [], ranges, level, inSphere, inFrustum);
    SelectLevels(root, [], ranges, level, inSphere, inFrustum);
    SelectCount(root, [], ranges, level, inSphere, inFrustum);
    if root.level == 0 {
      RootTraverseLength(root);
    }
    forall p | p in picks ensures At(root, p.path) == Some(p.node) {
      assert p.path[0..] == p.path;
    }
  }
}
