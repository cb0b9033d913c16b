/**
 * The terrain of src/terrain.ts: the table of LOD ranges built by the constructor,
 * `update`, which copies the nodes the quadtree selects into the instance buffers of
 * the grid mesh, and `loadHeightmap`, which copies the rows of a 16-bit height image
 * bottom-up into a float buffer.
 *
 * The mesh is reduced to its two per-instance buffers (the instance transforms and
 * the `lodLevel` attribute) and its draw count.  The eye, the view frustum and the
 * bounding-box tests of three.js are the two test parameters of `QuadTree.SelectNodes`.
 */
module Terrain {
  import opened Common
  import QuadTree

  /** `MAX_INSTANCES`: the capacity of both instance buffers. */
  const MaxInstances: nat := 2000
  const MinLodDistance: real := 128.0
  const LodLevels: nat := 4
  /** The half-size of the root node `new QuadTree(0, 0, 1024)`. */
  const RootHalfSize: real := 1024.0

  // ---------------------------------------------------------------------------
  // The LOD range table
  // ---------------------------------------------------------------------------

  /** `minLodDistance * Math.pow(2, 1 + lodLevels - i)`. */
  function LodRange(i: nat): real
    requires i <= LodLevels
  {
    MinLodDistance * (Pow2(1 + LodLevels - i) as real)
  }

  /** The constructor's `for (let i = 0; i <= lodLevels; i++)` loop. */
  method FillLodRanges() returns (ranges: seq<real>)
    ensures |ranges| == LodLevels + 1
    ensures forall i :: 0 <= i < |ranges| ==> ranges[i] == LodRange(i)
  {
    ranges := [];
    var i := 0;
    while i <= LodLevels
      invariant 0 <= i <= LodLevels + 1 && |ranges| == i
      invariant forall k :: 0 <= k < i ==> ranges[k] == LodRange(k)
    {
      ranges := ranges + [MinLodDistance * (Pow2(1 + LodLevels - i) as real)];
      i := i + 1;
    }
  }

  /** The table is [4096, 2048, 1024, 512, 256]. */
  lemma LodRangeValues()
    ensures LodRange(0) == 4096.0 && LodRange(1) == 2048.0 && LodRange(2) == 1024.0
    ensures LodRange(3) == 512.0 && LodRange(4) == 256.0
  {
    assert Pow2(1) == 2 && Pow2(2) == 4 && Pow2(3) == 8 && Pow2(4) == 16 && Pow2(5) == 32;
  }

  /** Each range is twice the next one, so the table strictly decreases. */
  lemma LodRangeHalves(i: nat)
    requires i < LodLevels
    ensures LodRange(i) == 2.0 * LodRange(i + 1)
    ensures LodRange(i + 1) < LodRange(i)
  {
    assert Pow2(1 + LodLevels - i) == 2 * Pow2(1 + LodLevels - (i + 1));
  }

  /** The copy `[...this.lodRanges].reverse()` passed to the selection: `rev[k] = 256 * 2^k`, increasing. */
  lemma ReversedLodRanges(ranges: seq<real>)
    requires |ranges| == LodLevels + 1
    requires forall i :: 0 <= i < |ranges| ==> ranges[i] == LodRange(i)
    ensures |Reversed(ranges)| == LodLevels + 1
    ensures forall k :: 0 <= k <= LodLevels ==> Reversed(ranges)[k] == 256.0 * (Pow2(k) as real)
    ensures forall k :: 0 < k <= LodLevels ==> Reversed(ranges)[k - 1] < Reversed(ranges)[k]
  {
    var rev := Reversed(ranges);
    forall k | 0 <= k <= LodLevels
      ensures rev[k] == 256.0 * (Pow2(k) as real)
    {
      assert rev[k] == LodRange(LodLevels - k);
      assert Pow2(1 + k) == 2 * Pow2(k);
    }
  }

  // ---------------------------------------------------------------------------
  // The terrain object
  // ---------------------------------------------------------------------------

  /** The transform `update` gives a selected node: at (x, 0, y), scaled to its full size. */
  function InstanceOf(n: QuadTree.Node): Instance {
    Instance(Num(n.x), Num(0.0), Num(n.y), Num(n.halfSize * 2.0), Num(1.0), Num(n.halfSize * 2.0))
  }

  /** The `lodLevel` attribute value of a pick: the level the selection emitted with the node. */
  function LodLevelOf(p: QuadTree.Pick): real {
    p.level as real
  }

  /**
   * `new QuadTree(0, 0, 1024)`: the whole tree, built down to depth 5.  By
   * `QuadTree.WellFormedIsBuild`, a well-formed tree is fixed by its root's centre, half-size and level.
   */
  method NewTree() returns (root: QuadTree.Node)
    ensures QuadTree.WellFormed(root) && root.level == 0
    ensures root.x == 0.0 && root.y == 0.0 && root.halfSize == RootHalfSize
  {
    root := QuadTree.Build(0.0, 0.0, RootHalfSize, 0);
    QuadTree.BuildWellFormed(0.0, 0.0, RootHalfSize, 0);
  }

  class Terrain {
    var lodRanges: seq<real>
    var tree: QuadTree.Node
    /** The instance matrices of the grid mesh. */
    var matrices: array<Instance>
    /** The `lodLevel` instanced attribute. */
    var lodLevel: array<real>
    /** `grid.count`: how many instances are drawn. */
    var count: int

    predicate Valid()
      reads this
    {
      && |lodRanges| == LodLevels + 1
      && (forall i :: 0 <= i < |lodRanges| ==> lodRanges[i] == LodRange(i))
      && QuadTree.WellFormed(tree) && tree.level == 0
      && matrices.Length == MaxInstances && lodLevel.Length == MaxInstances
    }

    /** The constructor: the root node, the range table, identity transforms, a zeroed `lodLevel` buffer and `grid.count = 1`. */
    constructor ()
      ensures Valid() && count == 1
      ensures tree.x == 0.0 && tree.y == 0.0 && tree.halfSize == RootHalfSize
      ensures fresh(matrices) && fresh(lodLevel)
      ensures forall i :: 0 <= i < MaxInstances ==> matrices[i] == Identity
      ensures forall i :: 0 <= i < MaxInstances ==> lodLevel[i] == 0.0
    {
      var root := NewTree();
      tree := root;
      var ranges := FillLodRanges();
      lodRanges := ranges;
      matrices := new Instance[MaxInstances](_ => Identity);
      lodLevel := new real[MaxInstances](_ => 0.0);
      count := 1;
    }

    /**
     * `update(eye, frustum)`: selects nodes with the reversed range table from level 4
     * and writes the i-th emitted node into instance i, then draws that many instances.
     * At most 1364 nodes are ever emitted, so every index is inside the buffers.
     */
    method Update(inSphere: (QuadTree.Node, real) -> bool, inFrustum: QuadTree.Node -> bool)
      requires Valid()
      modifies matrices, lodLevel, this`count
      ensures Valid() && lodRanges == old(lodRanges) && tree == old(tree)
      ensures var picks := QuadTree.SelectNodes(tree, [], Reversed(lodRanges), LodLevels, inSphere, inFrustum).picks;
        && count == |picks| <= MaxInstances
        && (forall i :: 0 <= i < |picks| ==> matrices[i] == InstanceOf(picks[i].node) && lodLevel[i] == LodLevelOf(picks[i]))
        && (forall i :: |picks| <= i < MaxInstances ==> matrices[i] == old(matrices[i]) && lodLevel[i] == old(lodLevel[i]))
    {
      var ranges := Reversed(lodRanges);
      var picks := QuadTree.SelectNodes(tree, [], ranges, LodLevels, inSphere, inFrustum).picks;
      QuadTree.SelectFromRoot(tree, ranges, LodLevels, inSphere, inFrustum);
      var idx := 0;
      while idx < |picks|
        invariant 0 <= idx <= |picks|
        invariant forall i :: 0 <= i < idx ==> matrices[i] == InstanceOf(picks[i].node) && lodLevel[i] == LodLevelOf(picks[i])
        invariant forall i :: idx <= i < MaxInstances ==> matrices[i] == old(matrices[i]) && lodLevel[i] == old(lodLevel[i])
      {
        matrices[idx] := InstanceOf(picks[idx].node);
        lodLevel[idx] := LodLevelOf(picks[idx]);
        idx := idx + 1;
      }
      count := |picks|;
    }
  }

  // ---------------------------------------------------------------------------
  // loadHeightmap
  // ---------------------------------------------------------------------------

  /** `srcBuffer[j] / 65535`; an index past the end of the samples reads `undefined`, which divides to NaN. */
  function Texel(samples: seq<int>, j: int): F32 {
    if 0 <= j < |samples| then Num(samples[j] as real / 65535.0) else NaN
  }

  /** The source index `revIdx` read for the destination index `j = y * width + x`: the same column, row mirrored. */
  function FlipIndex(j: nat, width: nat, height: nat): int
    requires width > 0
  {
    (height - j / width - 1) * width + j % width
  }

  /** The whole buffer once the loops have finished. */
  function Flipped(samples: seq<int>, width: nat, height: nat): (r: seq<F32>)
    requires width > 0
    ensures |r| == width * height
  {
    seq(width * height, j requires 0 <= j < width * height => Texel(samples, FlipIndex(j, width, height)))
  }

  /** The buffer after the first `n` destination indices have been written; the rest are still 0. */
  function FilledUpTo(samples: seq<int>, width: nat, height: nat, n: nat): (r: seq<F32>)
    requires width > 0
    ensures |r| == width * height
  {
    seq(width * height, j requires 0 <= j < width * height =>
      if j < n then Texel(samples, FlipIndex(j, width, height)) else Num(0.0))
  }

  /** Position `x` of row `y` is the index `y * width + x`, and both can be read back from it. */
  lemma RowColumn(y: nat, x: nat, width: nat)
    requires x < width
    ensures (y * width + x) / width == y && (y * width + x) % width == x
  {
    var j := y * width + x;
    DivModUnique(j, width, y, x);
  }

  lemma DivModUnique(j: int, d: int, q: int, r: int)
    requires d > 0 && 0 <= r < d && j == q * d + r
    ensures j / d == q && j % d == r
  {
    var q', r' := j / d, j % d;
    assert j == q' * d + r';
    assert (q - q') * d == r' - r;
    if q > q' {
      MulAtLeast(q - q', d);
    } else if q < q' {
      MulAtLeast(q' - q, d);
    }
  }

  lemma MulAtLeast(a: int, d: int)
    requires a >= 1 && d > 0
    ensures a * d >= d
  {
    assert a * d == (a - 1) * d + d;
  }

  /** The flip maps every index of the image into the image. */
  lemma FlipInRange(j: nat, width: nat, height: nat)
    requires width > 0 && j < width * height
    ensures 0 <= FlipIndex(j, width, height) < width * height
  {
    var y, x := j / width, j % width;
    assert j == y * width + x;
    assert y < height;
    assert (height - y - 1) * width + x <= (height - 1) * width + x;
    assert (height - 1) * width + x < height * width;
  }

  /** Flipping twice gives back the index: the flip is its own inverse, hence a bijection of the image. */
  lemma FlipInvolution(j: nat, width: nat, height: nat)
    requires width > 0 && j < width * height
    ensures FlipIndex(j, width, height) >= 0
    ensures FlipIndex(FlipIndex(j, width, height) as nat, width, height) == j
  {
    FlipInRange(j, width, height);
    var y, x := j / width, j % width;
    assert j == y * width + x;
    var f := FlipIndex(j, width, height);
    assert f == (height - y - 1) * width + x;
    assert height - y - 1 >= 0;
    RowColumn(height - y - 1, x, width);
    assert (height - (height - y - 1) - 1) == y;
  }

  /** Distinct destination indices read distinct source indices. */
  lemma FlipInjective(i: nat, j: nat, width: nat, height: nat)
    requires width > 0 && i < width * height && j < width * height
    requires FlipIndex(i, width, height) == FlipIndex(j, width, height)
    ensures i == j
  {
    FlipInvolution(i, width, height);
    FlipInvolution(j, width, height);
  }

  /** The step of the inner loop: writing index `n` extends the filled prefix by one. */
  lemma FilledStep(samples: seq<int>, width: nat, height: nat, n: nat)
    requires width > 0 && n < width * height
    ensures FilledUpTo(samples, width, height, n + 1) ==
      FilledUpTo(samples, width, height, n)[n := Texel(samples, FlipIndex(n, width, height))]
  {
  }

  /**
   * `loadHeightmap`'s nested loops: destination `y * width + x` receives source
   * `(height - y - 1) * width + x`, row by row.  The ghost `order` lists the destination
   * indices in the order they are written: each index of the image exactly once, ascending.
   */
  method LoadHeightmap(samples: seq<int>, width: nat, height: nat) returns (buffer: array<F32>, ghost order: seq<int>)
    requires width > 0
    ensures fresh(buffer)
    ensures buffer[..] == Flipped(samples, width, height)
    ensures |order| == width * height && forall k :: 0 <= k < |order| ==> order[k] == k
  {
    buffer := new F32[width * height](_ => Num(0.0));
    order := [];
    assert buffer[..] == FilledUpTo(samples, width, height, 0);
    var y := 0;
    while y < height
      invariant 0 <= y <= height
      invariant buffer[..] == FilledUpTo(samples, width, height, y * width)
      invariant |order| == y * width && forall k :: 0 <= k < |order| ==> order[k] == k
    {
      order := CopyRow(buffer, samples, width, height, y, order);
      y := y + 1;
    }
    assert buffer[..] == Flipped(samples, width, height);
  }

  /** The inner `for (let x = 0; x < width; x++)` loop of `loadHeightmap` for row `y`. */
  method CopyRow(buffer: array<F32>, samples: seq<int>, width: nat, height: nat, y: nat, ghost order: seq<int>)
    returns (ghost order': seq<int>)
    requires width > 0 && y < height && buffer.Length == width * height
    requires buffer[..] == FilledUpTo(samples, width, height, y * width)
    requires |order| == y * width && forall k :: 0 <= k < |order| ==> order[k] == k
    modifies buffer
    ensures buffer[..] == FilledUpTo(samples, width, height, (y + 1) * width)
    ensures |order'| == (y + 1) * width && forall k :: 0 <= k < |order'| ==> order'[k] == k
  {
    var row := y * width;
    assert row + width == (y + 1) * width <= height * width;
    order' := order;
    var x := 0;
    while x < width
      invariant 0 <= x <= width
      invariant buffer[..] == FilledUpTo(samples, width, height, row + x)
      invariant |order'| == row + x && forall k :: 0 <= k < |order'| ==> order'[k] == k
    {
      var revIdx := (height - y - 1) * width + x;
      var dst := y * width + x;
      RowColumn(y, x, width);
      assert revIdx == FlipIndex(dst, width, height);
      FilledStep(samples, width, height, dst);
      buffer[dst] := Texel(samples, revIdx);
      order' := order' + [dst];
      x := x + 1;
    }
  }
}
