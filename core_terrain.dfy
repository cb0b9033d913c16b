/**
 * The older terrain of src/core/terrain.ts: its LOD range table, half the one of
 * src/terrain.ts, and the copy of a list of selected nodes into the instance buffers
 * of the grid mesh.
 *
 * Which nodes are selected is not part of this model (the tree of src/core/quad_tree.ts
 * has no `selectNodes`): `Update` takes the list the callback would have collected.
 * That tree's nodes have no `halfSize`, so the scale `node.halfSize * 2` is NaN.
 */
module CoreTerrain {
  import opened Common
  import CoreQuadTree
  import Lod = Terrain

  /** `MAX_INSTANCES`: the capacity of both instance buffers. */
  const MaxInstances: nat := 2000
  const MinLodDistance: real := 128.0
  const LodLevels: nat := 4
  /** The size of the root node `new QuadTree(0, 0, 1024)`. */
  const RootSize: real := 1024.0

  // ---------------------------------------------------------------------------
  // The LOD range table
  // ---------------------------------------------------------------------------

  /** `minLodDistance * Math.pow(2, lodLevels - i)`. */
  function LodRange(i: nat): real
    requires i <= LodLevels
  {
    MinLodDistance * (Pow2(LodLevels - i) as real)
  }

  /** The constructor's `for (let i = 0; i <= lodLevels; i++)` loop. */
  method FillLodRanges() returns (ranges: seq<real>)
    ensures |ranges| == LodLevels + 1
    ensures forall i :: 0 <= i < |ranges| ==> ranges[i] == LodRange(i)
  {
    ranges := [];
    var i := 0;
    while i <= LodLevels
      invariant 0 <= i <= LodLevels + 1 && |ranges| == i
      invariant forall k :: 0 <= k < i ==> ranges[k] == LodRange(k)
    {
      ranges := ranges + [MinLodDistance * (Pow2(LodLevels - i) as real)];
      i := i + 1;
    }
  }

  /** The table is [2048, 1024, 512, 256, 128]. */
  lemma LodRangeValues()
    ensures LodRange(0) == 2048.0 && LodRange(1) == 1024.0 && LodRange(2) == 512.0
    ensures LodRange(3) == 256.0 && LodRange(4) == 128.0
  {
    assert Pow2(1) == 2 && Pow2(2) == 4 && Pow2(3) == 8 && Pow2(4) == 16;
  }

  /** Each range is twice the next one, so the table strictly decreases. */
  lemma LodRangeHalves(i: nat)
    requires i < LodLevels
    ensures LodRange(i) == 2.0 * LodRange(i + 1)
    ensures LodRange(i + 1) < LodRange(i)
  {
    assert Pow2(LodLevels - i) == 2 * Pow2(LodLevels - (i + 1));
  }

  /** Every range is half the range at the same index in src/terrain.ts. */
  lemma HalfOfTerrainRange(i: nat)
    requires i <= LodLevels
    ensures 2.0 * LodRange(i) == Lod.LodRange(i)
  {
    assert Pow2(1 + LodLevels - i) == 2 * Pow2(LodLevels - i);
  }

  /** The reversed copy passed to the selection: `rev[k] = 128 * 2^k`, increasing. */
  lemma ReversedLodRanges(ranges: seq<real>)
    requires |ranges| == LodLevels + 1
    requires forall i :: 0 <= i < |ranges| ==> ranges[i] == LodRange(i)
    ensures |Reversed(ranges)| == LodLevels + 1
    ensures forall k :: 0 <= k <= LodLevels ==> Reversed(ranges)[k] == 128.0 * (Pow2(k) as real)
    ensures forall k :: 0 < k <= LodLevels ==> Reversed(ranges)[k - 1] < Reversed(ranges)[k]
  {
    var rev := Reversed(ranges);
    forall k | 0 < k <= LodLevels
      ensures rev[k - 1] < rev[k]
    {
      assert Pow2(k) == 2 * Pow2(k - 1);
    }
  }

  // ---------------------------------------------------------------------------
  // The terrain object
  // ---------------------------------------------------------------------------

  /** The transform `update` gives a node: at (x, 0, y), scaled by NaN since the node has no `halfSize`. */
  function InstanceOf(n: CoreQuadTree.Node): Instance {
    Instance(Num(n.x), Num(0.0), Num(n.y), NaN, Num(1.0), NaN)
  }

  /**
   * `new QuadTree(0, 0, 1024)`: the whole tree, built down to depth 2.  By
   * `CoreQuadTree.WellFormedIsBuild`, a well-formed tree is fixed by its root's corner, size and level.
   */
  method NewTree() returns (root: CoreQuadTree.Node)
    ensures CoreQuadTree.WellFormed(root) && root.level == 0
    ensures root.x == 0.0 && root.y == 0.0 && root.size == RootSize
  {
    root := CoreQuadTree.Build(0.0, 0.0, RootSize, 0);
    CoreQuadTree.BuildWellFormed(0.0, 0.0, RootSize, 0);
  }

  class Terrain {
    var lodRanges: seq<real>
    var tree: CoreQuadTree.Node
    /** The instance matrices of the grid mesh. */
    var matrices: array<Instance>
    /** The `lodLevel` instanced attribute. */
    var lodLevel: array<real>
    /** `grid.count`: how many instances are drawn. */
    var count: int

    predicate Valid()
      reads this
    {
      && |lodRanges| == LodLevels + 1
      && (forall i :: 0 <= i < |lodRanges| ==> lodRanges[i] == LodRange(i))
      && CoreQuadTree.WellFormed(tree) && tree.level == 0
      && matrices.Length == MaxInstances && lodLevel.Length == MaxInstances
    }

    /** The constructor: the root node, the range table, identity transforms, a zeroed `lodLevel` buffer and `grid.count = 1`. */
    constructor ()
      ensures Valid() && count == 1
      ensures tree.x == 0.0 && tree.y == 0.0 && tree.size == RootSize
      ensures fresh(matrices) && fresh(lodLevel)
      ensures forall i :: 0 <= i < MaxInstances ==> matrices[i] == Identity
      ensures forall i :: 0 <= i < MaxInstances ==> lodLevel[i] == 0.0
    {
      var root := NewTree();
      tree := root;
      var ranges := FillLodRanges();
      lodRanges := ranges;
      matrices := new Instance[MaxInstances](_ => Identity);
      lodLevel := new real[MaxInstances](_ => 0.0);
      count := 1;
    }

    /**
     * `update(eye)` from the copy loop on: node i goes to instance i with its own
     * `level` as `lodLevel`, then that many instances are drawn.  A 2001st node makes
     * the write of its `lodLevel` throw a RangeError (its matrix write falls outside the
     * buffer and is dropped), so `ok` is false, the first 2000 instances hold the first
     * 2000 nodes and `grid.count` keeps its value.
     */
    method Update(nodes: seq<CoreQuadTree.Node>) returns (ok: bool)
      requires Valid()
      modifies matrices, lodLevel, this`count
      ensures Valid() && lodRanges == old(lodRanges) && tree == old(tree)
      ensures ok <==> |nodes| <= MaxInstances
      ensures ok ==> count == |nodes|
      ensures !ok ==> count == old(count)
      ensures forall i :: 0 <= i < |nodes| && i < MaxInstances ==>
        matrices[i] == InstanceOf(nodes[i]) && lodLevel[i] == nodes[i].level as real
      ensures forall i :: |nodes| <= i < MaxInstances ==> matrices[i] == old(matrices[i]) && lodLevel[i] == old(lodLevel[i])
    {
      var idx := 0;
      while idx < |nodes|
        invariant 0 <= idx <= |nodes| && idx <= MaxInstances && count == old(count)
        invariant forall i :: 0 <= i < idx ==> matrices[i] == InstanceOf(nodes[i]) && lodLevel[i] == nodes[i].level as real
        invariant forall i :: idx <= i < MaxInstances ==> matrices[i] == old(matrices[i]) && lodLevel[i] == old(lodLevel[i])
      {
        if idx >= MaxInstances {
          return false;
        }
        matrices[idx] := InstanceOf(nodes[idx]);
        lodLevel[idx] := nodes[idx].level as real;
        idx := idx + 1;
      }
      count := |nodes|;
      ok := true;
    }
  }
}
