/** Small value types shared by the modules of the terrain model. */
module Common {

  datatype Option<T> = None | Some(value: T)

  /**
   * A JavaScript number as stored in a Float32Array: either NaN or a number.
   * Rounding to single precision is not modelled; `Num` holds the exact value.
   */
  datatype F32 = NaN | Num(value: real)

  /** 2 to the power n. */
  function Pow2(n: nat): (r: nat)
    ensures r >= 1
  {
    if n == 0 then 1 else 2 * Pow2(n - 1)
  }

  lemma {:induction false} Pow2Add(a: nat, b: nat)
    ensures Pow2(a + b) == Pow2(a) * Pow2(b)
  {
    if a > 0 {
      Pow2Add(a - 1, b);
      calc {
        Pow2(a + b);
        2 * Pow2(a - 1 + b);
        2 * (Pow2(a - 1) * Pow2(b));
        (2 * Pow2(a - 1)) * Pow2(b);
      }
    }
  }

  /**
   * The transform `new Matrix4().compose(position, new Quaternion(), scale)` that an
   * instanced mesh stores for one instance: a translation and an axis scale, no rotation.
   */
  datatype Instance = Instance(x: F32, y: F32, z: F32, scaleX: F32, scaleY: F32, scaleZ: F32)

  /** The transform every instance of a new `InstancedMesh` starts with: the identity, at the origin with scale 1. */
  const Identity: Instance := Instance(Num(0.0), Num(0.0), Num(0.0), Num(1.0), Num(1.0), Num(1.0))

  /** `[...s].reverse()`: the elements of `s` from the last to the first. */
  function Reversed<T>(s: seq<T>): (r: seq<T>)
    decreases |s|
    ensures |r| == |s|
    ensures forall k :: 0 <= k < |s| ==> r[k] == s[|s| - 1 - k]
  {
    if s == [] then [] else [s[|s| - 1]] + Reversed(s[..|s| - 1])
  }

  /** A node with four subtrees of `(p - 1) / 3` nodes each has `(4p - 1) / 3` nodes. */
  lemma FourSubtrees(t: int, ta: int, tb: int, tc: int, td: int, p: int)
    requires t == 1 + ta + tb + tc + td
    requires 3 * ta + 1 == p && 3 * tb + 1 == p && 3 * tc + 1 == p && 3 * td + 1 == p
    ensures 3 * t + 1 == 4 * p
  {
  }

  /** No element occurs twice. */
  predicate Distinct<T(==)>(s: seq<T>) {
    forall i, j :: 0 <= i < j < |s| ==> s[i] != s[j]
  }

  /** Two duplicate-free sequences with no element in common concatenate to a duplicate-free one. */
  lemma DistinctConcat<T>(a: seq<T>, b: seq<T>)
    requires Distinct(a) && Distinct(b)
    requires forall u, v :: u in a && v in b ==> u != v
    ensures Distinct(a + b)
  {
    forall i, j | 0 <= i < j < |a + b|
      ensures (a + b)[i] != (a + b)[j]
    {
      if j < |a| {
        assert (a + b)[i] == a[i] && (a + b)[j] == a[j];
      } else if i >= |a| {
        assert (a + b)[i] == b[i - |a|] && (a + b)[j] == b[j - |a|];
      } else {
        assert (a + b)[i] in a && (a + b)[j] in b;
      }
    }
  }
}
