/**
 Voxel indices, lattice dimensions and the two adjacency relations the
 path finder can search under: face adjacency (6-connected, "von Neumann")
 and cube adjacency (26-connected, "Moore").
 */
module Lattice {

  /** A voxel index (x, y, z); also used for the offset between two indices. */
  datatype Index = Index(x: int, y: int, z: int)

  /** Cell counts along x (WorldLength), y (WorldWidth) and z (WorldHeight). */
  datatype Dims = Dims(length: int, width: int, height: int)

  predicate InBounds(d: Dims, i: Index) {
    && 0 <= i.x < d.length
    && 0 <= i.y < d.width
    && 0 <= i.z < d.height
  }

  /** Every index of a lattice of dimensions `d`. */
  function Cells(d: Dims): (s: set<Index>)
    ensures forall i :: i in s <==> InBounds(d, i)
  {
    set x, y, z | 0 <= x < d.length && 0 <= y < d.width && 0 <= z < d.height :: Index(x, y, z)
  }

  function Add(i: Index, o: Index): Index {
    Index(i.x + o.x, i.y + o.y, i.z + o.z)
  }

  /** The offset that leads from `i` to `j`. */
  function Diff(j: Index, i: Index): (o: Index)
    ensures Add(i, o) == j
  {
    Index(j.x - i.x, j.y - i.y, j.z - i.z)
  }

  function Abs(n: int): nat {
    if n < 0 then -n else n
  }

  /** `a` and `b` differ by exactly 1 in exactly one coordinate. */
  predicate FaceAdjacent(a: Index, b: Index) {
    Abs(a.x - b.x) + Abs(a.y - b.y) + Abs(a.z - b.z) == 1
  }

  /** `a` and `b` are distinct and at Chebyshev distance 1. */
  predicate CubeAdjacent(a: Index, b: Index) {
    && a != b
    && Abs(a.x - b.x) <= 1
    && Abs(a.y - b.y) <= 1
    && Abs(a.z - b.z) <= 1
  }

  /** Adjacency under the chosen connectivity (`vonNeumann` selects the 6-neighbourhood). */
  predicate Adjacent(vonNeumann: bool, a: Index, b: Index) {
    if vonNeumann then FaceAdjacent(a, b) else CubeAdjacent(a, b)
  }

  predicate Distinct<T(==)>(s: seq<T>) {
    forall i, j :: 0 <= i < j < |s| ==> s[i] != s[j]
  }
}
