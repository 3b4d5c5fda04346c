/**
 Neighbour enumeration of PathFinder: the 6-connected ("von Neumann") and
 26-connected ("Moore") neighbourhoods of a voxel, clipped to the lattice.

 Each neighbourhood is an offset table listed in the order the source adds
 candidates. For an index that is itself in bounds, every bounds test the
 source writes out for one candidate (`x - 1 >= 0 && y + 1 < width`, ...)
 holds exactly when that candidate is in bounds, so the source's chain of
 guarded `Add` calls is the table filtered by `InBounds`.
 */
module Neighbours {
  import opened Lattice

  /** Candidate order of GetVonNeumannAdjacentNodes: z-1, x-1, y-1, y+1, x+1, z+1. */
  const VonNeumannOffsets: seq<Index> := [
    Index(0, 0, -1), Index(-1, 0, 0), Index(0, -1, 0),
    Index(0, 1, 0), Index(1, 0, 0), Index(0, 0, 1)
  ]

  /** Candidate order of GetMooreAdjacentNodes: layer z-1, then layer z (without the
      centre), then layer z+1; within a layer x-1, x, x+1 and within those y-1, y, y+1. */
  const MooreOffsets: seq<Index> := [
    Index(-1, -1, -1), Index(-1, 0, -1), Index(-1, 1, -1),
    Index(0, -1, -1), Index(0, 0, -1), Index(0, 1, -1),
    Index(1, -1, -1), Index(1, 0, -1), Index(1, 1, -1),
    Index(-1, -1, 0), Index(-1, 0, 0), Index(-1, 1, 0),
    Index(0, -1, 0), Index(0, 1, 0),
    Index(1, -1, 0), Index(1, 0, 0), Index(1, 1, 0),
    Index(-1, -1, 1), Index(-1, 0, 1), Index(-1, 1, 1),
    Index(0, -1, 1), Index(0, 0, 1), Index(0, 1, 1),
    Index(1, -1, 1), Index(1, 0, 1), Index(1, 1, 1)
  ]

  /** The indices `i + o`, for `o` in `offsets` in order, that lie in the lattice. */
  function Clip(d: Dims, i: Index, offsets: seq<Index>): (r: seq<Index>)
    ensures |r| <= |offsets|
    ensures forall j :: j in r <==> InBounds(d, j) && Diff(j, i) in offsets
    ensures Distinct(offsets) ==> Distinct(r)
  {
    if offsets == [] then []
    else
      var rest := Clip(d, i, offsets[1..]);
      var j := Add(i, offsets[0]);
      assert forall k :: k in rest ==> Diff(k, i) in offsets[1..];
      if InBounds(d, j) then [j] + rest else rest
  }

  lemma VonNeumannOffsetsAreFaceSteps(o: Index)
    ensures o in VonNeumannOffsets <==> FaceAdjacent(Index(0, 0, 0), o)
  {
  }

  /** Position of a cube step in a 3 x 3 x 3 block, z-major then x then y. */
  function Code(o: Index): int {
    9 * (o.z + 1) + 3 * (o.x + 1) + (o.y + 1)
  }

  lemma {:induction false} IncreasingCodesAreDistinct(s: seq<Index>)
    requires forall k :: 0 <= k < |s| - 1 ==> Code(s[k]) < Code(s[k + 1])
    ensures forall i, j :: 0 <= i < j < |s| ==> Code(s[i]) < Code(s[j])
    ensures Distinct(s)
  {
    if |s| > 1 {
      IncreasingCodesAreDistinct(s[1..]);
      assert forall j :: 1 <= j < |s| ==> Code(s[0]) < Code(s[j]) by {
        forall j | 1 <= j < |s| ensures Code(s[0]) < Code(s[j]) {
          assert s[j] == s[1..][j - 1];
          if j > 1 {
            assert Code(s[1..][0]) < Code(s[1..][j - 1]);
          }
        }
      }
      forall i, j | 0 <= i < j < |s| ensures Code(s[i]) < Code(s[j]) {
        if i > 0 {
          assert s[i] == s[1..][i - 1] && s[j] == s[1..][j - 1];
        }
      }
    }
  }

  lemma MooreOffsetsDistinct()
    ensures Distinct(MooreOffsets)
  {
    IncreasingCodesAreDistinct(MooreOffsets);
  }

  lemma VonNeumannOffsetsDistinct()
    ensures Distinct(VonNeumannOffsets)
  {
  }

  lemma MooreOffsetsAreCubeSteps(o: Index)
    ensures o in MooreOffsets <==> CubeAdjacent(Index(0, 0, 0), o)
  {
    if CubeAdjacent(Index(0, 0, 0), o) {
      assert -1 <= o.x <= 1 && -1 <= o.y <= 1 && -1 <= o.z <= 1;
      var p := 3 * (o.x + 1) + (o.y + 1);
      var k := if o.z == -1 then p else if o.z == 1 then 17 + p else if p < 4 then 9 + p else 8 + p;
      assert MooreOffsets[k] == o;
    }
  }

  /** GetVonNeumannAdjacentNodes: the face neighbours of `i` inside the lattice. */
  function VonNeumann(d: Dims, i: Index): (r: seq<Index>)
    requires InBounds(d, i)
    ensures |r| <= 6
    ensures Distinct(r)
    ensures forall j :: j in r <==> InBounds(d, j) && FaceAdjacent(i, j)
  {
    VonNeumannOffsetsDistinct();
    var r := Clip(d, i, VonNeumannOffsets);
    assert forall j :: FaceAdjacent(i, j) <==> Diff(j, i) in VonNeumannOffsets by {
      forall j ensures FaceAdjacent(i, j) <==> Diff(j, i) in VonNeumannOffsets {
        VonNeumannOffsetsAreFaceSteps(Diff(j, i));
      }
    }
    r
  }

  /** GetMooreAdjacentNodes: the cube neighbours of `i` inside the lattice. */
  function Moore(d: Dims, i: Index): (r: seq<Index>)
    requires InBounds(d, i)
    ensures |r| <= 26
    ensures Distinct(r)
    ensures forall j :: j in r <==> InBounds(d, j) && CubeAdjacent(i, j)
  {
    MooreOffsetsDistinct();
    var r := Clip(d, i, MooreOffsets);
    assert forall j :: CubeAdjacent(i, j) <==> Diff(j, i) in MooreOffsets by {
      forall j ensures CubeAdjacent(i, j) <==> Diff(j, i) in MooreOffsets {
        MooreOffsetsAreCubeSteps(Diff(j, i));
      }
    }
    r
  }

  /** The neighbour list GetAdjacentWalkableNodes starts from. */
  function Neighbourhood(vonNeumann: bool, d: Dims, i: Index): (r: seq<Index>)
    requires InBounds(d, i)
    ensures Distinct(r)
    ensures i !in r
    ensures forall j :: j in r <==> InBounds(d, j) && Adjacent(vonNeumann, i, j)
  {
    if vonNeumann then VonNeumann(d, i) else Moore(d, i)
  }

  /** Away from the lattice's faces a voxel has all 6 face neighbours. */
  lemma {:induction false} InteriorHasSixFaceNeighbours(d: Dims, i: Index)
    requires InBounds(d, i)
    requires 1 <= i.x < d.length - 1 && 1 <= i.y < d.width - 1 && 1 <= i.z < d.height - 1
    ensures |VonNeumann(d, i)| == 6
  {
    ClipAllInBounds(d, i, VonNeumannOffsets);
  }

  /** Away from the lattice's faces a voxel has all 26 cube neighbours. */
  lemma {:induction false} InteriorHasTwentySixCubeNeighbours(d: Dims, i: Index)
    requires InBounds(d, i)
    requires 1 <= i.x < d.length - 1 && 1 <= i.y < d.width - 1 && 1 <= i.z < d.height - 1
    ensures |Moore(d, i)| == 26
  {
    ClipAllInBounds(d, i, MooreOffsets);
  }

  lemma {:induction false} ClipAllInBounds(d: Dims, i: Index, offsets: seq<Index>)
    requires forall o :: o in offsets ==> InBounds(d, Add(i, o))
    ensures Clip(d, i, offsets) == seq(|offsets|, k requires 0 <= k < |offsets| => Add(i, offsets[k]))
  {
    if offsets != [] {
      ClipAllInBounds(d, i, offsets[1..]);
    }
  }
}
