/**
 The decision tree of PathFinderGhSolver.Run. The geometry it consults is
 given as oracle results: whether a straight segment between the points
 misses every obstacle (HaveDirectPath, evaluated by the constructor), the
 degeneracy class of the bounding box (IsDegenerate), and the list the path
 finder returns (FindPath). The distance between the points is a parameter.
 */
module Solver {
  import opened Wrappers

  /** The solver fields Run reads and writes. `path` and `message` are None
      while the source's fields are still null. */
  datatype Solver<P> = Solver(
    start: P,
    end: P,
    distance: real,
    tolerance: real,
    directPath: bool,
    condition: int,
    path: Option<seq<P>>,
    running: bool,
    message: Option<string>)

  const IdenticalPointsMessage: string :=
    "You don't need me if the StartPoint and TargetPoint are identical.\n Try with something else :)"

  const NoPathMessage: string :=
    "Something went wrong. Could not generate path. Check if start or end point inside obstacles."

  /** The constructor: records the points, their distance, the tolerance and
      whether a direct path exists; nothing has run yet. */
  function NewSolver<P>(start: P, end: P, tolerance: real, distance: (P, P) -> real, directPath: bool): (s: Solver<P>)
    ensures s.start == start && s.end == end && s.tolerance == tolerance
    ensures s.distance == distance(start, end) && s.directPath == directPath
    ensures !s.running && s.path.None? && s.message.None?
  {
    Solver(start, end, distance(start, end), tolerance, directPath, 0, None, false, None)
  }

  /** Run, with `condition` the degeneracy class of the bounding box of the
      points and the screened obstacles, and `found` the path finder's result.
      The tolerance test comes first and wins even when a direct path exists;
      a direct path, or a bounding box of class 2, gives the two-point path;
      classes 0 and 1 search, and an empty result stops with a diagnostic; any
      other class assigns neither the path nor the running flag. */
  function Run<P(==)>(s: Solver<P>, condition: int, found: seq<P>): (r: Solver<P>)
    ensures r.start == s.start && r.end == s.end && r.distance == s.distance
    ensures r.tolerance == s.tolerance && r.directPath == s.directPath
    ensures s.distance < s.tolerance ==>
              !r.running && r.message == Some(IdenticalPointsMessage) && r.path == s.path && r.condition == s.condition
    ensures s.distance >= s.tolerance && s.directPath ==>
              r.running && r.path == Some([s.start, s.end]) && r.message == s.message && r.condition == s.condition
    ensures s.distance >= s.tolerance && !s.directPath ==> r.condition == condition
    ensures s.distance >= s.tolerance && !s.directPath && condition == 2 ==>
              r.running && r.path == Some([s.start, s.end]) && r.message == s.message
    ensures s.distance >= s.tolerance && !s.directPath && (condition == 0 || condition == 1) && found == [] ==>
              !r.running && r.path == Some([]) && r.message == Some(NoPathMessage)
    ensures s.distance >= s.tolerance && !s.directPath && (condition == 0 || condition == 1) && found != [] ==>
              && r.running && r.message == s.message && r.path.Some?
              && |r.path.value| == |found| + 2
              && r.path.value[0] == s.start && r.path.value[|found| + 1] == s.end
              && r.path.value[1..|found| + 1] == found
    ensures s.distance >= s.tolerance && !s.directPath && condition !in {0, 1, 2} ==>
              r.running == s.running && r.path == s.path && r.message == s.message
  {
    if s.distance < s.tolerance then
      s.(running := false, message := Some(IdenticalPointsMessage))
    else if s.directPath then
      s.(path := Some([s.start, s.end]), running := true)
    else
      var s1 := s.(condition := condition);
      if condition == 2 then
        s1.(path := Some([s.start, s.end]), running := true)
      else if condition == 0 || condition == 1 then
        if |found| == 0 then
          s1.(path := Some(found), running := false, message := Some(NoPathMessage))
        else
          s1.(path := Some([s.start] + found + [s.end]), running := true)
      else s1
  }

  /** A running solver holds a path of at least two points from the start point
      to the end point. */
  predicate Joined<P(==)>(s: Solver<P>) {
    s.running ==> s.path.Some? && |s.path.value| >= 2 && s.path.value[0] == s.start && s.path.value[|s.path.value| - 1] == s.end
  }

  /** Run keeps a solver joined whatever the oracles answer (and a new solver,
      not running, is joined): every branch that sets the running flag also assigns a
      path from the start point to the end point, and the branch that assigns
      neither leaves both as they were. */
  lemma {:induction false} RunKeepsJoined<P>(s: Solver<P>, condition: int, found: seq<P>)
    requires Joined(s)
    ensures Joined(Run(s, condition, found))
  {
    var r := Run(s, condition, found);
    if r.running && s.distance >= s.tolerance && !s.directPath && (condition == 0 || condition == 1) {
      assert found != [];
      assert r.path.value[|r.path.value| - 1] == r.path.value[|found| + 1];
    }
  }
}
