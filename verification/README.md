# AstarPathFinder in Dafny

This project models the core of AstarPathFinder, a Grasshopper/Rhino component.
The component routes a polyline between two 3-D points around solid obstacles.
It does this in three steps:

1. It cuts a bounding box into a lattice of voxels.
2. It marks each voxel walkable or blocked.
3. It searches the lattice from the start voxel to the goal voxel.

The search is a recursive depth-first descent. At each level it tries the candidate voxels in ascending F, the A*-style cost estimate.

The project has seven modules:

- `Wrappers`: the `Option` type for unset references and failing constructors.
- `Lattice`: voxel indices, lattice dimensions, bounds, and face and cube adjacency.
- `Neighbours`: the 6-connected (von Neumann) and 26-connected (Moore) neighbour enumerations. Each is an offset table in the source's candidate order, clipped to the lattice.
- `Nodes`: the voxel record, with its constructor and the `ParentNode` setter.
- `SearchParameters`:
  - the cell-count arithmetic and `DivideDomain`;
  - the lattice layout of the degenerate and non-degenerate constructors;
  - the start and end cell lookup;
  - the AdjustBoxes scale factors;
  - walkability classification;
  - the explicit-grid constructor.
- `PathFinder`: the constructor, candidate relaxation (`GetAdjacentWalkableNodes`), `Search` and `FindPath`.
- `Solver`: the decision tree of `PathFinderGhSolver.Run`.

## How the model represents the source

- **Locations:** the search uses a type parameter `L`, compared only for equality. The traversal cost, a Euclidean distance in the source, is a parameter `cost: (L, L) -> real`.
- **Parents:** a node stores its parent's lattice index, not a reference.
- **Search state:** the search state is a map from index to node. It also records the step at which each Closed node was closed. The source keeps no such record. It is a model-only trace, and it is what shows that parent chains are acyclic, so the walk in `FindPath` terminates.
- **Recursion:** `Search` and its `foreach` loop (`Children`) are mutually recursive functions. They carry the set of nodes whose calls are still running. The current node is never in that set, which bounds the recursion depth by the number of voxels.
- **Geometry:** geometry in `SearchParameters` uses exact reals. Intervals, points and boxes are coordinates.
- **Oracles:** the obstacle test for one box and one obstacle is a parameter `hits`. So are the oracles `Run` consults: the direct-path test, the degeneracy class of the bounding box, and the path-finder result.

Two behaviours of the code are worth stating up front:

- **Path reconstruction:** `FindPath` walks the parent chain of the end node itself (`PathFinder.cs:40`), not that of the candidate `Search` matched by location (`PathFinder.cs:81`). `FindPathCells` models that walk. See Findings for what happens when the two differ.
- **AdjustBoxes:** on each axis, let `c` be the goal voxel's centre after translation (`SearchParameters.cs:210-233`). When `c` is at least 0.0001 from the start point and on the end point's side, it is scaled onto the end point. When it is at least 0.0001 away on the other side, the positive factor scales it onto the mirror image of the end point. Within 0.0001 the factor is 1 and the centre stays at `c`. That is the end point only if it was there already, for example when start and end share that coordinate. `AdjustAligns` states all three cases.

## Model

| member | source | states |
|---|---|---|
| Neighbours.VonNeumann | AstarPathFinder/PathFinder.cs:126-141 | The candidates are exactly the in-bounds face neighbours of the voxel: at most six, none repeated. |
| Neighbours.Moore | AstarPathFinder/PathFinder.cs:143-187 | The candidates are exactly the in-bounds cube neighbours of the voxel: at most 26, none repeated. |
| Neighbours.MooreOffsetsAreCubeSteps | AstarPathFinder/PathFinder.cs:151-184 | The 26 guarded additions are exactly the non-zero steps of at most one in every coordinate. |
| Neighbours.Neighbourhood | AstarPathFinder/PathFinder.cs:99 | The neighbour list for the chosen connectivity holds every in-bounds adjacent voxel once. It never holds the voxel itself. |
| Neighbours.InteriorHasSixFaceNeighbours | AstarPathFinder/PathFinder.cs:134-139 | A voxel that touches no face of the lattice gets all six face neighbours. |
| Neighbours.InteriorHasTwentySixCubeNeighbours | AstarPathFinder/PathFinder.cs:151-184 | A voxel that touches no face of the lattice gets all 26 cube neighbours. |
| Nodes.NewNode | AstarPathFinder/Node.cs:32-41 | A new node is Untested and parentless. G is 0, H is the cost to the end location, and so F equals H. |
| Nodes.SetParent | AstarPathFinder/Node.cs:21-30 | Setting a parent links the node and sets G to the parent's G plus the step cost. Identity, walkability, H, F and state are kept. |
| PathFinder.InitializeNodes | AstarPathFinder/PathFinder.cs:51-71 | There is exactly one node per lattice cell. Each sits at its cell's point, is walkable as the environment says, and is fresh. |
| PathFinder.NewPathFinder | AstarPathFinder/PathFinder.cs:21-31 | It succeeds exactly when both ids are in the lattice and every cell has a point and a flag. The new finder satisfies the search invariant, with only the start node Open. Every node sits at its cell's point, has G 0 and H equal to the cost from its point to the end location, so F equals H. |
| PathFinder.Close | AstarPathFinder/PathFinder.cs:76 | Closing keeps the search invariant and changes no other node. Closing a Closed node is a no-op. |
| PathFinder.Visit | AstarPathFinder/PathFinder.cs:100-121 | One neighbour is taken and relinked exactly when it is walkable and either Untested, or Open with a cheaper route under its old parent's cost. |
| PathFinder.Relax | AstarPathFinder/PathFinder.cs:100-121 | The one-at-a-time loop equals relinking at once every neighbour accepted in the starting state. |
| PathFinder.GetAdjacentWalkableNodes | AstarPathFinder/PathFinder.cs:95-124 | Candidates are exactly the adjacent neighbours it accepts. None is blocked or Closed. Each ends Open under the expanded node, other nodes are unchanged, and the invariant holds. |
| PathFinder.SortByF | AstarPathFinder/PathFinder.cs:78 | The candidates are permuted into ascending F. |
| PathFinder.Expand | AstarPathFinder/PathFinder.cs:76-78 | The ordered candidates are a permutation, in ascending F, of exactly the neighbours GetAdjacentWalkableNodes accepts after the node is closed, in the state it leaves. Each is a walkable adjacent node that was not Closed, now Open with the expanded node as its parent. |
| PathFinder.Search | AstarPathFinder/PathFinder.cs:74-92 | Search terminates, keeps the invariant, and only moves nodes forward. On success, the node it reports was reached and sits at the goal location. |
| PathFinder.Children | AstarPathFinder/PathFinder.cs:79-91 | The candidate loop keeps the invariant. On success it names a reached node at the goal location. |
| PathFinder.SearchFindsAdjacentGoal | AstarPathFinder/PathFinder.cs:79-84 | If any candidate of the current node is at the goal location, Search succeeds. |
| PathFinder.SearchMatchesFirstCandidate | AstarPathFinder/PathFinder.cs:78-84 | If the lowest-F candidate is at the goal location, Search returns at once with that candidate. |
| PathFinder.ChainFrom | AstarPathFinder/PathFinder.cs:40-45 | The parent walk ends, never repeats a node, and links each node to the next. It stops just below the start node. |
| PathFinder.ChainIsPath | AstarPathFinder/PathFinder.cs:40-46 | The reversed chain is non-empty exactly when the chosen node has a parent. It is a path of distinct walkable cells that begins with a child of the start, steps between adjacent parent-linked cells and ends at the chosen node. |
| PathFinder.FindPathCells | AstarPathFinder/PathFinder.cs:34-49 | The success flag, matched node and final state are those of Search from the start node. The result is empty when Search fails. After a successful search it is non-empty exactly when the end node has a parent, and then it is the end node's parent chain from just above the start node: distinct adjacent walkable cells, the first a child of the start, the last the end node. |
| PathFinder.FindPath | AstarPathFinder/PathFinder.cs:34-49 | The returned locations are those of the path cells: empty when Search from the start node fails and, after a successful search, non-empty exactly when the end node has a parent. A non-empty path ends at the end location. |
| PathFinder.DistinctLocationsGivePath | AstarPathFinder/PathFinder.cs:37-45 | When no two cells share a location, a successful search always yields a non-empty end-node path. |
| PathFinder.FindPathKeepsFEqualsH | AstarPathFinder/Node.cs:19-41 | The search never writes F, so F equals H on every node after the search. |
| PathFinder.EndNodeWalkMissesMatch | AstarPathFinder/PathFinder.cs:37-45 | Suppose a node other than the end node shares the goal's location and is reached first. Then the search succeeds, yet the end-node walk yields no cells. |
| PathFinder.EndNodePathIsEmpty | AstarPathFinder/PathFinder.cs:34-49 | In the same situation FindPath returns the empty list. |
| PathFinder.RepeatedEndPointRow | AstarPathFinder/SearchParameters.cs:176-187 | That situation arises from the explicit-grid constructor: in a row of cells with points Q, S, X, Q and the X cell blocked, the first cell is the start's only walkable neighbour and shares the end point. |
| PathFinder.MatchedPathCells | AstarPathFinder/PathFinder.cs:34-49 | The success flag, matched node and final state are those of Search from the start node. With the walk started from the matched node, the path is empty exactly when that search fails. It begins with a child of the start and ends at the matched node, at the goal location. |
| PathFinder.FindPathFromMatch | AstarPathFinder/PathFinder.cs:34-49 | The corrected FindPath is non-empty exactly when Search from the start node succeeds, and it ends at the goal location. |
| SearchParameters.WholeQuotient | AstarPathFinder/SearchParameters.cs:44 | `(extent - extent % dpi) / dpi` is the whole number of pitches that fit in the extent. |
| SearchParameters.CellCount | AstarPathFinder/SearchParameters.cs:44-52 | A divided axis has at least 8 cells. It has exactly 8 below four pitches; otherwise it has four plus the whole number of pitches. |
| SearchParameters.DivideDomain | AstarPathFinder/SearchParameters.cs:253-268 | The result is the domain cut into `res` equal cells, plus two padding cells before and two after. |
| SearchParameters.InnerCells | AstarPathFinder/SearchParameters.cs:261-264 | The loop produces the `res` equal cells across the domain, in order. |
| SearchParameters.DividedDomainTiles | AstarPathFinder/SearchParameters.cs:253-268 | The divided intervals have equal width and abut without gaps. The inner ones span the domain exactly. |
| SearchParameters.LayoutLattice | AstarPathFinder/SearchParameters.cs:33-142 | On a degenerate box, only the first axis thinner than 0.0001 becomes a single cell. Every other axis is divided with padding. |
| SearchParameters.OnlyFirstThinAxisCollapses | AstarPathFinder/SearchParameters.cs:98-119 | On a degenerate box with X and Y both thin, X collapses to one cell and Y is still divided, into at least eight cells. With a pitch of at least 0.0001 it gets exactly eight. |
| SearchParameters.LocateCell | AstarPathFinder/SearchParameters.cs:147-158 | The id found is the last cell, in loop order, whose box contains the point. It is unset exactly when no box contains the point. |
| SearchParameters.ScaleFactor | AstarPathFinder/SearchParameters.cs:206-233 | The factor is 1 when the goal centre is within 0.0001 of the start. Otherwise it makes the centre's distance from the start equal the end point's. |
| SearchParameters.AdjustAligns | AstarPathFinder/SearchParameters.cs:189-250 | The start cell's centre lands on the start point. The goal cell's translated centre lands on the end point when it lies on the end point's side at least 0.0001 away, and on the end point's mirror image when it lies on the other side. Within 0.0001 it stays where translation put it. |
| SearchParameters.Intersects | AstarPathFinder/SearchParameters.cs:270-304 | A box is blocked exactly when some obstacle hits it. The empty list blocks nothing. |
| SearchParameters.Classify | AstarPathFinder/SearchParameters.cs:160-172 | Every cell gets a flag, walkable exactly when no obstacle hits it. Without obstacles, everything is walkable. |
| SearchParameters.NewGrid | AstarPathFinder/SearchParameters.cs:176-187 | Construction succeeds exactly when both ids have a point. The grid keeps its inputs and takes the start and end locations from those points. |
| Solver.NewSolver | AstarPathFinder/PathFinderGhSolver.cs:28-39 | A new solver records the points, their distance, the tolerance and the direct-path answer. It is not running and has no path or message. |
| Solver.Run | AstarPathFinder/PathFinderGhSolver.cs:41-83 | Branch by branch: the tolerance check wins first, then a direct path or a class-2 box gives the segment. Classes 0 and 1 either frame the found path with the endpoints or stop with a diagnostic. |
| Solver.RunKeepsJoined | AstarPathFinder/PathFinderGhSolver.cs:41-83 | Whatever the oracles answer, a running solver holds a path from the start point to the end point. |

## Left out

- Rhino geometry is not modelled. This covers `Box`, `Transform`, `Plane`, `Brep` and `Box.Center`, and the Brep and NURBS construction and intersection inside `BoxIntersectWithObstacle`. The per-obstacle test is the parameter `hits`, so the degenerate-corner branches of that method are not modelled either.
- The loop that fills `Points` with the transformed box centres (`SearchParameters.cs:69-81`) is modelled only through `AdjustAligns` on one coordinate. Composing it into a lattice of points would need box transforms.
- Floating point is not modelled; the model uses exact reals. Three things follow:
  - `Convert.ToInt32` rounding and overflow are not modelled.
  - `WholeQuotient`, `CellCount` and `LayoutLattice` require a non-zero pitch. The source divides by it, and `Convert.ToInt32` then throws on the NaN or infinite quotient.
  - `DivideDomain` requires `res > 0`, which every caller meets because the count is at least 4.
- SortByF: `List.Sort` is unstable, and the model uses a stable insertion sort. The contract states permutation and ascending F. That is one of the orders the source may produce, not every one.
- Stack exhaustion from deep recursion in `Search` is not modelled. The model proves that the recursion terminates.
- Utils.cs is not part of this model: `HaveDirectPath`, `Screenobstacles`, `ComputeBoundingBox` and `CastToGeometry`. Its results enter `Run` as parameters. AstarPathFinderInfo.cs holds metadata only.
- The `Curve` polyline and the `ScreenedObstacles`, `TheBoundingBox` and `TheSearchParameters` fields of the solver are not modelled. They are derived geometry, or values `Run` only passes on.
- `PathFinderGhSolver.cs:69` calls a one-argument `PathFinder` constructor that does not exist in `PathFinder.cs`. The path-finder result is therefore a parameter of `Run`.
- A null `Points` array, or an id outside the lattice, makes the `PathFinder` constructor throw. `NewPathFinder` returns `None` instead. The `int[]` ids are triples.
- When no box contains the start or end point, the source leaves the id unset and `AdjustBoxes` then fails. `LocateCell` returns `None` in that case.

## Findings

| source | as written | input that shows it | evidently intended | confidence | as-written member | corrected member |
|---|---|---|---|---|---|---|
| AstarPathFinder/PathFinder.cs:37-45 | Search succeeds at the first candidate whose location equals the end node's location (line 81). FindPath then walks the parent chain of the end node itself. If a different node at the same location matched first, the end node may have no parent, and the path is empty although the search succeeded. | Explicit grid 4 x 1 x 1, von Neumann, points Q, S, X, Q at x = 0..3, start id (1,0,0), end id (3,0,0), cell (2,0,0) blocked. Search from the start matches (0,0,0), which is at Q, and returns true; FindPath returns an empty list. `PathFinder.RepeatedEndPointRow` proves that this grid meets the hypothesis of the as-written member. | Walk back from the matched candidate. A successful search then always yields a non-empty path ending at the goal location. | medium; not executed | PathFinder.EndNodeWalkMissesMatch | PathFinder.FindPathFromMatch |
