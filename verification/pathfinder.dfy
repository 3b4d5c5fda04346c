/**
 The search engine of PathFinder.cs: candidate relaxation
 (GetAdjacentWalkableNodes), the recursive depth-first Search that tries the
 candidates of each level in ascending F, and FindPath's parent-chain
 reconstruction.

 The lattice of nodes is a map from index to node record. Besides the node
 map, the search state records the order in which nodes were Closed; the
 source keeps no such list, but the order is what makes parent chains
 acyclic (a parent is always Closed before its child) and so gives
 FindPath's walk up the chain a termination measure.
 */
module PathFinder {
  import opened Wrappers
  import opened Lattice
  import opened Nodes
  import opened Neighbours
  import SearchParameters

  /** What one search run is fixed to: the lattice dimensions, the
      connectivity (`vonNeumann` selects 6-connectivity), the indices of the
      start and end nodes, and the traversal cost. */
  datatype Config<!L> = Config(dims: Dims, vonNeumann: bool, start: Index, goal: Index, cost: (L, L) -> real)

  /** The node map, and for every Closed node the step at which it was closed. */
  datatype SearchState<L> = SearchState(nodes: map<Index, Node<L>>, closedAt: map<Index, nat>)

  /** The state after a relaxation step together with the accepted candidates. */
  datatype Expansion<L> = Expansion(state: SearchState<L>, accepted: seq<Index>)

  /** The result of a search. On success `at` is the candidate found at the
      goal location; on failure it carries no meaning (the source returns a
      bare `false`). */
  datatype Outcome<L> = Outcome(found: bool, state: SearchState<L>, at: Index)

  // ---------------------------------------------------------------------------
  // Construction
  // ---------------------------------------------------------------------------

  /** A path finder ready to search: its configuration and its lattice of nodes. */
  datatype Finder<!L> = Finder(config: Config<L>, state: SearchState<L>)

  /** InitializeNodes: one fresh node per cell, at the cell's point, walkable as
      the environment says, with the heuristic measured to the end location. */
  function InitializeNodes<L>(g: SearchParameters.Grid<L>, cost: (L, L) -> real): (nodes: map<Index, Node<L>>)
    requires forall k :: k in Cells(g.dims) ==> k in g.points && k in g.environment
    ensures nodes.Keys == Cells(g.dims)
    ensures forall k :: k in nodes ==>
              && nodes[k].location == g.points[k] && nodes[k].id == k && nodes[k].walkable == g.environment[k]
              && nodes[k].state == Untested && nodes[k].parent == None
              && nodes[k].g == 0.0 && nodes[k].h == cost(g.points[k], g.endLocation) && nodes[k].f == nodes[k].h
  {
    map k | k in Cells(g.dims) :: NewNode(g.points[k], k, g.environment[k], g.endLocation, cost)
  }

  /** The PathFinder constructor: initialise the nodes and open the start node.
      It fails (the source dereferences a missing node or reads outside an
      array) when a cell has no point or no walkability flag, or when the start
      or end id lies outside the lattice. A new finder satisfies the search
      invariant: nothing is Closed, the start node alone is Open, every other
      node is Untested and parentless, and F equals H everywhere. */
  function NewPathFinder<L(==)>(g: SearchParameters.Grid<L>, vonNeumann: bool, cost: (L, L) -> real): (f: Option<Finder<L>>)
    ensures f.Some? <==>
              && InBounds(g.dims, g.startId) && InBounds(g.dims, g.endId)
              && forall k :: k in Cells(g.dims) ==> k in g.points && k in g.environment
    ensures f.Some? ==> f.value.config == Config(g.dims, vonNeumann, g.startId, g.endId, cost)
    ensures f.Some? ==> Inv(f.value.config, f.value.state) && f.value.state.closedAt == map[]
    ensures f.Some? ==> f.value.state.nodes[g.startId].state == Open
    ensures f.Some? ==> forall k :: k in f.value.state.nodes ==>
              && f.value.state.nodes[k].location == g.points[k] && f.value.state.nodes[k].walkable == g.environment[k]
              && f.value.state.nodes[k].parent == None && f.value.state.nodes[k].f == f.value.state.nodes[k].h
              && f.value.state.nodes[k].g == 0.0 && f.value.state.nodes[k].h == cost(g.points[k], g.endLocation)
              && (k != g.startId ==> f.value.state.nodes[k].state == Untested)
  {
    if && InBounds(g.dims, g.startId) && InBounds(g.dims, g.endId)
       && forall k :: k in Cells(g.dims) ==> k in g.points && k in g.environment
    then
      var nodes := InitializeNodes(g, cost);
      var c := Config(g.dims, vonNeumann, g.startId, g.endId, cost);
      var st := SearchState(nodes[g.startId := nodes[g.startId].(state := Open)], map[]);
      FreshStateInv(c, nodes, st);
      Some(Finder(c, st))
    else None
  }

  /** A lattice of fresh nodes with the start node opened satisfies the search invariant. */
  lemma FreshStateInv<L>(c: Config<L>, nodes: map<Index, Node<L>>, st: SearchState<L>)
    requires InBounds(c.dims, c.start) && InBounds(c.dims, c.goal)
    requires nodes.Keys == Cells(c.dims)
    requires forall k :: k in nodes ==> nodes[k].state == Untested && nodes[k].parent == None
    requires st == SearchState(nodes[c.start := nodes[c.start].(state := Open)], map[])
    ensures Inv(c, st)
  {
    forall k | k in st.nodes ensures NodeOk(c, st, k) {
    }
  }

  // ---------------------------------------------------------------------------
  // Invariants of the search state
  // ---------------------------------------------------------------------------

  /** A parent is a walkable node's adjacent neighbour that is Closed, and it was
      closed before its child (if the child is Closed at all). */
  ghost predicate ParentOk<L>(c: Config<L>, st: SearchState<L>, k: Index)
    requires k in st.nodes
  {
    var n := st.nodes[k];
    n.parent.Some? ==>
      var p := n.parent.value;
      && p in st.nodes
      && p in st.closedAt
      && st.nodes[p].state == Closed
      && Adjacent(c.vonNeumann, p, k)
      && n.walkable
      && (k in st.closedAt ==> st.closedAt[p] < st.closedAt[k])
  }

  /** The per-node part of the invariant: Closed nodes are the ones with a
      closing step, and apart from the start node a node has a parent exactly
      when it has left Untested. */
  ghost predicate NodeOk<L>(c: Config<L>, st: SearchState<L>, k: Index)
    requires k in st.nodes
  {
    && (st.nodes[k].state == Closed <==> k in st.closedAt)
    && (k != c.start ==> (st.nodes[k].parent.Some? <==> st.nodes[k].state != Untested))
    && ParentOk(c, st, k)
  }

  ghost predicate Inv<L>(c: Config<L>, st: SearchState<L>) {
    && (forall k :: k in st.nodes <==> InBounds(c.dims, k))
    && st.closedAt.Keys <= st.nodes.Keys
    && (forall k :: k in st.closedAt ==> st.closedAt[k] < |st.closedAt|)
    && c.start in st.nodes && c.goal in st.nodes
    && st.nodes[c.start].parent == None
    && st.nodes[c.start].state != Untested
    && (forall k {:trigger NodeOk(c, st, k)} :: k in st.nodes ==> NodeOk(c, st, k))
  }

  /** How one node may change during the search: identity, walkability, H and F
      never change; state only moves forward; a Closed node is frozen; a parent
      link, once set, is never removed. */
  predicate NodeAdvances<L(==)>(a: Node<L>, b: Node<L>) {
    && SameIdentity(a, b)
    && StateRank(a.state) <= StateRank(b.state)
    && (a.state == Closed ==> b == a)
    && (a.parent.Some? ==> b.parent.Some?)
  }

  ghost predicate Advances<L>(st: SearchState<L>, st': SearchState<L>) {
    && st'.nodes.Keys == st.nodes.Keys
    && (forall k :: k in st.nodes ==> NodeAdvances(st.nodes[k], st'.nodes[k]))
  }

  lemma AdvancesTrans<L>(a: SearchState<L>, b: SearchState<L>, c: SearchState<L>)
    requires Advances(a, b) && Advances(b, c)
    ensures Advances(a, c)
  {
  }

  /** Every Open node has a parent in the lattice. */
  predicate OpenHasParent<L>(st: SearchState<L>, k: Index)
    requires k in st.nodes
  {
    st.nodes[k].state == Open ==> st.nodes[k].parent.Some? && st.nodes[k].parent.value in st.nodes
  }

  lemma OpenNodesHaveParents<L>(c: Config<L>, st: SearchState<L>)
    requires Inv(c, st) && st.nodes[c.start].state == Closed
    ensures forall k :: k in st.nodes ==> OpenHasParent(st, k)
  {
    forall k | k in st.nodes ensures OpenHasParent(st, k) {
      assert NodeOk(c, st, k);
    }
  }

  // ---------------------------------------------------------------------------
  // Closing a node
  // ---------------------------------------------------------------------------

  /** `currentNode.State = NodeState.Closed`; closing a Closed node changes nothing. */
  function Close<L(==)>(c: Config<L>, st: SearchState<L>, cur: Index): (st': SearchState<L>)
    requires Inv(c, st) && cur in st.nodes
    requires cur == c.start || st.nodes[cur].parent.Some?
    ensures Inv(c, st') && Advances(st, st')
    ensures st'.nodes[cur].state == Closed
    ensures forall k :: k in st.nodes && k != cur ==> st'.nodes[k] == st.nodes[k]
  {
    if st.nodes[cur].state == Closed then st
    else
      var st' := SearchState(st.nodes[cur := st.nodes[cur].(state := Closed)], st.closedAt[cur := |st.closedAt|]);
      CloseKeepsInv(c, st, cur, st');
      st'
  }

  lemma CloseKeepsInv<L>(c: Config<L>, st: SearchState<L>, cur: Index, st': SearchState<L>)
    requires Inv(c, st) && cur in st.nodes && st.nodes[cur].state != Closed
    requires cur == c.start || st.nodes[cur].parent.Some?
    requires st' == SearchState(st.nodes[cur := st.nodes[cur].(state := Closed)], st.closedAt[cur := |st.closedAt|])
    ensures Inv(c, st') && Advances(st, st')
  {
    assert NodeOk(c, st, cur);
    assert cur !in st.closedAt;
    assert |st'.closedAt| == |st.closedAt| + 1;
    assert st'.nodes.Keys == st.nodes.Keys;
    forall k | k in st'.closedAt ensures st'.closedAt[k] < |st'.closedAt| {
      if k != cur {
        assert st'.closedAt[k] == st.closedAt[k];
      }
    }
    forall k | k in st'.nodes ensures NodeOk(c, st', k) {
      CloseKeepsNodeOk(c, st, cur, st', k);
    }
    forall k | k in st.nodes ensures NodeAdvances(st.nodes[k], st'.nodes[k]) {
      if k != cur {
        assert st'.nodes[k] == st.nodes[k];
      }
    }
  }

  lemma CloseKeepsNodeOk<L>(c: Config<L>, st: SearchState<L>, cur: Index, st': SearchState<L>, k: Index)
    requires Inv(c, st) && cur in st.nodes && st.nodes[cur].state != Closed && k in st.nodes
    requires cur == c.start || st.nodes[cur].parent.Some?
    requires st' == SearchState(st.nodes[cur := st.nodes[cur].(state := Closed)], st.closedAt[cur := |st.closedAt|])
    ensures NodeOk(c, st', k)
  {
    assert NodeOk(c, st, k);
    assert NodeOk(c, st, cur);
    if st.nodes[k].parent.Some? {
      var p := st.nodes[k].parent.value;
      assert p != cur;
      assert p in st.closedAt;
    }
  }

  // ---------------------------------------------------------------------------
  // GetAdjacentWalkableNodes
  // ---------------------------------------------------------------------------

  /** Whether GetAdjacentWalkableNodes, expanding `from`, takes neighbour `k` as a
      candidate: a walkable Untested node always; a walkable Open node only when
      `from.G` plus the cost from `k` to its CURRENT parent is below `k.G`. */
  predicate Accepts<L(==)>(c: Config<L>, st: SearchState<L>, from: Index, k: Index)
    requires from in st.nodes && k in st.nodes
  {
    var n := st.nodes[k];
    && n.walkable
    && (|| n.state == Untested
        || (&& n.state == Open && n.parent.Some? && n.parent.value in st.nodes
            && st.nodes[from].g + c.cost(n.location, st.nodes[n.parent.value].location) < n.g))
  }

  /** Node `k` after it is taken as a candidate: its parent is `from` and it is Open. */
  function Relinked<L(==)>(c: Config<L>, st: SearchState<L>, from: Index, k: Index): Node<L>
    requires from in st.nodes && k in st.nodes
  {
    SetParent(st.nodes[k], from, st.nodes[from], c.cost).(state := Open)
  }

  /** The body of the source's loop for one neighbour. */
  function Visit<L(==)>(c: Config<L>, st: SearchState<L>, from: Index, k: Index): (r: Expansion<L>)
    requires from in st.nodes && k in st.nodes && OpenHasParent(st, k)
    ensures r.state.closedAt == st.closedAt
    ensures r.accepted == if Accepts(c, st, from, k) then [k] else []
    ensures r.state.nodes == if Accepts(c, st, from, k) then st.nodes[k := Relinked(c, st, from, k)] else st.nodes
  {
    var n := st.nodes[k];
    if !n.walkable then Expansion(st, [])
    else if n.state == Closed then Expansion(st, [])
    else if n.state == Open then
      var traversalCost := c.cost(n.location, st.nodes[n.parent.value].location);
      var gTemp := st.nodes[from].g + traversalCost;
      if gTemp < n.g then
        Expansion(st.(nodes := st.nodes[k := SetParent(n, from, st.nodes[from], c.cost)]), [k])
      else
        Expansion(st, [])
    else
      Expansion(st.(nodes := st.nodes[k := SetParent(n, from, st.nodes[from], c.cost).(state := Open)]), [k])
  }

  /** The source's loop over the neighbour list, one neighbour after the other.
      Its result equals relinking, all at once, exactly the neighbours that
      `Accepts` in the state the loop started from. */
  function Relax<L(==)>(c: Config<L>, st: SearchState<L>, from: Index, ns: seq<Index>): (r: Expansion<L>)
    requires from in st.nodes && from !in ns && Distinct(ns)
    requires forall k :: k in ns ==> k in st.nodes && OpenHasParent(st, k)
    ensures r.state.closedAt == st.closedAt && r.state.nodes.Keys == st.nodes.Keys
    ensures Distinct(r.accepted)
    ensures forall k :: k in r.accepted <==> k in ns && Accepts(c, st, from, k)
    ensures forall k :: k in st.nodes ==>
              r.state.nodes[k] == if k in ns && Accepts(c, st, from, k) then Relinked(c, st, from, k) else st.nodes[k]
    decreases |ns|
  {
    if ns == [] then Expansion(st, [])
    else
      var v := Visit(c, st, from, ns[0]);
      RelaxStepAgrees(c, st, from, ns, v.state);
      var rest := Relax(c, v.state, from, ns[1..]);
      Expansion(rest.state, v.accepted + rest.accepted)
  }

  /** After the first neighbour is visited, the rest of the list is judged and
      relinked exactly as it would have been in the state the loop started from. */
  lemma RelaxStepAgrees<L>(c: Config<L>, st: SearchState<L>, from: Index, ns: seq<Index>, st1: SearchState<L>)
    requires from in st.nodes && from !in ns && Distinct(ns) && ns != []
    requires forall k :: k in ns ==> k in st.nodes && OpenHasParent(st, k)
    requires st1.nodes == if Accepts(c, st, from, ns[0]) then st.nodes[ns[0] := Relinked(c, st, from, ns[0])] else st.nodes
    ensures from in st1.nodes && st1.nodes[from] == st.nodes[from] && Distinct(ns[1..])
    ensures forall k :: k in ns[1..] ==> k != ns[0] && k in st1.nodes && st1.nodes[k] == st.nodes[k] && OpenHasParent(st1, k)
    ensures forall k :: k in ns[1..] ==> Accepts(c, st1, from, k) == Accepts(c, st, from, k)
    ensures forall k :: k in ns[1..] ==> Relinked(c, st1, from, k) == Relinked(c, st, from, k)
  {
    forall k | k in ns[1..] ensures k != ns[0] && k in st1.nodes && st1.nodes[k] == st.nodes[k] && OpenHasParent(st1, k) {
      var i :| 1 <= i < |ns| && ns[i] == k;
      assert ns[0] != ns[i];
    }
  }

  /** GetAdjacentWalkableNodes: never returns an unwalkable or Closed node; takes
      every walkable Untested neighbour and opens it under `from`; takes and
      relinks an Open neighbour only when the test against its old parent
      succeeds; changes no other node. The search invariant is preserved. */
  function GetAdjacentWalkableNodes<L(==)>(c: Config<L>, st: SearchState<L>, from: Index): (r: Expansion<L>)
    requires Inv(c, st) && from in st.nodes
    requires st.nodes[from].state == Closed && st.nodes[c.start].state == Closed
    ensures Inv(c, r.state) && Advances(st, r.state)
    ensures r.state.closedAt == st.closedAt
    ensures Distinct(r.accepted)
    ensures forall k :: k in r.accepted <==>
              k in st.nodes && Adjacent(c.vonNeumann, from, k) && Accepts(c, st, from, k)
    ensures forall k :: k in r.accepted ==>
              k in st.nodes && st.nodes[k].walkable && st.nodes[k].state != Closed && r.state.nodes[k] == Relinked(c, st, from, k)
    ensures forall k :: k in st.nodes && k !in r.accepted ==> r.state.nodes[k] == st.nodes[k]
  {
    OpenNodesHaveParents(c, st);
    var ns := Neighbourhood(c.vonNeumann, c.dims, from);
    var r := Relax(c, st, from, ns);
    RelinkKeepsInv(c, st, from, r);
    r
  }

  lemma RelinkKeepsInv<L>(c: Config<L>, st: SearchState<L>, from: Index, r: Expansion<L>)
    requires Inv(c, st) && from in st.nodes
    requires st.nodes[from].state == Closed && st.nodes[c.start].state == Closed
    requires r.state.closedAt == st.closedAt && r.state.nodes.Keys == st.nodes.Keys
    requires forall k :: k in r.accepted ==>
               k in st.nodes && Adjacent(c.vonNeumann, from, k) && OpenHasParent(st, k) && Accepts(c, st, from, k)
    requires forall k :: k in st.nodes ==>
               r.state.nodes[k] == if k in r.accepted then Relinked(c, st, from, k) else st.nodes[k]
    ensures Inv(c, r.state) && Advances(st, r.state)
  {
    var st' := r.state;
    assert NodeOk(c, st, from);
    forall k | k in st'.nodes ensures NodeOk(c, st', k) && NodeAdvances(st.nodes[k], st'.nodes[k]) {
      assert NodeOk(c, st, k);
      if k !in r.accepted && st.nodes[k].parent.Some? {
        var p := st.nodes[k].parent.value;
        assert p !in r.accepted;
      }
    }
  }

  // ---------------------------------------------------------------------------
  // Ordering the candidates
  // ---------------------------------------------------------------------------

  predicate SortedByF<L>(st: SearchState<L>, s: seq<Index>) {
    forall i, j :: 0 <= i < j < |s| ==> s[i] in st.nodes && s[j] in st.nodes && st.nodes[s[i]].f <= st.nodes[s[j]].f
  }

  /** Putting in front of a sorted list a node whose F is at most every F in it
      keeps the list sorted. */
  lemma {:induction false} ConsSorted<L>(st: SearchState<L>, k: Index, s: seq<Index>)
    requires k in st.nodes && SortedByF(st, s)
    requires forall x :: x in s ==> x in st.nodes && st.nodes[k].f <= st.nodes[x].f
    ensures SortedByF(st, [k] + s)
  {
    var r := [k] + s;
    forall i, j | 0 <= i < j < |r|
      ensures r[i] in st.nodes && r[j] in st.nodes && st.nodes[r[i]].f <= st.nodes[r[j]].f
    {
      assert r[j] == s[j - 1];
      if i > 0 {
        assert r[i] == s[i - 1];
      } else {
        assert s[j - 1] in s;
      }
    }
  }

  /** In a sorted list no node has a smaller F than the head. */
  lemma HeadIsLeast<L>(st: SearchState<L>, s: seq<Index>)
    requires s != [] && SortedByF(st, s) && s[0] in st.nodes
    ensures forall x :: x in s ==> x in st.nodes && st.nodes[s[0]].f <= st.nodes[x].f
  {
    forall x | x in s ensures x in st.nodes && st.nodes[s[0]].f <= st.nodes[x].f {
      var m :| 0 <= m < |s| && s[m] == x;
      if m > 0 {
        assert st.nodes[s[0]].f <= st.nodes[s[m]].f;
      }
    }
  }

  /** Inserting a node of larger F than the head into the tail leaves every
      element at or above the head. */
  lemma InsertedBelowHead<L>(st: SearchState<L>, k: Index, s: seq<Index>, rest: seq<Index>)
    requires s != [] && k in st.nodes && s[0] in st.nodes
    requires forall x :: x in s ==> x in st.nodes && st.nodes[s[0]].f <= st.nodes[x].f
    requires st.nodes[s[0]].f < st.nodes[k].f
    requires multiset(rest) == multiset(s[1..]) + multiset{k}
    ensures forall x :: x in rest ==> x in st.nodes && st.nodes[s[0]].f <= st.nodes[x].f
  {
    forall x | x in rest ensures x in st.nodes && st.nodes[s[0]].f <= st.nodes[x].f {
      assert x in multiset(rest);
      if x != k {
        assert x in multiset(s[1..]);
        assert x in s[1..];
      }
    }
  }

  function InsertByF<L>(st: SearchState<L>, k: Index, s: seq<Index>): (r: seq<Index>)
    requires k in st.nodes && (forall x :: x in s ==> x in st.nodes) && SortedByF(st, s)
    ensures multiset(r) == multiset(s) + multiset{k}
    ensures SortedByF(st, r)
  {
    if s == [] then [k]
    else if st.nodes[k].f <= st.nodes[s[0]].f then
      HeadIsLeast(st, s);
      ConsSorted(st, k, s);
      [k] + s
    else
      var rest := InsertByF(st, k, s[1..]);
      assert s == [s[0]] + s[1..];
      HeadIsLeast(st, s);
      InsertedBelowHead(st, k, s, rest);
      ConsSorted(st, s[0], rest);
      [s[0]] + rest
  }

  /** `nextNodes.Sort(...)` by F: a permutation of the candidates in ascending F.
      The source's List.Sort is not stable; this one is, which is one of the
      orders the source may produce. */
  function SortByF<L>(st: SearchState<L>, s: seq<Index>): (r: seq<Index>)
    requires forall x :: x in s ==> x in st.nodes
    ensures multiset(r) == multiset(s)
    ensures SortedByF(st, r)
  {
    if s == [] then []
    else
      assert s == [s[0]] + s[1..];
      var rest := SortByF(st, s[1..]);
      assert forall x :: x in rest ==> x in multiset(s[1..]);
      InsertByF(st, s[0], rest)
  }

  // ---------------------------------------------------------------------------
  // Search
  // ---------------------------------------------------------------------------

  /** Node `at` was reached (has a parent) and sits at the goal's location. */
  predicate GoalReached<L(==)>(c: Config<L>, st: SearchState<L>, at: Index)
    requires c.goal in st.nodes
  {
    at in st.nodes && st.nodes[at].parent.Some? && st.nodes[at].location == st.nodes[c.goal].location
  }

  /** Close `cur`, take its candidates and order them by F: the first three
      statements of Search. */
  function Expand<L(==)>(c: Config<L>, st: SearchState<L>, cur: Index): (r: Expansion<L>)
    requires Inv(c, st) && cur in st.nodes
    requires cur == c.start || st.nodes[cur].parent.Some?
    requires cur == c.start || st.nodes[c.start].state == Closed
    ensures Inv(c, r.state) && Advances(st, r.state)
    ensures r.state.nodes[cur].state == Closed && r.state.nodes[c.start].state == Closed
    ensures SortedByF(r.state, r.accepted)
    ensures var e := GetAdjacentWalkableNodes(c, Close(c, st, cur), cur);
      r.state == e.state && multiset(r.accepted) == multiset(e.accepted)
    ensures forall k :: k in r.accepted ==>
              && k in st.nodes && k != c.start && k != cur && Adjacent(c.vonNeumann, cur, k)
              && st.nodes[k].state != Closed && st.nodes[k].walkable
              && r.state.nodes[k].state == Open && r.state.nodes[k].parent == Some(cur)
  {
    var st1 := Close(c, st, cur);
    var e := GetAdjacentWalkableNodes(c, st1, cur);
    AdvancesTrans(st, st1, e.state);
    var order := SortByF(e.state, e.accepted);
    ExpandCandidates(c, st, cur, st1, e, order);
    Expansion(e.state, order)
  }

  lemma ExpandCandidates<L>(c: Config<L>, st: SearchState<L>, cur: Index, st1: SearchState<L>, e: Expansion<L>, order: seq<Index>)
    requires Inv(c, st) && cur in st.nodes
    requires cur == c.start || st.nodes[cur].parent.Some?
    requires cur == c.start || st.nodes[c.start].state == Closed
    requires st1 == Close(c, st, cur)
    requires e == GetAdjacentWalkableNodes(c, st1, cur)
    requires multiset(order) == multiset(e.accepted)
    ensures forall k :: k in order ==>
              && k in st.nodes && k != c.start && k != cur && Adjacent(c.vonNeumann, cur, k)
              && st.nodes[k].state != Closed && st.nodes[k].walkable
              && e.state.nodes[k].state == Open && e.state.nodes[k].parent == Some(cur)
  {
    assert st1.nodes[c.start].state == Closed;
    forall k | k in order
      ensures && k in st.nodes && k != c.start && k != cur && Adjacent(c.vonNeumann, cur, k)
              && st.nodes[k].state != Closed && st.nodes[k].walkable
              && e.state.nodes[k].state == Open && e.state.nodes[k].parent == Some(cur)
    {
      assert k in multiset(order);
      assert k in e.accepted;
      assert st1.nodes[k] == st.nodes[k];
    }
  }

  /** Every node of `active` is a Closed node of the lattice. */
  ghost predicate AllClosed<L>(st: SearchState<L>, active: set<Index>) {
    forall a :: a in active ==> a in st.nodes && st.nodes[a].state == Closed
  }

  /** The candidates still to be tried are opened lattice nodes, neither the
      start nor one of the nodes whose calls are still running. */
  ghost predicate Pending<L>(c: Config<L>, st: SearchState<L>, active: set<Index>, order: seq<Index>) {
    forall j :: 0 <= j < |order| ==>
      order[j] in st.nodes && order[j] !in active && order[j] != c.start && st.nodes[order[j]].state != Untested
  }

  /** A finished recursive call leaves the remaining candidates pending, keeps
      the active nodes Closed and moves no node's location. */
  lemma AdvancesKeepsPending<L>(c: Config<L>, st: SearchState<L>, st': SearchState<L>, active: set<Index>, order: seq<Index>)
    requires Advances(st, st') && c.start in st.nodes && c.goal in st.nodes
    requires st.nodes[c.start].state == Closed
    requires AllClosed(st, active) && Pending(c, st, active, order)
    ensures c.start in st'.nodes && c.goal in st'.nodes && st'.nodes[c.start].state == Closed
    ensures AllClosed(st', active) && Pending(c, st', active, order)
    ensures st'.nodes[c.goal].location == st.nodes[c.goal].location
    ensures forall j :: 0 <= j < |order| ==> st'.nodes[order[j]].location == st.nodes[order[j]].location
  {
  }

  /** The candidates of an expansion are ready for the loop of the call that
      expanded them. */
  lemma CandidatesPending<L>(c: Config<L>, st: SearchState<L>, st': SearchState<L>, active: set<Index>, cur: Index, order: seq<Index>)
    requires Advances(st, st') && AllClosed(st, active) && cur !in active
    requires cur in st'.nodes && st'.nodes[cur].state == Closed
    requires forall k :: k in order ==>
               && k in st.nodes && k != c.start && st.nodes[k].state != Closed
               && k in st'.nodes && st'.nodes[k].state == Open
    ensures AllClosed(st', active + {cur}) && Pending(c, st', active + {cur}, order)
  {
    forall j | 0 <= j < |order| ensures order[j] !in active {
      assert order[j] in order;
    }
  }

  /** Adding a node of the lattice to `active` shrinks what is left of the lattice. */
  lemma ActiveGrows(d: Dims, active: set<Index>, cur: Index)
    requires InBounds(d, cur) && cur !in active
    ensures |Cells(d) - (active + {cur})| < |Cells(d) - active|
  {
    assert Cells(d) - active == (Cells(d) - (active + {cur})) + {cur};
  }

  /** Search(currentNode). `active` holds the nodes of the enclosing calls; the
      current node is never among them, which bounds the recursion depth by the
      number of voxels. On `found`, some reached node is at the goal location. */
  function Search<L(==)>(c: Config<L>, st: SearchState<L>, active: set<Index>, cur: Index): (r: Outcome<L>)
    requires Inv(c, st) && cur in st.nodes
    requires cur == c.start || st.nodes[cur].parent.Some?
    requires cur == c.start || st.nodes[c.start].state == Closed
    requires cur !in active && AllClosed(st, active)
    ensures Inv(c, r.state) && Advances(st, r.state)
    ensures r.state.nodes[cur].state == Closed
    ensures r.found ==> GoalReached(c, r.state, r.at)
    decreases |Cells(c.dims) - active|, 1, 0
  {
    var e := Expand(c, st, cur);
    CandidatesPending(c, st, e.state, active, cur, e.accepted);
    ActiveGrows(c.dims, active, cur);
    var r := Children(c, e.state, active + {cur}, e.accepted, 0);
    AdvancesTrans(st, e.state, r.state);
    r
  }

  /** The `foreach` over the ordered candidates, from position `i` on: succeed at
      the first candidate located at the goal, otherwise recurse into it and
      stop at the first recursive success. */
  function Children<L(==)>(c: Config<L>, st: SearchState<L>, active: set<Index>, order: seq<Index>, i: nat): (r: Outcome<L>)
    requires Inv(c, st) && i <= |order|
    requires st.nodes[c.start].state == Closed
    requires AllClosed(st, active) && Pending(c, st, active, order)
    ensures Inv(c, r.state) && Advances(st, r.state)
    ensures r.found ==> GoalReached(c, r.state, r.at)
    decreases |Cells(c.dims) - active| + 1, 0, |order| - i
  {
    if i == |order| then Outcome(false, st, c.start)
    else
      var k := order[i];
      assert NodeOk(c, st, k);
      if st.nodes[k].location == st.nodes[c.goal].location then Outcome(true, st, k)
      else
        var sub := Search(c, st, active, k);
        if sub.found then sub
        else
          AdvancesKeepsPending(c, st, sub.state, active, order);
          var rest := Children(c, sub.state, active, order, i + 1);
          AdvancesTrans(st, sub.state, rest.state);
          rest
  }

  /** A candidate located at the goal is never missed: if any candidate of the
      current node sits at the goal location, Search succeeds (either there,
      or earlier through a candidate tried before it). */
  lemma {:induction false} SearchFindsAdjacentGoal<L>(c: Config<L>, st: SearchState<L>, active: set<Index>, cur: Index, j: nat)
    requires Inv(c, st) && cur in st.nodes
    requires cur == c.start || st.nodes[cur].parent.Some?
    requires cur == c.start || st.nodes[c.start].state == Closed
    requires cur !in active && AllClosed(st, active)
    requires j < |Expand(c, st, cur).accepted|
    requires Expand(c, st, cur).state.nodes[Expand(c, st, cur).accepted[j]].location == st.nodes[c.goal].location
    ensures Search(c, st, active, cur).found
  {
    var e := Expand(c, st, cur);
    CandidatesPending(c, st, e.state, active, cur, e.accepted);
    ChildrenFindsGoal(c, e.state, active + {cur}, e.accepted, 0, j);
  }

  lemma {:induction false} ChildrenFindsGoal<L>(c: Config<L>, st: SearchState<L>, active: set<Index>, order: seq<Index>, i: nat, j: nat)
    requires Inv(c, st) && i <= j < |order|
    requires st.nodes[c.start].state == Closed
    requires AllClosed(st, active) && Pending(c, st, active, order)
    requires st.nodes[order[j]].location == st.nodes[c.goal].location
    ensures Children(c, st, active, order, i).found
    decreases |order| - i
  {
    var k := order[i];
    assert NodeOk(c, st, k);
    if st.nodes[k].location != st.nodes[c.goal].location {
      var sub := Search(c, st, active, k);
      if !sub.found {
        AdvancesKeepsPending(c, st, sub.state, active, order);
        assert i + 1 <= j;
        assert Inv(c, sub.state);
        assert sub.state.nodes[order[j]].location == sub.state.nodes[c.goal].location;
        assert sub.state.nodes[c.start].state == Closed;
        ChildrenFindsGoal(c, sub.state, active, order, i + 1, j);
      }
    }
  }

  // ---------------------------------------------------------------------------
  // Path reconstruction
  // ---------------------------------------------------------------------------

  /** The closing step of a Closed node; nodes not Closed rank after all Closed ones. */
  ghost function Rank<L>(st: SearchState<L>, k: Index): nat {
    if k in st.closedAt then st.closedAt[k] else |st.closedAt|
  }

  lemma ParentRanksLower<L>(c: Config<L>, st: SearchState<L>, k: Index)
    requires Inv(c, st) && k in st.nodes && st.nodes[k].parent.Some?
    ensures Rank(st, st.nodes[k].parent.value) < Rank(st, k)
  {
    assert NodeOk(c, st, k);
  }

  /** The `while (node.ParentNode != null)` walk from node `k`: `k` and its
      ancestors, up to but excluding the first parentless node, which is the
      start node. Ranks fall strictly along the chain, so it has no repeats. */
  function ChainFrom<L(==)>(c: Config<L>, st: SearchState<L>, k: Index): (r: seq<Index>)
    requires Inv(c, st) && k in st.nodes
    ensures |r| == 0 <==> st.nodes[k].parent.None?
    ensures |r| > 0 ==> r[0] == k
    ensures forall i :: 0 <= i < |r| ==> r[i] in st.nodes && st.nodes[r[i]].parent.Some?
    ensures forall i :: 0 <= i < |r| - 1 ==> st.nodes[r[i]].parent == Some(r[i + 1])
    ensures |r| > 0 ==> st.nodes[r[|r| - 1]].parent == Some(c.start)
    ensures forall i :: 0 <= i < |r| ==> Rank(st, r[i]) <= Rank(st, k)
    ensures forall i, j :: 0 <= i < j < |r| ==> Rank(st, r[j]) < Rank(st, r[i])
    decreases Rank(st, k)
  {
    match st.nodes[k].parent
    case None => []
    case Some(p) =>
      ParentRanksLower(c, st, k);
      assert NodeOk(c, st, k);
      assert NodeOk(c, st, p);
      [k] + ChainFrom(c, st, p)
  }

  function Reverse<T>(s: seq<T>): (r: seq<T>)
    ensures |r| == |s|
    ensures forall i :: 0 <= i < |s| ==> r[i] == s[|s| - 1 - i]
  {
    if s == [] then [] else Reverse(s[1..]) + [s[0]]
  }

  lemma ReversedChainIsPath<L>(c: Config<L>, st: SearchState<L>, chain: seq<Index>)
    requires Inv(c, st)
    requires forall i :: 0 <= i < |chain| ==> chain[i] in st.nodes && st.nodes[chain[i]].parent.Some?
    requires forall i :: 0 <= i < |chain| - 1 ==> st.nodes[chain[i]].parent == Some(chain[i + 1])
    requires |chain| > 0 ==> st.nodes[chain[|chain| - 1]].parent == Some(c.start)
    ensures var cells := Reverse(chain);
      && (forall i :: 0 <= i < |cells| ==> st.nodes[cells[i]].walkable)
      && (cells != [] ==> Adjacent(c.vonNeumann, c.start, cells[0]) && st.nodes[cells[0]].parent == Some(c.start))
      && (forall i :: 0 <= i < |cells| - 1 ==>
            st.nodes[cells[i + 1]].parent == Some(cells[i]) && Adjacent(c.vonNeumann, cells[i], cells[i + 1]))
  {
    var cells := Reverse(chain);
    var n := |chain|;
    forall i | 0 <= i < n ensures st.nodes[cells[i]].walkable {
      assert cells[i] == chain[n - 1 - i];
      assert NodeOk(c, st, chain[n - 1 - i]);
    }
    if n > 0 {
      assert NodeOk(c, st, chain[n - 1]);
    }
    forall i | 0 <= i < n - 1
      ensures st.nodes[cells[i + 1]].parent == Some(cells[i]) && Adjacent(c.vonNeumann, cells[i], cells[i + 1])
    {
      assert cells[i + 1] == chain[n - 2 - i] && cells[i] == chain[n - 1 - i];
      assert NodeOk(c, st, chain[n - 2 - i]);
    }
  }

  /** Reversing the chain of node `k`, in a state `st'` the search reached
      from `st`, gives a path of distinct walkable cells that starts next to the
      start node, steps between adjacent parent-linked cells and ends at `k`;
      the start node itself is not on it. */
  lemma {:induction false} ChainIsPath<L>(c: Config<L>, st: SearchState<L>, st': SearchState<L>, k: Index)
    requires Inv(c, st') && Advances(st, st') && k in st'.nodes
    ensures var cells := Reverse(ChainFrom(c, st', k));
      && (cells != [] <==> st'.nodes[k].parent.Some?)
      && (cells != [] ==>
            && cells[|cells| - 1] == k && Adjacent(c.vonNeumann, c.start, cells[0])
            && cells[0] in st'.nodes && st'.nodes[cells[0]].parent == Some(c.start))
      && (forall i :: 0 <= i < |cells| ==> cells[i] in st.nodes && st.nodes[cells[i]].walkable)
      && (forall i :: 0 <= i < |cells| - 1 ==>
            st'.nodes[cells[i + 1]].parent == Some(cells[i]) && Adjacent(c.vonNeumann, cells[i], cells[i + 1]))
      && Distinct(cells) && c.start !in cells
  {
    var chain := ChainFrom(c, st', k);
    var cells := Reverse(chain);
    var n := |chain|;
    ReversedChainIsPath(c, st', chain);
    forall i | 0 <= i < n ensures cells[i] in st.nodes && st.nodes[cells[i]].walkable {
      assert st'.nodes[cells[i]].walkable;
      assert NodeAdvances(st.nodes[cells[i]], st'.nodes[cells[i]]);
    }
    ChainIsSimple(c, st', k);
    ReverseKeepsElements(chain);
  }

  /** A successful trace ending in the reversed chain of node `k`. */
  function ChainTrace<L(==)>(c: Config<L>, st: SearchState<L>, st': SearchState<L>, at: Index, k: Index): (t: Trace<L>)
    requires Inv(c, st') && Advances(st, st') && k in st'.nodes
    ensures t.found && t.at == at && t.final == st'
    ensures t.cells != [] <==> st'.nodes[k].parent.Some?
    ensures t.cells != [] ==>
              && t.cells[|t.cells| - 1] == k && Adjacent(c.vonNeumann, c.start, t.cells[0])
              && t.cells[0] in st'.nodes && st'.nodes[t.cells[0]].parent == Some(c.start)
    ensures forall i :: 0 <= i < |t.cells| ==> t.cells[i] in st.nodes && st.nodes[t.cells[i]].walkable
    ensures forall i :: 0 <= i < |t.cells| - 1 ==>
              st'.nodes[t.cells[i + 1]].parent == Some(t.cells[i]) && Adjacent(c.vonNeumann, t.cells[i], t.cells[i + 1])
    ensures Distinct(t.cells) && c.start !in t.cells
  {
    ChainIsPath(c, st, st', k);
    Trace(true, at, Reverse(ChainFrom(c, st', k)), st')
  }

  /** A parent chain visits no node twice and never the start node. */
  lemma ChainIsSimple<L>(c: Config<L>, st: SearchState<L>, k: Index)
    requires Inv(c, st) && k in st.nodes
    ensures Distinct(ChainFrom(c, st, k)) && c.start !in ChainFrom(c, st, k)
  {
    var chain := ChainFrom(c, st, k);
    forall i, j | 0 <= i < j < |chain| ensures chain[i] != chain[j] {
      assert Rank(st, chain[j]) < Rank(st, chain[i]);
    }
  }

  lemma ReverseKeepsElements<T>(s: seq<T>)
    ensures forall x :: x in Reverse(s) <==> x in s
    ensures Distinct(s) ==> Distinct(Reverse(s))
  {
    var r := Reverse(s);
    forall x | x in s ensures x in r {
      var i :| 0 <= i < |s| && s[i] == x;
      assert r[|s| - 1 - i] == x;
    }
  }

  /** A search outcome with the reconstructed path as lattice indices. */
  datatype Trace<L> = Trace(found: bool, at: Index, cells: seq<Index>, final: SearchState<L>)

  /** FindPath on indices: search from the start node; on success the parent
      chain of the end node, reversed into start-to-goal order. After a
      successful search the path is non-empty exactly when the end node has a
      parent. Every cell of the path is walkable, the first is a child of the
      start, each is adjacent to (and the child of) the one before, the last
      is the end node, no cell repeats and the start is not listed. */
  function FindPathCells<L(==)>(c: Config<L>, st: SearchState<L>): (t: Trace<L>)
    requires Inv(c, st)
    ensures var r := Search(c, st, {}, c.start); t.found == r.found && t.at == r.at && t.final == r.state
    ensures Inv(c, t.final) && Advances(st, t.final)
    ensures !t.found ==> t.cells == []
    ensures t.found ==> GoalReached(c, t.final, t.at)
    ensures t.found ==> (t.cells != [] <==> t.final.nodes[c.goal].parent.Some?)
    ensures t.cells != [] ==>
              && t.cells[|t.cells| - 1] == c.goal && Adjacent(c.vonNeumann, c.start, t.cells[0])
              && t.cells[0] in t.final.nodes && t.final.nodes[t.cells[0]].parent == Some(c.start)
    ensures forall i :: 0 <= i < |t.cells| ==> t.cells[i] in st.nodes && st.nodes[t.cells[i]].walkable
    ensures forall i :: 0 <= i < |t.cells| - 1 ==>
              t.final.nodes[t.cells[i + 1]].parent == Some(t.cells[i]) && Adjacent(c.vonNeumann, t.cells[i], t.cells[i + 1])
    ensures Distinct(t.cells) && c.start !in t.cells
  {
    var r := Search(c, st, {}, c.start);
    if !r.found then Trace(false, r.at, [], r.state)
    else
      ChainTrace(c, st, r.state, r.at, c.goal)
  }

  /** The search moves no node's location. */
  lemma AdvancesKeepsLocations<L>(st: SearchState<L>, st': SearchState<L>, cells: seq<Index>)
    requires Advances(st, st')
    requires forall i :: 0 <= i < |cells| ==> cells[i] in st.nodes
    ensures forall i :: 0 <= i < |cells| ==> st'.nodes[cells[i]].location == st.nodes[cells[i]].location
  {
    forall i | 0 <= i < |cells| ensures st'.nodes[cells[i]].location == st.nodes[cells[i]].location {
      assert NodeAdvances(st.nodes[cells[i]], st'.nodes[cells[i]]);
    }
  }

  /** FindPath: the locations of FindPathCells, empty on failure and, after a
      successful search, empty exactly when the end node has no parent. The
      path ends at the end node's location. */
  function FindPath<L(==)>(c: Config<L>, st: SearchState<L>): (path: seq<L>)
    requires Inv(c, st)
    ensures var t := FindPathCells(c, st);
      && |path| == |t.cells|
      && (!Search(c, st, {}, c.start).found ==> path == [])
      && (t.found ==> (path != [] <==> t.final.nodes[c.goal].parent.Some?))
      && (forall i :: 0 <= i < |path| ==> path[i] == st.nodes[t.cells[i]].location)
      && (path != [] ==> path[|path| - 1] == st.nodes[c.goal].location)
  {
    var t := FindPathCells(c, st);
    AdvancesKeepsLocations(st, t.final, t.cells);
    LocationsOf(t.final.nodes, t.cells)
  }

  function LocationsOf<L>(nodes: map<Index, Node<L>>, cells: seq<Index>): (r: seq<L>)
    requires forall i :: 0 <= i < |cells| ==> cells[i] in nodes
    ensures |r| == |cells| && forall i :: 0 <= i < |cells| ==> r[i] == nodes[cells[i]].location
  {
    seq(|cells|, i requires 0 <= i < |cells| => nodes[cells[i]].location)
  }

  /** When no two cells share a location, the node Search matches is the end
      node itself, so a successful search always yields a non-empty path. */
  lemma DistinctLocationsGivePath<L>(c: Config<L>, st: SearchState<L>)
    requires Inv(c, st)
    requires forall i, j :: i in st.nodes && j in st.nodes && st.nodes[i].location == st.nodes[j].location ==> i == j
    ensures FindPathCells(c, st).found ==> FindPathCells(c, st).cells != []
  {
    var t := FindPathCells(c, st);
    if t.found {
      assert NodeAdvances(st.nodes[t.at], t.final.nodes[t.at]);
      assert NodeAdvances(st.nodes[c.goal], t.final.nodes[c.goal]);
      assert t.at == c.goal;
      assert t.final.nodes[c.goal].parent.Some?;
    }
  }

  /** The search writes G and the parent links but never F: a lattice whose
      nodes all have F equal to H still has after FindPath. */
  lemma {:induction false} FindPathKeepsFEqualsH<L>(c: Config<L>, st: SearchState<L>)
    requires Inv(c, st)
    requires forall k :: k in st.nodes ==> st.nodes[k].f == st.nodes[k].h
    ensures var final := FindPathCells(c, st).final;
      forall k :: k in final.nodes ==> final.nodes[k].f == final.nodes[k].h
  {
    var final := FindPathCells(c, st).final;
    forall k | k in final.nodes ensures final.nodes[k].f == final.nodes[k].h {
      assert NodeAdvances(st.nodes[k], final.nodes[k]);
    }
  }

  // ---------------------------------------------------------------------------
  // Reconstruction from the matched candidate
  // ---------------------------------------------------------------------------

  /** FindPath on indices as it is evidently meant to work: walk the parent
      chain of the candidate Search matched at the goal location instead of
      the chain of the end node. The path is empty exactly when the search
      fails, and otherwise ends at a reached cell located at the goal. */
  function MatchedPathCells<L(==)>(c: Config<L>, st: SearchState<L>): (t: Trace<L>)
    requires Inv(c, st)
    ensures var r := Search(c, st, {}, c.start); t.found == r.found && t.at == r.at && t.final == r.state
    ensures Inv(c, t.final) && Advances(st, t.final)
    ensures t.found <==> t.cells != []
    ensures t.cells != [] ==>
              && t.cells[|t.cells| - 1] == t.at && GoalReached(c, t.final, t.at)
              && Adjacent(c.vonNeumann, c.start, t.cells[0])
              && t.cells[0] in t.final.nodes && t.final.nodes[t.cells[0]].parent == Some(c.start)
    ensures forall i :: 0 <= i < |t.cells| ==> t.cells[i] in st.nodes && st.nodes[t.cells[i]].walkable
    ensures forall i :: 0 <= i < |t.cells| - 1 ==>
              t.final.nodes[t.cells[i + 1]].parent == Some(t.cells[i]) && Adjacent(c.vonNeumann, t.cells[i], t.cells[i + 1])
    ensures Distinct(t.cells) && c.start !in t.cells
  {
    var r := Search(c, st, {}, c.start);
    if !r.found then Trace(false, r.at, [], r.state)
    else
      ChainTrace(c, st, r.state, r.at, r.at)
  }

  /** FindPath with the matched-candidate walk: the locations of
      MatchedPathCells. A successful search always yields a non-empty path,
      and that path ends at the goal location. */
  function FindPathFromMatch<L(==)>(c: Config<L>, st: SearchState<L>): (path: seq<L>)
    requires Inv(c, st)
    ensures var t := MatchedPathCells(c, st);
      && |path| == |t.cells|
      && (path != [] <==> Search(c, st, {}, c.start).found)
      && (forall i :: 0 <= i < |path| ==> path[i] == st.nodes[t.cells[i]].location)
      && (path != [] ==> path[|path| - 1] == st.nodes[c.goal].location)
  {
    var t := MatchedPathCells(c, st);
    AdvancesKeepsLocations(st, t.final, t.cells);
    GoalLocationKept(c, st, t.final);
    LocationsOf(t.final.nodes, t.cells)
  }

  lemma GoalLocationKept<L>(c: Config<L>, st: SearchState<L>, st': SearchState<L>)
    requires Advances(st, st') && c.goal in st.nodes
    ensures c.goal in st'.nodes && st'.nodes[c.goal].location == st.nodes[c.goal].location
  {
    assert NodeAdvances(st.nodes[c.goal], st'.nodes[c.goal]);
  }

  /** A sequence without repeats whose only member is `n` is `[n]`. */
  lemma OnlyMember<T>(s: seq<T>, n: T)
    requires Distinct(s) && forall k :: k in s <==> k == n
    ensures s == [n]
  {
    assert n in s;
    var i :| 0 <= i < |s| && s[i] == n;
    forall j | 0 <= j < |s| ensures s[j] == n && j == i {
      assert s[j] in s;
    }
    assert s[0] == n && s[|s| - 1] == n;
  }

  /** The situation of EndNodeWalkMissesMatch: the end node is a parentless
      node away from the start, and the only walkable neighbour of the start
      node is an Untested node `n` at the goal's location. Two cells at one
      location arise when the explicit-grid constructor is given repeated
      points. */
  ghost predicate LoneNeighbourAtGoal<L>(c: Config<L>, st: SearchState<L>, n: Index)
    requires Inv(c, st)
  {
    && !Adjacent(c.vonNeumann, c.start, c.goal) && c.goal != c.start && st.nodes[c.goal].parent == None
    && n in st.nodes && Adjacent(c.vonNeumann, c.start, n)
    && st.nodes[n].walkable && st.nodes[n].state == Untested
    && st.nodes[n].location == st.nodes[c.goal].location
    && (forall k :: k in st.nodes && Adjacent(c.vonNeumann, c.start, k) && k != n ==> !st.nodes[k].walkable)
  }

  /** The start node's expansion in the situation of EndNodeWalkMissesMatch:
      `n` is the only candidate, it is opened under the start node, and the
      end node is untouched. */
  lemma {:induction false} StartExpansionIsSingle<L>(c: Config<L>, st: SearchState<L>, n: Index)
    requires Inv(c, st) && LoneNeighbourAtGoal(c, st, n)
    ensures var e := Expand(c, st, c.start);
      && e.accepted == [n]
      && e.state.nodes[c.goal] == st.nodes[c.goal]
      && e.state.nodes[n].location == st.nodes[n].location
      && e.state.nodes[n].parent == Some(c.start)
  {
    var st1 := Close(c, st, c.start);
    var e := GetAdjacentWalkableNodes(c, st1, c.start);
    forall k ensures k in e.accepted <==> k == n {
      if k in e.accepted {
        assert Adjacent(c.vonNeumann, c.start, k) && st1.nodes[k].walkable;
        assert k != c.start;
        assert st1.nodes[k] == st.nodes[k];
      }
      if k == n {
        assert n != c.start;
        assert st1.nodes[n] == st.nodes[n];
        assert Accepts(c, st1, c.start, n);
      }
    }
    OnlyMember(e.accepted, n);
    var order := SortByF(e.state, e.accepted);
    assert order[0] in multiset(e.accepted);
    assert order == [n];
  }

  /** When the first candidate in F order sits at the goal location, Search
      succeeds there at once, in the state its expansion left. */
  lemma SearchMatchesFirstCandidate<L>(c: Config<L>, st: SearchState<L>, active: set<Index>, cur: Index)
    requires Inv(c, st) && cur in st.nodes
    requires cur == c.start || st.nodes[cur].parent.Some?
    requires cur == c.start || st.nodes[c.start].state == Closed
    requires cur !in active && AllClosed(st, active)
    requires Expand(c, st, cur).accepted != []
    requires Expand(c, st, cur).state.nodes[Expand(c, st, cur).accepted[0]].location
             == Expand(c, st, cur).state.nodes[c.goal].location
    ensures Search(c, st, active, cur) == Outcome(true, Expand(c, st, cur).state, Expand(c, st, cur).accepted[0])
  {
    var e := Expand(c, st, cur);
    CandidatesPending(c, st, e.state, active, cur, e.accepted);
  }

  /** The walk from the end node can come back empty after a successful
      search. Let the only walkable neighbour of the start node be an
      Untested node `n` that shares the goal's location but is not the end
      node, and let the end node lie away from the start, still parentless.
      Search succeeds at `n`, but FindPathCells reports success with no
      cells, while MatchedPathCells returns the one-cell path to `n`. */
  lemma {:induction false} EndNodeWalkMissesMatch<L>(c: Config<L>, st: SearchState<L>, n: Index)
    requires Inv(c, st) && LoneNeighbourAtGoal(c, st, n)
    ensures FindPathCells(c, st).found && FindPathCells(c, st).cells == []
    ensures MatchedPathCells(c, st).cells == [n]
  {
    StartSearchAtNeighbour(c, st, n);
    var e := Expand(c, st, c.start);
    assert ChainFrom(c, e.state, c.goal) == [];
    assert ChainFrom(c, e.state, n) == [n] + ChainFrom(c, e.state, c.start);
  }

  /** In that situation Search from the start node succeeds at `n`, which it
      opened under the start node, and leaves the end node untouched. */
  lemma {:induction false} StartSearchAtNeighbour<L>(c: Config<L>, st: SearchState<L>, n: Index)
    requires Inv(c, st) && LoneNeighbourAtGoal(c, st, n)
    ensures var e := Expand(c, st, c.start);
      && Search(c, st, {}, c.start) == Outcome(true, e.state, n)
      && e.state.nodes[c.goal] == st.nodes[c.goal]
      && e.state.nodes[n].parent == Some(c.start)
  {
    StartExpansionIsSingle(c, st, n);
    SearchMatchesFirstCandidate(c, st, {}, c.start);
  }

  /** The same situation in terms of locations: FindPath returns the empty
      list although the search succeeded, and FindPathFromMatch returns the
      location of `n`, which is the goal's. */
  lemma {:induction false} EndNodePathIsEmpty<L>(c: Config<L>, st: SearchState<L>, n: Index)
    requires Inv(c, st) && LoneNeighbourAtGoal(c, st, n)
    ensures FindPath(c, st) == []
    ensures |FindPathFromMatch(c, st)| == 1 && FindPathFromMatch(c, st)[0] == st.nodes[c.goal].location
  {
    EndNodeWalkMissesMatch(c, st, n);
    NoCellsNoPath(c, st);
    OneCellOnePoint(c, st);
  }

  /** A row of four cells whose points read Q, S, X, Q, with the X cell
      blocked, searched from the S cell to the last cell. */
  const RowPoints: map<Index, char> :=
    map[Index(0, 0, 0) := 'Q', Index(1, 0, 0) := 'S', Index(2, 0, 0) := 'X', Index(3, 0, 0) := 'Q']
  const RowEnvironment: map<Index, bool> :=
    map[Index(0, 0, 0) := true, Index(1, 0, 0) := true, Index(2, 0, 0) := false, Index(3, 0, 0) := true]

  /** The explicit-grid constructor and the path finder constructor both
      accept that row. */
  lemma RowBuilds()
    ensures var g := SearchParameters.NewGrid(4, 1, 1, Index(1, 0, 0), Index(3, 0, 0), RowPoints, RowEnvironment);
      g.Some? && NewPathFinder(g.value, true, (a: char, b: char) => 0.0).Some?
  {
    var g := SearchParameters.NewGrid(4, 1, 1, Index(1, 0, 0), Index(3, 0, 0), RowPoints, RowEnvironment).value;
    forall k | k in Cells(g.dims) ensures k in g.points && k in g.environment {
      assert k == Index(k.x, 0, 0);
    }
  }

  /** The situation of EndNodeWalkMissesMatch arises from that row: its first
      cell repeats the end point, is the start's only walkable neighbour, and
      is matched in place of the end node. */
  lemma RepeatedEndPointRow(g: SearchParameters.Grid<char>, f: Finder<char>)
    requires Some(g) == SearchParameters.NewGrid(4, 1, 1, Index(1, 0, 0), Index(3, 0, 0), RowPoints, RowEnvironment)
    requires Some(f) == NewPathFinder(g, true, (a: char, b: char) => 0.0)
    ensures LoneNeighbourAtGoal(f.config, f.state, Index(0, 0, 0))
  {
    assert g.points == RowPoints && g.environment == RowEnvironment;
    assert f.config.dims == Dims(4, 1, 1) && f.config.vonNeumann;
    assert f.config.start == Index(1, 0, 0) && f.config.goal == Index(3, 0, 0);
    RowLoneNeighbour(f.config, f.state);
  }

  /** Any search state of the row whose nodes are still fresh, apart from the
      opened start node, has the Q cell as the start's lone neighbour. */
  lemma RowLoneNeighbour(c: Config<char>, st: SearchState<char>)
    requires Inv(c, st)
    requires c.dims == Dims(4, 1, 1) && c.vonNeumann && c.start == Index(1, 0, 0) && c.goal == Index(3, 0, 0)
    requires forall k :: k in st.nodes ==>
               && st.nodes[k].location == RowPoints[k] && st.nodes[k].walkable == RowEnvironment[k]
               && st.nodes[k].parent == None && (k != c.start ==> st.nodes[k].state == Untested)
    ensures LoneNeighbourAtGoal(c, st, Index(0, 0, 0))
  {
    var nodes := st.nodes;
    assert Index(0, 0, 0) in nodes && Index(3, 0, 0) in nodes;
    assert nodes[Index(0, 0, 0)].location == 'Q' && nodes[Index(3, 0, 0)].location == 'Q';
    forall k | k in nodes && Adjacent(true, Index(1, 0, 0), k) && k != Index(0, 0, 0)
      ensures !nodes[k].walkable
    {
      RowNeighbours(k);
    }
  }

  /** In the row, the S cell has the Q cell and the X cell as neighbours. */
  lemma RowNeighbours(k: Index)
    requires InBounds(Dims(4, 1, 1), k) && Adjacent(true, Index(1, 0, 0), k)
    ensures k == Index(0, 0, 0) || k == Index(2, 0, 0)
  {
  }

  lemma NoCellsNoPath<L>(c: Config<L>, st: SearchState<L>)
    requires Inv(c, st) && FindPathCells(c, st).cells == []
    ensures FindPath(c, st) == []
  {
  }

  lemma OneCellOnePoint<L>(c: Config<L>, st: SearchState<L>)
    requires Inv(c, st) && |MatchedPathCells(c, st).cells| == 1
    ensures |FindPathFromMatch(c, st)| == 1 && FindPathFromMatch(c, st)[0] == st.nodes[c.goal].location
  {
  }
}
