/**
 The voxel record of the search (Node.cs).

 Locations are an abstract type `L` compared only for equality, and the
 traversal cost between two locations (Euclidean distance in the source) is
 a parameter `cost`. A parent is stored as the parent's lattice index rather
 than as a reference.
 */
module Nodes {
  import opened Wrappers
  import opened Lattice

  datatype NodeState = Untested | Open | Closed

  /** Untested < Open < Closed: the only direction a node's state may move. */
  function StateRank(s: NodeState): nat {
    match s
    case Untested => 0
    case Open => 1
    case Closed => 2
  }

  datatype Node<L> = Node(
    location: L,
    id: Index,
    walkable: bool,
    g: real,
    h: real,
    f: real,
    state: NodeState,
    parent: Option<Index>)

  /** The fields a node keeps for its whole life: neither the search nor the
      ParentNode setter writes them. */
  predicate SameIdentity<L(==)>(a: Node<L>, b: Node<L>) {
    && a.location == b.location
    && a.id == b.id
    && a.walkable == b.walkable
    && a.h == b.h
    && a.f == b.f
  }

  /** The Node constructor: an untested, parentless node whose heuristic is
      the cost to the end location and whose F therefore equals H. */
  function NewNode<L>(location: L, id: Index, walkable: bool, endLocation: L, cost: (L, L) -> real): (n: Node<L>)
    ensures n.location == location && n.id == id && n.walkable == walkable
    ensures n.state == Untested && n.parent == None
    ensures n.g == 0.0 && n.h == cost(location, endLocation)
    ensures n.f == n.g + n.h && n.f == n.h
  {
    var g := 0.0;
    var h := cost(location, endLocation);
    Node(location, id, walkable, g, h, g + h, Untested, None)
  }

  /** The ParentNode setter: links `n` to the node `pNode` stored at index `p`
      and sets G to the parent's G plus the step cost; F is left alone. */
  function SetParent<L(==)>(n: Node<L>, p: Index, pNode: Node<L>, cost: (L, L) -> real): (r: Node<L>)
    ensures r.parent == Some(p)
    ensures r.g == pNode.g + cost(n.location, pNode.location)
    ensures SameIdentity(n, r) && r.state == n.state
  {
    n.(parent := Some(p), g := pNode.g + cost(n.location, pNode.location))
  }
}
