/**
 * `Graph` (in `bin/algorithms/Graph.java`): adjacency lists keyed by node, directed or
 * undirected. Lists keep duplicates: adding an edge twice lists its end twice.
 */
module AdjacencyGraph {
  import opened GraphNodes

  type Adjacency = map<Node, seq<Node>>

  /** `getOrDefault(node, emptyList())`: the node's list, empty for an unknown node. */
  function NeighborsOf(adjacency: Adjacency, n: Node): (r: seq<Node>)
    ensures n !in adjacency ==> r == []
  {
    if n in adjacency then adjacency[n] else []
  }

  /** How many times `b` is listed among `a`'s neighbours. */
  function Count(adjacency: Adjacency, a: Node, b: Node): nat
  {
    multiset(NeighborsOf(adjacency, a))[b]
  }

  /** Every listed neighbour is itself a node of the graph. */
  ghost predicate Closed(adjacency: Adjacency)
  {
    forall a, b | a in adjacency && b in adjacency[a] :: b in adjacency
  }

  /** Each node lists the other as often as the other lists it. */
  ghost predicate Symmetric(adjacency: Adjacency)
  {
    forall a, b :: Count(adjacency, a, b) == Count(adjacency, b, a)
  }

  /** `putIfAbsent(n, new ArrayList<>())`. */
  function WithNode(adjacency: Adjacency, n: Node): Adjacency
  {
    if n in adjacency then adjacency else adjacency[n := []]
  }

  /**
   * `addEdge(source, destination)`: both ends become nodes, the destination is appended to the
   * source's list and, in an undirected graph, the source to the destination's list.
   */
  function WithEdge(adjacency: Adjacency, isDirected: bool, source: Node, destination: Node): Adjacency
  {
    var both := WithNode(WithNode(adjacency, source), destination);
    var forward := both[source := both[source] + [destination]];
    if isDirected then forward else forward[destination := forward[destination] + [source]]
  }

  /** Adding a node registers it and changes no list, in particular not its own if it was there. */
  lemma NodeNeighbors(adjacency: Adjacency, n: Node, m: Node)
    ensures WithNode(adjacency, n).Keys == adjacency.Keys + {n}
    ensures NeighborsOf(WithNode(adjacency, n), m) == NeighborsOf(adjacency, m)
  {
  }

  /**
   * After `addEdge(source, destination)` the nodes are the old ones and both ends, and a node's
   * list is its old list, then `destination` if it is the source, then `source` if the graph is
   * undirected and it is the destination.
   */
  lemma EdgeNeighbors(adjacency: Adjacency, isDirected: bool, source: Node, destination: Node, n: Node)
    ensures WithEdge(adjacency, isDirected, source, destination).Keys == adjacency.Keys + {source, destination}
    ensures NeighborsOf(WithEdge(adjacency, isDirected, source, destination), n) ==
            NeighborsOf(adjacency, n) + (if n == source then [destination] else []) +
            (if !isDirected && n == destination then [source] else [])
  {
    var both := WithNode(WithNode(adjacency, source), destination);
    assert NeighborsOf(both, n) == NeighborsOf(adjacency, n);
  }

  /** Adding an edge again lists it again: duplicates are kept. */
  lemma EdgeCounted(adjacency: Adjacency, isDirected: bool, source: Node, destination: Node)
    ensures Count(WithEdge(adjacency, isDirected, source, destination), source, destination) ==
            Count(adjacency, source, destination) + (if !isDirected && source == destination then 2 else 1)
  {
    EdgeNeighbors(adjacency, isDirected, source, destination, source);
  }

  /** Adding an edge keeps every listed neighbour a node. */
  lemma EdgeKeepsClosed(adjacency: Adjacency, isDirected: bool, source: Node, destination: Node)
    requires Closed(adjacency)
    ensures Closed(WithEdge(adjacency, isDirected, source, destination))
  {
    var after := WithEdge(adjacency, isDirected, source, destination);
    forall a, b | a in after && b in after[a]
      ensures b in after
    {
      EdgeNeighbors(adjacency, isDirected, source, destination, a);
      assert b in NeighborsOf(after, a);
    }
  }

  /** In an undirected graph, adding an edge keeps the lists symmetric. */
  lemma EdgeKeepsSymmetric(adjacency: Adjacency, source: Node, destination: Node)
    requires Symmetric(adjacency)
    ensures Symmetric(WithEdge(adjacency, false, source, destination))
  {
    var after := WithEdge(adjacency, false, source, destination);
    forall a, b
      ensures Count(after, a, b) == Count(after, b, a)
    {
      EdgeCount(adjacency, source, destination, a, b);
      EdgeCount(adjacency, source, destination, b, a);
    }
  }

  /** How an undirected edge changes one count. */
  lemma EdgeCount(adjacency: Adjacency, source: Node, destination: Node, a: Node, b: Node)
    ensures Count(WithEdge(adjacency, false, source, destination), a, b) ==
            Count(adjacency, a, b) + (if a == source && b == destination then 1 else 0) +
            (if a == destination && b == source then 1 else 0)
  {
    EdgeNeighbors(adjacency, false, source, destination, a);
  }

  class Graph {
    var adjacency: Adjacency
    const isDirected: bool

    /** Every listed neighbour is a node; an undirected graph's lists are symmetric. */
    ghost predicate Valid()
      reads this
    {
      Closed(adjacency) && (!isDirected ==> Symmetric(adjacency))
    }

    /** `new Graph(isDirected)`: no nodes. */
    constructor(directed: bool)
      ensures Valid() && isDirected == directed && adjacency == map[]
    {
      isDirected := directed;
      adjacency := map[];
    }

    /** `addNode`. */
    method AddNode(node: Node)
      requires Valid()
      modifies this
      ensures Valid() && adjacency == WithNode(old(adjacency), node)
    {
      if node !in adjacency {
        adjacency := adjacency[node := []];
      }
      forall a, b ensures Count(adjacency, a, b) == Count(old(adjacency), a, b) {
        NodeNeighbors(old(adjacency), node, a);
      }
    }

    /** `addEdge`. */
    method AddEdge(source: Node, destination: Node)
      requires Valid()
      modifies this
      ensures Valid() && adjacency == WithEdge(old(adjacency), isDirected, source, destination)
    {
      if source !in adjacency {
        adjacency := adjacency[source := []];
      }
      if destination !in adjacency {
        adjacency := adjacency[destination := []];
      }
      adjacency := adjacency[source := adjacency[source] + [destination]];
      if !isDirected {
        adjacency := adjacency[destination := adjacency[destination] + [source]];
      }
      EdgeKeepsClosed(old(adjacency), isDirected, source, destination);
      if !isDirected {
        EdgeKeepsSymmetric(old(adjacency), source, destination);
      }
    }

    /** `getNeighbors`: the node's list, empty for an unknown node. */
    function GetNeighbors(node: Node): (r: seq<Node>)
      reads this
      ensures ContainsNode(node) || r == []
    {
      NeighborsOf(adjacency, node)
    }

    /** `getAllNodes`: the keys. */
    function GetAllNodes(): (r: set<Node>)
      reads this
      ensures forall n :: n in r <==> ContainsNode(n)
    {
      adjacency.Keys
    }

    /**
     * `containsNode`: whether the node has a list. An unknown node has no neighbours, and in a
     * valid graph every neighbour of a known node is known too.
     */
    function ContainsNode(node: Node): (r: bool)
      reads this
      ensures !r ==> NeighborsOf(adjacency, node) == []
      ensures r && Valid() ==> forall m | m in NeighborsOf(adjacency, node) :: m in adjacency
    {
      node in adjacency
    }
  }
}
