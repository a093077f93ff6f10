/** Undirected graphs as networkx holds them (tests/test_lib.py builds both the
    problem graph and the hardware graph this way), and the graph adapter that
    turns an edge list into such a graph. */
module Graphs {
  import opened Containers

  /** Node labels. Python accepts any hashable label; the validators only ever
      compare labels for equality, so integers stand for them here. */
  type Node = int

  /** `nodes` lists the nodes in insertion order (the order `for x in G`
      visits them); each undirected edge is held in at least one
      orientation, and in both when an edge list names it both ways round.
      `Adjacent` reads an edge either way, so nothing depends on which. */
  datatype Graph = Graph(nodes: seq<Node>, edges: set<(Node, Node)>)

  /** What a networkx graph always satisfies: no node twice, and both ends of
      every edge are nodes. */
  predicate WellFormed(g: Graph) {
    && Distinct(g.nodes)
    && forall e :: e in g.edges ==> e.0 in g.nodes && e.1 in g.nodes
  }

  /** A non-empty set of nodes has a member to pick. */
  lemma NonEmptyHasNode(s: set<Node>)
    requires s != {}
    ensures exists x :: x in s
  {
    if forall x :: x !in s {
      assert false;
    }
  }

  /** A non-empty set of edges has a member to pick. */
  lemma NonEmptyHasEdge(s: set<(Node, Node)>)
    requires s != {}
    ensures exists e :: e in s
  {
    if forall e :: e !in s {
      assert false;
    }
  }

  /** `G.has_node(n)` for every node at once. */
  function NodeSet(g: Graph): set<Node> {
    Elems(g.nodes)
  }

  /** `G.has_edge(a, b)`: edges have no direction. */
  predicate Adjacent(g: Graph, a: Node, b: Node) {
    (a, b) in g.edges || (b, a) in g.edges
  }

  /** `set(G.neighbors(q) for q in s) | s`: the nodes in `s` or next to one of them. */
  function ClosedNeighbourhood(g: Graph, s: set<Node>): (r: set<Node>)
    requires WellFormed(g)
    ensures forall z :: z in r <==> z in s || exists q :: q in s && Adjacent(g, q, z)
  {
    s + set z | z in NodeSet(g) && exists q :: q in s && Adjacent(g, q, z)
  }

  /** The node list `nx.Graph(edges)` builds: it adds `n` unless already present. */
  function AddNode(nodes: seq<Node>, n: Node): (r: seq<Node>)
    ensures Elems(r) == Elems(nodes) + {n}
    ensures Distinct(nodes) ==> Distinct(r)
    ensures nodes <= r
  {
    if n in nodes then nodes else nodes + [n]
  }

  /** Every node an edge list mentions. */
  function Endpoints(es: seq<(Node, Node)>): set<Node>
    decreases |es|
  {
    if es == [] then {}
    else Endpoints(es[..|es| - 1]) + {es[|es| - 1].0, es[|es| - 1].1}
  }

  /** The node list `nx.Graph(edges)` builds: the endpoints, in order of
      first appearance. */
  function EdgeListNodes(es: seq<(Node, Node)>): seq<Node>
    decreases |es|
  {
    if es == [] then []
    else
      var e := es[|es| - 1];
      var nodes := EdgeListNodes(es[..|es| - 1]);
      AddNode(AddNode(nodes, e.0), e.1)
  }

  /** `nx.Graph(edges)` for an edge list. A node without neighbours can only
      be given through a self-loop. */
  function FromEdgeList(es: seq<(Node, Node)>): Graph {
    Graph(EdgeListNodes(es), Elems(es))
  }

  /** The node list built from an edge list holds each endpoint once, and
      nothing else. */
  lemma {:induction false} EdgeListNodesShape(es: seq<(Node, Node)>)
    ensures Distinct(EdgeListNodes(es))
    ensures Elems(EdgeListNodes(es)) == Endpoints(es)
    decreases |es|
  {
    if es != [] {
      EdgeListNodesShape(es[..|es| - 1]);
    }
  }

  /** The graph built from an edge list is a proper networkx graph whose nodes
      are exactly the endpoints. */
  lemma FromEdgeListShape(es: seq<(Node, Node)>)
    ensures WellFormed(FromEdgeList(es))
    ensures NodeSet(FromEdgeList(es)) == Endpoints(es)
  {
    var g := FromEdgeList(es);
    EdgeListNodesShape(es);
    forall d | d in g.edges ensures d.0 in g.nodes && d.1 in g.nodes {
      EndpointsOfListed(es, d);
      assert d.0 in NodeSet(g) && d.1 in NodeSet(g);
    }
  }

  /** Both ends of a listed edge are endpoints. */
  lemma {:induction false} EndpointsOfListed(es: seq<(Node, Node)>, d: (Node, Node))
    requires d in es
    ensures d.0 in Endpoints(es) && d.1 in Endpoints(es)
    decreases |es|
  {
    if d != es[|es| - 1] {
      var init := es[..|es| - 1];
      assert es == init + [es[|es| - 1]];
      assert d in init;
      EndpointsOfListed(init, d);
    }
  }
}
