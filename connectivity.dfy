/** `nx.is_connected(G.subgraph(s))`: whether the nodes `s` form one connected
    piece of the graph when only edges between nodes of `s` may be used.
    The reference definition speaks of walks; `IsConnected` decides it by the
    breadth-first search networkx runs, and is proved to agree with it. */
module Connectivity {
  import opened Containers
  import opened Graphs

  /** A walk inside `s`: consecutive nodes are adjacent and none leaves `s`. */
  ghost predicate IsWalk(g: Graph, s: set<Node>, p: seq<Node>) {
    && |p| > 0
    && (forall i :: 0 <= i < |p| ==> p[i] in s)
    && (forall i :: 0 <= i < |p| - 1 ==> Adjacent(g, p[i], p[i + 1]))
  }

  ghost predicate Reachable(g: Graph, s: set<Node>, a: Node, b: Node) {
    exists p :: IsWalk(g, s, p) && p[0] == a && p[|p| - 1] == b
  }

  /** Every node of `s` reaches every other one without leaving `s`. */
  ghost predicate Connected(g: Graph, s: set<Node>) {
    forall a, b :: a in s && b in s ==> Reachable(g, s, a, b)
  }

  /** No edge leads from `c` to a node of `s` outside `c`. */
  ghost predicate ClosedWithin(g: Graph, s: set<Node>, c: set<Node>) {
    forall u, w :: u in c && w in s && Adjacent(g, u, w) ==> w in c
  }

  lemma ReachableRefl(g: Graph, s: set<Node>, a: Node)
    requires a in s
    ensures Reachable(g, s, a, a)
  {
    assert IsWalk(g, s, [a]);
  }

  lemma ReachableExtend(g: Graph, s: set<Node>, a: Node, u: Node, w: Node)
    requires Reachable(g, s, a, u) && w in s && Adjacent(g, u, w)
    ensures Reachable(g, s, a, w)
  {
    var p :| IsWalk(g, s, p) && p[0] == a && p[|p| - 1] == u;
    var q := p + [w];
    forall i | 0 <= i < |q| - 1 ensures Adjacent(g, q[i], q[i + 1]) {
      if i < |p| - 1 {
        assert q[i] == p[i] && q[i + 1] == p[i + 1];
      }
    }
    assert IsWalk(g, s, q);
  }

  lemma ReachableSymmetric(g: Graph, s: set<Node>, a: Node, b: Node)
    requires Reachable(g, s, a, b)
    ensures Reachable(g, s, b, a)
  {
    var p :| IsWalk(g, s, p) && p[0] == a && p[|p| - 1] == b;
    var n := |p|;
    var q := seq(n, i requires 0 <= i < n => p[n - 1 - i]);
    forall i | 0 <= i < n - 1 ensures Adjacent(g, q[i], q[i + 1]) {
      assert Adjacent(g, p[n - 2 - i], p[n - 1 - i]);
    }
    assert IsWalk(g, s, q);
  }

  lemma ReachableTrans(g: Graph, s: set<Node>, a: Node, b: Node, c: Node)
    requires Reachable(g, s, a, b) && Reachable(g, s, b, c)
    ensures Reachable(g, s, a, c)
  {
    var p :| IsWalk(g, s, p) && p[0] == a && p[|p| - 1] == b;
    var q :| IsWalk(g, s, q) && q[0] == b && q[|q| - 1] == c;
    var r := p + q[1..];
    forall i | 0 <= i < |r| - 1 ensures Adjacent(g, r[i], r[i + 1]) {
      if i < |p| - 1 {
        assert r[i] == p[i] && r[i + 1] == p[i + 1];
      } else if i == |p| - 1 {
        assert r[i] == q[0] && r[i + 1] == q[1];
      } else {
        assert r[i] == q[i - |p| + 1] && r[i + 1] == q[i - |p| + 2];
      }
    }
    assert IsWalk(g, s, r);
  }

  /** A walk that starts in a closed part of `s` never leaves it. */
  lemma {:induction false} WalkStaysInClosed(g: Graph, s: set<Node>, c: set<Node>, p: seq<Node>)
    requires IsWalk(g, s, p) && p[0] in c && ClosedWithin(g, s, c)
    ensures p[|p| - 1] in c
    decreases |p|
  {
    if |p| > 1 {
      assert Adjacent(g, p[0], p[1]);
      var rest := p[1..];
      forall i | 0 <= i < |rest| - 1 ensures Adjacent(g, rest[i], rest[i + 1]) {
        assert rest[i] == p[i + 1] && rest[i + 1] == p[i + 2];
      }
      WalkStaysInClosed(g, s, c, rest);
    }
  }

  /** Breadth-first search from one node of `s`, as `nx.is_connected` does:
      `s` is connected exactly when the search reaches all of it. */
  method IsConnected(g: Graph, s: set<Node>) returns (connected: bool)
    requires s != {}
    ensures connected <==> Connected(g, s)
  {
    NonEmptyHasNode(s);
    var root :| root in s;
    ReachableRefl(g, s, root);
    var seen := {root};
    var todo := {root};
    while todo != {}
      invariant todo <= seen <= s && root in seen
      invariant forall v :: v in seen ==> Reachable(g, s, root, v)
      invariant forall u, w :: u in seen && u !in todo && w in s && Adjacent(g, u, w) ==> w in seen
      decreases |s - seen|, |todo|
    {
      NonEmptyHasNode(todo);
      var u :| u in todo;
      var found := set w | w in s && Adjacent(g, u, w) && w !in seen;
      forall w | w in found ensures Reachable(g, s, root, w) {
        ReachableExtend(g, s, root, u, w);
      }
      if found != {} {
        NonEmptyHasNode(found);
        var w :| w in found;
        assert s - (seen + found) < s - seen by { assert w in s - seen; }
      }
      seen := seen + found;
      todo := todo - {u} + found;
    }
    connected := seen == s;
    if connected {
      forall a, b | a in s && b in s ensures Reachable(g, s, a, b) {
        ReachableSymmetric(g, s, root, a);
        ReachableTrans(g, s, a, root, b);
      }
    } else {
      NonEmptyHasNode(s - seen);
      var w :| w in s && w !in seen;
      if Connected(g, s) {
        var p :| IsWalk(g, s, p) && p[0] == root && p[|p| - 1] == w;
        WalkStaysInClosed(g, s, seen, p);
        assert false;
      }
    }
  }
}
