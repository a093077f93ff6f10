/** `check_embedding` (tests/test_lib.py:65-124): the independent oracle that
    decides whether a claimed minor embedding of the problem graph (`source`)
    into the hardware graph (`target`) is valid.

    The Python function reports through attributes set on itself
    (`check_embedding.errcode`, `check_embedding.warning`); here it returns a
    `Report` instead. `Diagnose` says declaratively which report each input
    gets, stage by stage in the order the code checks; `CheckEmbedding` is the
    imperative check, proved to return exactly that report. */
module EmbeddingCheck {
  import opened Containers
  import opened Graphs
  import opened Connectivity
  import opened DictScan

  /** Each variable's chain, in the order the dict lists them. */
  type Embedding = Dict<Node, seq<Node>>

  datatype ErrorCode =
    | MissingChain
    | BrokenChain(variable: Node, chain: seq<Node>)
    | NonexistentVariable(variable: Node)
    | NonexistentQubit(qubit: Node)
    | OverlappedChains
    | MissingEdge
    | FixedChainMismatch

  datatype Warning = RestrictChainMismatch

  /** The verdict, the error code of a rejection and the warning of an acceptance. */
  datatype Report = Report(verdict: bool, error: Option<ErrorCode>, warning: Option<Warning>)

  function Rejected(e: ErrorCode): Report {
    Report(false, Some(e), None)
  }

  function Accepted(w: Option<Warning>): Report {
    Report(true, None, w)
  }

  /** The nodes of `Ag.subgraph(chain)`: networkx drops chain members that are
      not hardware nodes. */
  function Induced(target: Graph, chain: seq<Node>): set<Node> {
    Elems(chain) * NodeSet(target)
  }

  /** What `check_embedding` needs of its caller to reach a verdict rather
      than raise: proper graphs and dict, a chain that `nx.is_connected` can
      be asked about (it raises on a graph without nodes) for every problem
      node that has one, and `fixed_chains` and `restrict_chains` keyed by
      problem nodes only (`emb[x]` raises otherwise). */
  predicate CheckableInput(source: Graph, target: Graph, emb: Embedding,
                           fixed: map<Node, seq<Node>>, restrict: map<Node, seq<Node>>) {
    && WellFormed(source) && WellFormed(target) && DictWellFormed(emb)
    && (forall x :: x in source.nodes && x in emb.entries ==> Induced(target, emb.entries[x]) != {})
    && fixed.Keys <= NodeSet(source)
    && restrict.Keys <= NodeSet(source)
  }

  // ---------------------------------------------------------------------------
  // The stages, stated declaratively

  /** Problem node `i` (in graph order) has no chain, or a disconnected one. */
  ghost predicate SourceFaulty(source: Graph, target: Graph, emb: Embedding, i: int)
    requires DictWellFormed(emb) && 0 <= i < |source.nodes|
  {
    var x := source.nodes[i];
    x !in emb.entries || !Connected(target, Induced(target, emb.entries[x]))
  }

  /** The first faulty problem node at or after `from`, or `|source.nodes|`. */
  ghost function FirstSourceFault(source: Graph, target: Graph, emb: Embedding, from: nat): (i: nat)
    requires DictWellFormed(emb) && from <= |source.nodes|
    ensures from <= i <= |source.nodes|
    ensures i < |source.nodes| ==> SourceFaulty(source, target, emb, i)
    ensures forall j :: from <= j < i ==> !SourceFaulty(source, target, emb, j)
    decreases |source.nodes| - from
  {
    if from == |source.nodes| || SourceFaulty(source, target, emb, from) then from
    else FirstSourceFault(source, target, emb, from + 1)
  }

  /** No chain repeats a node and no two chains share one. */
  predicate ChainsDisjoint(emb: Embedding) {
    && (forall x :: x in emb.entries ==> Distinct(emb.entries[x]))
    && (forall x, y :: x in emb.entries && y in emb.entries && x != y ==>
          Elems(emb.entries[x]) !! Elems(emb.entries[y]))
  }

  /** Some hardware edge joins a node of `c1` to a node of `c2`. */
  predicate ChainsTouch(target: Graph, c1: seq<Node>, c2: seq<Node>) {
    exists p, q :: p in c1 && q in c2 && Adjacent(target, p, q)
  }

  /** Every problem edge between two different variables is carried by a
      hardware edge between their chains (self-loops ask for nothing). */
  predicate PreservesAdjacency(source: Graph, target: Graph, emb: Embedding) {
    forall e :: e in source.edges && e.0 != e.1 ==>
      && e.0 in emb.entries && e.1 in emb.entries
      && ChainsTouch(target, emb.entries[e.0], emb.entries[e.1])
  }

  /** Every fixed variable's chain is its fixed chain, as a set. */
  predicate FixedRespected(emb: Embedding, fixed: map<Node, seq<Node>>) {
    forall x :: x in fixed ==> x in emb.entries && Elems(fixed[x]) == Elems(emb.entries[x])
  }

  /** Every restricted variable's chain lies inside its domain. */
  predicate RestrictRespected(emb: Embedding, restrict: map<Node, seq<Node>>) {
    forall x :: x in restrict ==> x in emb.entries && Elems(emb.entries[x]) <= Elems(restrict[x])
  }

  /** The report of the first loop (tests/test_lib.py:73-85), read off the
      first faulty problem node, if there is one. */
  ghost function SourceReport(source: Graph, target: Graph, emb: Embedding): Option<ErrorCode>
    requires DictWellFormed(emb)
  {
    var i := FirstSourceFault(source, target, emb, 0);
    if i == |source.nodes| then None
    else if source.nodes[i] !in emb.entries then Some(MissingChain)
    else Some(BrokenChain(source.nodes[i], emb.entries[source.nodes[i]]))
  }

  /** The report of the checks after the two membership loops
      (tests/test_lib.py:99-124): overlap, missing edges, fixed chains, and the
      warning about restricted domains. */
  function ChainReport(source: Graph, target: Graph, emb: Embedding,
                       fixed: map<Node, seq<Node>>, restrict: map<Node, seq<Node>>): Report
  {
    if !ChainsDisjoint(emb) then Rejected(OverlappedChains)
    else if !PreservesAdjacency(source, target, emb) then Rejected(MissingEdge)
    else if !FixedRespected(emb, fixed) then Rejected(FixedChainMismatch)
    else if RestrictRespected(emb, restrict) then Accepted(None)
    else Accepted(Some(RestrictChainMismatch))
  }

  /** The report `check_embedding` gives, stage by stage in the code's order:
      the first problem node without a chain or with a broken chain; then the
      first dict entry for an unknown variable or with an unknown qubit; then
      overlap, missing edges and fixed chains; an accepted embedding carries
      a warning when a chain leaves its restricted domain. */
  ghost function Diagnose(source: Graph, target: Graph, emb: Embedding,
                          fixed: map<Node, seq<Node>>, restrict: map<Node, seq<Node>>): Report
    requires CheckableInput(source, target, emb, fixed, restrict)
  {
    match SourceReport(source, target, emb)
    case Some(e) => Rejected(e)
    case None =>
      match EntryFaultOf(emb, NodeSet(source), NodeSet(target))
      case Some(UnknownKey(x)) => Rejected(NonexistentVariable(x))
      case Some(UnknownMember(q)) => Rejected(NonexistentQubit(q))
      case None => ChainReport(source, target, emb, fixed, restrict)
  }

  // ---------------------------------------------------------------------------
  // Counting overlap: `len(footprint) != qubhits`

  /** Every node of `xs` has a chain. */
  predicate Chained(emb: Embedding, xs: seq<Node>) {
    forall i :: 0 <= i < |xs| ==> xs[i] in emb.entries
  }

  /** The union of the chains of `xs` (`footprint` after visiting `xs`). */
  function Footprint(emb: Embedding, xs: seq<Node>): (r: set<Node>)
    requires Chained(emb, xs)
    ensures forall q :: q in r <==> exists i :: 0 <= i < |xs| && q in emb.entries[xs[i]]
    decreases |xs|
  {
    if xs == [] then {}
    else
      var init := xs[..|xs| - 1];
      var r := Footprint(emb, init) + Elems(emb.entries[xs[|xs| - 1]]);
      assert forall q :: q in r ==> exists i :: 0 <= i < |xs| && q in emb.entries[xs[i]] by {
        forall q | q in r ensures exists i :: 0 <= i < |xs| && q in emb.entries[xs[i]] {
          if q !in emb.entries[xs[|xs| - 1]] {
            var i :| 0 <= i < |init| && q in emb.entries[init[i]];
            assert xs[i] == init[i];
          }
        }
      }
      assert forall q :: (exists i :: 0 <= i < |xs| && q in emb.entries[xs[i]]) ==> q in r by {
        forall q, i | 0 <= i < |xs| && q in emb.entries[xs[i]] ensures q in r {
          if i < |init| {
            assert xs[i] == init[i];
          }
        }
      }
      r
  }

  /** The sum of the chain lengths of `xs`, repeats counted (`qubhits`). */
  function Hits(emb: Embedding, xs: seq<Node>): nat
    requires Chained(emb, xs)
    decreases |xs|
  {
    if xs == [] then 0 else Hits(emb, xs[..|xs| - 1]) + |emb.entries[xs[|xs| - 1]]|
  }

  /** The chains of `xs`, taken position by position, repeat no node and share none. */
  ghost predicate DisjointAlong(emb: Embedding, xs: seq<Node>)
    requires Chained(emb, xs)
  {
    && (forall i :: 0 <= i < |xs| ==> Distinct(emb.entries[xs[i]]))
    && (forall i, j :: 0 <= i < j < |xs| ==> Elems(emb.entries[xs[i]]) !! Elems(emb.entries[xs[j]]))
  }

  /** The footprint never outnumbers the hits, and the two agree exactly when
      the chains repeat and share no node: this is why comparing two counts
      detects overlapping chains. */
  lemma {:induction false} CountingDetectsOverlap(emb: Embedding, xs: seq<Node>)
    requires Chained(emb, xs)
    ensures |Footprint(emb, xs)| <= Hits(emb, xs)
    ensures |Footprint(emb, xs)| == Hits(emb, xs) <==> DisjointAlong(emb, xs)
    decreases |xs|
  {
    if xs != [] {
      var n := |xs| - 1;
      var init := xs[..n];
      var c := emb.entries[xs[n]];
      CountingDetectsOverlap(emb, init);
      ElemsCount(c);
      var f := Footprint(emb, init);
      assert Footprint(emb, xs) == f + Elems(c);
      assert |f + Elems(c)| + |f * Elems(c)| == |f| + |Elems(c)|;
      LastChainMeetsFootprint(emb, xs);
      DisjointAlongSnoc(emb, xs);
    }
  }

  /** The last chain of `xs` meets the footprint of the ones before it exactly
      when it meets one of them. */
  lemma LastChainMeetsFootprint(emb: Embedding, xs: seq<Node>)
    requires Chained(emb, xs) && xs != []
    ensures var n := |xs| - 1;
      Footprint(emb, xs[..n]) * Elems(emb.entries[xs[n]]) == {} <==>
      forall i :: 0 <= i < n ==> Elems(emb.entries[xs[i]]) !! Elems(emb.entries[xs[n]])
  {
    var n := |xs| - 1;
    var init := xs[..n];
    var c := Elems(emb.entries[xs[n]]);
    var f := Footprint(emb, init);
    if f * c != {} {
      NonEmptyHasNode(f * c);
      var q :| q in f * c;
      var i :| 0 <= i < n && q in emb.entries[init[i]];
      assert xs[i] == init[i];
      assert q in Elems(emb.entries[xs[i]]) * c;
    } else {
      forall i | 0 <= i < n ensures Elems(emb.entries[xs[i]]) !! c {
        assert xs[i] == init[i];
        forall q | q in emb.entries[xs[i]] ensures q !in c {
          assert q in emb.entries[init[i]];
          assert q in f && q !in f * c;
        }
      }
    }
  }

  /** Disjointness along `xs` is disjointness along all but its last node,
      plus a last chain without repeats that meets none of the others. */
  lemma DisjointAlongSnoc(emb: Embedding, xs: seq<Node>)
    requires Chained(emb, xs) && xs != []
    ensures var n := |xs| - 1;
      DisjointAlong(emb, xs) <==>
        && DisjointAlong(emb, xs[..n])
        && Distinct(emb.entries[xs[n]])
        && forall i :: 0 <= i < n ==> Elems(emb.entries[xs[i]]) !! Elems(emb.entries[xs[n]])
  {
    var n := |xs| - 1;
    var init := xs[..n];
    assert forall i :: 0 <= i < n ==> xs[i] == init[i];
  }

  /** Along the problem nodes, which are exactly the dict's keys, disjointness
      position by position is disjointness of the whole embedding. */
  lemma DisjointAlongNodes(source: Graph, emb: Embedding)
    requires WellFormed(source) && DictWellFormed(emb) && emb.entries.Keys == NodeSet(source)
    ensures DisjointAlong(emb, source.nodes) <==> ChainsDisjoint(emb)
  {
    var xs := source.nodes;
    if DisjointAlong(emb, xs) {
      forall x, y | x in emb.entries && y in emb.entries && x != y
        ensures Elems(emb.entries[x]) !! Elems(emb.entries[y])
      {
        var i :| 0 <= i < |xs| && xs[i] == x;
        var j :| 0 <= j < |xs| && xs[j] == y;
        if i < j {
          assert Elems(emb.entries[xs[i]]) !! Elems(emb.entries[xs[j]]);
        } else {
          assert Elems(emb.entries[xs[j]]) !! Elems(emb.entries[xs[i]]);
        }
      }
      forall x | x in emb.entries ensures Distinct(emb.entries[x]) {
        var i :| 0 <= i < |xs| && xs[i] == x;
      }
    }
    if ChainsDisjoint(emb) {
      forall i | 0 <= i < |xs| ensures Distinct(emb.entries[xs[i]]) {
        var x := xs[i];
        assert x in emb.entries;
        assert Distinct(emb.entries[x]);
      }
      forall i, j | 0 <= i < j < |xs| ensures Elems(emb.entries[xs[i]]) !! Elems(emb.entries[xs[j]]) {
        assert xs[i] != xs[j] && xs[i] in emb.entries && xs[j] in emb.entries;
      }
    }
  }

  // ---------------------------------------------------------------------------
  // The quotient graph `Qv`

  /** The owner map `var`: every occupied qubit belongs to a chain that holds it. */
  ghost predicate OwnerSound(emb: Embedding, owner: map<Node, Node>) {
    forall q :: q in owner ==> owner[q] in emb.entries && q in emb.entries[owner[q]]
  }

  /** `Qv.has_edge(x, y)`. */
  predicate QuotientAdjacent(quotient: set<(Node, Node)>, x: Node, y: Node) {
    (x, y) in quotient || (y, x) in quotient
  }

  /** tests/test_lib.py:103-108: for every hardware edge whose two ends are
      both occupied, join their owners; edges with a free end are skipped. */
  method QuotientEdges(target: Graph, owner: map<Node, Node>) returns (quotient: set<(Node, Node)>)
    ensures forall e :: e in target.edges && e.0 in owner && e.1 in owner ==> (owner[e.0], owner[e.1]) in quotient
    ensures forall pr :: pr in quotient ==>
      exists e :: e in target.edges && e.0 in owner && e.1 in owner && pr == (owner[e.0], owner[e.1])
  {
    quotient := {};
    var rest := target.edges;
    while rest != {}
      invariant rest <= target.edges
      invariant forall e :: e in target.edges && e !in rest && e.0 in owner && e.1 in owner ==>
        (owner[e.0], owner[e.1]) in quotient
      invariant forall pr :: pr in quotient ==>
        exists e :: e in target.edges && e.0 in owner && e.1 in owner && pr == (owner[e.0], owner[e.1])
      decreases |rest|
    {
      NonEmptyHasEdge(rest);
      var e :| e in rest;
      rest := rest - {e};
      if e.0 in owner && e.1 in owner {
        quotient := quotient + {(owner[e.0], owner[e.1])};
      }
    }
  }

  /** tests/test_lib.py:109-114: look for a problem edge between two different
      variables that the quotient graph lacks. */
  method FindMissingEdge(source: Graph, quotient: set<(Node, Node)>) returns (missing: bool)
    ensures missing <==> exists e :: e in source.edges && e.0 != e.1 && !QuotientAdjacent(quotient, e.0, e.1)
  {
    var rest := source.edges;
    while rest != {}
      invariant rest <= source.edges
      invariant forall e :: e in source.edges && e !in rest && e.0 != e.1 ==> QuotientAdjacent(quotient, e.0, e.1)
      decreases |rest|
    {
      NonEmptyHasEdge(rest);
      var e :| e in rest;
      rest := rest - {e};
      if e.0 != e.1 && !QuotientAdjacent(quotient, e.0, e.1) {
        return true;
      }
    }
    return false;
  }

  /** Once chains are disjoint, two variables are joined in the quotient graph
      exactly when a hardware edge runs between their chains. */
  lemma QuotientMatchesChains(target: Graph, emb: Embedding, owner: map<Node, Node>,
                              quotient: set<(Node, Node)>, x: Node, y: Node)
    requires ChainsDisjoint(emb) && OwnerSound(emb, owner)
    requires forall v, q :: v in emb.entries && q in emb.entries[v] ==> q in owner
    requires forall e :: e in target.edges && e.0 in owner && e.1 in owner ==> (owner[e.0], owner[e.1]) in quotient
    requires forall pr :: pr in quotient ==>
      exists e :: e in target.edges && e.0 in owner && e.1 in owner && pr == (owner[e.0], owner[e.1])
    requires x in emb.entries && y in emb.entries
    ensures QuotientAdjacent(quotient, x, y) <==> ChainsTouch(target, emb.entries[x], emb.entries[y])
  {
    if QuotientAdjacent(quotient, x, y) {
      if (x, y) in quotient {
        var e :| e in target.edges && e.0 in owner && e.1 in owner && (x, y) == (owner[e.0], owner[e.1]);
        assert Adjacent(target, e.0, e.1);
      } else {
        var e :| e in target.edges && e.0 in owner && e.1 in owner && (y, x) == (owner[e.0], owner[e.1]);
        assert Adjacent(target, e.1, e.0);
      }
    }
    if ChainsTouch(target, emb.entries[x], emb.entries[y]) {
      var p, q :| p in emb.entries[x] && q in emb.entries[y] && Adjacent(target, p, q);
      assert owner[p] == x by {
        assert p in Elems(emb.entries[owner[p]]) && p in Elems(emb.entries[x]);
      }
      assert owner[q] == y by {
        assert q in Elems(emb.entries[owner[q]]) && q in Elems(emb.entries[y]);
      }
      if (p, q) in target.edges {
        assert (x, y) in quotient;
      } else {
        assert (y, x) in quotient;
      }
    }
  }

  /** tests/test_lib.py:103-108 once the chains are known to be disjoint and
      to be covered by the owner map: the quotient graph joins two variables
      exactly when a hardware edge runs between their chains. */
  method QuotientGraph(target: Graph, emb: Embedding, owner: map<Node, Node>) returns (quotient: set<(Node, Node)>)
    requires ChainsDisjoint(emb) && OwnerSound(emb, owner)
    requires forall v, q :: v in emb.entries && q in emb.entries[v] ==> q in owner
    ensures forall x, y :: x in emb.entries && y in emb.entries ==>
      (QuotientAdjacent(quotient, x, y) <==> ChainsTouch(target, emb.entries[x], emb.entries[y]))
  {
    quotient := QuotientEdges(target, owner);
    forall x, y | x in emb.entries && y in emb.entries
      ensures QuotientAdjacent(quotient, x, y) <==> ChainsTouch(target, emb.entries[x], emb.entries[y])
    {
      QuotientMatchesChains(target, emb, owner, quotient, x, y);
    }
  }

  // ---------------------------------------------------------------------------
  // fixed_chains and restrict_chains

  /** tests/test_lib.py:116-119: is some fixed variable's chain not its fixed chain? */
  method FindFixedMismatch(emb: Embedding, fixed: map<Node, seq<Node>>) returns (mismatch: bool)
    requires fixed.Keys <= emb.entries.Keys
    ensures mismatch <==> !FixedRespected(emb, fixed)
  {
    var rest := fixed.Keys;
    while rest != {}
      invariant rest <= fixed.Keys
      invariant forall x :: x in fixed && x !in rest ==> Elems(fixed[x]) == Elems(emb.entries[x])
      decreases |rest|
    {
      NonEmptyHasNode(rest);
      var x :| x in rest;
      rest := rest - {x};
      if Elems(fixed[x]) != Elems(emb.entries[x]) {
        return true;
      }
    }
    return false;
  }

  /** tests/test_lib.py:120-122: does some restricted chain leave its domain?
      Every domain is visited; a mismatch only raises the flag. */
  method FindRestrictMismatch(emb: Embedding, restrict: map<Node, seq<Node>>) returns (mismatch: bool)
    requires restrict.Keys <= emb.entries.Keys
    ensures mismatch <==> !RestrictRespected(emb, restrict)
  {
    mismatch := false;
    var rest := restrict.Keys;
    while rest != {}
      invariant rest <= restrict.Keys
      invariant !mismatch <==> forall x :: x in restrict && x !in rest ==> Elems(emb.entries[x]) <= Elems(restrict[x])
      decreases |rest|
    {
      NonEmptyHasNode(rest);
      var x :| x in rest;
      rest := rest - {x};
      if !(Elems(emb.entries[x]) <= Elems(restrict[x])) {
        mismatch := true;
      }
    }
  }

  // ---------------------------------------------------------------------------
  // The check itself

  /** One more problem node visited by the first loop: its chain joins the
      footprint and its length the count. */
  lemma PrefixStep(emb: Embedding, xs: seq<Node>, i: nat)
    requires i < |xs| && Chained(emb, xs[..i]) && xs[i] in emb.entries
    ensures Chained(emb, xs[..i + 1])
    ensures Footprint(emb, xs[..i + 1]) == Footprint(emb, xs[..i]) + Elems(emb.entries[xs[i]])
    ensures Hits(emb, xs[..i + 1]) == Hits(emb, xs[..i]) + |emb.entries[xs[i]]|
  {
    assert xs[..i + 1][..i] == xs[..i];
  }

  /** tests/test_lib.py:79-80: every node of `x`'s chain now belongs to `x`,
      and every other node keeps the owner it had. */
  method ClaimChain(emb: Embedding, x: Node, owner: map<Node, Node>) returns (claimed: map<Node, Node>)
    requires x in emb.entries && OwnerSound(emb, owner)
    ensures claimed.Keys == owner.Keys + Elems(emb.entries[x])
    ensures forall q :: q in emb.entries[x] ==> claimed[q] == x
    ensures forall q :: q in owner && q !in Elems(emb.entries[x]) ==> claimed[q] == owner[q]
    ensures OwnerSound(emb, claimed)
  {
    var chain := emb.entries[x];
    claimed := owner;
    var t := 0;
    while t < |chain|
      invariant 0 <= t <= |chain|
      invariant claimed.Keys == owner.Keys + Elems(chain[..t]) && OwnerSound(emb, claimed)
      invariant forall q :: q in chain[..t] ==> claimed[q] == x
      invariant forall q :: q in owner && q !in chain[..t] ==> claimed[q] == owner[q]
    {
      claimed := claimed[chain[t] := x];
      assert chain[..t + 1] == chain[..t] + [chain[t]];
      t := t + 1;
    }
    assert chain[..t] == chain;
  }

  /** tests/test_lib.py:70-85: visit the problem nodes in graph order, fill
      the owner map `var`, the `footprint` set and the `qubhits` count, and
      stop at the first node without a chain or with a broken one. */
  method OccupyChains(source: Graph, target: Graph, emb: Embedding)
    returns (fault: Option<ErrorCode>, owner: map<Node, Node>, footprint: set<Node>, hits: nat)
    requires DictWellFormed(emb)
    requires forall x :: x in source.nodes && x in emb.entries ==> Induced(target, emb.entries[x]) != {}
    ensures fault == SourceReport(source, target, emb)
    ensures fault.None? ==>
      && Chained(emb, source.nodes)
      && footprint == Footprint(emb, source.nodes) && hits == Hits(emb, source.nodes)
      && owner.Keys == footprint && OwnerSound(emb, owner)
  {
    var n := |source.nodes|;
    hits := 0;
    footprint := {};
    owner := map[];
    var i := 0;
    while i < n
      invariant 0 <= i <= n
      invariant FirstSourceFault(source, target, emb, 0) == FirstSourceFault(source, target, emb, i)
      invariant Chained(emb, source.nodes[..i])
      invariant footprint == Footprint(emb, source.nodes[..i])
      invariant hits == Hits(emb, source.nodes[..i])
      invariant owner.Keys == footprint && OwnerSound(emb, owner)
    {
      var x := source.nodes[i];
      if x !in emb.entries {
        return Some(MissingChain), owner, footprint, hits;
      }
      var chain := emb.entries[x];
      owner := ClaimChain(emb, x, owner);
      PrefixStep(emb, source.nodes, i);
      footprint := footprint + Elems(chain);
      hits := hits + |chain|;
      var connected := IsConnected(target, Induced(target, chain));
      if !connected {
        return Some(BrokenChain(x, chain)), owner, footprint, hits;
      }
      i := i + 1;
    }
    assert source.nodes[..n] == source.nodes;
    fault := None;
  }

  /** tests/test_lib.py:99-124, once every problem node has a chain, every
      key is a problem node and every chain member a hardware node; `owner`,
      `footprint` and `hits` are what the first loop left behind. */
  method CheckChains(source: Graph, target: Graph, emb: Embedding,
                     fixed: map<Node, seq<Node>>, restrict: map<Node, seq<Node>>,
                     owner: map<Node, Node>, footprint: set<Node>, hits: nat) returns (r: Report)
    requires WellFormed(source) && DictWellFormed(emb)
    requires emb.entries.Keys == NodeSet(source)
    requires fixed.Keys <= NodeSet(source) && restrict.Keys <= NodeSet(source)
    requires Chained(emb, source.nodes)
    requires footprint == Footprint(emb, source.nodes) && hits == Hits(emb, source.nodes)
    requires owner.Keys == footprint && OwnerSound(emb, owner)
    ensures r == ChainReport(source, target, emb, fixed, restrict)
  {
    CountingDetectsOverlap(emb, source.nodes);
    DisjointAlongNodes(source, emb);
    if |footprint| != hits {
      return Rejected(OverlappedChains);
    }

    forall v, q | v in emb.entries && q in emb.entries[v] ensures q in owner {
      var i :| 0 <= i < |source.nodes| && source.nodes[i] == v;
    }
    var quotient := QuotientGraph(target, emb, owner);
    var missing := FindMissingEdge(source, quotient);
    if missing {
      return Rejected(MissingEdge);
    }

    var mismatch := FindFixedMismatch(emb, fixed);
    if mismatch {
      return Rejected(FixedChainMismatch);
    }
    var outside := FindRestrictMismatch(emb, restrict);
    return Accepted(if outside then Some(RestrictChainMismatch) else None);
  }

  /** tests/test_lib.py:65-124, in the code's order of checks. */
  method CheckEmbedding(source: Graph, target: Graph, emb: Embedding,
                        fixed: map<Node, seq<Node>>, restrict: map<Node, seq<Node>>) returns (r: Report)
    requires CheckableInput(source, target, emb, fixed, restrict)
    ensures r == Diagnose(source, target, emb, fixed, restrict)
  {
    var sourceFault, owner, footprint, hits := OccupyChains(source, target, emb);
    if sourceFault.Some? {
      return Rejected(sourceFault.value);
    }
    var fault := FindEntryFault(emb, NodeSet(source), NodeSet(target));
    match fault {
      case Some(UnknownKey(x)) => return Rejected(NonexistentVariable(x));
      case Some(UnknownMember(q)) => return Rejected(NonexistentQubit(q));
      case None =>
    }
    assert emb.entries.Keys == NodeSet(source);
    r := CheckChains(source, target, emb, fixed, restrict, owner, footprint, hits);
  }
}
