/** What `check_embedding`'s report means (tests/test_lib.py:65-124): it
    accepts exactly the minor embeddings that keep the fixed chains, every
    error it names is a real fault, the first faulty problem node wins, and
    restricted domains only ever add a warning. */
module EmbeddingProperties {
  import opened Containers
  import opened Graphs
  import opened Connectivity
  import opened DictScan
  import opened EmbeddingCheck

  /** A minor embedding of `source` into `target`: one chain per problem node
      and none for anything else, every chain a connected set of hardware
      nodes, chains pairwise disjoint, and every problem edge carried by a
      hardware edge between the two chains. */
  ghost predicate IsMinorEmbedding(source: Graph, target: Graph, emb: Embedding) {
    && emb.entries.Keys == NodeSet(source)
    && (forall x :: x in emb.entries ==>
          Elems(emb.entries[x]) <= NodeSet(target) && Connected(target, Elems(emb.entries[x])))
    && ChainsDisjoint(emb)
    && PreservesAdjacency(source, target, emb)
  }

  /** The first loop finds nothing exactly when every problem node has a
      connected chain. */
  lemma SourceReportNone(source: Graph, target: Graph, emb: Embedding)
    requires DictWellFormed(emb)
    ensures SourceReport(source, target, emb).None? <==>
      forall i :: 0 <= i < |source.nodes| ==> !SourceFaulty(source, target, emb, i)
  {
    var i := FirstSourceFault(source, target, emb, 0);
    if i < |source.nodes| {
      assert SourceFaulty(source, target, emb, i);
    }
  }

  /** The check accepts exactly the minor embeddings that respect the fixed chains. */
  lemma VerdictIsMinorEmbedding(source: Graph, target: Graph, emb: Embedding,
                                fixed: map<Node, seq<Node>>, restrict: map<Node, seq<Node>>)
    requires CheckableInput(source, target, emb, fixed, restrict)
    ensures Diagnose(source, target, emb, fixed, restrict).verdict <==>
      IsMinorEmbedding(source, target, emb) && FixedRespected(emb, fixed)
  {
    SourceReportNone(source, target, emb);
    var known := NodeSet(source);
    var members := NodeSet(target);
    if Diagnose(source, target, emb, fixed, restrict).verdict {
      assert SourceReport(source, target, emb).None?;
      assert EntryFaultOf(emb, known, members).None?;
      forall x | x in emb.entries
        ensures Elems(emb.entries[x]) <= members && Connected(target, Elems(emb.entries[x]))
      {
        assert x in known;
        var i :| 0 <= i < |source.nodes| && source.nodes[i] == x;
        assert !SourceFaulty(source, target, emb, i);
        assert Induced(target, emb.entries[x]) == Elems(emb.entries[x]);
      }
      assert emb.entries.Keys == known by {
        forall x | x in known ensures x in emb.entries {
          var i :| 0 <= i < |source.nodes| && source.nodes[i] == x;
          assert !SourceFaulty(source, target, emb, i);
        }
      }
    }
    if IsMinorEmbedding(source, target, emb) && FixedRespected(emb, fixed) {
      forall i | 0 <= i < |source.nodes| ensures !SourceFaulty(source, target, emb, i) {
        var x := source.nodes[i];
        assert x in known;
        assert Induced(target, emb.entries[x]) == Elems(emb.entries[x]);
      }
      assert EntryFaultOf(emb, known, members).None?;
    }
  }

  /** The report has the shape the Python function's attributes have, and
      every error it names is a fault of the input. */
  lemma ReportedErrorIsGenuine(source: Graph, target: Graph, emb: Embedding,
                               fixed: map<Node, seq<Node>>, restrict: map<Node, seq<Node>>)
    requires CheckableInput(source, target, emb, fixed, restrict)
    ensures var r := Diagnose(source, target, emb, fixed, restrict);
      && (r.verdict <==> r.error.None?)
      && (r.warning.Some? ==> r.verdict && !RestrictRespected(emb, restrict))
      && (r.error == Some(MissingChain) ==> exists x :: x in source.nodes && x !in emb.entries)
      && (r.error.Some? && r.error.value.BrokenChain? ==>
            var x := r.error.value.variable;
            && x in source.nodes && x in emb.entries && r.error.value.chain == emb.entries[x]
            && !Connected(target, Induced(target, emb.entries[x])))
      && (r.error.Some? && r.error.value.NonexistentVariable? ==>
            r.error.value.variable in emb.entries && r.error.value.variable !in source.nodes)
      && (r.error.Some? && r.error.value.NonexistentQubit? ==>
            && r.error.value.qubit !in target.nodes
            && exists x :: x in emb.entries && r.error.value.qubit in emb.entries[x])
      && (r.error == Some(OverlappedChains) ==> !ChainsDisjoint(emb))
      && (r.error == Some(MissingEdge) ==> !PreservesAdjacency(source, target, emb))
      && (r.error == Some(FixedChainMismatch) ==> !FixedRespected(emb, fixed))
  {
    var i := FirstSourceFault(source, target, emb, 0);
    if i < |source.nodes| {
      assert SourceFaulty(source, target, emb, i);
    }
  }

  /** The first problem node, in graph order, that has no chain or a broken
      one is the one reported, whatever else is wrong with the embedding. */
  lemma FirstFaultyNodeReported(source: Graph, target: Graph, emb: Embedding,
                                fixed: map<Node, seq<Node>>, restrict: map<Node, seq<Node>>, i: nat)
    requires CheckableInput(source, target, emb, fixed, restrict)
    requires i < |source.nodes| && SourceFaulty(source, target, emb, i)
    requires forall j :: 0 <= j < i ==> !SourceFaulty(source, target, emb, j)
    ensures var x := source.nodes[i];
      Diagnose(source, target, emb, fixed, restrict) ==
        if x !in emb.entries then Rejected(MissingChain) else Rejected(BrokenChain(x, emb.entries[x]))
  {
    var k := FirstSourceFault(source, target, emb, 0);
    if k < i {
      assert false;
    }
  }

  /** `restrict_chains` never changes the verdict or the error; it only
      warns about an accepted embedding whose chain leaves its domain. */
  lemma RestrictOnlyWarns(source: Graph, target: Graph, emb: Embedding,
                          fixed: map<Node, seq<Node>>, restrict: map<Node, seq<Node>>)
    requires CheckableInput(source, target, emb, fixed, restrict)
    ensures var r := Diagnose(source, target, emb, fixed, restrict);
      var plain := Diagnose(source, target, emb, fixed, map[]);
      && r.verdict == plain.verdict && r.error == plain.error && plain.warning.None?
      && (r.warning.Some? <==> r.verdict && !RestrictRespected(emb, restrict))
  {
    assert CheckableInput(source, target, emb, fixed, map[]);
    assert RestrictRespected(emb, map[]);
  }

  /** Every node its own chain: the embedding of a graph into itself. */
  function IdentityEmbedding(g: Graph): (emb: Embedding)
    requires WellFormed(g)
    ensures DictWellFormed(emb) && emb.entries.Keys == NodeSet(g)
    ensures forall x :: x in emb.entries ==> emb.entries[x] == [x]
  {
    Dict(g.nodes, map x | x in NodeSet(g) :: [x])
  }

  /** Each node's own singleton chain is a minor embedding of a graph into itself. */
  lemma IdentityIsMinorEmbedding(g: Graph)
    requires WellFormed(g)
    ensures IsMinorEmbedding(g, g, IdentityEmbedding(g))
  {
    var emb := IdentityEmbedding(g);
    forall x | x in emb.entries
      ensures Elems(emb.entries[x]) <= NodeSet(g) && Connected(g, Elems(emb.entries[x]))
    {
      assert Elems([x]) == {x};
      ReachableRefl(g, {x}, x);
    }
    forall e | e in g.edges && e.0 != e.1
      ensures e.0 in emb.entries && e.1 in emb.entries && ChainsTouch(g, emb.entries[e.0], emb.entries[e.1])
    {
      assert e.0 in NodeSet(g) && e.1 in NodeSet(g);
      assert e.0 in emb.entries[e.0] && e.1 in emb.entries[e.1] && Adjacent(g, e.0, e.1);
    }
    forall x, y | x in emb.entries && y in emb.entries && x != y
      ensures Elems(emb.entries[x]) !! Elems(emb.entries[y])
    {
      assert Elems([x]) == {x} && Elems([y]) == {y};
    }
  }

  /** A graph embeds into itself, one node per chain, without warning. */
  lemma IdentityAccepted(g: Graph)
    requires WellFormed(g)
    ensures CheckableInput(g, g, IdentityEmbedding(g), map[], map[])
    ensures Diagnose(g, g, IdentityEmbedding(g), map[], map[]) == Accepted(None)
  {
    var emb := IdentityEmbedding(g);
    forall x | x in emb.entries ensures Induced(g, emb.entries[x]) == {x} {
      assert Elems([x]) == {x};
    }
    IdentityIsMinorEmbedding(g);
    VerdictIsMinorEmbedding(g, g, emb, map[], map[]);
  }

  /** Deleting any chain from an accepted embedding makes the check report a
      missing chain, whatever the fixed and restricted chains. */
  lemma DroppedChainIsMissing(source: Graph, target: Graph, emb: Embedding,
                              fixed: map<Node, seq<Node>>, restrict: map<Node, seq<Node>>, x: Node)
    requires CheckableInput(source, target, emb, fixed, restrict)
    requires Diagnose(source, target, emb, fixed, restrict).verdict
    requires x in source.nodes
    ensures CheckableInput(source, target, Without(emb, x), fixed, restrict)
    ensures Diagnose(source, target, Without(emb, x), fixed, restrict) == Rejected(MissingChain)
  {
    var smaller := Without(emb, x);
    SourceReportNone(source, target, emb);
    var i :| 0 <= i < |source.nodes| && source.nodes[i] == x;
    forall j | 0 <= j < i ensures !SourceFaulty(source, target, smaller, j) {
      assert !SourceFaulty(source, target, emb, j);
      assert source.nodes[j] != x;
    }
    FirstFaultyNodeReported(source, target, smaller, fixed, restrict, i);
  }
}
