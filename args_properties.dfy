/** What `check_args`'s verdict means (tests/test_lib.py:298-346), and how its
    adjacency tests relate to `check_embedding`: no embedding the latter
    accepts is ever ruled out by the former. */
module ArgsProperties {
  import opened Containers
  import opened Graphs
  import opened Connectivity
  import opened EmbeddingCheck
  import opened EmbeddingProperties
  import opened ArgsCheck

  /** Two node sets are joined exactly when they share a node or a hardware
      edge runs between them. */
  lemma JoinedMeans(target: Graph, a: set<Node>, b: set<Node>)
    requires WellFormed(target)
    ensures Joined(target, a, b) <==> (a * b != {} || exists p, q :: p in a && q in b && Adjacent(target, p, q))
  {
    var nb := ClosedNeighbourhood(target, b);
    if Joined(target, a, b) {
      NonEmptyHasNode(a * nb);
      var p :| p in a * nb;
      if p !in b {
        var q :| q in b && Adjacent(target, q, p);
        assert p in a && q in b && Adjacent(target, p, q);
      } else {
        assert p in a * b;
      }
    }
    if a * b != {} {
      NonEmptyHasNode(a * b);
      var p :| p in a * b;
      assert p in a * nb;
    }
    if exists p, q :: p in a && q in b && Adjacent(target, p, q) {
      var p, q :| p in a && q in b && Adjacent(target, p, q);
      assert Adjacent(target, q, p);
      assert p in a * nb;
    }
  }

  /** The adjacency tests of `check_args` do not depend on which end of a
      problem edge networkx lists first. */
  lemma JoinedSymmetric(target: Graph, a: set<Node>, b: set<Node>)
    requires WellFormed(target)
    ensures Joined(target, a, b) <==> Joined(target, b, a)
  {
    JoinedMeans(target, a, b);
    JoinedMeans(target, b, a);
    if exists p, q :: p in a && q in b && Adjacent(target, p, q) {
      var p, q :| p in a && q in b && Adjacent(target, p, q);
      assert q in b && p in a && Adjacent(target, q, p);
    }
    if exists q, p :: q in b && p in a && Adjacent(target, q, p) {
      var q, p :| q in b && p in a && Adjacent(target, q, p);
      assert p in a && q in b && Adjacent(target, p, q);
    }
  }

  /** Every assert of `check_args`, as one condition. */
  ghost predicate ArgsValid(source: Graph, target: Graph, fixed: Option<Chains>, initial: Option<Chains>,
                            restrict: Option<Chains>, skipInit: bool)
    requires CheckableArgs(source, target, fixed, initial, restrict, skipInit)
  {
    && Connected(target, NodeSet(target))
    && Connected(source, NodeSet(source))
    && (fixed.Some? ==>
          && MembershipError(source, target, FixedChains, fixed.value).None?
          && (initial.Some? ==> fixed.value.entries.Keys !! initial.value.entries.Keys)
          && (restrict.Some? ==> fixed.value.entries.Keys !! restrict.value.entries.Keys))
    && (initial.Some? ==>
          && MembershipError(source, target, InitialChains, initial.value).None?
          && (skipInit ==> !SomeEdgeUnjoined(source, target, InitialSets(initial.value))))
    && (restrict.Some? ==>
          && MembershipError(source, target, RestrictChains, restrict.value).None?
          && !SomeEdgeUnjoined(source, target, DomainSets(source, target, restrict.value)))
  }

  /** `check_args` passes exactly when every one of its asserts holds. */
  lemma ArgsPassIffValid(source: Graph, target: Graph, fixed: Option<Chains>, initial: Option<Chains>,
                         restrict: Option<Chains>, skipInit: bool)
    requires CheckableArgs(source, target, fixed, initial, restrict, skipInit)
    ensures ArgsDiagnosis(source, target, fixed, initial, restrict, skipInit).None? <==>
      ArgsValid(source, target, fixed, initial, restrict, skipInit)
  {
  }

  /** An embedding `check_embedding` accepts joins any node sets that contain
      its chains: each problem edge is a shared node (a self-loop) or a
      hardware edge between the two chains. */
  lemma AcceptedEmbeddingJoins(source: Graph, target: Graph, emb: Embedding, sets: map<Node, set<Node>>)
    requires CheckableInput(source, target, emb, map[], map[])
    requires Diagnose(source, target, emb, map[], map[]).verdict
    requires forall v :: v in NodeSet(source) ==>
      v in sets && (v in emb.entries ==> Elems(emb.entries[v]) <= sets[v])
    ensures forall e :: e in source.edges ==> e.0 in sets && e.1 in sets
    ensures !SomeEdgeUnjoined(source, target, sets)
  {
    VerdictIsMinorEmbedding(source, target, emb, map[], map[]);
    assert forall e :: e in source.edges ==> e.0 in sets && e.1 in sets by {
      forall e | e in source.edges ensures e.0 in sets && e.1 in sets {
        assert e.0 in NodeSet(source) && e.1 in NodeSet(source);
      }
    }
    forall e | e in source.edges ensures Joined(target, sets[e.0], sets[e.1]) {
      var u, v := e.0, e.1;
      assert u in NodeSet(source) && v in NodeSet(source);
      assert u in emb.entries && v in emb.entries;
      if u == v {
        assert Induced(target, emb.entries[u]) != {};
        NonEmptyHasNode(Induced(target, emb.entries[u]));
        var p :| p in Induced(target, emb.entries[u]);
        assert p in sets[u] * sets[u];
      } else {
        var p, q :| p in emb.entries[u] && q in emb.entries[v] && Adjacent(target, p, q);
        assert p in sets[u] && q in sets[v];
      }
      JoinedMeans(target, sets[u], sets[v]);
    }
  }

  /** Restricted domains that hold the chains of an embedding `check_embedding`
      accepts without warning pass the domain test of `check_args`. */
  lemma DomainsAdmitAcceptedEmbedding(source: Graph, target: Graph, emb: Embedding, restrict: Chains)
    requires DictWellFormed(restrict)
    requires CheckableInput(source, target, emb, map[], restrict.entries)
    requires Diagnose(source, target, emb, map[], restrict.entries) == Accepted(None)
    ensures !SomeEdgeUnjoined(source, target, DomainSets(source, target, restrict))
  {
    RestrictOnlyWarns(source, target, emb, map[], restrict.entries);
    VerdictIsMinorEmbedding(source, target, emb, map[], map[]);
    AcceptedEmbeddingJoins(source, target, emb, DomainSets(source, target, restrict));
  }

  /** Initial chains that already form an embedding `check_embedding`
      accepts pass the adjacency test `skip_initialization` adds. */
  lemma InitialEmbeddingPasses(source: Graph, target: Graph, initial: Chains)
    requires CheckableInput(source, target, initial, map[], map[])
    requires Diagnose(source, target, initial, map[], map[]).verdict
    ensures forall e :: e in source.edges ==> e.0 in InitialSets(initial) && e.1 in InitialSets(initial)
    ensures !SomeEdgeUnjoined(source, target, InitialSets(initial))
  {
    VerdictIsMinorEmbedding(source, target, initial, map[], map[]);
    AcceptedEmbeddingJoins(source, target, initial, InitialSets(initial));
  }
}
