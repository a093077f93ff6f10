/** `check_args` (tests/test_lib.py:298-346): the validator of the embedder's
    parameters. Each `assert` of the Python function becomes an error kind;
    `ArgsDiagnosis` says which one fails first, and `CheckArgs` is the
    imperative check, proved to agree with it. */
module ArgsCheck {
  import opened Containers
  import opened Graphs
  import opened Connectivity
  import opened DictScan

  type Chains = Dict<Node, seq<Node>>

  /** Which keyword argument a membership failure is about. */
  datatype Role = FixedChains | InitialChains | RestrictChains

  datatype ArgsError =
    | HardwareDisconnected
    | ProblemDisconnected
    | VarsOutside(role: Role)
    | ChainsOutside(role: Role)
    | FixedOverwritesInitial
    | FixedRestricted
    | InitialsNotAdjacent
    | DomainsNotAdjacent

  /** `set(cu) & edgelord`, where `edgelord` is `cv` together with every
      hardware neighbour of a node of `cv`, is not empty. */
  predicate Joined(target: Graph, cu: set<Node>, cv: set<Node>)
    requires WellFormed(target)
  {
    cu * ClosedNeighbourhood(target, cv) != {}
  }

  /** `restrict_chains.get(v, fullset)`. */
  function Domain(target: Graph, restrict: Chains, v: Node): set<Node> {
    if v in restrict.entries then Elems(restrict.entries[v]) else NodeSet(target)
  }

  /** The node sets the edge test of tests/test_lib.py:326-332 compares. */
  function InitialSets(initial: Chains): map<Node, set<Node>> {
    map v | v in initial.entries :: Elems(initial.entries[v])
  }

  /** The node sets the edge test of tests/test_lib.py:342-346 compares. */
  function DomainSets(source: Graph, target: Graph, restrict: Chains): map<Node, set<Node>> {
    map v | v in NodeSet(source) :: Domain(target, restrict, v)
  }

  /** Some problem edge `(u, v)` whose two sets are not joined. */
  predicate SomeEdgeUnjoined(source: Graph, target: Graph, sets: map<Node, set<Node>>)
    requires WellFormed(target)
    requires forall e :: e in source.edges ==> e.0 in sets && e.1 in sets
  {
    exists e :: e in source.edges && !Joined(target, sets[e.0], sets[e.1])
  }

  /** The two membership asserts for one dict: every key a problem node,
      every chain member a hardware node. */
  function MembershipError(source: Graph, target: Graph, role: Role, d: Chains): (r: Option<ArgsError>)
    requires DictWellFormed(d)
    ensures r.None? <==>
      d.entries.Keys <= NodeSet(source) && forall v :: v in d.entries ==> Elems(d.entries[v]) <= NodeSet(target)
  {
    match EntryFaultOf(d, NodeSet(source), NodeSet(target))
    case None => None
    case Some(UnknownKey(_)) => Some(VarsOutside(role))
    case Some(UnknownMember(_)) => Some(ChainsOutside(role))
  }

  /** What `check_args` needs of its caller to reach a verdict rather than
      raise: proper graphs and dicts, graphs with at least one node
      (`nx.is_connected` raises on an empty one), and, when initialization is
      skipped, an initial chain for both ends of every problem edge
      (`initial_chains[v]` raises otherwise). */
  predicate CheckableArgs(source: Graph, target: Graph, fixed: Option<Chains>, initial: Option<Chains>,
                          restrict: Option<Chains>, skipInit: bool) {
    && WellFormed(source) && WellFormed(target)
    && source.nodes != [] && target.nodes != []
    && (fixed.Some? ==> DictWellFormed(fixed.value))
    && (initial.Some? ==> DictWellFormed(initial.value))
    && (restrict.Some? ==> DictWellFormed(restrict.value))
    && (skipInit && initial.Some? ==>
          forall e :: e in source.edges ==> e.0 in initial.value.entries && e.1 in initial.value.entries)
  }

  /** tests/test_lib.py:305-317. */
  function FixedStage(source: Graph, target: Graph, fixed: Option<Chains>, initial: Option<Chains>,
                      restrict: Option<Chains>): Option<ArgsError>
    requires fixed.Some? ==> DictWellFormed(fixed.value)
  {
    if fixed.None? then None
    else if MembershipError(source, target, FixedChains, fixed.value).Some? then
      MembershipError(source, target, FixedChains, fixed.value)
    else if initial.Some? && !(fixed.value.entries.Keys !! initial.value.entries.Keys) then
      Some(FixedOverwritesInitial)
    else if restrict.Some? && !(fixed.value.entries.Keys !! restrict.value.entries.Keys) then
      Some(FixedRestricted)
    else None
  }

  /** tests/test_lib.py:319-332. */
  function InitialStage(source: Graph, target: Graph, initial: Option<Chains>, skipInit: bool): Option<ArgsError>
    requires WellFormed(target)
    requires initial.Some? ==> DictWellFormed(initial.value)
    requires skipInit && initial.Some? ==>
      forall e :: e in source.edges ==> e.0 in initial.value.entries && e.1 in initial.value.entries
  {
    if initial.None? then None
    else if MembershipError(source, target, InitialChains, initial.value).Some? then
      MembershipError(source, target, InitialChains, initial.value)
    else if skipInit && SomeEdgeUnjoined(source, target, InitialSets(initial.value)) then
      Some(InitialsNotAdjacent)
    else None
  }

  /** tests/test_lib.py:334-346. */
  function RestrictStage(source: Graph, target: Graph, restrict: Option<Chains>): Option<ArgsError>
    requires WellFormed(source) && WellFormed(target)
    requires restrict.Some? ==> DictWellFormed(restrict.value)
  {
    if restrict.None? then None
    else if MembershipError(source, target, RestrictChains, restrict.value).Some? then
      MembershipError(source, target, RestrictChains, restrict.value)
    else if SomeEdgeUnjoined(source, target, DomainSets(source, target, restrict.value)) then
      Some(DomainsNotAdjacent)
    else None
  }

  /** The first failing assert of `check_args`, in the order the code runs
      them, or `None` when all of them pass. */
  ghost function ArgsDiagnosis(source: Graph, target: Graph, fixed: Option<Chains>, initial: Option<Chains>,
                               restrict: Option<Chains>, skipInit: bool): Option<ArgsError>
    requires CheckableArgs(source, target, fixed, initial, restrict, skipInit)
  {
    if !Connected(target, NodeSet(target)) then Some(HardwareDisconnected)
    else if !Connected(source, NodeSet(source)) then Some(ProblemDisconnected)
    else if FixedStage(source, target, fixed, initial, restrict).Some? then
      FixedStage(source, target, fixed, initial, restrict)
    else if InitialStage(source, target, initial, skipInit).Some? then
      InitialStage(source, target, initial, skipInit)
    else RestrictStage(source, target, restrict)
  }

  // ---------------------------------------------------------------------------
  // The imperative check

  /** `for v in a: assert v not in b`: does some key of `a` occur in `b`? */
  method FindSharedKey(a: set<Node>, b: set<Node>) returns (shared: bool)
    ensures shared <==> !(a !! b)
  {
    var rest := a;
    while rest != {}
      invariant rest <= a
      invariant forall v :: v in a && v !in rest ==> v !in b
      decreases |rest|
    {
      NonEmptyHasNode(rest);
      var v :| v in rest;
      rest := rest - {v};
      if v in b {
        return true;
      }
    }
    assert forall v :: v in a ==> v !in b;
    return false;
  }

  /** `for u, v in Qg.edges(): assert set(sets[u]) & edgelord`, with
      `edgelord` built from `sets[v]`: is some problem edge unjoined? */
  method FindUnjoinedEdge(source: Graph, target: Graph, sets: map<Node, set<Node>>) returns (found: bool)
    requires WellFormed(target)
    requires forall e :: e in source.edges ==> e.0 in sets && e.1 in sets
    ensures found <==> SomeEdgeUnjoined(source, target, sets)
  {
    var rest := source.edges;
    while rest != {}
      invariant rest <= source.edges
      invariant forall e :: e in source.edges && e !in rest ==> Joined(target, sets[e.0], sets[e.1])
      decreases |rest|
    {
      NonEmptyHasEdge(rest);
      var e :| e in rest;
      rest := rest - {e};
      var edgelord := ClosedNeighbourhood(target, sets[e.1]);
      if sets[e.0] * edgelord == {} {
        return true;
      }
    }
    return false;
  }

  /** The membership asserts for one dict, by the dict scan. */
  method CheckMembership(source: Graph, target: Graph, role: Role, d: Chains) returns (r: Option<ArgsError>)
    requires DictWellFormed(d)
    ensures r == MembershipError(source, target, role, d)
  {
    var fault := FindEntryFault(d, NodeSet(source), NodeSet(target));
    match fault {
      case None => r := None;
      case Some(UnknownKey(_)) => r := Some(VarsOutside(role));
      case Some(UnknownMember(_)) => r := Some(ChainsOutside(role));
    }
  }

  /** tests/test_lib.py:305-317. */
  method CheckFixed(source: Graph, target: Graph, fixed: Option<Chains>, initial: Option<Chains>,
                    restrict: Option<Chains>) returns (r: Option<ArgsError>)
    requires fixed.Some? ==> DictWellFormed(fixed.value)
    ensures r == FixedStage(source, target, fixed, initial, restrict)
  {
    if fixed.None? {
      return None;
    }
    r := CheckMembership(source, target, FixedChains, fixed.value);
    if r.Some? {
      return;
    }
    if initial.Some? {
      var shared := FindSharedKey(fixed.value.entries.Keys, initial.value.entries.Keys);
      if shared {
        return Some(FixedOverwritesInitial);
      }
    }
    if restrict.Some? {
      var shared := FindSharedKey(fixed.value.entries.Keys, restrict.value.entries.Keys);
      if shared {
        return Some(FixedRestricted);
      }
    }
    return None;
  }

  /** tests/test_lib.py:319-332. */
  method CheckInitial(source: Graph, target: Graph, initial: Option<Chains>, skipInit: bool)
    returns (r: Option<ArgsError>)
    requires WellFormed(target)
    requires initial.Some? ==> DictWellFormed(initial.value)
    requires skipInit && initial.Some? ==>
      forall e :: e in source.edges ==> e.0 in initial.value.entries && e.1 in initial.value.entries
    ensures r == InitialStage(source, target, initial, skipInit)
  {
    if initial.None? {
      return None;
    }
    r := CheckMembership(source, target, InitialChains, initial.value);
    if r.Some? {
      return;
    }
    if skipInit {
      var unjoined := FindUnjoinedEdge(source, target, InitialSets(initial.value));
      if unjoined {
        return Some(InitialsNotAdjacent);
      }
    }
    return None;
  }

  /** tests/test_lib.py:334-346. */
  method CheckRestrict(source: Graph, target: Graph, restrict: Option<Chains>) returns (r: Option<ArgsError>)
    requires WellFormed(source) && WellFormed(target)
    requires restrict.Some? ==> DictWellFormed(restrict.value)
    ensures r == RestrictStage(source, target, restrict)
  {
    if restrict.None? {
      return None;
    }
    r := CheckMembership(source, target, RestrictChains, restrict.value);
    if r.Some? {
      return;
    }
    var unjoined := FindUnjoinedEdge(source, target, DomainSets(source, target, restrict.value));
    if unjoined {
      return Some(DomainsNotAdjacent);
    }
    return None;
  }

  /** tests/test_lib.py:298-346: `None` when every assert passes, otherwise
      the first one to fail. */
  method CheckArgs(source: Graph, target: Graph, fixed: Option<Chains>, initial: Option<Chains>,
                   restrict: Option<Chains>, skipInit: bool) returns (r: Option<ArgsError>)
    requires CheckableArgs(source, target, fixed, initial, restrict, skipInit)
    ensures r == ArgsDiagnosis(source, target, fixed, initial, restrict, skipInit)
  {
    assert target.nodes[0] in NodeSet(target) && source.nodes[0] in NodeSet(source);
    var connected := IsConnected(target, NodeSet(target));
    if !connected {
      return Some(HardwareDisconnected);
    }
    connected := IsConnected(source, NodeSet(source));
    if !connected {
      return Some(ProblemDisconnected);
    }
    r := CheckFixed(source, target, fixed, initial, restrict);
    if r.Some? {
      return;
    }
    r := CheckInitial(source, target, initial, skipInit);
    if r.Some? {
      return;
    }
    r := CheckRestrict(source, target, restrict);
  }
}
