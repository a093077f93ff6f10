# minorminer test oracles in Dafny

This project models the decision logic in minorminer's test support library,
`tests/test_lib.py`. It covers four pieces:

- **`check_embedding`**: the independent oracle that decides whether a claimed
  minor embedding of a problem graph into a hardware graph is valid. It names
  the first rule the embedding breaks, and warns when a chain leaves its
  restricted domain.
- **`check_args`**: the validator of the embedder's configuration. It checks
  connected graphs, known variables and qubits, exclusive roles for fixed
  chains, and adjacency of initial chains and restricted domains.
- **the `find_embedding` wrapper**: it has `check_embedding` vet every result
  the embedder claims as a success.
- **the `success_count` and `success_perfect` retry loops**: the statistical
  oracles that rerun randomized tests.

Graphs are `Graphs.Graph`: the nodes in insertion order, plus a set of edges.
Each undirected edge is held in at least one orientation (in both when an
edge list names it both ways round), and `Adjacent` reads it either way. Python's insertion-ordered dicts are `Containers.Dict`: a map
plus the order `items()` visits its keys. That order decides which error is
reported first. Chains are sequences, so repeated entries count, as they do
for `qubhits`.

Each validator is written twice:

- as a declarative cascade of stage predicates, in the order the code checks
  them (`EmbeddingCheck.Diagnose`, `ArgsCheck.ArgsDiagnosis`);
- as an imperative method with the source's loops. `EmbeddingCheck.CheckEmbedding`
  fills the owner map, footprint and hit count, builds the quotient graph
  edge by edge, and exits at the first failure. It is proved to return exactly
  the cascade's report.

Lemmas then say what the cascade means:

- `check_embedding` accepts exactly the minor embeddings that keep the fixed
  chains;
- every error it reports is a real fault;
- the first faulty problem node is the one reported;
- restricted domains only ever add a warning;
- an embedding it accepts always passes `check_args`'s adjacency tests.

Chain connectivity (`nx.is_connected`) is a breadth-first search
(`Connectivity.IsConnected`), proved against a definition by walks.

Modules: `Containers`, `Graphs`, `Connectivity`, `DictScan` (the membership
scan both validators run over a dict of chains), `EmbeddingCheck`,
`EmbeddingProperties`, `EmbeddingWrapper`, `ArgsCheck`, `ArgsProperties` and
`RetryOracles`.

Three facts about the code shape the model:

- **Order of `check_embedding`'s checks.** Each chain's connectivity is
  checked inside the first loop (tests/test_lib.py:73-85), before unknown
  variables and qubits (87-97) and before overlap (99-101). So a broken chain
  is reported ahead of an overlap or an unknown node, and `Diagnose` has that
  order.
- **The adjacency test of `check_args`.** The code tests whether the set of
  `u` meets the closed neighbourhood of the set of `v`
  (tests/test_lib.py:329-332, 343-346). That needs a shared node or one
  hardware edge between the sets; two sets whose closed neighbourhoods merely
  intersect, through a path of length two, fail it. `ArgsCheck.Joined`
  follows the code, and `ArgsProperties.JoinedMeans` states its meaning.
- **The restrict warning.** The code resets it on entry and sets it only
  after every hard check has passed (tests/test_lib.py:66, 120-122), so a
  warning implies acceptance (`EmbeddingProperties.ReportedErrorIsGenuine`).

## Model

| member | source | states |
|---|---|---|
| Containers.ElemsCount | tests/test_lib.py:99 | a chain sequence has at least as many entries as distinct nodes, and exactly as many iff no node repeats: the basis of the `len(footprint) != qubhits` test |
| Graphs.ClosedNeighbourhood | tests/test_lib.py:329-330 | `edgelord` holds exactly the nodes of the set and every hardware neighbour of one of them |
| Graphs.FromEdgeListShape | tests/test_lib.py:67-68 | `nx.Graph(edges)` built from an edge list is a proper graph whose nodes are exactly the endpoints of the listed edges |
| Graphs.EdgeListNodesShape | tests/test_lib.py:67-68 | the node list built from an edge list repeats no node and holds exactly the endpoints |
| Connectivity.IsConnected | tests/test_lib.py:83 | the breadth-first search answers true exactly when every two nodes of the set are joined by a walk that stays inside the set |
| DictScan.EntryFaultOf | tests/test_lib.py:87-97 | the scan reports nothing iff every key is known and every chain lies among the known members; an unknown key it reports is a key of the dict; an unknown member it reports lies in the chain of a known key and is not a known member |
| DictScan.FindEntryFault | tests/test_lib.py:87-97 | the nested loops over `emb.items()` and each chain return exactly the fault `EntryFaultOf` describes: the first faulty entry in dict order, its key before its members |
| EmbeddingCheck.FirstSourceFault | tests/test_lib.py:73-85 | the index returned is the first problem node, in graph order, with no chain or with a chain whose hardware part is disconnected; no node before it is faulty |
| EmbeddingCheck.Footprint | tests/test_lib.py:81 | a node lies in the footprint of a list of problem nodes iff it lies in one of their chains |
| EmbeddingCheck.CountingDetectsOverlap | tests/test_lib.py:99-101 | the footprint is never larger than the hit count, and the two are equal iff the chains visited repeat no node and share none |
| EmbeddingCheck.DisjointAlongNodes | tests/test_lib.py:99-101 | along the problem nodes, which are exactly the embedding's keys, the position-by-position disjointness is the disjointness of the whole embedding |
| EmbeddingCheck.PrefixStep | tests/test_lib.py:81-82 | visiting one more problem node adds its chain to the footprint and its length to the hit count |
| EmbeddingCheck.ClaimChain | tests/test_lib.py:79-80 | after the loop every node of `x`'s chain is owned by `x`, the owner map gains exactly the chain's nodes, every node outside the chain keeps the owner it had, and every owner's chain still holds the node it owns |
| EmbeddingCheck.OccupyChains | tests/test_lib.py:70-85 | the first loop reports missing or broken chains exactly as `FirstSourceFault` prescribes; when it finds none, the footprint, hit count and owner map it leaves are those of all problem nodes |
| EmbeddingCheck.QuotientEdges | tests/test_lib.py:103-108 | the quotient graph holds the owners' pair for every hardware edge with both ends occupied, and nothing else; edges with a free end are skipped |
| EmbeddingCheck.QuotientMatchesChains | tests/test_lib.py:103-114 | once chains are disjoint, two variables are joined in the quotient graph iff some hardware edge runs between their chains |
| EmbeddingCheck.QuotientGraph | tests/test_lib.py:103-108 | the quotient graph built from the owner map joins two variables iff a hardware edge runs between their chains |
| EmbeddingCheck.FindMissingEdge | tests/test_lib.py:109-114 | reports a missing edge iff some problem edge between two different variables is absent from the quotient graph; self-loops ask for nothing |
| EmbeddingCheck.FindFixedMismatch | tests/test_lib.py:116-119 | reports a mismatch iff some fixed variable's chain differs, as a set, from its fixed chain |
| EmbeddingCheck.FindRestrictMismatch | tests/test_lib.py:120-122 | reports a mismatch iff some restricted variable's chain has a node outside its domain |
| EmbeddingCheck.CheckChains | tests/test_lib.py:99-124 | after the membership scans, the overlap, missing-edge, fixed-chain and restrict checks give exactly the declarative `ChainReport` |
| EmbeddingCheck.CheckEmbedding | tests/test_lib.py:65-124 | the imperative check returns exactly the report `Diagnose` prescribes for every checkable input |
| EmbeddingProperties.SourceReportNone | tests/test_lib.py:73-85 | the first loop finds nothing iff every problem node has a chain whose hardware part is connected |
| EmbeddingProperties.VerdictIsMinorEmbedding | tests/test_lib.py:65-124 | the verdict is true iff the embedding is a minor embedding: one chain per problem node and none for anything else; every chain a connected set of hardware nodes; chains disjoint and without repeats; every problem edge carried by a hardware edge. The fixed chains must also be kept |
| EmbeddingProperties.ReportedErrorIsGenuine | tests/test_lib.py:66-122 | a report has an error iff it rejects, and a warning only when it accepts and a chain leaves its domain; each error names a real fault of its kind (the broken chain is the variable's own and is disconnected, the unknown qubit lies in some chain, ...) |
| EmbeddingProperties.FirstFaultyNodeReported | tests/test_lib.py:73-85 | the first problem node with a missing or broken chain is the one reported, whatever else is wrong with the embedding, so a broken chain wins over unknown nodes and overlap |
| EmbeddingProperties.RestrictOnlyWarns | tests/test_lib.py:120-124 | restricted domains never change the verdict or the error; the warning is set iff the embedding is accepted and some chain leaves its domain |
| EmbeddingProperties.IdentityIsMinorEmbedding | tests/test_lib.py:65-124 | giving every node of a graph its own singleton chain is a minor embedding of the graph into itself |
| EmbeddingProperties.IdentityAccepted | tests/test_lib.py:65-124 | the check accepts that identity embedding, without warning |
| EmbeddingProperties.DroppedChainIsMissing | tests/test_lib.py:73-78 | deleting any problem node's chain from an accepted embedding makes the check report a missing chain |
| EmbeddingWrapper.FindEmbedding | tests/test_lib.py:39-62 | an output flagged unsuccessful, or an empty plain one, goes back unchecked and without warning; a claimed success is returned iff the check accepts it, and is then a minor embedding keeping the fixed chains; otherwise the check's error is raised; a warning is passed on iff the check warned |
| ArgsCheck.MembershipError | tests/test_lib.py:306-311 | the membership asserts for one dict pass iff every key is a problem node and every chain member a hardware node |
| ArgsCheck.FindSharedKey | tests/test_lib.py:312-317 | the loop finds a shared key iff the fixed keys and the other dict's keys are not disjoint |
| ArgsCheck.FindUnjoinedEdge | tests/test_lib.py:326-332 | the loop over problem edges fails iff for some edge `(u, v)` the set of `u` misses the closed neighbourhood of the set of `v` |
| ArgsCheck.CheckMembership | tests/test_lib.py:306-311 | the membership loops report exactly `MembershipError`: unknown variable before unknown qubit, in dict order |
| ArgsCheck.CheckFixed | tests/test_lib.py:305-317 | the fixed-chains block fails exactly as `FixedStage` prescribes: membership, then overlap with the initial chains, then overlap with the restricted ones |
| ArgsCheck.CheckInitial | tests/test_lib.py:319-332 | the initial-chains block fails exactly as `InitialStage` prescribes: membership, then, when initialization is skipped, adjacency of the initial chains |
| ArgsCheck.CheckRestrict | tests/test_lib.py:334-346 | the restrict-chains block fails exactly as `RestrictStage` prescribes: membership, then adjacency of the domains, a missing domain being the whole hardware graph |
| ArgsCheck.CheckArgs | tests/test_lib.py:298-346 | the imperative check returns exactly the first failing assert `ArgsDiagnosis` prescribes |
| ArgsProperties.JoinedMeans | tests/test_lib.py:329-332 | two sets pass the adjacency test iff they share a node or a hardware edge runs between them |
| ArgsProperties.JoinedSymmetric | tests/test_lib.py:342-346 | the adjacency test gives the same answer with `u` and `v` swapped, so the orientation networkx reports an edge in does not matter |
| ArgsProperties.ArgsPassIffValid | tests/test_lib.py:298-346 | `check_args` passes iff every one of its asserts holds |
| ArgsProperties.AcceptedEmbeddingJoins | tests/test_lib.py:342-346 | any sets that contain the chains of an embedding `check_embedding` accepts pass the adjacency test on every problem edge |
| ArgsProperties.DomainsAdmitAcceptedEmbedding | tests/test_lib.py:334-346 | restricted domains holding the chains of an embedding accepted without warning pass the domain test |
| ArgsProperties.InitialEmbeddingPasses | tests/test_lib.py:326-332 | initial chains that already form an accepted embedding pass the test `skip_initialization` adds |
| RetryOracles.FirstIndexOf | tests/test_lib.py:207-209 | the index returned is the first trial among the first `n` with the given outcome, or `n` when there is none |
| RetryOracles.FirstIndexOfPrefix | tests/test_lib.py:207-212 | allowing more tries never changes the first success found within fewer |
| RetryOracles.CorrectedTrials | tests/test_lib.py:200 | the corrected trial count exceeds the success count, so the estimated success rate is below one; it differs from the raw count only for a perfect calibration |
| RetryOracles.SuccessCountRun | tests/test_lib.py:198-216 | an uncalibrated test raises without calling the function; a calibrated one passes iff one of its first `tts` trials succeeds, calls the function up to and including the first success, and calls it `tts` times when it fails |
| RetryOracles.SuccessPerfectRun | tests/test_lib.py:277-279 | the test passes iff all `n` trials succeed, calling the function `n` times, and otherwise stops right after the first failure |

## Left out

- The embedder `find_embedding_orig` is a compiled library; its output is a parameter of `EmbeddingWrapper.FindEmbedding`. Setting `verbose` and `tries` (tests/test_lib.py:40-41) only configures that call.
- Python's `warn` and `RuntimeError` are outcomes of the wrapper (`Returned(..., warned)`, `BadEmbeddingReported(error)`), not real warnings and exceptions. The error code is an `ErrorCode` value, not the formatted message text.
- EmbeddingCheck.CheckEmbedding: for every problem node with a chain, the chain must have at least one hardware node, and every fixed or restricted key must be a problem node. In the source, `nx.is_connected` raises on an empty subgraph and `emb[x]` raises `KeyError`. The source raises only when the loop reaches that chain or key; the precondition also asks it of inputs rejected earlier.
- ArgsCheck.CheckArgs: both graphs must have a node (`nx.is_connected` raises on an empty graph). When `skip_initialization` is set, every end of a problem edge must have an initial chain (`initial_chains[v]` raises `KeyError`). The source raises only for the first such edge it reaches; the precondition also asks it of inputs rejected earlier.
- ArgsCheck.CheckArgs: the assertion messages that name the failing edge `(u, v)` are not modelled, only their kind. Edges are held as a set, so the order in which networkx lists them, which picks the reported edge, is not captured.
- Node labels are integers. The validators only compare labels for equality, so any hashable label behaves the same.
- The `tts` formula (tests/test_lib.py:201-203) uses floating-point `log` and truncation, and is undefined when no calibration trial succeeded; `tts` is a parameter of `RetryOracles.SuccessCountRun`. The failure-probability message is not modelled either.
- The randomized test function is not modelled: its successive results are a parameter (`trials`) of the retry loops.
- Calibration reading and writing, timing and printing (tests/test_lib.py:223-270) are file and clock I/O.
- `success_bounce` (tests/test_lib.py:285-295) runs `n` trials and then always fails, with the success count in its assertion message; it decides nothing, so it is not modelled.
- The graph generators and fixtures (tests/test_lib.py:127-185) wrap networkx generators or use random floating-point positions.
- The test scenarios, platform skips, interrupt tests and diagnostics (tests/test_lib.py:349-964) drive the compiled embedder, OS signals, processes and wall-clock timing.
