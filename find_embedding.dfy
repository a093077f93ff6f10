/** The test-suite's `find_embedding` (tests/test_lib.py:39-62): it runs the
    embedder once, quietly, and has `check_embedding` vet every result the
    embedder claims as a success. The embedder itself is not part of this
    model; its output is a parameter. */
module EmbeddingWrapper {
  import opened Containers
  import opened Graphs
  import opened EmbeddingCheck
  import opened EmbeddingProperties

  /** What the embedder returns: a bare embedding, or, with
      `return_overlap=True`, an embedding and its success flag. */
  datatype SolverOutput =
    | Plain(emb: Embedding)
    | WithOverlap(emb: Embedding, success: bool)

  /** The wrapper either hands the embedder's output back, with a
      `RuntimeWarning` when the check warned, or raises a `RuntimeError`
      naming the check's error code. */
  datatype Outcome =
    | Returned(output: SolverOutput, warned: bool)
    | BadEmbeddingReported(error: ErrorCode)

  /** The outputs the wrapper checks: a flagged success, or a non-empty bare
      embedding (an empty dict is falsy and goes back unchecked). */
  predicate ClaimsSuccess(output: SolverOutput) {
    match output
    case Plain(emb) => emb.keys != []
    case WithOverlap(_, success) => success
  }

  /** tests/test_lib.py:39-62. `fixed` and `restrict` are the
      `fixed_chains` and `restrict_chains` keyword arguments passed through. */
  method FindEmbedding(source: Graph, target: Graph, output: SolverOutput,
                       fixed: map<Node, seq<Node>>, restrict: map<Node, seq<Node>>) returns (r: Outcome)
    requires ClaimsSuccess(output) ==> CheckableInput(source, target, output.emb, fixed, restrict)
    ensures r.Returned? ==> r.output == output
    ensures !ClaimsSuccess(output) ==> r == Returned(output, false)
    ensures ClaimsSuccess(output) ==>
      var report := Diagnose(source, target, output.emb, fixed, restrict);
      && (r.Returned? <==> report.verdict)
      && (r.BadEmbeddingReported? ==> Some(r.error) == report.error)
      && (r.Returned? ==> (r.warned <==> report.warning.Some?))
    ensures ClaimsSuccess(output) && r.Returned? ==>
      IsMinorEmbedding(source, target, output.emb) && FixedRespected(output.emb, fixed)
  {
    if !ClaimsSuccess(output) {
      return Returned(output, false);
    }
    var report := CheckEmbedding(source, target, output.emb, fixed, restrict);
    ReportedErrorIsGenuine(source, target, output.emb, fixed, restrict);
    VerdictIsMinorEmbedding(source, target, output.emb, fixed, restrict);
    if !report.verdict {
      return BadEmbeddingReported(report.error.value);
    }
    return Returned(output, report.warning.Some?);
  }
}
