/** The statistical test oracles of tests/test_lib.py: `success_count` reruns a
    randomized test up to `tts` times and passes on its first success;
    `success_perfect` runs it `n` times and fails on its first failure. The
    randomized test is not part of this model: `trials` lists what its
    successive calls return. */
module RetryOracles {
  import opened Containers

  datatype CountVerdict = Passed | Failed | NotCalibrated

  /** The position of the first trial among the first `n` that returns `b`,
      or `n` when none does. */
  function FirstIndexOf(trials: seq<bool>, n: nat, b: bool): (k: nat)
    requires n <= |trials|
    ensures k <= n
    ensures k < n ==> trials[k] == b
    ensures forall j :: 0 <= j < k ==> trials[j] != b
    decreases n
  {
    if n == 0 then 0
    else
      var k := FirstIndexOf(trials, n - 1, b);
      if k < n - 1 then k else if trials[n - 1] == b then n - 1 else n
  }

  /** A longer run finds the same first hit, if the shorter one finds any. */
  lemma {:induction false} FirstIndexOfPrefix(trials: seq<bool>, m: nat, n: nat, b: bool)
    requires m <= n <= |trials|
    ensures var k := FirstIndexOf(trials, n, b);
      FirstIndexOf(trials, m, b) == if k < m then k else m
    decreases n - m
  {
    if m < n {
      FirstIndexOfPrefix(trials, m, n - 1, b);
    }
  }

  /** tests/test_lib.py:200: `N += (S == N)`, the correction that keeps the
      estimated success rate `S / N` of a calibration below one. */
  function CorrectedTrials(s: nat, n: nat): (m: nat)
    requires s <= n
    ensures s < m <= n + 1
    ensures m == n <==> s < n
  {
    if s == n then n + 1 else n
  }

  /** tests/test_lib.py:198-216: the test an uncalibrated function gets
      raises at once; a calibrated one calls the function at most `tts`
      times, stops after the first success, and fails when none comes. */
  method SuccessCountRun(tts: Option<nat>, trials: seq<bool>) returns (verdict: CountVerdict, calls: nat)
    requires tts.Some? ==> tts.value <= |trials|
    ensures tts.None? <==> verdict == NotCalibrated
    ensures tts.None? ==> calls == 0
    ensures tts.Some? ==>
      && (verdict == Passed <==> exists i :: 0 <= i < tts.value && trials[i])
      && calls == (if verdict == Passed then FirstIndexOf(trials, tts.value, true) + 1 else tts.value)
  {
    if tts.None? {
      return NotCalibrated, 0;
    }
    var n := tts.value;
    calls := 0;
    while calls < n
      invariant 0 <= calls <= n
      invariant FirstIndexOf(trials, n, true) >= calls
    {
      var success := trials[calls];
      calls := calls + 1;
      if success {
        return Passed, calls;
      }
    }
    return Failed, calls;
  }

  /** tests/test_lib.py:277-279: call the function `n` times and stop at the
      first failing `assert`. */
  method SuccessPerfectRun(n: nat, trials: seq<bool>) returns (passed: bool, calls: nat)
    requires n <= |trials|
    ensures passed <==> forall i :: 0 <= i < n ==> trials[i]
    ensures calls == (if passed then n else FirstIndexOf(trials, n, false) + 1)
  {
    calls := 0;
    while calls < n
      invariant 0 <= calls <= n
      invariant FirstIndexOf(trials, n, false) >= calls
    {
      var success := trials[calls];
      calls := calls + 1;
      if !success {
        return false, calls;
      }
    }
    return true, calls;
  }
}
