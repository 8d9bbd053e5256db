/** Criticality as the diagram draws it: a job is critical when its slack is
    0 (make_diagram.rb:9) and a connector from a dependency to a job is drawn
    dark when both have slack 0 (make_diagram.rb:209). Proved here: after the
    two passes there is a chain of critical jobs, linked by dark connectors,
    from a root to a job that finishes at the makespan, and its durations add
    up to the makespan. */
module Critical {
  import opened Collections
  import opened Jobs
  import opened Forward
  import opened Backward

  /** Line 9: the job is marked critical. */
  predicate IsCriticalJob(b: Backward, j: JobId) {
    j in b.slack && b.slack[j] == 0
  }

  /** Line 209: the connector from `dep` into `job` is dark. */
  predicate IsCriticalEdge(b: Backward, dep: JobId, job: JobId) {
    IsCriticalJob(b, job) && IsCriticalJob(b, dep)
  }

  /** The durations of the jobs `p`, added up. */
  function TotalDuration(s: Schedule, p: seq<JobId>): int
    requires forall k :: 0 <= k < |p| ==> p[k] in s.jobs
  {
    if p == [] then 0 else TotalDuration(s, p[..|p| - 1]) + s.Duration(p[|p| - 1])
  }

  /** `p` starts at a root, each job of it is critical, each one is a
      dependency of the next with a dark connector between them, and the
      durations along it add up to the early finish of its last job. */
  ghost predicate IsCriticalChain(s: Schedule, f: Forward, b: Backward, p: seq<JobId>) {
    && p != []
    && (forall k :: 0 <= k < |p| ==> p[k] in s.ids && p[k] in s.jobs && p[k] in f.earlyFinish && IsCriticalJob(b, p[k]))
    && s.Deps(p[0]) == []
    && (forall k :: 0 <= k < |p| - 1 ==> p[k] in s.Deps(p[k + 1]) && IsCriticalEdge(b, p[k], p[k + 1]))
    && TotalDuration(s, p) == f.earlyFinish[p[|p| - 1]]
  }

  /** The early times of every job add up, and a dependency of a job is a
      job of the schedule that finishes before the job starts. */
  ghost predicate EarlyAddsUp(s: Schedule, f: Forward) {
    && (forall j :: j in s.ids ==>
          && j in s.jobs && j in f.earlyStart && j in f.earlyFinish
          && s.Duration(j) >= 1 && f.earlyStart[j] >= 0
          && f.earlyFinish[j] == f.earlyStart[j] + s.Duration(j))
    && (forall x, d :: x in s.ids && d in s.Deps(x) ==> d in s.ids && f.earlyFinish[d] <= f.earlyStart[x])
  }

  /** A job without dependencies starts at 0 and any other job when one of
      its dependencies finishes. */
  ghost predicate StartsTight(s: Schedule, f: Forward)
    requires forall j :: j in s.ids ==> j in s.jobs && j in f.earlyStart
  {
    && (forall j {:trigger s.Deps(j)} :: j in s.ids && s.Deps(j) == [] ==> f.earlyStart[j] == 0)
    && (forall j {:trigger s.Deps(j)} :: j in s.ids && s.Deps(j) != [] ==>
          exists d :: d in s.Deps(j) && d in f.earlyFinish && f.earlyFinish[d] == f.earlyStart[j])
  }

  /** A dependency whose early finish is the early start of a critical job
      is critical too. */
  ghost predicate CriticalClosed(s: Schedule, f: Forward, b: Backward)
    requires forall j :: j in s.ids ==> j in s.jobs
  {
    forall x, d ::
      (&& x in s.ids && d in s.Deps(x) && d in f.earlyFinish && x in f.earlyStart
       && IsCriticalJob(b, x) && f.earlyFinish[d] == f.earlyStart[x])
      ==> IsCriticalJob(b, d)
  }

  /** The facts of the two passes the chain argument uses. */
  ghost predicate ChainFacts(s: Schedule, f: Forward, b: Backward) {
    EarlyAddsUp(s, f) && StartsTight(s, f) && CriticalClosed(s, f, b)
  }

  /** The makespan is reached along a critical chain: some chain of critical
      jobs from a root ends at a job that finishes at the makespan, and no job
      ever has to finish later than that. */
  lemma CriticalPathExists(s: Schedule, f: Forward, b: Backward)
    requires s.Valid() && ForwardSpec(s, f) && BackwardSpec(s, f, b)
    ensures exists p :: IsCriticalChain(s, f, b, p) && TotalDuration(s, p) == f.biggestEarlyFinish
    ensures exists j :: j in s.ids && b.lateFinish[j] == f.biggestEarlyFinish
  {
    var j := MakespanJob(s, f, b);
    EarlyAddsUpHolds(s, f);
    StartsTightHolds(s, f);
    CriticalClosedHolds(s, f, b);
    var p := CriticalChainTo(s, f, b, j);
  }

  /** A job finishing at the makespan has no slack and finishes late at the makespan. */
  lemma MakespanJob(s: Schedule, f: Forward, b: Backward) returns (j: JobId)
    requires s.Valid() && ForwardSpec(s, f) && BackwardSpec(s, f, b)
    ensures j in s.ids && f.earlyFinish[j] == f.biggestEarlyFinish
    ensures IsCriticalJob(b, j) && b.lateFinish[j] == f.biggestEarlyFinish
  {
    var done := Elements(s.ids);
    assert s.ids != [] by {
      var r :| r in s.jobs && s.jobs[r].dependencies == [];
    }
    assert s.ids[0] in done;
    j :| j in done && f.earlyFinish[j] == f.biggestEarlyFinish;
    ForwardGivesEarly(s, f);
  }

  lemma EarlyAddsUpHolds(s: Schedule, f: Forward)
    requires s.Valid() && ForwardSpec(s, f)
    ensures EarlyAddsUp(s, f)
  {
    ForwardGivesEarly(s, f);
  }

  lemma StartsTightHolds(s: Schedule, f: Forward)
    requires s.Valid() && ForwardSpec(s, f)
    ensures forall j :: j in s.ids ==> j in s.jobs && j in f.earlyStart
    ensures StartsTight(s, f)
  {
    var done := Elements(s.ids);
    forall j | j in s.ids
      ensures j in s.jobs && j in f.earlyStart && IsMaxFinish(s.Deps(j), f.earlyFinish, f.earlyStart[j])
    {
      assert j in done && s.JobValid(j);
      forall d | d in s.Deps(j) ensures d in f.earlyFinish && f.earlyFinish[d] >= 1 {
        assert d in done && s.JobValid(d);
      }
      MaxFinishIsLargest(s.Deps(j), f.earlyFinish);
    }
  }

  lemma CriticalClosedHolds(s: Schedule, f: Forward, b: Backward)
    requires EarlyAddsUp(s, f) && BackwardSpec(s, f, b)
    ensures CriticalClosed(s, f, b)
  {
    forall x, d | x in s.ids && d in s.Deps(x) && d in f.earlyFinish && x in f.earlyStart &&
                  IsCriticalJob(b, x) && f.earlyFinish[d] == f.earlyStart[x]
      ensures IsCriticalJob(b, d)
    {
      CriticalDependency(s, f, b, x, d);
    }
  }

  /** Every critical job closes a critical chain. */
  lemma {:induction false} CriticalChainTo(s: Schedule, f: Forward, b: Backward, j: JobId) returns (p: seq<JobId>)
    requires ChainFacts(s, f, b)
    requires j in s.ids && IsCriticalJob(b, j)
    ensures IsCriticalChain(s, f, b, p) && p[|p| - 1] == j
    decreases f.earlyStart[j]
  {
    var deps := s.Deps(j);
    if deps == [] {
      p := [j];
      assert [j][..0] == [];
    } else {
      var d :| d in deps && d in f.earlyFinish && f.earlyFinish[d] == f.earlyStart[j];
      var q := CriticalChainTo(s, f, b, d);
      p := q + [j];
      ChainExtends(s, f, b, q, j);
    }
  }

  /** A critical chain extends by a critical job whose early start is the
      early finish of the chain's last job, a dependency of it. */
  lemma ChainExtends(s: Schedule, f: Forward, b: Backward, q: seq<JobId>, j: JobId)
    requires IsCriticalChain(s, f, b, q)
    requires j in s.ids && j in s.jobs && j in f.earlyStart && j in f.earlyFinish && IsCriticalJob(b, j)
    requires f.earlyFinish[j] == f.earlyStart[j] + s.Duration(j)
    requires q[|q| - 1] in s.Deps(j) && f.earlyFinish[q[|q| - 1]] == f.earlyStart[j]
    ensures IsCriticalChain(s, f, b, q + [j])
  {
    var p := q + [j];
    assert p[..|p| - 1] == q;
    forall k | 0 <= k < |p| - 1 ensures p[k] in s.Deps(p[k + 1]) && IsCriticalEdge(b, p[k], p[k + 1]) {
      if k < |q| - 1 {
        assert p[k] == q[k] && p[k + 1] == q[k + 1];
      }
    }
  }

  /** A dependency that determines the early start of a critical job is
      critical itself. */
  lemma CriticalDependency(s: Schedule, f: Forward, b: Backward, j: JobId, d: JobId)
    requires EarlyAddsUp(s, f) && BackwardSpec(s, f, b)
    requires j in s.ids && IsCriticalJob(b, j)
    requires d in s.Deps(j) && f.earlyFinish[d] == f.earlyStart[j]
    ensures IsCriticalJob(b, d)
  {
    assert d in s.ids;
    var ds := Dependents(s, d);
    assert j in ds;
    forall x | x in ds ensures x in b.lateStart && b.lateStart[x] >= 1 {
      assert d in s.Deps(x) && b.slack[x] >= 0;
    }
    SoonestIsLeast(ds, b.lateStart);
  }
}
