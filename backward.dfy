/** The backward pass (make_diagram.rb:105-133). The endpoints are given the
    largest early finish as late finish; then, round by round, every job that
    no unfinished job depends on is finalised: its late finish is the
    smallest late start among its dependents, its late start is the late
    finish less its duration, and its slack is the late start less its early
    start. */
module Backward {
  import opened Collections
  import opened Jobs
  import opened Forward

  /** The late times of every job. */
  datatype Backward = Backward(lateFinish: map<JobId, int>, lateStart: map<JobId, int>, slack: map<JobId, int>)

  /** The state of the backward loop: the late times set so far and the jobs
      not yet finalised (`@unfinished`), in schedule order. */
  datatype Late = Late(lf: map<JobId, int>, ls: map<JobId, int>, slack: map<JobId, int>, unfinished: seq<JobId>)

  // ----- Specification -----

  /** Lines 125-127: the scan over the dependents, in schedule order, that
      takes a dependent's late start when none is taken yet (0 stands for
      "none") or when it is smaller. A dependent without a late start is
      passed by; the pass never meets one (FinishRound requires that). */
  function Soonest(ds: seq<JobId>, ls: map<JobId, int>): int {
    if ds == [] then 0
    else
      var m := Soonest(ds[..|ds| - 1], ls);
      var d := ds[|ds| - 1];
      if d in ls && (m == 0 || m > ls[d]) then ls[d] else m
  }

  /** `v` is the smallest late start among the jobs `ds`. */
  ghost predicate IsSoonestStart(ds: seq<JobId>, ls: map<JobId, int>, v: int) {
    && (forall d :: d in ds ==> d in ls && v <= ls[d])
    && (exists d :: d in ds && ls[d] == v)
  }

  /** When every late start is at least 1, the sentinel 0 is never a real
      value and the scan yields the smallest late start. */
  lemma {:induction false} SoonestIsLeast(ds: seq<JobId>, ls: map<JobId, int>)
    requires forall d :: d in ds ==> d in ls && ls[d] >= 1
    ensures ds == [] ==> Soonest(ds, ls) == 0
    ensures ds != [] ==> IsSoonestStart(ds, ls, Soonest(ds, ls))
  {
    if ds != [] {
      var init := ds[..|ds| - 1];
      InitLast(ds);
      SoonestIsLeast(init, ls);
    }
  }

  /** With a late start of 0 among the dependents the sentinel misfires: the
      scan skips past the 0 and yields a larger value. */
  lemma SentinelNeedsPositiveStarts()
    ensures Soonest(["a", "b"], map["a" := 0, "b" := 5]) == 5
    ensures !IsSoonestStart(["a", "b"], map["a" := 0, "b" := 5], 5)
  {
    var ds: seq<JobId> := ["a", "b"];
    assert ds[..1] == ["a"] && ds[..1][..0] == [];
    assert "a" in ds;
  }

  /** The scan reads only the late starts of `ds`. */
  lemma {:induction false} SoonestFrame(ds: seq<JobId>, ls1: map<JobId, int>, ls2: map<JobId, int>)
    requires forall d :: d in ds ==> (d in ls1 <==> d in ls2) && (d in ls1 ==> ls1[d] == ls2[d])
    ensures Soonest(ds, ls1) == Soonest(ds, ls2)
  {
    if ds != [] {
      var init := ds[..|ds| - 1];
      InitLast(ds);
      SoonestFrame(init, ls1, ls2);
    }
  }

  /** What the backward pass promises: every job has its late times; an
      endpoint finishes at the makespan, any other job when its earliest
      dependent must start; the late start is the late finish less the
      duration, the slack the late start less the early start; and no slack
      is negative, no late finish beyond the makespan. */
  ghost predicate BackwardSpec(s: Schedule, f: Forward, b: Backward) {
    var M := f.biggestEarlyFinish;
    && (forall j :: j in b.lateFinish <==> j in s.ids)
    && (forall j :: j in b.lateStart <==> j in s.ids)
    && (forall j :: j in b.slack <==> j in s.ids)
    && forall j {:trigger b.slack[j]} :: j in s.ids && j in s.jobs && j in f.earlyStart ==>
      && b.lateStart[j] == b.lateFinish[j] - s.Duration(j)
      && b.slack[j] == b.lateStart[j] - f.earlyStart[j]
      && (Dependents(s, j) == [] ==> b.lateFinish[j] == M)
      && (Dependents(s, j) != [] ==> b.lateFinish[j] == Soonest(Dependents(s, j), b.lateStart))
      && b.slack[j] >= 0
      && b.lateFinish[j] <= M
  }

  /** The facts of the forward pass the backward pass relies on. */
  ghost predicate Early(s: Schedule, f: Forward) {
    && (forall j :: j in s.ids ==> j in s.jobs && j in f.earlyStart && j in f.earlyFinish)
    && (forall j :: j in f.earlyStart ==> j in s.ids)
    && (forall j :: j in s.ids ==>
          && f.earlyStart[j] >= 0
          && s.Duration(j) >= 1
          && f.earlyFinish[j] == f.earlyStart[j] + s.Duration(j)
          && f.earlyFinish[j] <= f.biggestEarlyFinish)
    && (forall j :: j in f.endpoints ==> j in s.ids)
    && (forall x, j :: x in s.ids && j in s.Deps(x) ==>
          j in s.ids && j !in f.endpoints && f.earlyFinish[j] <= f.earlyStart[x])
    && (forall j :: j in s.ids && j !in f.endpoints ==> Dependents(s, j) != [])
  }

  lemma ForwardGivesEarly(s: Schedule, f: Forward)
    requires s.Valid() && ForwardSpec(s, f)
    ensures Early(s, f)
  {
    var done := Elements(s.ids);
    assert forall j :: j in s.ids <==> j in done;
    forall j | j in s.ids ensures s.Duration(j) >= 1 {
      assert s.JobValid(j);
    }
    forall x, j | x in s.ids && j in s.Deps(x)
      ensures j in s.ids && j !in f.endpoints && f.earlyFinish[j] <= f.earlyStart[x]
    {
      MaxFinishBounds(s.Deps(x), f.earlyFinish);
      assert !IsEndpoint(s, j);
    }
    forall j | j in s.ids && j !in f.endpoints ensures Dependents(s, j) != [] {
      NoDependentsIsEndpoint(s, j);
    }
  }

  // ----- The rounds -----

  /** The selection of line 116: `job` is listed as a dependency by no
      unfinished job. */
  predicate NoUnfinishedDependent(s: Schedule, unfinished: seq<JobId>, job: JobId) {
    forall x :: x in unfinished && x in s.jobs ==> job !in s.jobs[x].dependencies
  }

  /** The round's frontier (`@current`), in the order of `@unfinished`. */
  function LateFrontier(s: Schedule, unfinished: seq<JobId>): (r: seq<JobId>)
    ensures forall j :: j in r <==> j in unfinished && NoUnfinishedDependent(s, unfinished, j)
  {
    Filter(unfinished, j => NoUnfinishedDependent(s, unfinished, j))
  }

  /** Lines 119-131 for one job: a job that already has a late finish (an
      endpoint) is only removed; any other job gets its late times from its
      dependents' late starts and is removed. */
  function FinishJob(s: Schedule, es: map<JobId, int>, st: Late, job: JobId): Late
    requires job in s.jobs && job in es
  {
    if job in st.lf then st.(unfinished := Without(st.unfinished, job))
    else
      var lf := Soonest(Dependents(s, job), st.ls);
      var ls := lf - s.Duration(job);
      Late(st.lf[job := lf], st.ls[job := ls], st.slack[job := ls - es[job]], Without(st.unfinished, job))
  }

  /** The `each` of line 118 over the round's jobs, in order. */
  function FinishAll(s: Schedule, es: map<JobId, int>, jobs: seq<JobId>, st: Late): Late
    requires forall k :: 0 <= k < |jobs| ==> jobs[k] in s.jobs && jobs[k] in es
  {
    if jobs == [] then st
    else FinishJob(s, es, FinishAll(s, es, jobs[..|jobs| - 1], st), jobs[|jobs| - 1])
  }

  // ----- The pass -----

  /** Lines 106-110: every endpoint finishes at the makespan. */
  method SeedEndpoints(s: Schedule, f: Forward) returns (lf: map<JobId, int>, ls: map<JobId, int>, slack: map<JobId, int>)
    requires forall e :: e in f.endpoints ==> e in s.jobs && e in f.earlyStart
    ensures forall j :: j in lf <==> j in f.endpoints
    ensures forall j :: j in ls <==> j in f.endpoints
    ensures forall j :: j in slack <==> j in f.endpoints
    ensures forall j :: j in f.endpoints ==>
              && lf[j] == f.biggestEarlyFinish
              && ls[j] == lf[j] - s.Duration(j)
              && slack[j] == ls[j] - f.earlyStart[j]
  {
    lf, ls, slack := map[], map[], map[];
    var i := 0;
    while i < |f.endpoints|
      invariant i <= |f.endpoints|
      invariant forall j :: j in lf <==> j in f.endpoints[..i]
      invariant forall j :: j in ls <==> j in f.endpoints[..i]
      invariant forall j :: j in slack <==> j in f.endpoints[..i]
      invariant forall j :: j in f.endpoints[..i] ==>
                  && lf[j] == f.biggestEarlyFinish
                  && ls[j] == lf[j] - s.Duration(j)
                  && slack[j] == ls[j] - f.earlyStart[j]
    {
      var e := f.endpoints[i];
      TakeNext(f.endpoints, i);
      lf := lf[e := f.biggestEarlyFinish];
      ls := ls[e := lf[e] - s.Duration(e)];
      slack := slack[e := ls[e] - f.earlyStart[e]];
      i := i + 1;
    }
    assert f.endpoints[..i] == f.endpoints;
  }

  /** The backward pass, lines 105-133. The abort of line 117 is never taken:
      the frontier of a non-empty set of unfinished jobs is never empty. */
  method BackwardPass(s: Schedule, f: Forward) returns (b: Backward)
    requires s.Valid() && ForwardSpec(s, f)
    ensures BackwardSpec(s, f, b)
    ensures forall j :: j in s.ids && Dependents(s, j) != [] ==>
              IsSoonestStart(Dependents(s, j), b.lateStart, b.lateFinish[j])
  {
    ForwardGivesEarly(s, f);
    var lf, ls, slack := SeedEndpoints(s, f);
    var st := Late(lf, ls, slack, s.ids);
    SeedGivesInvariant(s, f, st);
    while st.unfinished != []
      invariant LateInvariant(s, f, st)
      decreases Elements(st.unfinished)
    {
      var cur := LateFrontier(s, st.unfinished);
      LateFrontierNonEmpty(s, f, st.unfinished);
      LateRoundReady(s, f, st, cur);
      var st' := FinishRound(s, f.earlyStart, cur, st);
      RoundFacts(s, f.earlyStart, cur, st, st');
      LateRound(s, f, st, cur, st');
      st := st';
    }
    b := Backward(st.lf, st.ls, st.slack);
    LateDone(s, f, st);
    forall j | j in s.ids && Dependents(s, j) != []
      ensures IsSoonestStart(Dependents(s, j), b.lateStart, b.lateFinish[j])
    {
      LateFinishIsSmallest(s, f, b, j);
    }
  }

  /** The sentinel of line 126 never misfires on what the pass computes: every
      dependent starts late no earlier than its early start, which is at
      least the job's early finish and so at least 1. A job with dependents
      therefore finishes late at the smallest of their late starts. */
  lemma LateFinishIsSmallest(s: Schedule, f: Forward, b: Backward, j: JobId)
    requires s.Valid() && ForwardSpec(s, f) && BackwardSpec(s, f, b)
    requires j in s.ids && Dependents(s, j) != []
    ensures IsSoonestStart(Dependents(s, j), b.lateStart, b.lateFinish[j])
  {
    ForwardGivesEarly(s, f);
    var ds := Dependents(s, j);
    forall x | x in ds ensures x in b.lateStart && b.lateStart[x] >= 1 {
      assert j in s.Deps(x) && b.slack[x] >= 0;
    }
    SoonestIsLeast(ds, b.lateStart);
  }

  /** The `each` of line 118: finalise the round's jobs in order. */
  method FinishRound(s: Schedule, es: map<JobId, int>, cur: seq<JobId>, st0: Late) returns (st: Late)
    requires forall k :: 0 <= k < |cur| ==> cur[k] in s.jobs && cur[k] in es
    requires forall j :: j in st0.ls <==> j in st0.lf
    requires forall j :: j in st0.slack <==> j in st0.lf
    requires forall k, d :: 0 <= k < |cur| && d in Dependents(s, cur[k]) ==> d in st0.ls
    ensures st == FinishAll(s, es, cur, st0)
  {
    st := st0;
    var i := 0;
    while i < |cur|
      invariant i <= |cur|
      invariant st == FinishAll(s, es, cur[..i], st0)
    {
      FinishAllKeys(s, es, cur[..i], st0, st);
      st := FinishNext(s, es, st, cur[i]);
      FinishAllNext(s, es, cur, i, st0);
      i := i + 1;
    }
    assert cur[..i] == cur;
  }

  lemma FinishAllNext(s: Schedule, es: map<JobId, int>, jobs: seq<JobId>, i: nat, st0: Late)
    requires forall k :: 0 <= k < |jobs| ==> jobs[k] in s.jobs && jobs[k] in es
    requires i < |jobs|
    ensures FinishAll(s, es, jobs[..i + 1], st0) == FinishJob(s, es, FinishAll(s, es, jobs[..i], st0), jobs[i])
  {
    assert jobs[..i + 1][..i] == jobs[..i];
  }

  /** Lines 119-131 for one job. */
  method FinishNext(s: Schedule, es: map<JobId, int>, st: Late, job: JobId) returns (st': Late)
    requires job in s.jobs && job in es
    requires job !in st.lf ==> forall d :: d in Dependents(s, job) ==> d in st.ls
    ensures st' == FinishJob(s, es, st, job)
  {
    if job in st.lf {
      return st.(unfinished := Without(st.unfinished, job));
    }
    var soonest := SoonestLateStart(Dependents(s, job), st.ls);
    var lateStart := soonest - s.Duration(job);
    st' := Late(st.lf[job := soonest], st.ls[job := lateStart], st.slack[job := lateStart - es[job]],
                Without(st.unfinished, job));
  }

  /** Lines 124-127: the smallest late start among the dependents, with 0
      meaning "none taken yet". */
  method SoonestLateStart(ds: seq<JobId>, ls: map<JobId, int>) returns (soonest: int)
    requires forall d :: d in ds ==> d in ls
    ensures soonest == Soonest(ds, ls)
  {
    soonest := 0;
    var i := 0;
    while i < |ds|
      invariant i <= |ds|
      invariant soonest == Soonest(ds[..i], ls)
    {
      assert ds[..i + 1][..i] == ds[..i];
      if soonest == 0 || soonest > ls[ds[i]] {
        soonest := ls[ds[i]];
      }
      i := i + 1;
    }
    assert ds[..i] == ds;
  }

  // ----- The loop invariant of the pass -----

  /** Who has late times: the finalised jobs and the endpoints. */
  ghost predicate LateKeys(s: Schedule, f: Forward, st: Late) {
    && (forall j :: j in st.unfinished ==> j in s.ids && j in s.jobs)
    && (forall j :: j in st.lf <==> j in s.ids && (j !in st.unfinished || j in f.endpoints))
    && (forall j :: j in st.ls <==> j in st.lf)
    && (forall j :: j in st.slack <==> j in st.lf)
  }

  /** Late start and slack follow from the late finish. */
  ghost predicate LateValues(s: Schedule, f: Forward, st: Late) {
    forall j :: j in st.lf ==>
      && j in st.ls && j in st.slack && j in s.jobs && j in f.earlyStart
      && st.ls[j] == st.lf[j] - s.Duration(j)
      && st.slack[j] == st.ls[j] - f.earlyStart[j]
  }

  /** The late finishes: the makespan for an endpoint, the scan over the
      dependents' late starts for any other job. */
  ghost predicate LateFinishes(s: Schedule, f: Forward, st: Late) {
    forall j :: j in st.lf ==>
      && (j in f.endpoints ==> st.lf[j] == f.biggestEarlyFinish)
      && (j !in f.endpoints ==> st.lf[j] == Soonest(Dependents(s, j), st.ls))
  }

  /** No negative slack and no late finish beyond the makespan. */
  ghost predicate LateBounds(s: Schedule, f: Forward, st: Late) {
    forall j :: j in st.lf && j in st.ls && j in f.earlyStart ==>
      st.ls[j] >= f.earlyStart[j] && st.lf[j] <= f.biggestEarlyFinish
  }

  /** The dependencies of an unfinished job are unfinished. */
  ghost predicate LateClosed(s: Schedule, st: Late) {
    forall x, d :: x in st.unfinished && x in s.jobs && d in s.jobs[x].dependencies ==> d in st.unfinished
  }

  ghost predicate LateInvariant(s: Schedule, f: Forward, st: Late) {
    && LateKeys(s, f, st)
    && LateValues(s, f, st)
    && LateFinishes(s, f, st)
    && LateBounds(s, f, st)
    && LateClosed(s, st)
  }

  lemma SeedGivesInvariant(s: Schedule, f: Forward, st: Late)
    requires Early(s, f)
    requires st.unfinished == s.ids
    requires forall j :: j in st.lf <==> j in f.endpoints
    requires forall j :: j in st.ls <==> j in f.endpoints
    requires forall j :: j in st.slack <==> j in f.endpoints
    requires forall j :: j in f.endpoints ==>
               && st.lf[j] == f.biggestEarlyFinish
               && st.ls[j] == st.lf[j] - s.Duration(j)
               && st.slack[j] == st.ls[j] - f.earlyStart[j]
    ensures LateInvariant(s, f, st)
  {
    SeedKeys(s, f, st);
    SeedTimes(s, f, st);
  }

  lemma SeedKeys(s: Schedule, f: Forward, st: Late)
    requires Early(s, f)
    requires st.unfinished == s.ids
    requires forall j :: j in st.lf <==> j in f.endpoints
    requires forall j :: j in st.ls <==> j in f.endpoints
    requires forall j :: j in st.slack <==> j in f.endpoints
    ensures LateKeys(s, f, st) && LateClosed(s, st)
  {
    forall x, d | x in st.unfinished && x in s.jobs && d in s.jobs[x].dependencies ensures d in st.unfinished {
      assert d in s.Deps(x);
    }
  }

  lemma SeedTimes(s: Schedule, f: Forward, st: Late)
    requires Early(s, f)
    requires forall j :: j in st.lf <==> j in f.endpoints
    requires forall j :: j in st.ls <==> j in f.endpoints
    requires forall j :: j in st.slack <==> j in f.endpoints
    requires forall j :: j in f.endpoints ==>
               && st.lf[j] == f.biggestEarlyFinish
               && st.ls[j] == st.lf[j] - s.Duration(j)
               && st.slack[j] == st.ls[j] - f.earlyStart[j]
    ensures LateValues(s, f, st) && LateFinishes(s, f, st) && LateBounds(s, f, st)
  {
    forall j | j in st.lf ensures st.ls[j] >= f.earlyStart[j] && st.lf[j] <= f.biggestEarlyFinish {
      assert j in s.ids;
    }
  }

  /** Line 117 is never reached: whatever non-empty set of jobs is still
      unfinished, one of them, in the deepest layer among them, is a
      dependency of none of the others. */
  lemma LateFrontierNonEmpty(s: Schedule, f: Forward, unfinished: seq<JobId>)
    requires ForwardSpec(s, f)
    requires unfinished != [] && forall j :: j in unfinished ==> j in s.ids
    ensures LateFrontier(s, unfinished) != []
  {
    var done := Elements(s.ids);
    assert forall j :: j in unfinished ==> j in done;
    var j := DeepestJob(unfinished, f.left);
    forall x | x in unfinished && x in s.jobs ensures j !in s.jobs[x].dependencies {
      assert x in done;
      assert LayerEquation(s.Deps(x), f.left, f.left[x]);
    }
    assert j in LateFrontier(s, unfinished);
  }

  /** A job of `u` whose layer is at least that of every other job of `u`. */
  lemma {:induction false} DeepestJob(u: seq<JobId>, left: map<JobId, nat>) returns (j: JobId)
    requires u != [] && forall k :: k in u ==> k in left
    ensures j in u && forall k :: k in u ==> left[k] <= left[j]
  {
    if |u| == 1 {
      j := u[0];
    } else {
      assert forall k :: k in u[1..] ==> k in u;
      var j' := DeepestJob(u[1..], left);
      assert forall k :: k in u ==> k == u[0] || k in u[1..];
      j := if left[u[0]] >= left[j'] then u[0] else j';
    }
  }

  /** Before a round: what finalising the round's jobs needs. */
  lemma LateRoundReady(s: Schedule, f: Forward, st: Late, cur: seq<JobId>)
    requires Early(s, f) && LateKeys(s, f, st)
    requires cur == LateFrontier(s, st.unfinished)
    ensures forall k :: 0 <= k < |cur| ==> cur[k] in s.jobs && cur[k] in f.earlyStart
    ensures forall k, d :: 0 <= k < |cur| && d in Dependents(s, cur[k]) ==> d in st.ls
  {
    forall k | 0 <= k < |cur| ensures cur[k] in s.jobs && cur[k] in f.earlyStart {
      assert cur[k] in cur;
    }
    forall k, d | 0 <= k < |cur| && d in Dependents(s, cur[k]) ensures d in st.ls {
      assert cur[k] in cur;
    }
  }

  /** What one round does to the state: the round's jobs leave the
      unfinished list; the jobs that had late times keep them; every other
      job of the round takes its late finish from the scan over its
      dependents' late starts as they were before the round. */
  ghost predicate RoundEffect(s: Schedule, es: map<JobId, int>, cur: seq<JobId>, st0: Late, st1: Late) {
    && (forall y :: y in st1.unfinished <==> y in st0.unfinished && y !in cur)
    && (forall j :: j in st1.lf <==> j in st0.lf || j in cur)
    && (forall j :: j in st1.ls <==> j in st1.lf)
    && (forall j :: j in st1.slack <==> j in st1.lf)
    && (forall j :: j in st0.lf ==>
          j in st0.ls && j in st0.slack &&
          st1.lf[j] == st0.lf[j] && st1.ls[j] == st0.ls[j] && st1.slack[j] == st0.slack[j])
    && (forall j :: j in cur && j !in st0.lf ==>
          && j in st1.lf && j in st1.ls && j in st1.slack && j in s.jobs && j in es
          && st1.lf[j] == Soonest(Dependents(s, j), st0.ls)
          && st1.ls[j] == st1.lf[j] - s.Duration(j)
          && st1.slack[j] == st1.ls[j] - es[j])
  }

  lemma RoundFacts(s: Schedule, es: map<JobId, int>, cur: seq<JobId>, st0: Late, st1: Late)
    requires forall k :: 0 <= k < |cur| ==> cur[k] in s.jobs && cur[k] in es
    requires forall j :: j in st0.ls <==> j in st0.lf
    requires forall j :: j in st0.slack <==> j in st0.lf
    requires forall k, d :: 0 <= k < |cur| && d in Dependents(s, cur[k]) ==> d in st0.ls
    requires st1 == FinishAll(s, es, cur, st0)
    ensures RoundEffect(s, es, cur, st0, st1)
  {
    FinishAllUnfinished(s, es, cur, st0, st1);
    FinishAllKeys(s, es, cur, st0, st1);
    FinishAllValues(s, es, cur, st0, st1);
  }

  /** After a round: the invariant holds again and fewer jobs are unfinished. */
  lemma LateRound(s: Schedule, f: Forward, st0: Late, cur: seq<JobId>, st1: Late)
    requires Early(s, f) && LateInvariant(s, f, st0)
    requires cur == LateFrontier(s, st0.unfinished) && cur != []
    requires RoundEffect(s, f.earlyStart, cur, st0, st1)
    ensures LateInvariant(s, f, st1)
    ensures Elements(st1.unfinished) < Elements(st0.unfinished)
  {
    assert cur[0] in cur;
    UnfinishedShrinks(st0.unfinished, cur, st1.unfinished);
    LateRoundOrder(s, f, st0, cur, st1);
    LateRoundTimes(s, f, st0, cur, st1);
  }

  lemma UnfinishedShrinks(u0: seq<JobId>, cur: seq<JobId>, u1: seq<JobId>)
    requires cur != [] && cur[0] in u0
    requires forall y :: y in u1 <==> y in u0 && y !in cur
    ensures Elements(u1) < Elements(u0)
  {
    assert cur[0] in cur;
    assert cur[0] !in Elements(u1);
  }

  lemma LateRoundOrder(s: Schedule, f: Forward, st0: Late, cur: seq<JobId>, st1: Late)
    requires Early(s, f) && LateKeys(s, f, st0) && LateValues(s, f, st0) && LateClosed(s, st0)
    requires cur == LateFrontier(s, st0.unfinished)
    requires RoundEffect(s, f.earlyStart, cur, st0, st1)
    ensures LateKeys(s, f, st1) && LateValues(s, f, st1) && LateClosed(s, st1)
  {
    LateKeysStep(s, f, st0, cur, st1);
    LateValuesStep(s, f, st0, cur, st1);
    LateClosedStep(s, f, st0, cur, st1);
  }

  lemma LateRoundTimes(s: Schedule, f: Forward, st0: Late, cur: seq<JobId>, st1: Late)
    requires Early(s, f) && LateInvariant(s, f, st0)
    requires cur == LateFrontier(s, st0.unfinished)
    requires RoundEffect(s, f.earlyStart, cur, st0, st1)
    ensures LateFinishes(s, f, st1) && LateBounds(s, f, st1)
  {
    DependentsFinished(s, f, st0, cur);
    LateFinishesStep(s, f, st0, cur, st1);
    LateBoundsStep(s, f, st0, cur, st1);
  }

  /** After the last round: the invariant over every job is the specification. */
  lemma LateDone(s: Schedule, f: Forward, st: Late)
    requires Early(s, f) && LateInvariant(s, f, st) && st.unfinished == []
    ensures BackwardSpec(s, f, Backward(st.lf, st.ls, st.slack))
  {
    EndpointsAreSinks(s, f);
  }

  /** The endpoints the forward pass listed are exactly the jobs nothing depends on. */
  lemma EndpointsAreSinks(s: Schedule, f: Forward)
    requires Early(s, f)
    ensures forall j :: j in s.ids ==> (Dependents(s, j) == [] <==> j in f.endpoints)
  {
    forall j | j in s.ids ensures Dependents(s, j) == [] <==> j in f.endpoints {
      NoDependentsIsEndpoint(s, j);
      if j in f.endpoints {
        forall x | x in s.ids && x in s.jobs ensures j !in s.jobs[x].dependencies {
          assert x in s.ids;
        }
      }
    }
  }

  // ----- One round, piece by piece -----

  lemma {:induction false} FinishAllUnfinished(s: Schedule, es: map<JobId, int>, jobs: seq<JobId>, st0: Late, st: Late)
    requires forall k :: 0 <= k < |jobs| ==> jobs[k] in s.jobs && jobs[k] in es
    requires st == FinishAll(s, es, jobs, st0)
    ensures forall y :: y in st.unfinished <==> y in st0.unfinished && y !in jobs
  {
    if jobs != [] {
      var init, last := jobs[..|jobs| - 1], jobs[|jobs| - 1];
      InitLast(jobs);
      var q := FinishAll(s, es, init, st0);
      FinishAllUnfinished(s, es, init, st0, q);
      assert st.unfinished == Without(q.unfinished, last);
    }
  }

  lemma {:induction false} FinishAllKeys(s: Schedule, es: map<JobId, int>, jobs: seq<JobId>, st0: Late, st: Late)
    requires forall k :: 0 <= k < |jobs| ==> jobs[k] in s.jobs && jobs[k] in es
    requires forall j :: j in st0.ls <==> j in st0.lf
    requires forall j :: j in st0.slack <==> j in st0.lf
    requires st == FinishAll(s, es, jobs, st0)
    ensures forall j :: j in st.lf <==> j in st0.lf || j in jobs
    ensures forall j :: j in st.ls <==> j in st.lf
    ensures forall j :: j in st.slack <==> j in st.lf
    ensures forall j :: j in st0.lf ==> st.lf[j] == st0.lf[j] && st.ls[j] == st0.ls[j] && st.slack[j] == st0.slack[j]
  {
    if jobs != [] {
      var init := jobs[..|jobs| - 1];
      InitLast(jobs);
      FinishAllKeys(s, es, init, st0, FinishAll(s, es, init, st0));
    }
  }

  lemma {:induction false} FinishAllValues(s: Schedule, es: map<JobId, int>, jobs: seq<JobId>, st0: Late, st: Late)
    requires forall k :: 0 <= k < |jobs| ==> jobs[k] in s.jobs && jobs[k] in es
    requires forall j :: j in st0.ls <==> j in st0.lf
    requires forall j :: j in st0.slack <==> j in st0.lf
    requires forall k, d :: 0 <= k < |jobs| && d in Dependents(s, jobs[k]) ==> d in st0.ls
    requires st == FinishAll(s, es, jobs, st0)
    ensures forall j :: j in jobs && j !in st0.lf ==>
              && j in st.lf && j in st.ls && j in st.slack && j in s.jobs && j in es
              && st.lf[j] == Soonest(Dependents(s, j), st0.ls)
              && st.ls[j] == st.lf[j] - s.Duration(j)
              && st.slack[j] == st.ls[j] - es[j]
  {
    if jobs != [] {
      var init, last := jobs[..|jobs| - 1], jobs[|jobs| - 1];
      InitLast(jobs);
      var q := FinishAll(s, es, init, st0);
      FinishAllValues(s, es, init, st0, q);
      FinishAllKeys(s, es, init, st0, q);
      if last !in q.lf {
        SoonestFrame(Dependents(s, last), q.ls, st0.ls);
      }
    }
  }

  lemma LateKeysStep(s: Schedule, f: Forward, st0: Late, cur: seq<JobId>, st1: Late)
    requires LateKeys(s, f, st0)
    requires cur == LateFrontier(s, st0.unfinished)
    requires RoundEffect(s, f.earlyStart, cur, st0, st1)
    ensures LateKeys(s, f, st1)
  {
  }

  lemma LateClosedStep(s: Schedule, f: Forward, st0: Late, cur: seq<JobId>, st1: Late)
    requires LateClosed(s, st0)
    requires cur == LateFrontier(s, st0.unfinished)
    requires RoundEffect(s, f.earlyStart, cur, st0, st1)
    ensures LateClosed(s, st1)
  {
  }

  lemma LateValuesStep(s: Schedule, f: Forward, st0: Late, cur: seq<JobId>, st1: Late)
    requires Early(s, f) && LateKeys(s, f, st0) && LateValues(s, f, st0)
    requires cur == LateFrontier(s, st0.unfinished)
    requires RoundEffect(s, f.earlyStart, cur, st0, st1)
    ensures LateValues(s, f, st1)
  {
  }

  /** The dependents of a job with a late finish, other than an endpoint, and
      of a job of the round, are finalised. */
  lemma DependentsFinished(s: Schedule, f: Forward, st0: Late, cur: seq<JobId>)
    requires LateKeys(s, f, st0) && LateClosed(s, st0)
    requires cur == LateFrontier(s, st0.unfinished)
    ensures forall j, d :: j in st0.lf && j !in f.endpoints && d in Dependents(s, j) ==>
              d in st0.lf && d in st0.ls
    ensures forall j, d :: j in cur && d in Dependents(s, j) ==> d in st0.lf && d in st0.ls
  {
  }

  lemma LateFinishesStep(s: Schedule, f: Forward, st0: Late, cur: seq<JobId>, st1: Late)
    requires LateKeys(s, f, st0) && LateFinishes(s, f, st0)
    requires cur == LateFrontier(s, st0.unfinished)
    requires RoundEffect(s, f.earlyStart, cur, st0, st1)
    requires forall j, d :: j in st0.lf && j !in f.endpoints && d in Dependents(s, j) ==> d in st0.lf && d in st0.ls
    requires forall j, d :: j in cur && d in Dependents(s, j) ==> d in st0.lf && d in st0.ls
    ensures LateFinishes(s, f, st1)
  {
    forall j | j in st1.lf && j !in f.endpoints
      ensures Soonest(Dependents(s, j), st0.ls) == Soonest(Dependents(s, j), st1.ls)
    {
      SoonestFrame(Dependents(s, j), st0.ls, st1.ls);
    }
  }

  lemma LateBoundsStep(s: Schedule, f: Forward, st0: Late, cur: seq<JobId>, st1: Late)
    requires Early(s, f) && LateKeys(s, f, st0) && LateValues(s, f, st0) && LateBounds(s, f, st0)
    requires cur == LateFrontier(s, st0.unfinished)
    requires RoundEffect(s, f.earlyStart, cur, st0, st1)
    requires forall j, d :: j in cur && d in Dependents(s, j) ==> d in st0.lf && d in st0.ls
    ensures LateBounds(s, f, st1)
  {
    forall j | j in cur && j !in st0.lf
      ensures st1.ls[j] >= f.earlyStart[j] && st1.lf[j] <= f.biggestEarlyFinish
    {
      NewLateFinish(s, f, st0, j);
    }
  }

  /** A job finalised in a round finishes no earlier than its early finish,
      and strictly before some dependent finishes. */
  lemma NewLateFinish(s: Schedule, f: Forward, st0: Late, j: JobId)
    requires Early(s, f) && LateValues(s, f, st0) && LateBounds(s, f, st0)
    requires j in s.ids && j !in f.endpoints
    requires forall d :: d in Dependents(s, j) ==> d in st0.lf && d in st0.ls
    ensures f.earlyFinish[j] <= Soonest(Dependents(s, j), st0.ls) < f.biggestEarlyFinish
  {
    var ds := Dependents(s, j);
    assert ds[0] in ds;
    forall d | d in ds ensures d in st0.ls && st0.ls[d] >= f.earlyFinish[j] >= 1 {
      assert j in s.Deps(d);
    }
    SoonestIsLeast(ds, st0.ls);
    var d :| d in ds && st0.ls[d] == Soonest(ds, st0.ls);
    assert j in s.Deps(d);
  }
}
