/** The forward pass (make_diagram.rb:60-100): Kahn-style layering. Each
    round takes every job whose dependencies are all completed; the round
    index is the job's layer (`left`), each job gets a row (`top`) by the row
    search, and its early start is the largest early finish of its
    dependencies. An empty round with jobs still to do is a cycle. */
module Forward {
  import opened Collections
  import opened Jobs
  import opened Rows

  /** What the forward pass leaves behind: the completion order, the layer,
      row, early start and early finish of every job, the endpoints in the
      order they were found, and the largest early finish. */
  datatype Forward = Forward(
    completed: seq<JobId>,
    left: map<JobId, nat>,
    top: map<JobId, int>,
    earlyStart: map<JobId, int>,
    earlyFinish: map<JobId, int>,
    endpoints: seq<JobId>,
    biggestEarlyFinish: int)

  // ----- Specification -----

  /** Line 69: a job is ready when it is not completed and every one of its
      dependencies is. */
  predicate Ready(s: Schedule, completed: seq<JobId>, j: JobId)
    requires j in s.jobs
  {
    j !in completed && forall d :: d in s.jobs[j].dependencies ==> d in completed
  }

  /** The selection test of line 69, as a function for Filter. */
  function ReadyTest(s: Schedule, completed: seq<JobId>): JobId -> bool {
    j => j in s.jobs && Ready(s, completed, j)
  }

  /** The round's frontier (`@current`), in schedule order. */
  function Frontier(s: Schedule, completed: seq<JobId>): (r: seq<JobId>)
    ensures forall j :: j in r <==> j in s.ids && j in s.jobs && Ready(s, completed, j)
  {
    Filter(s.ids, ReadyTest(s, completed))
  }

  /** The jobs not yet completed, in schedule order (`@schedule.keys - @completed`). */
  function Remaining(s: Schedule, completed: seq<JobId>): (r: seq<JobId>)
    ensures forall j :: j in r <==> j in s.ids && j !in completed
  {
    Filter(s.ids, j => j !in completed)
  }

  /** A non-empty set of jobs each of which waits for another job of the set:
      no round can ever take any of them. */
  ghost predicate Stuck(s: Schedule, rem: seq<JobId>) {
    && rem != []
    && (forall j :: j in rem ==> j in s.jobs)
    && forall j {:trigger s.jobs[j]} :: j in rem && j in s.jobs ==> exists d :: d in s.jobs[j].dependencies && d in rem
  }

  /** The layer of a job is one more than the deepest layer among its
      dependencies, and 0 for a root: the length of the longest dependency
      chain that ends at the job. */
  ghost predicate LayerEquation(deps: seq<JobId>, left: map<JobId, nat>, l: nat)
    requires forall d :: d in deps ==> d in left
  {
    if deps == [] then l == 0
    else (forall d :: d in deps ==> left[d] < l) && (exists d :: d in deps && left[d] + 1 == l)
  }

  /** `es` is the largest early finish among `deps`, and 0 for a root. */
  ghost predicate IsMaxFinish(deps: seq<JobId>, ef: map<JobId, int>, es: int) {
    && (forall d :: d in deps ==> d in ef && ef[d] <= es)
    && (if deps == [] then es == 0 else exists d :: d in deps && d in ef && ef[d] == es)
  }

  /** Line 93: the running maximum of the early finishes of the dependencies
      that have one, scanning them in order from 0. */
  function MaxFinish(deps: seq<JobId>, ef: map<JobId, int>): int {
    if deps == [] then 0
    else
      var m := MaxFinish(deps[..|deps| - 1], ef);
      var d := deps[|deps| - 1];
      if d in ef && m < ef[d] then ef[d] else m
  }

  /** The scan yields 0 or the early finish of a dependency, and no dependency
      finishes later. */
  lemma {:induction false} MaxFinishBounds(deps: seq<JobId>, ef: map<JobId, int>)
    ensures MaxFinish(deps, ef) >= 0
    ensures forall d :: d in deps && d in ef ==> ef[d] <= MaxFinish(deps, ef)
    ensures MaxFinish(deps, ef) == 0 || exists d :: d in deps && d in ef && ef[d] == MaxFinish(deps, ef)
  {
    if deps != [] {
      var init := deps[..|deps| - 1];
      MaxFinishBounds(init, ef);
      assert deps == init + [deps[|deps| - 1]];
      assert forall d :: d in init ==> d in deps;
    }
  }

  /** When every dependency has an early finish of at least 1, the scan is the
      largest early finish of the dependencies. */
  lemma MaxFinishIsLargest(deps: seq<JobId>, ef: map<JobId, int>)
    requires forall d :: d in deps ==> d in ef && ef[d] >= 1
    ensures IsMaxFinish(deps, ef, MaxFinish(deps, ef))
  {
    MaxFinishBounds(deps, ef);
    if deps != [] {
      assert ef[deps[0]] <= MaxFinish(deps, ef);
    }
  }

  /** The scan reads only the early finishes of the dependencies. */
  lemma {:induction false} MaxFinishFrame(deps: seq<JobId>, ef1: map<JobId, int>, ef2: map<JobId, int>)
    requires forall d :: d in deps ==> (d in ef1 <==> d in ef2) && (d in ef1 ==> ef1[d] == ef2[d])
    ensures MaxFinish(deps, ef1) == MaxFinish(deps, ef2)
  {
    if deps != [] {
      var init := deps[..|deps| - 1];
      assert forall d :: d in init ==> d in deps;
      MaxFinishFrame(init, ef1, ef2);
    }
  }

  /** The rows already used in the layer of `j` by jobs before `j` in schedule
      order: the content of `tops_used` when `j` is placed. */
  function RowsBefore(s: Schedule, done: set<JobId>, left: map<JobId, nat>, top: map<JobId, int>, j: JobId): set<int>
    requires j in s.ids && j in left
  {
    set k | k in done && k in s.ids && k in left && k in top &&
            left[k] == left[j] && IndexOf(s.ids, k) < IndexOf(s.ids, j) :: top[k]
  }

  /** Every completed job has its layer, row, early start and early finish,
      and so has every one of its dependencies. */
  ghost predicate Domains(s: Schedule, done: set<JobId>, left: map<JobId, nat>, top: map<JobId, int>,
                          es: map<JobId, int>, ef: map<JobId, int>) {
    && (forall j :: j in done ==> j in s.ids && j in s.jobs)
    && left.Keys == done && top.Keys == done && es.Keys == done && ef.Keys == done
    && (forall j, d :: j in done && d in s.jobs[j].dependencies ==> d in done)
  }

  ghost predicate LayersHold(s: Schedule, done: set<JobId>, left: map<JobId, nat>, top: map<JobId, int>,
                             es: map<JobId, int>, ef: map<JobId, int>)
    requires Domains(s, done, left, top, es, ef)
  {
    forall j {:trigger LayerEquation(s.Deps(j), left, left[j])} :: j in done ==> LayerEquation(s.Deps(j), left, left[j])
  }

  ghost predicate RowsHold(s: Schedule, done: set<JobId>, left: map<JobId, nat>, top: map<JobId, int>,
                           es: map<JobId, int>, ef: map<JobId, int>)
    requires Domains(s, done, left, top, es, ef)
  {
    forall j {:trigger RowsBefore(s, done, left, top, j)} :: j in done ==>
      FirstFreeRow(AnchorOf(s.Deps(j), top), RowsBefore(s, done, left, top, j), top[j])
  }

  ghost predicate TimesHold(s: Schedule, done: set<JobId>, left: map<JobId, nat>, top: map<JobId, int>,
                            es: map<JobId, int>, ef: map<JobId, int>)
    requires Domains(s, done, left, top, es, ef)
  {
    forall j :: j in done ==>
      && es[j] == MaxFinish(s.Deps(j), ef)
      && es[j] >= 0
      && ef[j] == es[j] + s.Duration(j)
  }

  /** `biggest` is the largest early finish of the completed jobs (0 when none is). */
  ghost predicate IsBiggestFinish(done: set<JobId>, ef: map<JobId, int>, biggest: int)
    requires done <= ef.Keys
  {
    && (forall j :: j in done ==> ef[j] <= biggest)
    && (done == {} ==> biggest == 0)
    && (done != {} ==> exists j :: j in done && ef[j] == biggest)
  }

  /** The endpoints found so far: exactly the completed jobs nothing depends on. */
  ghost predicate EndpointsHold(s: Schedule, done: set<JobId>, endpoints: seq<JobId>) {
    && NoDuplicates(endpoints)
    && forall j :: j in endpoints <==> j in done && IsEndpoint(s, j)
  }

  /** The per-job facts of the completed jobs: layers, rows and early times. */
  ghost predicate StateHolds(s: Schedule, done: set<JobId>, left: map<JobId, nat>, top: map<JobId, int>,
                             es: map<JobId, int>, ef: map<JobId, int>)
  {
    && Domains(s, done, left, top, es, ef)
    && LayersHold(s, done, left, top, es, ef)
    && RowsHold(s, done, left, top, es, ef)
    && TimesHold(s, done, left, top, es, ef)
  }

  /** What the forward pass promises of a schedule it accepts. */
  ghost predicate ForwardSpec(s: Schedule, f: Forward)
  {
    var done := Elements(s.ids);
    && NoDuplicates(f.completed) && Elements(f.completed) == done
    && StateHolds(s, done, f.left, f.top, f.earlyStart, f.earlyFinish)
    && IsBiggestFinish(done, f.earlyFinish, f.biggestEarlyFinish)
    && EndpointsHold(s, done, f.endpoints)
  }

  /** Every job takes at least one time unit (established by validation). */
  ghost predicate PositiveDurations(s: Schedule) {
    forall j :: j in s.jobs ==> s.Duration(j) >= 1
  }

  // ----- The loop invariant of the pass -----

  /** Every job not completed before round `round` (> 0) was passed over in the
      previous round: one of its dependencies was not completed by then. */
  ghost predicate PassedOver(s: Schedule, done: set<JobId>, left: map<JobId, nat>, round: nat)
    requires done <= left.Keys
  {
    forall j :: j in s.ids && j in s.jobs && j !in done && round > 0 ==>
      exists d :: d in s.Deps(j) && (d !in done || left[d] + 1 == round)
  }

  ghost predicate ForwardInvariant(s: Schedule, completed: seq<JobId>, done: set<JobId>, round: nat,
                                   left: map<JobId, nat>, top: map<JobId, int>, es: map<JobId, int>,
                                   ef: map<JobId, int>, biggest: int, endpoints: seq<JobId>)
  {
    && NoDuplicates(completed) && done == Elements(completed)
    && StateHolds(s, done, left, top, es, ef)
    && (forall j :: j in done ==> left[j] < round)
    && (round == 0 ==> done == {})
    && PassedOver(s, done, left, round)
    && IsBiggestFinish(done, ef, biggest)
    && EndpointsHold(s, done, endpoints)
  }

  // ----- The pass -----

  /** The forward pass, lines 61-100. */
  method ForwardPass(s: Schedule) returns (r: Result<Forward>)
    requires s.Valid()
    ensures r.Err? ==> r.error.CyclicDependency? && Stuck(s, r.error.remaining)
    ensures r.Err? ==> forall j :: j in r.error.remaining ==> j in s.ids
    ensures r.Ok? ==> ForwardSpec(s, r.value)
  {
    var completed: seq<JobId> := [];
    var endpoints: seq<JobId> := [];
    var left: map<JobId, nat> := map[];
    var top: map<JobId, int> := map[];
    var es: map<JobId, int> := map[];
    var ef: map<JobId, int> := map[];
    var round: nat := 0;
    var biggest := 0;
    ghost var done: set<JobId> := {};
    ValidDurations(s);
    while Remaining(s, completed) != []
      invariant ForwardInvariant(s, completed, done, round, left, top, es, ef, biggest, endpoints)
      decreases Elements(s.ids) - done
    {
      var cur := Frontier(s, completed);
      if cur == [] {
        var rem := Remaining(s, completed);
        StuckWhenNoFrontier(s, completed, rem);
        return Err(CyclicDependency(rem));
      }
      RoundCanStart(s, completed, cur, done, round, left, top, es, ef, biggest, endpoints);
      var left' := left + map j | j in cur :: round;
      var top', es', ef', biggest', endpoints' := PlaceRound(s, cur, top, es, ef, biggest, endpoints);
      LayerExtendsByRound(done, cur, round, left, left');
      ghost var p := PlaceAll(s, cur, Placement(top, es, ef, biggest, endpoints, []));
      RoundState(s, completed, cur, done, round, left, top, es, ef, biggest, endpoints, left', p);
      RoundProgress(s, completed, cur, done, round, left, left');
      RoundTotals(s, cur, done, top, es, ef, biggest, endpoints, p);
      completed := completed + cur;
      done := done + Elements(cur);
      left, top, es, ef, biggest, endpoints := left', top', es', ef', biggest', endpoints';
      round := round + 1;
    }
    r := Ok(Forward(completed, left, top, es, ef, endpoints, biggest));
    ForwardDone(s, r.value, done, round);
  }

  lemma ValidDurations(s: Schedule)
    requires s.Valid()
    ensures NoDuplicates(s.ids) && PositiveDurations(s)
  {
    forall j | j in s.jobs ensures s.Duration(j) >= 1 {
      assert s.JobValid(j);
    }
  }

  /** Before a round: what placing the round's jobs needs of the state. */
  lemma RoundCanStart(s: Schedule, completed: seq<JobId>, cur: seq<JobId>, done: set<JobId>, round: nat,
                      left: map<JobId, nat>, top: map<JobId, int>, es: map<JobId, int>, ef: map<JobId, int>,
                      biggest: int, endpoints: seq<JobId>)
    requires NoDuplicates(s.ids) && PositiveDurations(s)
    requires ForwardInvariant(s, completed, done, round, left, top, es, ef, biggest, endpoints)
    requires cur == Frontier(s, completed)
    ensures NoDuplicates(cur) && RoundReady(s, done, cur) && RoundJobs(s, done, cur)
    ensures left.Keys == top.Keys == es.Keys == ef.Keys == done
    ensures forall j :: j in done ==> ef[j] >= 1
    ensures forall j :: j in cur ==> j !in done
    ensures NoDuplicates(endpoints) && forall j :: j in endpoints ==> j in done
  {
    CompletedGrows(s, completed, cur, done);
    FrontierFacts(s, completed, done, cur);
    forall k | 0 <= k < |cur| ensures cur[k] in s.jobs && cur[k] !in done {
      assert cur[k] in cur;
    }
  }

  /** After the last round: the invariant over every job is the specification. */
  lemma ForwardDone(s: Schedule, f: Forward, done: set<JobId>, round: nat)
    requires ForwardInvariant(s, f.completed, done, round, f.left, f.top, f.earlyStart, f.earlyFinish,
                              f.biggestEarlyFinish, f.endpoints)
    requires Remaining(s, f.completed) == []
    ensures ForwardSpec(s, f)
  {
    AllCompleted(s, f.completed, done);
  }

  lemma StuckWhenNoFrontier(s: Schedule, completed: seq<JobId>, rem: seq<JobId>)
    requires s.Valid()
    requires Frontier(s, completed) == [] && rem == Remaining(s, completed) && rem != []
    ensures Stuck(s, rem)
  {
    forall j | j in rem ensures j in s.jobs && exists d :: d in s.jobs[j].dependencies && d in rem {
      assert !Ready(s, completed, j);
      var d :| d in s.jobs[j].dependencies && d !in completed;
      assert d in s.jobs;
    }
  }

  /** The cycle abort needs a cycle: when every dependency has a smaller rank
      than the jobs that list it (the schedule is acyclic), no set of jobs is
      stuck. */
  lemma RankedNeverStuck(s: Schedule, rank: map<JobId, nat>, rem: seq<JobId>)
    requires forall j :: j in s.jobs ==> j in rank
    requires forall j, d :: j in s.jobs && d in s.jobs[j].dependencies ==> d in rank && rank[d] < rank[j]
    ensures !Stuck(s, rem)
  {
    if rem != [] && forall j :: j in rem ==> j in s.jobs {
      var j := LowestRanked(rem, rank);
      forall d | d in s.jobs[j].dependencies ensures d !in rem {
        assert rank[d] < rank[j];
      }
    }
  }

  lemma AllCompleted(s: Schedule, completed: seq<JobId>, done: set<JobId>)
    requires done == Elements(completed)
    requires forall j :: j in done ==> j in s.ids
    requires Remaining(s, completed) == []
    ensures done == Elements(s.ids)
  {
  }

  /** What the round loop of lines 77-99 carries from job to job: the rows,
      early starts and early finishes so far, the biggest early finish, the
      endpoints found and the rows used in the layer (`tops_used`). */
  datatype Placement = Placement(top: map<JobId, int>, es: map<JobId, int>, ef: map<JobId, int>,
                                 biggest: int, endpoints: seq<JobId>, topsUsed: seq<int>)

  /** One pass of the loop body of lines 78-98 for `job`. */
  function PlaceJob(s: Schedule, p: Placement, job: JobId): Placement
    requires job in s.jobs
  {
    var row := FreeRow(AnchorOf(s.Deps(job), p.top), p.topsUsed);
    var start := MaxFinish(s.Deps(job), p.ef);
    var finish := start + s.Duration(job);
    Placement(p.top[job := row], p.es[job := start], p.ef[job := finish],
              if p.biggest < finish then finish else p.biggest,
              if Dependents(s, job) == [] then p.endpoints + [job] else p.endpoints,
              p.topsUsed + [row])
  }

  /** The loop of lines 77-99 over `jobs`, in order, from `p`. */
  function PlaceAll(s: Schedule, jobs: seq<JobId>, p: Placement): Placement
    requires forall k :: 0 <= k < |jobs| ==> jobs[k] in s.jobs
  {
    if jobs == [] then p
    else PlaceJob(s, PlaceAll(s, jobs[..|jobs| - 1], p), jobs[|jobs| - 1])
  }

  /** The loop body of lines 78-98 for `job`. */
  method PlaceNext(s: Schedule, p: Placement, job: JobId) returns (p': Placement)
    requires job in s.jobs
    ensures p' == PlaceJob(s, p, job)
  {
    var deps := s.Deps(job);
    // Row: search outward from the last dependency's row.
    var anchor := AnchorRow(deps, p.top);
    var row := FindRow(anchor, p.topsUsed);
    // Early start and early finish.
    var start := EarlyStartOf(deps, p.ef);
    var finish := start + s.Duration(job);
    var biggest := if p.biggest < finish then finish else p.biggest;
    // Endpoints: nothing lists the job as a dependency.
    var endpoints := if Dependents(s, job) == [] then p.endpoints + [job] else p.endpoints;
    p' := Placement(p.top[job := row], p.es[job := start], p.ef[job := finish], biggest, endpoints, p.topsUsed + [row]);
  }

  /** The loop over one more job is one more pass of its body. */
  lemma PlaceAllNext(s: Schedule, jobs: seq<JobId>, i: nat, p0: Placement)
    requires forall k :: 0 <= k < |jobs| ==> jobs[k] in s.jobs
    requires i < |jobs|
    ensures PlaceAll(s, jobs[..i + 1], p0) == PlaceJob(s, PlaceAll(s, jobs[..i], p0), jobs[i])
  {
    assert jobs[..i + 1][..i] == jobs[..i];
  }

  /** One round of row placement and early times (lines 77-99), over the
      frontier `cur` in order. */
  method PlaceRound(s: Schedule, cur: seq<JobId>,
                    top0: map<JobId, int>, es0: map<JobId, int>, ef0: map<JobId, int>,
                    biggest0: int, endpoints0: seq<JobId>)
    returns (top: map<JobId, int>, es: map<JobId, int>, ef: map<JobId, int>,
             biggest: int, endpoints: seq<JobId>)
    requires forall k :: 0 <= k < |cur| ==> cur[k] in s.jobs
    ensures var p := PlaceAll(s, cur, Placement(top0, es0, ef0, biggest0, endpoints0, []));
            top == p.top && es == p.es && ef == p.ef && biggest == p.biggest && endpoints == p.endpoints
  {
    ghost var p0 := Placement(top0, es0, ef0, biggest0, endpoints0, []);
    var p := Placement(top0, es0, ef0, biggest0, endpoints0, []);
    var i := 0;
    while i < |cur|
      invariant i <= |cur|
      invariant p == PlaceAll(s, cur[..i], p0)
    {
      p := PlaceNext(s, p, cur[i]);
      PlaceAllNext(s, cur, i, p0);
      i := i + 1;
    }
    assert cur[..i] == cur;
    top, es, ef, biggest, endpoints := p.top, p.es, p.ef, p.biggest, p.endpoints;
  }

  /** What one round of placement computes: the earlier jobs keep their
      values; each job of the round takes the first free row of its layer
      around its anchor, starts at the largest early finish of its
      dependencies and finishes its duration later; the biggest early finish
      and the endpoints take in the round's jobs. */
  ghost predicate RoundPlaced(s: Schedule, cur: seq<JobId>, done: set<JobId>,
                              top0: map<JobId, int>, es0: map<JobId, int>, ef0: map<JobId, int>,
                              biggest0: int, endpoints0: seq<JobId>,
                              top: map<JobId, int>, es: map<JobId, int>, ef: map<JobId, int>,
                              biggest: int, endpoints: seq<JobId>)
  {
    && (forall j :: j in cur ==> j in s.jobs)
    && top.Keys == es.Keys == ef.Keys == done + Elements(cur)
    && (forall j :: j in done ==> j in top0 && j in es0 && j in ef0 &&
                                  top[j] == top0[j] && es[j] == es0[j] && ef[j] == ef0[j])
    && (forall m :: 0 <= m < |cur| ==>
          FirstFreeRow(AnchorOf(s.Deps(cur[m]), top0), RowsUsedBefore(cur, top, m), top[cur[m]]))
    && (forall j :: j in cur ==>
          es[j] >= 0 && ef[j] == es[j] + s.Duration(j) && es[j] == MaxFinish(s.Deps(j), ef0))
    && biggest >= biggest0 && (forall j :: j in cur ==> ef[j] <= biggest)
    && (biggest == biggest0 || exists j :: j in cur && ef[j] == biggest)
    && NoDuplicates(endpoints)
    && (forall j :: j in endpoints <==> j in endpoints0 || (j in cur && IsEndpoint(s, j)))
  }

  /** The jobs of a round, listed without repetition: none completed yet,
      every dependency completed. */
  ghost predicate RoundJobs(s: Schedule, done: set<JobId>, jobs: seq<JobId>) {
    && NoDuplicates(jobs)
    && forall k :: 0 <= k < |jobs| ==>
         jobs[k] in s.jobs && jobs[k] !in done && forall d :: d in s.Deps(jobs[k]) ==> d in done
  }

  lemma RoundJobsInit(s: Schedule, done: set<JobId>, jobs: seq<JobId>)
    requires RoundJobs(s, done, jobs) && jobs != []
    ensures RoundJobs(s, done, jobs[..|jobs| - 1])
    ensures jobs[|jobs| - 1] in s.jobs && jobs[|jobs| - 1] !in done
    ensures forall d :: d in s.Deps(jobs[|jobs| - 1]) ==> d in done
    ensures forall k :: 0 <= k < |jobs| - 1 ==> jobs[k] != jobs[|jobs| - 1]
  {
  }

  /** The round's rows: the earlier jobs keep theirs, each job of the round
      gets one, and `tops_used` lists them in the order of the round. */
  lemma {:induction false} PlaceAllTop(s: Schedule, done: set<JobId>, jobs: seq<JobId>, p0: Placement, p: Placement)
    requires RoundJobs(s, done, jobs) && p0.top.Keys == done && p0.topsUsed == []
    requires p == PlaceAll(s, jobs, p0)
    ensures forall j :: j in p.top <==> j in done || j in jobs
    ensures forall j :: j in done ==> p.top[j] == p0.top[j]
    ensures |p.topsUsed| == |jobs|
    ensures forall k :: 0 <= k < |jobs| ==> p.topsUsed[k] == p.top[jobs[k]]
  {
    if jobs != [] {
      var init, last := jobs[..|jobs| - 1], jobs[|jobs| - 1];
      RoundJobsInit(s, done, jobs);
      InitLast(jobs);
      var q := PlaceAll(s, init, p0);
      PlaceAllTop(s, done, init, p0, q);
    }
  }

  /** The rows used before the m-th job of a round, read from `tops_used`. */
  lemma UsedRows(jobs: seq<JobId>, top: map<JobId, int>, used: seq<int>)
    requires |used| <= |jobs|
    requires forall k :: 0 <= k < |used| ==> jobs[k] in top && used[k] == top[jobs[k]]
    ensures Elements(used) == RowsUsedBefore(jobs, top, |used|)
  {
    forall v | v in RowsUsedBefore(jobs, top, |used|) ensures v in used {
      var k :| 0 <= k < |used| && top[jobs[k]] == v;
      assert used[k] == v;
    }
  }

  /** Placing a later job leaves the rows used before an earlier one as they were. */
  lemma UsedRowsFrame(jobs: seq<JobId>, init: seq<JobId>, top1: map<JobId, int>, top2: map<JobId, int>, m: nat)
    requires m <= |init| <= |jobs|
    requires forall k :: 0 <= k < m ==> jobs[k] == init[k] && init[k] in top1 && jobs[k] in top2 && top2[jobs[k]] == top1[init[k]]
    ensures RowsUsedBefore(jobs, top2, m) == RowsUsedBefore(init, top1, m)
  {
  }

  /** Each job of the round takes the first free row of the round around its
      anchor, the anchor being taken from the rows before the round. */
  lemma {:induction false} PlaceAllRows(s: Schedule, done: set<JobId>, jobs: seq<JobId>, p0: Placement, p: Placement)
    requires RoundJobs(s, done, jobs) && p0.top.Keys == done && p0.topsUsed == []
    requires p == PlaceAll(s, jobs, p0)
    requires forall k :: 0 <= k < |jobs| ==> jobs[k] in p.top
    ensures forall m :: 0 <= m < |jobs| ==>
              FirstFreeRow(AnchorOf(s.Deps(jobs[m]), p0.top), RowsUsedBefore(jobs, p.top, m), p.top[jobs[m]])
  {
    if jobs != [] {
      var init, last := jobs[..|jobs| - 1], jobs[|jobs| - 1];
      RoundJobsInit(s, done, jobs);
      InitLast(jobs);
      var q := PlaceAll(s, init, p0);
      PlaceAllTop(s, done, init, p0, q);
      PlaceAllRows(s, done, init, p0, q);
      PlaceLastRow(s, done, jobs, p0, q, p);
      RowsKept(s, jobs, init, p0.top, q.top, p.top);
    }
  }

  /** Placing the last job of a round leaves the rows of the earlier ones the
      first free ones. */
  lemma RowsKept(s: Schedule, jobs: seq<JobId>, init: seq<JobId>,
                  top0: map<JobId, int>, top1: map<JobId, int>, top2: map<JobId, int>)
    requires jobs != [] && init == jobs[..|jobs| - 1]
    requires forall k :: 0 <= k < |jobs| ==> jobs[k] in s.jobs && jobs[k] in top2
    requires forall k :: 0 <= k < |init| ==> init[k] in top1 && top2[jobs[k]] == top1[init[k]]
    requires forall m :: 0 <= m < |init| ==>
               FirstFreeRow(AnchorOf(s.Deps(init[m]), top0), RowsUsedBefore(init, top1, m), top1[init[m]])
    ensures forall m :: 0 <= m < |init| ==>
              FirstFreeRow(AnchorOf(s.Deps(jobs[m]), top0), RowsUsedBefore(jobs, top2, m), top2[jobs[m]])
  {
    forall m | 0 <= m < |init|
      ensures FirstFreeRow(AnchorOf(s.Deps(jobs[m]), top0), RowsUsedBefore(jobs, top2, m), top2[jobs[m]])
    {
      assert init[m] == jobs[m];
      UsedRowsFrame(jobs, init, top1, top2, m);
    }
  }

  /** The last job of a round takes the first free row around its anchor. */
  lemma PlaceLastRow(s: Schedule, done: set<JobId>, jobs: seq<JobId>, p0: Placement, q: Placement, p: Placement)
    requires RoundJobs(s, done, jobs) && jobs != [] && p0.top.Keys == done && p0.topsUsed == []
    requires q == PlaceAll(s, jobs[..|jobs| - 1], p0) && p == PlaceJob(s, q, jobs[|jobs| - 1])
    requires forall k :: 0 <= k < |jobs| ==> jobs[k] in p.top
    ensures FirstFreeRow(AnchorOf(s.Deps(jobs[|jobs| - 1]), p0.top), RowsUsedBefore(jobs, p.top, |jobs| - 1),
                         p.top[jobs[|jobs| - 1]])
  {
    var init, last := jobs[..|jobs| - 1], jobs[|jobs| - 1];
    RoundJobsInit(s, done, jobs);
    InitLast(jobs);
    PlaceAllTop(s, done, init, p0, q);
    AnchorOfFrame(s.Deps(last), q.top, p0.top);
    UsedRows(jobs, p.top, q.topsUsed);
  }

  /** Each job of the round starts at the scan of its dependencies' early
      finishes from before the round, and finishes its duration later. */
  lemma {:induction false} PlaceAllTimes(s: Schedule, done: set<JobId>, jobs: seq<JobId>, p0: Placement, p: Placement)
    requires RoundJobs(s, done, jobs) && p0.es.Keys == done && p0.ef.Keys == done
    requires p == PlaceAll(s, jobs, p0)
    ensures forall j :: j in p.es <==> j in done || j in jobs
    ensures forall j :: j in p.ef <==> j in done || j in jobs
    ensures forall j :: j in done ==> p.es[j] == p0.es[j] && p.ef[j] == p0.ef[j]
    ensures forall k :: 0 <= k < |jobs| ==>
              && p.es[jobs[k]] >= 0
              && p.ef[jobs[k]] == p.es[jobs[k]] + s.Duration(jobs[k])
              && p.es[jobs[k]] == MaxFinish(s.Deps(jobs[k]), p0.ef)
  {
    if jobs != [] {
      var init, last := jobs[..|jobs| - 1], jobs[|jobs| - 1];
      RoundJobsInit(s, done, jobs);
      InitLast(jobs);
      var q := PlaceAll(s, init, p0);
      PlaceAllTimes(s, done, init, p0, q);
      MaxFinishFrame(s.Deps(last), q.ef, p0.ef);
      MaxFinishBounds(s.Deps(last), q.ef);
    }
  }

  /** The biggest early finish takes in every job of the round. */
  lemma {:induction false} PlaceAllBiggest(s: Schedule, done: set<JobId>, jobs: seq<JobId>, p0: Placement, p: Placement)
    requires RoundJobs(s, done, jobs)
    requires p == PlaceAll(s, jobs, p0)
    ensures p.biggest >= p0.biggest
    ensures forall k :: 0 <= k < |jobs| ==> jobs[k] in p.ef && p.ef[jobs[k]] <= p.biggest
    ensures p.biggest == p0.biggest || exists k :: 0 <= k < |jobs| && jobs[k] in p.ef && p.ef[jobs[k]] == p.biggest
  {
    if jobs != [] {
      var init, last := jobs[..|jobs| - 1], jobs[|jobs| - 1];
      RoundJobsInit(s, done, jobs);
      InitLast(jobs);
      var q := PlaceAll(s, init, p0);
      PlaceAllBiggest(s, done, init, p0, q);
      if p.biggest != p0.biggest && p.biggest == q.biggest {
        var k :| 0 <= k < |init| && init[k] in q.ef && q.ef[init[k]] == q.biggest;
        assert jobs[k] in p.ef && p.ef[jobs[k]] == p.biggest;
      }
    }
  }

  /** The endpoints take in exactly the round's jobs that nothing depends on. */
  lemma {:induction false} PlaceAllEndpoints(s: Schedule, done: set<JobId>, jobs: seq<JobId>, p0: Placement, p: Placement)
    requires RoundJobs(s, done, jobs)
    requires NoDuplicates(p0.endpoints) && forall j :: j in p0.endpoints ==> j in done
    requires p == PlaceAll(s, jobs, p0)
    ensures NoDuplicates(p.endpoints)
    ensures forall j :: j in p.endpoints <==> j in p0.endpoints || (j in jobs && IsEndpoint(s, j))
  {
    if jobs != [] {
      var init, last := jobs[..|jobs| - 1], jobs[|jobs| - 1];
      RoundJobsInit(s, done, jobs);
      InitLast(jobs);
      var q := PlaceAll(s, init, p0);
      PlaceAllEndpoints(s, done, init, p0, q);
      NoDependentsIsEndpoint(s, last);
      if Dependents(s, last) == [] {
        AppendFresh(q.endpoints, last);
      }
    }
  }

  /** What the round loop computes, as RoundPlaced states it. */
  lemma PlaceAllPlaced(s: Schedule, cur: seq<JobId>, done: set<JobId>, p0: Placement)
    requires RoundJobs(s, done, cur)
    requires p0.top.Keys == done && p0.es.Keys == done && p0.ef.Keys == done && p0.topsUsed == []
    requires NoDuplicates(p0.endpoints) && forall j :: j in p0.endpoints ==> j in done
    ensures var p := PlaceAll(s, cur, p0);
            RoundPlaced(s, cur, done, p0.top, p0.es, p0.ef, p0.biggest, p0.endpoints,
                        p.top, p.es, p.ef, p.biggest, p.endpoints)
  {
    var p := PlaceAll(s, cur, p0);
    PlaceAllTop(s, done, cur, p0, p);
    PlaceAllRows(s, done, cur, p0, p);
    PlaceAllTimes(s, done, cur, p0, p);
    PlaceAllBiggest(s, done, cur, p0, p);
    PlaceAllEndpoints(s, done, cur, p0, p);
    RoundKeys(cur, done, p.top, p.es, p.ef);
    RoundTimes(s, cur, p0.ef, p.es, p.ef, p.biggest);
    if p.biggest != p0.biggest {
      var k :| 0 <= k < |cur| && cur[k] in p.ef && p.ef[cur[k]] == p.biggest;
      assert cur[k] in cur;
    }
  }

  lemma RoundKeys(cur: seq<JobId>, done: set<JobId>, top: map<JobId, int>, es: map<JobId, int>, ef: map<JobId, int>)
    requires forall j :: j in top <==> j in done || j in cur
    requires forall j :: j in es <==> j in done || j in cur
    requires forall j :: j in ef <==> j in done || j in cur
    ensures top.Keys == es.Keys == ef.Keys == done + Elements(cur)
  {
  }

  lemma RoundTimes(s: Schedule, cur: seq<JobId>, ef0: map<JobId, int>, es: map<JobId, int>, ef: map<JobId, int>, biggest: int)
    requires forall k :: 0 <= k < |cur| ==> cur[k] in s.jobs && cur[k] in es && cur[k] in ef
    requires forall k :: 0 <= k < |cur| ==>
               && es[cur[k]] >= 0
               && ef[cur[k]] == es[cur[k]] + s.Duration(cur[k])
               && es[cur[k]] == MaxFinish(s.Deps(cur[k]), ef0)
               && ef[cur[k]] <= biggest
    ensures forall j :: j in cur ==>
              j in s.jobs && j in es && j in ef && ef[j] <= biggest &&
              es[j] >= 0 && ef[j] == es[j] + s.Duration(j) && es[j] == MaxFinish(s.Deps(j), ef0)
  {
    forall j | j in cur
      ensures j in s.jobs && j in es && j in ef && ef[j] <= biggest
      ensures es[j] >= 0 && ef[j] == es[j] + s.Duration(j) && es[j] == MaxFinish(s.Deps(j), ef0)
    {
      var k :| 0 <= k < |cur| && cur[k] == j;
    }
  }

  /** The rows used in a round before its m-th job. */
  function RowsUsedBefore(cur: seq<JobId>, top: map<JobId, int>, m: nat): set<int>
    requires m <= |cur| && forall k :: 0 <= k < m ==> cur[k] in top
  {
    set k | 0 <= k < m :: top[cur[k]]
  }

  /** Line 93: the largest early finish among the dependencies that have one, 0 if none. */
  method EarlyStartOf(deps: seq<JobId>, ef: map<JobId, int>) returns (start: int)
    ensures start == MaxFinish(deps, ef)
  {
    start := 0;
    var i := 0;
    while i < |deps|
      invariant i <= |deps|
      invariant start == MaxFinish(deps[..i], ef)
    {
      assert deps[..i + 1][..i] == deps[..i];
      if deps[i] in ef && start < ef[deps[i]] {
        start := ef[deps[i]];
      }
      i := i + 1;
    }
    assert deps[..i] == deps;
  }

  /** One round keeps the per-job facts of the pass. */
  lemma RoundState(s: Schedule, completed: seq<JobId>, cur: seq<JobId>, done: set<JobId>, round: nat,
                   left: map<JobId, nat>, top: map<JobId, int>, es: map<JobId, int>, ef: map<JobId, int>,
                   biggest: int, endpoints: seq<JobId>, left': map<JobId, nat>, p: Placement)
    requires NoDuplicates(s.ids)
    requires ForwardInvariant(s, completed, done, round, left, top, es, ef, biggest, endpoints)
    requires cur == Frontier(s, completed) && RoundJobs(s, done, cur)
    requires LayerExtends(done, cur, round, left, left')
    requires p == PlaceAll(s, cur, Placement(top, es, ef, biggest, endpoints, []))
    ensures StateHolds(s, done + Elements(cur), left', p.top, p.es, p.ef)
  {
    PlaceAllPlaced(s, cur, done, Placement(top, es, ef, biggest, endpoints, []));
    FrontierFacts(s, completed, done, cur);
    StateStep(s, done, cur, round, left, top, es, ef, left', p.top, p.es, p.ef);
  }

  /** One round completes its jobs, each for the first time, strictly
      shrinking what is left and passing over every job it does not take. */
  lemma RoundProgress(s: Schedule, completed: seq<JobId>, cur: seq<JobId>, done: set<JobId>, round: nat,
                      left: map<JobId, nat>, left': map<JobId, nat>)
    requires NoDuplicates(s.ids)
    requires NoDuplicates(completed) && done == Elements(completed)
    requires forall j :: j in done ==> j in left && left[j] < round
    requires cur == Frontier(s, completed) && cur != []
    requires LayerExtends(done, cur, round, left, left')
    ensures NoDuplicates(completed + cur) && done + Elements(cur) == Elements(completed + cur)
    ensures forall j :: j in done + Elements(cur) ==> left'[j] < round + 1
    ensures PassedOver(s, done + Elements(cur), left', round + 1)
    ensures Elements(s.ids) - (done + Elements(cur)) < Elements(s.ids) - done
  {
    CompletedGrows(s, completed, cur, done);
    assert cur[0] in Elements(s.ids) && cur[0] !in done;
    PassedOverStep(s, completed, done, cur, round, left, left');
  }

  /** One round keeps the biggest early finish and the endpoints up to date. */
  lemma RoundTotals(s: Schedule, cur: seq<JobId>, done: set<JobId>,
                    top: map<JobId, int>, es: map<JobId, int>, ef: map<JobId, int>,
                    biggest: int, endpoints: seq<JobId>, p: Placement)
    requires PositiveDurations(s) && cur != [] && RoundJobs(s, done, cur)
    requires top.Keys == done && es.Keys == done && ef.Keys == done
    requires IsBiggestFinish(done, ef, biggest) && EndpointsHold(s, done, endpoints)
    requires forall j :: j in endpoints ==> j in done
    requires p == PlaceAll(s, cur, Placement(top, es, ef, biggest, endpoints, []))
    ensures done + Elements(cur) <= p.ef.Keys
    ensures IsBiggestFinish(done + Elements(cur), p.ef, p.biggest)
    ensures EndpointsHold(s, done + Elements(cur), p.endpoints)
  {
    PlaceAllPlaced(s, cur, done, Placement(top, es, ef, biggest, endpoints, []));
    BiggestStep(done, cur, ef, p.ef, biggest, p.biggest);
    EndpointsStep(s, done, cur, endpoints, p.endpoints);
  }

  lemma StateStep(s: Schedule, done: set<JobId>, cur: seq<JobId>, round: nat,
                  left: map<JobId, nat>, top: map<JobId, int>, es: map<JobId, int>, ef: map<JobId, int>,
                  left': map<JobId, nat>, top': map<JobId, int>, es': map<JobId, int>, ef': map<JobId, int>)
    requires StateHolds(s, done, left, top, es, ef)
    requires forall j :: j in done ==> left[j] < round
    requires round == 0 ==> done == {}
    requires PassedOver(s, done, left, round)
    requires RoundReady(s, done, cur) && InScheduleOrder(s, cur)
    requires LayerExtends(done, cur, round, left, left')
    requires top'.Keys == es'.Keys == ef'.Keys == done + Elements(cur)
    requires forall j :: j in done ==> top'[j] == top[j] && es'[j] == es[j] && ef'[j] == ef[j]
    requires forall m :: 0 <= m < |cur| ==>
               FirstFreeRow(AnchorOf(s.Deps(cur[m]), top), RowsUsedBefore(cur, top', m), top'[cur[m]])
    requires forall j :: j in cur ==>
               es'[j] >= 0 && ef'[j] == es'[j] + s.Duration(j) && es'[j] == MaxFinish(s.Deps(j), ef)
    ensures StateHolds(s, done + Elements(cur), left', top', es', ef')
  {
    DomainsStep(s, done, cur, left, top, es, ef, left', top', es', ef');
    LayersStep(s, done, cur, round, left, top, es, ef, left', top', es', ef');
    RowsStep(s, done, cur, round, left, top, es, ef, left', top', es', ef');
    TimesStep(s, done, cur, left, top, es, ef, left', top', es', ef');
  }

  lemma BiggestStep(done: set<JobId>, cur: seq<JobId>, ef: map<JobId, int>, ef': map<JobId, int>,
                    biggest: int, biggest': int)
    requires done <= ef.Keys && done + Elements(cur) <= ef'.Keys && cur != []
    requires IsBiggestFinish(done, ef, biggest)
    requires forall j :: j in done ==> ef'[j] == ef[j]
    requires biggest' >= biggest && forall j :: j in cur ==> ef'[j] <= biggest'
    requires biggest' == biggest || exists j :: j in cur && ef'[j] == biggest'
    requires forall j :: j in cur ==> ef'[j] >= 1
    ensures IsBiggestFinish(done + Elements(cur), ef', biggest')
  {
    assert cur[0] in cur;
  }

  lemma EndpointsStep(s: Schedule, done: set<JobId>, cur: seq<JobId>, endpoints: seq<JobId>, endpoints': seq<JobId>)
    requires EndpointsHold(s, done, endpoints)
    requires NoDuplicates(endpoints')
    requires forall j :: j in endpoints' <==> j in endpoints || (j in cur && IsEndpoint(s, j))
    ensures EndpointsHold(s, done + Elements(cur), endpoints')
  {
  }

  lemma DomainsStep(s: Schedule, done: set<JobId>, cur: seq<JobId>,
                    left: map<JobId, nat>, top: map<JobId, int>, es: map<JobId, int>, ef: map<JobId, int>,
                    left': map<JobId, nat>, top': map<JobId, int>, es': map<JobId, int>, ef': map<JobId, int>)
    requires Domains(s, done, left, top, es, ef)
    requires RoundReady(s, done, cur) && forall j :: j in cur ==> j in s.ids
    requires left'.Keys == top'.Keys == es'.Keys == ef'.Keys == done + Elements(cur)
    ensures Domains(s, done + Elements(cur), left', top', es', ef')
  {
  }

  lemma TimesStep(s: Schedule, done: set<JobId>, cur: seq<JobId>,
                  left: map<JobId, nat>, top: map<JobId, int>, es: map<JobId, int>, ef: map<JobId, int>,
                  left': map<JobId, nat>, top': map<JobId, int>, es': map<JobId, int>, ef': map<JobId, int>)
    requires Domains(s, done, left, top, es, ef)
    requires TimesHold(s, done, left, top, es, ef)
    requires Domains(s, done + Elements(cur), left', top', es', ef')
    requires forall j :: j in done ==> es'[j] == es[j] && ef'[j] == ef[j]
    requires RoundReady(s, done, cur)
    requires forall j :: j in cur ==>
               es'[j] >= 0 && ef'[j] == es'[j] + s.Duration(j) && es'[j] == MaxFinish(s.Deps(j), ef)
    ensures TimesHold(s, done + Elements(cur), left', top', es', ef')
  {
    forall j | j in done + Elements(cur)
      ensures es'[j] >= 0 && ef'[j] == es'[j] + s.Duration(j) && es'[j] == MaxFinish(s.Deps(j), ef')
    {
      MaxFinishFrame(s.Deps(j), ef, ef');
    }
  }

  lemma PassedOverStep(s: Schedule, completed: seq<JobId>, done: set<JobId>, cur: seq<JobId>, round: nat,
                       left: map<JobId, nat>, left': map<JobId, nat>)
    requires done == Elements(completed)
    requires cur == Frontier(s, completed)
    requires LayerExtends(done, cur, round, left, left')
    ensures PassedOver(s, done + Elements(cur), left', round + 1)
  {
    var done' := done + Elements(cur);
    forall j | j in s.ids && j in s.jobs && j !in done'
      ensures exists d :: d in s.Deps(j) && (d !in done' || left'[d] + 1 == round + 1)
    {
      assert !Ready(s, completed, j);
      var d :| d in s.Deps(j) && d !in completed;
      assert d !in done;
    }
  }

  lemma CompletedGrows(s: Schedule, completed: seq<JobId>, cur: seq<JobId>, done: set<JobId>)
    requires NoDuplicates(s.ids)
    requires NoDuplicates(completed) && done == Elements(completed)
    requires cur == Frontier(s, completed)
    ensures NoDuplicates(completed + cur) && done + Elements(cur) == Elements(completed + cur)
    ensures NoDuplicates(cur)
  {
    var c := completed + cur;
    forall a, b | 0 <= a < b < |cur| ensures cur[a] != cur[b] {
      FilterKeepsOrder(s.ids, ReadyTest(s, completed), a, b);
    }
    forall a, b | 0 <= a < b < |c| ensures c[a] != c[b] {
      if b >= |completed| && a < |completed| {
        assert c[b] in cur && c[a] in completed;
      } else if a >= |completed| {
        assert c[a] == cur[a - |completed|] && c[b] == cur[b - |completed|];
      }
    }
  }

  /** The jobs of a round: none completed yet, every dependency completed. */
  ghost predicate RoundReady(s: Schedule, done: set<JobId>, cur: seq<JobId>)
  {
    forall j :: j in cur ==> j in s.jobs && j !in done && forall d :: d in s.Deps(j) ==> d in done
  }

  /** The jobs of a round, in schedule order. */
  ghost predicate InScheduleOrder(s: Schedule, cur: seq<JobId>) {
    && (forall j :: j in cur ==> j in s.ids)
    && (forall a, b :: 0 <= a < b < |cur| ==> IndexOf(s.ids, cur[a]) < IndexOf(s.ids, cur[b]))
  }

  /** Line 74: the round's jobs get layer `round`, the others keep theirs. */
  ghost predicate LayerExtends(done: set<JobId>, cur: seq<JobId>, round: nat,
                               left: map<JobId, nat>, left': map<JobId, nat>)
  {
    && left'.Keys == done + Elements(cur)
    && (forall k :: k in done ==> k in left && left'[k] == left[k])
    && (forall k :: k in cur ==> left'[k] == round)
  }

  lemma FrontierFacts(s: Schedule, completed: seq<JobId>, done: set<JobId>, cur: seq<JobId>)
    requires NoDuplicates(s.ids) && done == Elements(completed) && cur == Frontier(s, completed)
    ensures RoundReady(s, done, cur) && InScheduleOrder(s, cur)
  {
    forall a, b | 0 <= a < b < |cur| ensures IndexOf(s.ids, cur[a]) < IndexOf(s.ids, cur[b]) {
      FilterKeepsOrder(s.ids, ReadyTest(s, completed), a, b);
    }
  }

  lemma LayerExtendsByRound(done: set<JobId>, cur: seq<JobId>, round: nat,
                            left: map<JobId, nat>, left': map<JobId, nat>)
    requires left.Keys == done && forall k :: k in cur ==> k !in done
    requires left' == left + map j | j in cur :: round
    ensures LayerExtends(done, cur, round, left, left')
  {
  }

  lemma LayersStep(s: Schedule, done: set<JobId>, cur: seq<JobId>, round: nat,
                   left: map<JobId, nat>, top: map<JobId, int>, es: map<JobId, int>, ef: map<JobId, int>,
                   left': map<JobId, nat>, top': map<JobId, int>, es': map<JobId, int>, ef': map<JobId, int>)
    requires Domains(s, done, left, top, es, ef)
    requires forall j :: j in done ==> left[j] < round
    requires round == 0 ==> done == {}
    requires PassedOver(s, done, left, round)
    requires LayersHold(s, done, left, top, es, ef)
    requires RoundReady(s, done, cur)
    requires LayerExtends(done, cur, round, left, left')
    requires Domains(s, done + Elements(cur), left', top', es', ef')
    ensures LayersHold(s, done + Elements(cur), left', top', es', ef')
  {
    var done' := done + Elements(cur);
    forall j | j in done' ensures LayerEquation(s.Deps(j), left', left'[j]) {
      if j in done {
        LayerEarlier(s, done, cur, round, left, left', j);
      } else {
        LayerOfRound(s, done, cur, round, left, left', j);
      }
    }
  }

  lemma LayerEarlier(s: Schedule, done: set<JobId>, cur: seq<JobId>, round: nat,
                     left: map<JobId, nat>, left': map<JobId, nat>, j: JobId)
    requires j in done && j in s.jobs && forall d :: d in s.Deps(j) ==> d in done
    requires LayerExtends(done, cur, round, left, left')
    requires LayerEquation(s.Deps(j), left, left[j])
    ensures LayerEquation(s.Deps(j), left', left'[j])
  {
    assert forall d :: d in s.Deps(j) ==> left'[d] == left[d];
  }

  lemma LayerOfRound(s: Schedule, done: set<JobId>, cur: seq<JobId>, round: nat,
                     left: map<JobId, nat>, left': map<JobId, nat>, j: JobId)
    requires j in cur && j in s.ids && j in s.jobs && forall d :: d in s.Deps(j) ==> d in done
    requires forall k :: k in done ==> k in left && left[k] < round
    requires round == 0 ==> done == {}
    requires PassedOver(s, done, left, round)
    requires j !in done
    requires LayerExtends(done, cur, round, left, left')
    ensures LayerEquation(s.Deps(j), left', left'[j])
  {
    var deps := s.Deps(j);
    assert forall d :: d in deps ==> left'[d] == left[d] < round;
    if round == 0 {
      NoMembersIsEmpty(deps);
    } else {
      var d :| d in deps && (d !in done || left[d] + 1 == round);
    }
  }

  lemma RowsStep(s: Schedule, done: set<JobId>, cur: seq<JobId>, round: nat,
                 left: map<JobId, nat>, top: map<JobId, int>, es: map<JobId, int>, ef: map<JobId, int>,
                 left': map<JobId, nat>, top': map<JobId, int>, es': map<JobId, int>, ef': map<JobId, int>)
    requires Domains(s, done, left, top, es, ef)
    requires forall j :: j in done ==> left[j] < round
    requires RowsHold(s, done, left, top, es, ef)
    requires RoundReady(s, done, cur) && InScheduleOrder(s, cur)
    requires LayerExtends(done, cur, round, left, left')
    requires Domains(s, done + Elements(cur), left', top', es', ef')
    requires forall j :: j in done ==> top'[j] == top[j]
    requires forall m :: 0 <= m < |cur| ==>
               FirstFreeRow(AnchorOf(s.Deps(cur[m]), top), RowsUsedBefore(cur, top', m), top'[cur[m]])
    ensures RowsHold(s, done + Elements(cur), left', top', es', ef')
  {
    var done' := done + Elements(cur);
    forall j | j in done'
      ensures FirstFreeRow(AnchorOf(s.Deps(j), top'), RowsBefore(s, done', left', top', j), top'[j])
    {
      if j in done {
        RowStepEarlier(s, done, cur, round, left, top, left', top', j);
      } else {
        var m :| 0 <= m < |cur| && cur[m] == j;
        RowsBeforeInRound(s, cur, done, round, left, left', top', m);
        AnchorOfFrame(s.Deps(j), top, top');
      }
    }
  }

  lemma RowStepEarlier(s: Schedule, done: set<JobId>, cur: seq<JobId>, round: nat,
                       left: map<JobId, nat>, top: map<JobId, int>,
                       left': map<JobId, nat>, top': map<JobId, int>, j: JobId)
    requires j in done && j in s.ids && j in s.jobs
    requires left.Keys == done && top.Keys == done
    requires forall d :: d in s.Deps(j) ==> d in done
    requires forall k :: k in cur ==> k !in done
    requires forall k :: k in done ==> left[k] < round
    requires FirstFreeRow(AnchorOf(s.Deps(j), top), RowsBefore(s, done, left, top, j), top[j])
    requires LayerExtends(done, cur, round, left, left')
    requires top'.Keys == done + Elements(cur)
    requires forall k :: k in done ==> top'[k] == top[k]
    ensures FirstFreeRow(AnchorOf(s.Deps(j), top'), RowsBefore(s, done + Elements(cur), left', top', j), top'[j])
  {
    var deps := s.Deps(j);
    AnchorOfFrame(deps, top, top');
    RowsBeforeFrame(s, done, cur, round, left, top, left', top', j);
  }

  /** For an earlier job, the rows of its layer before it are those of before the round. */
  lemma RowsBeforeFrame(s: Schedule, done: set<JobId>, cur: seq<JobId>, round: nat,
                        left: map<JobId, nat>, top: map<JobId, int>,
                        left': map<JobId, nat>, top': map<JobId, int>, j: JobId)
    requires left.Keys == done && top.Keys == done && j in done && j in s.ids
    requires forall k :: k in cur ==> k !in done
    requires forall k :: k in done ==> left[k] < round
    requires LayerExtends(done, cur, round, left, left')
    requires top'.Keys == done + Elements(cur)
    requires forall k :: k in done ==> top'[k] == top[k]
    ensures RowsBefore(s, done + Elements(cur), left', top', j) == RowsBefore(s, done, left, top, j)
  {
    var a := RowsBefore(s, done + Elements(cur), left', top', j);
    var b := RowsBefore(s, done, left, top, j);
    forall v | v in a ensures v in b {
      var k :| k in done + Elements(cur) && k in s.ids && k in left' && k in top' &&
               left'[k] == left'[j] && IndexOf(s.ids, k) < IndexOf(s.ids, j) && top'[k] == v;
      assert k !in cur;
    }
  }

  /** For a job of the round, the rows of its layer before it are those the
      round's earlier jobs took. */
  lemma RowsBeforeInRound(s: Schedule, cur: seq<JobId>, done: set<JobId>, round: nat,
                          left: map<JobId, nat>, left': map<JobId, nat>, top': map<JobId, int>, m: nat)
    requires forall k :: k in done ==> k in left && left[k] < round
    requires forall k :: k in cur ==> k !in done
    requires InScheduleOrder(s, cur) && m < |cur|
    requires LayerExtends(done, cur, round, left, left')
    requires top'.Keys == done + Elements(cur)
    ensures cur[m] in s.ids && cur[m] in left'
    ensures RowsBefore(s, done + Elements(cur), left', top', cur[m]) == RowsUsedBefore(cur, top', m)
  {
    RowsBeforeOnlyRound(s, cur, done, round, left, left', top', m);
    RowsBeforeAllRound(s, cur, done, round, left, left', top', m);
  }

  lemma RowsBeforeOnlyRound(s: Schedule, cur: seq<JobId>, done: set<JobId>, round: nat,
                            left: map<JobId, nat>, left': map<JobId, nat>, top': map<JobId, int>, m: nat)
    requires forall k :: k in done ==> k in left && left[k] < round
    requires InScheduleOrder(s, cur) && m < |cur|
    requires LayerExtends(done, cur, round, left, left')
    requires top'.Keys == done + Elements(cur)
    ensures cur[m] in s.ids && cur[m] in left'
    ensures RowsBefore(s, done + Elements(cur), left', top', cur[m]) <= RowsUsedBefore(cur, top', m)
  {
    var j := cur[m];
    assert j in cur;
    forall v | v in RowsBefore(s, done + Elements(cur), left', top', j) ensures v in RowsUsedBefore(cur, top', m) {
      var k :| k in done + Elements(cur) && k in s.ids && k in left' && k in top' &&
               left'[k] == left'[j] && IndexOf(s.ids, k) < IndexOf(s.ids, j) && top'[k] == v;
      assert k !in done by {
        assert forall x :: x in done ==> left'[x] < round;
        assert left'[k] == round;
      }
      var n :| 0 <= n < |cur| && cur[n] == k;
      EarlierInRound(s, cur, n, m);
    }
  }

  /** In a round listed in schedule order, one job is earlier in the
      schedule than another exactly when it is earlier in the round. */
  lemma EarlierInRound(s: Schedule, cur: seq<JobId>, n: nat, m: nat)
    requires InScheduleOrder(s, cur) && n < |cur| && m < |cur|
    ensures IndexOf(s.ids, cur[n]) < IndexOf(s.ids, cur[m]) <==> n < m
  {
    if n < m {
      assert IndexOf(s.ids, cur[n]) < IndexOf(s.ids, cur[m]);
    } else if m < n {
      assert IndexOf(s.ids, cur[m]) < IndexOf(s.ids, cur[n]);
    }
  }

  lemma RowsBeforeAllRound(s: Schedule, cur: seq<JobId>, done: set<JobId>, round: nat,
                           left: map<JobId, nat>, left': map<JobId, nat>, top': map<JobId, int>, m: nat)
    requires InScheduleOrder(s, cur) && m < |cur|
    requires LayerExtends(done, cur, round, left, left')
    requires top'.Keys == done + Elements(cur)
    ensures cur[m] in s.ids && cur[m] in left'
    ensures RowsUsedBefore(cur, top', m) <= RowsBefore(s, done + Elements(cur), left', top', cur[m])
  {
    assert cur[m] in cur;
    forall v | v in RowsUsedBefore(cur, top', m) ensures v in RowsBefore(s, done + Elements(cur), left', top', cur[m]) {
      var n :| 0 <= n < m && top'[cur[n]] == v;
      assert cur[n] in cur;
    }
  }
}
