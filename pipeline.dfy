/** The whole run of make_diagram.rb up to the page it prints: validate the
    loaded schedule (lines 43-58), the forward pass (lines 60-100), the row
    normalisation (lines 101-103) and the backward pass (lines 105-133). */
module Pipeline {
  import opened Collections
  import opened Jobs
  import opened Rows
  import opened Validation
  import opened Forward
  import opened Backward
  import opened Critical

  /** What a run computes for a schedule it accepts: the validated schedule,
      the forward pass's results with the rows as it placed them, the rows
      after normalisation and the late times. */
  datatype Plan = Plan(schedule: Schedule, forward: Forward, top: map<JobId, int>, late: Backward)

  /** `s` is what validation makes of the loaded entries `raw`: the same ids in
      document order, the same durations, every dependency list de-duplicated. */
  ghost predicate ValidatedFrom(raw: seq<Entry>, s: Schedule) {
    && s.Valid()
    && s.ids == Keys(raw)
    && forall i :: 0 <= i < |raw| ==>
         && raw[i].id in s.jobs
         && Some(s.jobs[raw[i].id].duration) == raw[i].duration
         && IsDeduplication(raw[i].dependencies, s.jobs[raw[i].id].dependencies)
  }

  /** `top'` is `top` after line 103: every row moved down by the absolute
      value of the lowest row when that is negative, and left alone otherwise. */
  ghost predicate RowsNormalized(ids: seq<JobId>, top: map<JobId, int>, top': map<JobId, int>) {
    && ids != []
    && (forall j :: j in ids ==> j in top)
    && top'.Keys == top.Keys
    && (forall j :: j in top ==>
          top'[j] == top[j] + (if LowestRow(ids, top) < 0 then -LowestRow(ids, top) else 0))
    && (forall j :: j in top' ==> top'[j] >= 0)
  }

  /** A run: it aborts with the first failing check's error, with a cycle
      error when the forward pass gets stuck, and otherwise yields the plan,
      whose late times make some chain of critical jobs from a root reach the
      makespan. */
  method MakeSchedule(raw: seq<Entry>) returns (r: Result<Plan>)
    ensures Violation(raw).Some? ==> r == Err(Violation(raw).value)
    ensures Violation(raw).None? && r.Err? ==>
              && r.error.CyclicDependency?
              && exists s :: ValidatedFrom(raw, s) && Stuck(s, r.error.remaining)
    ensures r.Ok? ==>
              && Violation(raw).None?
              && ValidatedFrom(raw, r.value.schedule)
              && ForwardSpec(r.value.schedule, r.value.forward)
              && RowsNormalized(r.value.schedule.ids, r.value.forward.top, r.value.top)
              && BackwardSpec(r.value.schedule, r.value.forward, r.value.late)
    ensures r.Ok? ==>
              exists p :: IsCriticalChain(r.value.schedule, r.value.forward, r.value.late, p) &&
                          TotalDuration(r.value.schedule, p) == r.value.forward.biggestEarlyFinish
  {
    var v := Validate(raw);
    if v.Err? {
      return Err(v.error);
    }
    var s := v.value;
    assert ValidatedFrom(raw, s) by {
      forall i | 0 <= i < |raw| ensures raw[i] in raw { }
    }
    var fw := ForwardPass(s);
    if fw.Err? {
      return Err(fw.error);
    }
    var f := fw.value;
    var top := NormalizeRows(s.ids, f.top);
    var late := BackwardPass(s, f);
    CriticalPathExists(s, f, late);
    r := Ok(Plan(s, f, top, late));
  }
}
