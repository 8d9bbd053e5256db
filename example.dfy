/** A worked schedule of ten jobs. X takes 15 and has no dependencies; A (15)
    needs X; B (40) and C (9999) need A; D (30) needs B; E (25) needs C;
    F (115) needs D and E; G (95) needs D; H (45) needs G; I (20) needs F and
    H. Every run of the scheduler on it accepts it, finds the makespan 10189,
    and marks exactly X, A, C, E, F and I critical. */
module Example {
  import opened Collections
  import opened Jobs
  import opened Validation
  import opened Forward
  import opened Backward
  import opened Critical
  import opened Pipeline

  /** The schedule document, in document order. */
  function Entries(): seq<Entry> {
    [ Entry("X", Some(15), []),
      Entry("A", Some(15), ["X"]),
      Entry("B", Some(40), ["A"]),
      Entry("C", Some(9999), ["A"]),
      Entry("D", Some(30), ["B"]),
      Entry("E", Some(25), ["C"]),
      Entry("F", Some(115), ["D", "E"]),
      Entry("G", Some(95), ["D"]),
      Entry("H", Some(45), ["G"]),
      Entry("I", Some(20), ["F", "H"]) ]
  }

  /** The ids of the document, in document order. */
  function ExampleIds(): seq<JobId> {
    ["X", "A", "B", "C", "D", "E", "F", "G", "H", "I"]
  }

  /** The dependencies of each job. */
  function DepsTable(): map<JobId, set<JobId>> {
    map["X" := {}, "A" := {"X"}, "B" := {"A"}, "C" := {"A"}, "D" := {"B"},
        "E" := {"C"}, "F" := {"D", "E"}, "G" := {"D"}, "H" := {"G"}, "I" := {"F", "H"}]
  }

  /** The duration of each job. */
  function Durations(): map<JobId, int> {
    map["X" := 15, "A" := 15, "B" := 40, "C" := 9999, "D" := 30,
        "E" := 25, "F" := 115, "G" := 95, "H" := 45, "I" := 20]
  }

  /** The jobs with no slack. */
  function CriticalSet(): set<JobId> {
    {"X", "A", "C", "E", "F", "I"}
  }

  /** `m` maps `j` to `v`. */
  predicate Has(m: map<JobId, int>, j: JobId, v: int) {
    j in m && m[j] == v
  }

  /** The validated form of the document: its ids, and the duration and the
      dependencies of each job, as the tables give them. */
  ghost predicate IsExample(s: Schedule) {
    && (forall j :: j in s.ids <==> j in DepsTable())
    && (forall j :: j in s.jobs <==> j in DepsTable())
    && (forall j :: j in s.jobs ==> j in Durations() && s.jobs[j].duration == Durations()[j])
    && (forall j, d :: j in s.jobs ==> (d in s.jobs[j].dependencies <==> d in DepsTable()[j]))
  }

  // ----- Validation -----

  lemma KeysOfEntries()
    ensures Keys(Entries()) == ExampleIds()
  {
  }

  lemma IdsDistinct()
    ensures NoDuplicates(ExampleIds())
  {
  }

  lemma NoSelfDependency()
    ensures forall e :: e in Entries() ==> e.id !in e.dependencies
  {
  }

  lemma SomeRoot()
    ensures exists e :: e in Entries() && e.dependencies == []
  {
    assert Entries()[0] in Entries();
  }

  lemma DependenciesExist()
    ensures forall e, d :: e in Entries() && d in e.dependencies ==> d in ExampleIds()
  {
  }

  lemma DurationsPositive()
    ensures forall e :: e in Entries() ==> e.duration.Some? && e.duration.value >= 1
  {
  }

  /** The invariants of a schedule document, one at a time. */
  lemma WellFormedByParts(raw: seq<Entry>, ids: seq<JobId>)
    requires Keys(raw) == ids && NoDuplicates(ids)
    requires forall e :: e in raw ==> e.id !in e.dependencies
    requires exists e :: e in raw && e.dependencies == []
    requires forall e, d :: e in raw && d in e.dependencies ==> d in ids
    requires forall e :: e in raw ==> e.duration.Some? && e.duration.value >= 1
    ensures WellFormedInput(raw)
  {
  }

  /** The document passes every check of lines 44-58. */
  lemma EntriesAccepted()
    ensures Violation(Entries()).None?
  {
    KeysOfEntries();
    IdsDistinct();
    NoSelfDependency();
    SomeRoot();
    DependenciesExist();
    DurationsPositive();
    WellFormedByParts(Entries(), ExampleIds());
    ViolationIffIllFormed(Entries());
  }

  /** An entry agrees with the tables. */
  ghost predicate EntryMatches(e: Entry) {
    && e.id in DepsTable() && e.id in Durations()
    && e.duration == Some(Durations()[e.id])
    && forall d :: d in e.dependencies <==> d in DepsTable()[e.id]
  }

  lemma EntriesMatchFirst()
    ensures forall i :: 0 <= i < 4 ==> EntryMatches(Entries()[i])
  {
    assert EntryMatches(Entries()[0]) && EntryMatches(Entries()[1]);
    assert EntryMatches(Entries()[2]) && EntryMatches(Entries()[3]);
  }

  lemma EntriesMatchMiddle()
    ensures forall i :: 4 <= i < 7 ==> EntryMatches(Entries()[i])
  {
    assert EntryMatches(Entries()[4]) && EntryMatches(Entries()[5]) && EntryMatches(Entries()[6]);
  }

  lemma EntriesMatchLast()
    ensures forall i :: 7 <= i < 10 ==> EntryMatches(Entries()[i])
  {
    assert EntryMatches(Entries()[7]) && EntryMatches(Entries()[8]) && EntryMatches(Entries()[9]);
  }

  /** Every entry of the document agrees with the tables. */
  lemma EntriesMatch()
    ensures forall i :: 0 <= i < |Entries()| ==> EntryMatches(Entries()[i])
  {
    EntriesMatchFirst();
    EntriesMatchMiddle();
    EntriesMatchLast();
  }

  /** Validating entries that agree with the tables, one per table key, gives
      the schedule of the tables. */
  lemma TableFromEntries(raw: seq<Entry>, s: Schedule)
    requires ValidatedFrom(raw, s)
    requires forall i :: 0 <= i < |raw| ==> EntryMatches(raw[i])
    requires forall j :: j in DepsTable() ==> j in Keys(raw)
    ensures IsExample(s)
  {
    forall j | j in s.jobs
      ensures j in DepsTable() && j in Durations() && s.jobs[j].duration == Durations()[j]
      ensures forall d :: d in s.jobs[j].dependencies <==> d in DepsTable()[j]
    {
      var i :| 0 <= i < |raw| && Keys(raw)[i] == j;
      assert EntryMatches(raw[i]);
      assert raw[i].id == j;
    }
  }

  /** Whatever validation makes of the document is the schedule of the tables. */
  lemma ValidatedIsExample(s: Schedule)
    requires ValidatedFrom(Entries(), s)
    ensures IsExample(s)
  {
    KeysOfEntries();
    EntriesMatch();
    TableFromEntries(Entries(), s);
  }

  /** The layer of each job: every dependency lies in a lower layer. */
  function Layers(): map<JobId, nat> {
    map["X" := 0, "A" := 1, "B" := 2, "C" := 2, "D" := 3, "E" := 3, "F" := 4, "G" := 4, "H" := 5, "I" := 6]
  }

  /** The schedule is acyclic, so the forward pass never reports a cycle. */
  lemma NeverStuck(s: Schedule, rem: seq<JobId>)
    requires IsExample(s)
    ensures !Stuck(s, rem)
  {
    RankedNeverStuck(s, Layers(), rem);
  }

  // ----- Forward pass -----

  /** Job `j` of `s` takes `dur` and depends on exactly the jobs `deps`. */
  ghost predicate JobIs(s: Schedule, j: JobId, dur: int, deps: set<JobId>) {
    j in s.ids && j in s.jobs && s.jobs[j].duration == dur && forall d :: d in s.jobs[j].dependencies <==> d in deps
  }

  /** The first five jobs of the schedule, one at a time. */
  ghost predicate ListedFirst(s: Schedule) {
    && JobIs(s, "X", 15, {}) && JobIs(s, "A", 15, {"X"}) && JobIs(s, "B", 40, {"A"})
    && JobIs(s, "C", 9999, {"A"}) && JobIs(s, "D", 30, {"B"})
  }

  /** The last five jobs of the schedule, one at a time. */
  ghost predicate ListedLast(s: Schedule) {
    && JobIs(s, "E", 25, {"C"}) && JobIs(s, "F", 115, {"D", "E"}) && JobIs(s, "G", 95, {"D"})
    && JobIs(s, "H", 45, {"G"}) && JobIs(s, "I", 20, {"F", "H"})
  }

  lemma JobsFirst(s: Schedule)
    requires IsExample(s)
    ensures ListedFirst(s)
  {
  }

  lemma JobsLast(s: Schedule)
    requires IsExample(s)
    ensures ListedLast(s)
  {
  }

  /** A job's early times from the early finishes of its dependencies `deps`. */
  lemma EarlyOf(s: Schedule, f: Forward, j: JobId, dur: int, deps: set<JobId>)
    requires EarlyAddsUp(s, f) && StartsTight(s, f) && JobIs(s, j, dur, deps)
    ensures j in f.earlyStart && j in f.earlyFinish
    ensures f.earlyFinish[j] == f.earlyStart[j] + dur
    ensures deps == {} ==> f.earlyStart[j] == 0
    ensures forall d :: d in deps ==> d in f.earlyFinish && f.earlyFinish[d] <= f.earlyStart[j]
    ensures deps != {} ==> exists d :: d in deps && d in f.earlyFinish && f.earlyFinish[d] == f.earlyStart[j]
  {
    if deps == {} {
      NoMembersIsEmpty(s.Deps(j));
    } else {
      var d0 :| d0 in deps;
      assert d0 in s.Deps(j);
    }
    forall d | d in deps ensures d in f.earlyFinish && f.earlyFinish[d] <= f.earlyStart[j] {
      assert d in s.Deps(j);
    }
  }

  /** A root starts at 0. */
  lemma EarlyRoot(s: Schedule, f: Forward, j: JobId, dur: int)
    requires EarlyAddsUp(s, f) && StartsTight(s, f) && JobIs(s, j, dur, {})
    ensures Has(f.earlyStart, j, 0) && Has(f.earlyFinish, j, dur)
  {
    EarlyOf(s, f, j, dur, {});
  }

  /** A job with one dependency starts when it finishes. */
  lemma EarlyAfter(s: Schedule, f: Forward, j: JobId, dur: int, a: JobId, va: int)
    requires EarlyAddsUp(s, f) && StartsTight(s, f) && JobIs(s, j, dur, {a})
    requires Has(f.earlyFinish, a, va)
    ensures Has(f.earlyStart, j, va) && Has(f.earlyFinish, j, va + dur)
  {
    EarlyOf(s, f, j, dur, {a});
  }

  /** A job with two dependencies starts when the later one finishes. */
  lemma EarlyAfterBoth(s: Schedule, f: Forward, j: JobId, dur: int, a: JobId, va: int, c: JobId, vc: int)
    requires EarlyAddsUp(s, f) && StartsTight(s, f) && JobIs(s, j, dur, {a, c})
    requires Has(f.earlyFinish, a, va) && Has(f.earlyFinish, c, vc)
    ensures Has(f.earlyStart, j, if va < vc then vc else va)
    ensures Has(f.earlyFinish, j, (if va < vc then vc else va) + dur)
  {
    EarlyOf(s, f, j, dur, {a, c});
  }

  /** The early times of the forward pass on the schedule. */
  predicate EarlyTimes(f: Forward) {
    && Has(f.earlyStart, "X", 0) && Has(f.earlyFinish, "X", 15)
    && Has(f.earlyStart, "A", 15) && Has(f.earlyFinish, "A", 30)
    && Has(f.earlyStart, "B", 30) && Has(f.earlyFinish, "B", 70)
    && Has(f.earlyStart, "C", 30) && Has(f.earlyFinish, "C", 10029)
    && Has(f.earlyStart, "D", 70) && Has(f.earlyFinish, "D", 100)
    && Has(f.earlyStart, "E", 10029) && Has(f.earlyFinish, "E", 10054)
    && Has(f.earlyStart, "F", 10054) && Has(f.earlyFinish, "F", 10169)
    && Has(f.earlyStart, "G", 100) && Has(f.earlyFinish, "G", 195)
    && Has(f.earlyStart, "H", 195) && Has(f.earlyFinish, "H", 240)
    && Has(f.earlyStart, "I", 10169) && Has(f.earlyFinish, "I", 10189)
  }

  /** The forward pass computes these early times. */
  lemma ForwardOnExample(s: Schedule, f: Forward)
    requires ListedFirst(s) && ListedLast(s) && EarlyAddsUp(s, f) && StartsTight(s, f)
    ensures EarlyTimes(f)
  {
    EarlyRoot(s, f, "X", 15);
    EarlyAfter(s, f, "A", 15, "X", 15);
    EarlyAfter(s, f, "B", 40, "A", 30);
    EarlyAfter(s, f, "C", 9999, "A", 30);
    EarlyAfter(s, f, "D", 30, "B", 70);
    EarlyAfter(s, f, "E", 25, "C", 10029);
    EarlyAfterBoth(s, f, "F", 115, "D", 100, "E", 10054);
    EarlyAfter(s, f, "G", 95, "D", 100);
    EarlyAfter(s, f, "H", 45, "G", 195);
    EarlyAfterBoth(s, f, "I", 20, "F", 10169, "H", 240);
  }

  /** With these early times the makespan is 10189. */
  lemma MakespanOfExample(s: Schedule, f: Forward)
    requires IsExample(s) && EarlyTimes(f)
    requires IsBiggestFinish(Elements(s.ids), f.earlyFinish, f.biggestEarlyFinish)
    ensures f.biggestEarlyFinish == 10189
  {
    assert "I" in Elements(s.ids);
  }

  // ----- Backward pass -----

  /** By the tables, the jobs that list `j` as a dependency are exactly `ds`. */
  ghost predicate TableDependents(j: JobId, ds: set<JobId>) {
    forall x :: x in DepsTable() && j in DepsTable()[x] <==> x in ds
  }

  lemma ReverseTableLast()
    ensures TableDependents("I", {}) && TableDependents("H", {"I"}) && TableDependents("F", {"I"})
    ensures TableDependents("G", {"H"}) && TableDependents("E", {"F"})
  {
  }

  lemma ReverseTableFirst()
    ensures TableDependents("D", {"F", "G"}) && TableDependents("C", {"E"}) && TableDependents("B", {"D"})
    ensures TableDependents("A", {"B", "C"}) && TableDependents("X", {"A"})
  {
  }

  /** The dependents of `j` are the ones the tables give. */
  lemma DependentsOfExample(s: Schedule, j: JobId, ds: set<JobId>)
    requires IsExample(s) && TableDependents(j, ds)
    ensures forall x :: x in Dependents(s, j) <==> x in ds
  {
  }

  /** Job `j`, which takes `dur`, starts early at `es` and has the dependents
      `ds`, has the late times the backward pass promises. */
  ghost predicate LateRel(f: Forward, b: Backward, j: JobId, dur: int, es: int, ds: set<JobId>) {
    && j in b.lateFinish && j in b.lateStart && j in b.slack
    && b.lateStart[j] == b.lateFinish[j] - dur
    && b.slack[j] == b.lateStart[j] - es
    && (ds == {} ==> b.lateFinish[j] == f.biggestEarlyFinish)
    && (forall x :: x in ds ==> x in b.lateStart && b.lateFinish[j] <= b.lateStart[x])
    && (ds != {} ==> exists x :: x in ds && x in b.lateStart && b.lateFinish[j] == b.lateStart[x])
  }

  /** The late times of one job of the schedule. */
  lemma LateOf(s: Schedule, f: Forward, b: Backward, j: JobId, dur: int, es: int, ds: set<JobId>)
    requires IsExample(s) && EarlyAddsUp(s, f) && BackwardSpec(s, f, b)
    requires j in s.ids && j in s.jobs && s.jobs[j].duration == dur && Has(f.earlyStart, j, es)
    requires TableDependents(j, ds)
    ensures LateRel(f, b, j, dur, es, ds)
  {
    DependentsOfExample(s, j, ds);
    assert b.slack[j] >= 0;
    var dn := Dependents(s, j);
    forall x | x in dn ensures x in b.lateStart && b.lateStart[x] >= 1 {
      assert j in s.Deps(x) && b.slack[x] >= 0;
    }
    SoonestIsLeast(dn, b.lateStart);
    if ds == {} {
      NoMembersIsEmpty(dn);
    } else {
      var x0 :| x0 in ds;
      assert x0 in dn;
    }
  }

  /** A job nothing depends on finishes late at the makespan. */
  lemma LateEnd(f: Forward, b: Backward, j: JobId, dur: int, es: int)
    requires LateRel(f, b, j, dur, es, {})
    ensures Has(b.lateStart, j, f.biggestEarlyFinish - dur)
    ensures Has(b.slack, j, f.biggestEarlyFinish - dur - es)
  {
  }

  /** A job with one dependent finishes late when that one starts late. */
  lemma LateBefore(f: Forward, b: Backward, j: JobId, dur: int, es: int, a: JobId, va: int)
    requires LateRel(f, b, j, dur, es, {a}) && Has(b.lateStart, a, va)
    ensures Has(b.lateStart, j, va - dur) && Has(b.slack, j, va - dur - es)
  {
  }

  /** A job with two dependents finishes late when the earlier one starts late. */
  lemma LateBeforeBoth(f: Forward, b: Backward, j: JobId, dur: int, es: int, a: JobId, va: int, c: JobId, vc: int)
    requires LateRel(f, b, j, dur, es, {a, c}) && Has(b.lateStart, a, va) && Has(b.lateStart, c, vc)
    ensures Has(b.lateStart, j, (if va < vc then va else vc) - dur)
    ensures Has(b.slack, j, (if va < vc then va else vc) - dur - es)
  {
    assert b.lateFinish[j] <= va && b.lateFinish[j] <= vc;
  }

  /** The late starts and slacks of the last five jobs. */
  predicate LateTimesLast(b: Backward) {
    && Has(b.lateStart, "I", 10169) && Has(b.slack, "I", 0)
    && Has(b.lateStart, "H", 10124) && Has(b.slack, "H", 9929)
    && Has(b.lateStart, "F", 10054) && Has(b.slack, "F", 0)
    && Has(b.lateStart, "G", 10029) && Has(b.slack, "G", 9929)
    && Has(b.lateStart, "E", 10029) && Has(b.slack, "E", 0)
  }

  /** The late starts and slacks of the first five jobs. */
  predicate LateTimesFirst(b: Backward) {
    && Has(b.lateStart, "D", 9999) && Has(b.slack, "D", 9929)
    && Has(b.lateStart, "C", 30) && Has(b.slack, "C", 0)
    && Has(b.lateStart, "B", 9959) && Has(b.slack, "B", 9929)
    && Has(b.lateStart, "A", 15) && Has(b.slack, "A", 0)
    && Has(b.lateStart, "X", 0) && Has(b.slack, "X", 0)
  }

  /** I, the only endpoint, finishes late at 10189; H, F, G and E follow. */
  lemma BackwardLast(s: Schedule, f: Forward, b: Backward)
    requires IsExample(s) && ListedLast(s) && EarlyAddsUp(s, f) && EarlyTimes(f) && f.biggestEarlyFinish == 10189
    requires BackwardSpec(s, f, b)
    ensures LateTimesLast(b)
  {
    ReverseTableLast();
    LateOf(s, f, b, "I", 20, 10169, {});
    LateEnd(f, b, "I", 20, 10169);
    LateOf(s, f, b, "H", 45, 195, {"I"});
    LateBefore(f, b, "H", 45, 195, "I", 10169);
    LateOf(s, f, b, "F", 115, 10054, {"I"});
    LateBefore(f, b, "F", 115, 10054, "I", 10169);
    LateOf(s, f, b, "G", 95, 100, {"H"});
    LateBefore(f, b, "G", 95, 100, "H", 10124);
    LateOf(s, f, b, "E", 25, 10029, {"F"});
    LateBefore(f, b, "E", 25, 10029, "F", 10054);
  }

  /** Each of D, C, B, A and X finishes late when its earliest dependent
      must start. */
  lemma BackwardFirst(s: Schedule, f: Forward, b: Backward)
    requires IsExample(s) && ListedFirst(s) && EarlyAddsUp(s, f) && EarlyTimes(f)
    requires BackwardSpec(s, f, b) && LateTimesLast(b)
    ensures LateTimesFirst(b)
  {
    ReverseTableFirst();
    LateOf(s, f, b, "D", 30, 70, {"F", "G"});
    LateBeforeBoth(f, b, "D", 30, 70, "F", 10054, "G", 10029);
    LateOf(s, f, b, "C", 9999, 30, {"E"});
    LateBefore(f, b, "C", 9999, 30, "E", 10029);
    LateOf(s, f, b, "B", 40, 30, {"D"});
    LateBefore(f, b, "B", 40, 30, "D", 9999);
    LateOf(s, f, b, "A", 15, 15, {"B", "C"});
    LateBeforeBoth(f, b, "A", 15, 15, "B", 9959, "C", 30);
    LateOf(s, f, b, "X", 15, 0, {"A"});
    LateBefore(f, b, "X", 15, 0, "A", 15);
  }

  /** Exactly X, A, C, E, F and I have no slack. */
  lemma CriticalOfExample(s: Schedule, b: Backward)
    requires IsExample(s) && LateTimesLast(b) && LateTimesFirst(b)
    ensures forall j :: j in s.ids ==> (IsCriticalJob(b, j) <==> j in CriticalSet())
  {
    forall j | j in s.ids ensures IsCriticalJob(b, j) <==> j in CriticalSet() {
      assert j in DepsTable();
    }
  }

  // ----- The whole run -----

  /** Every run on the document finds the makespan 10189 and these early and
      late times, and marks exactly X, A, C, E, F and I critical. */
  lemma ExampleResult(s: Schedule, f: Forward, b: Backward)
    requires ValidatedFrom(Entries(), s) && ForwardSpec(s, f) && BackwardSpec(s, f, b)
    ensures f.biggestEarlyFinish == 10189
    ensures EarlyTimes(f) && LateTimesLast(b) && LateTimesFirst(b)
    ensures forall j :: j in s.ids ==> (IsCriticalJob(b, j) <==> j in CriticalSet())
  {
    ValidatedIsExample(s);
    JobsFirst(s);
    JobsLast(s);
    EarlyAddsUpHolds(s, f);
    StartsTightHolds(s, f);
    ForwardOnExample(s, f);
    MakespanOfExample(s, f);
    BackwardLast(s, f, b);
    BackwardFirst(s, f, b);
    CriticalOfExample(s, b);
  }

  /** The whole run on the document succeeds, with the makespan and the
      critical jobs above. */
  method RunExample() returns (makespan: int, critical: seq<JobId>)
    ensures makespan == 10189
    ensures forall j :: j in critical <==> j in CriticalSet()
  {
    EntriesAccepted();
    var r := MakeSchedule(Entries());
    if r.Err? {
      forall s | ValidatedFrom(Entries(), s) ensures !Stuck(s, r.error.remaining) {
        ValidatedIsExample(s);
        NeverStuck(s, r.error.remaining);
      }
      assert false;
    }
    var plan := r.value;
    ExampleResult(plan.schedule, plan.forward, plan.late);
    makespan := plan.forward.biggestEarlyFinish;
    critical := Filter(plan.schedule.ids, j => IsCriticalJob(plan.late, j));
  }
}
