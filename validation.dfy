/** The validator (make_diagram.rb:43-58): six checks applied in order to
    the loaded schedule; the first that fails aborts the run. */
module Validation {
  import opened Collections
  import opened Jobs

  /** The ids of the entries `raw`, in order (`@schedule.keys` when `raw` is
      the whole document). */
  function Keys(raw: seq<Entry>): (ks: seq<JobId>)
    ensures |ks| == |raw| && forall i :: 0 <= i < |raw| ==> ks[i] == raw[i].id
    ensures forall k :: k in ks <==> exists e :: e in raw && e.id == k
  {
    var ks := seq(|raw|, i requires 0 <= i < |raw| => raw[i].id);
    assert forall k :: k in ks ==> exists e :: e in raw && e.id == k by {
      forall k | k in ks ensures exists e :: e in raw && e.id == k {
        var i :| 0 <= i < |ks| && ks[i] == k;
        assert raw[i] in raw;
      }
    }
    assert forall e :: e in raw ==> e.id in ks by {
      forall e | e in raw ensures e.id in ks {
        var i :| 0 <= i < |raw| && raw[i] == e;
        assert ks[i] == e.id;
      }
    }
    ks
  }

  // ----- The per-job conditions of the checks -----

  predicate SelfDependent(e: Entry) {
    e.id in e.dependencies
  }

  predicate IsRoot(e: Entry) {
    e.dependencies == []
  }

  predicate HasMissingDependency(e: Entry, keys: seq<JobId>) {
    exists d :: d in e.dependencies && d !in keys
  }

  predicate HasInvalidDuration(e: Entry) {
    e.duration.None? || e.duration.value < 1
  }

  // ----- The checks, as the source's detect/select queries -----

  /** Check 1 (line 45): the first key that occurs more than once. */
  function FirstDuplicate(raw: seq<Entry>): (r: Option<JobId>)
    ensures r.None? <==> NoDuplicates(Keys(raw))
    ensures r.Some? ==> Repeated(Keys(raw), r.value)
  {
    var ks := Keys(raw);
    var r := Detect(ks, k => Repeated(ks, k));
    if r.None? then
      NoRepeatedIsDistinct(ks);
      r
    else
      DistinctCount(ks);
      r
  }

  /** `k` occurs more than once in `ks` (Ruby's `count(k) > 1`). */
  predicate Repeated(ks: seq<JobId>, k: JobId) {
    multiset(ks)[k] > 1
  }

  lemma NoRepeatedIsDistinct(ks: seq<JobId>)
    requires forall i :: 0 <= i < |ks| ==> !Repeated(ks, ks[i])
    ensures NoDuplicates(ks)
  {
    forall i, j | 0 <= i < j < |ks| ensures ks[i] != ks[j] {
      if ks[i] == ks[j] {
        RepeatedCount(ks, i, j);
      }
    }
  }

  lemma RepeatedCount(ks: seq<JobId>, i: nat, j: nat)
    requires i < j < |ks| && ks[i] == ks[j]
    ensures multiset(ks)[ks[i]] > 1
  {
    assert ks == ks[..j] + ks[j..];
    assert ks[i] in ks[..j] && ks[j] in ks[j..];
    assert multiset(ks)[ks[i]] == multiset(ks[..j])[ks[i]] + multiset(ks[j..])[ks[i]];
  }

  lemma {:induction false} DistinctCount(ks: seq<JobId>)
    ensures NoDuplicates(ks) ==> forall k :: !Repeated(ks, k)
  {
    if ks != [] && NoDuplicates(ks) {
      var ks' := ks[..|ks| - 1];
      assert NoDuplicates(ks');
      DistinctCount(ks');
      var last := ks[|ks| - 1];
      assert ks == ks' + [last];
      assert multiset(ks) == multiset(ks') + multiset{last};
      assert last !in ks';
      assert multiset(ks')[last] == 0;
      forall k ensures !Repeated(ks, k) {
        assert !Repeated(ks', k);
      }
    }
  }

  /** Check 2 (line 48): the first job that lists itself as a dependency. */
  function FirstSelfDependent(raw: seq<Entry>): (r: Option<JobId>)
    ensures r.None? <==> forall e :: e in raw ==> !SelfDependent(e)
    ensures r.Some? ==> exists e :: e in raw && SelfDependent(e) && e.id == r.value
  {
    match Detect(raw, SelfDependent)
    case None => None
    case Some(e) => Some(e.id)
  }

  /** Check 5 (lines 54-55): every job with a dependency that is not a key. */
  function MissingDependencyJobs(es: seq<Entry>, keys: seq<JobId>): (r: seq<JobId>)
    ensures forall k :: k in r <==> exists e :: e in es && e.id == k && HasMissingDependency(e, keys)
  {
    Keys(Filter(es, e => HasMissingDependency(e, keys)))
  }

  /** Check 6 (lines 57-58): every job whose duration is absent or below 1. */
  function InvalidDurationJobs(es: seq<Entry>): (r: seq<JobId>)
    ensures forall k :: k in r <==> exists e :: e in es && e.id == k && HasInvalidDuration(e)
  {
    Keys(Filter(es, HasInvalidDuration))
  }

  /** The error of the first failing check, none when every check passes.
      Checks 4 to 6 run on the deduplicated lists in the source; they give
      the same answers on the lists as loaded (lemma DeduplicationKeepsChecks). */
  function Violation(raw: seq<Entry>): Option<Error> {
    if FirstDuplicate(raw).Some? then Some(DuplicateJob(FirstDuplicate(raw).value))
    else if FirstSelfDependent(raw).Some? then Some(SelfDependency(FirstSelfDependent(raw).value))
    else if Filter(raw, IsRoot) == [] then Some(NoRootJob)
    else if MissingDependencyJobs(raw, Keys(raw)) != [] then
      Some(MissingDependencies(MissingDependencyJobs(raw, Keys(raw))))
    else if InvalidDurationJobs(raw) != [] then Some(InvalidDurations(InvalidDurationJobs(raw)))
    else None
  }

  /** A loaded schedule meets the invariants of a schedule: unique ids, no
      self-dependency, a root, no dangling dependency, durations of at least 1. */
  ghost predicate WellFormedInput(raw: seq<Entry>) {
    && NoDuplicates(Keys(raw))
    && (forall e :: e in raw ==> e.id !in e.dependencies)
    && (exists e :: e in raw && e.dependencies == [])
    && (forall e, d :: e in raw && d in e.dependencies ==> d in Keys(raw))
    && (forall e :: e in raw ==> e.duration.Some? && e.duration.value >= 1)
  }

  /** The checks reject exactly the inputs that break an invariant. */
  lemma ViolationIffIllFormed(raw: seq<Entry>)
    ensures Violation(raw).None? <==> WellFormedInput(raw)
  {
    if Violation(raw).None? {
      NoViolationIsWellFormed(raw);
    } else if WellFormedInput(raw) {
      WellFormedHasNoViolation(raw);
    }
  }

  lemma NoViolationIsWellFormed(raw: seq<Entry>)
    requires Violation(raw).None?
    ensures WellFormedInput(raw)
  {
    assert FirstDuplicate(raw).None? && FirstSelfDependent(raw).None?;
    assert exists e :: e in raw && e.dependencies == [] by {
      var rs := Filter(raw, IsRoot);
      assert rs != [] && rs[0] in rs;
    }
    assert forall e, d :: e in raw && d in e.dependencies ==> d in Keys(raw) by {
      var m := MissingDependencyJobs(raw, Keys(raw));
      assert m == [];
      forall e, d | e in raw && d in e.dependencies ensures d in Keys(raw) {
        assert e.id !in m;
      }
    }
    assert forall e :: e in raw ==> e.duration.Some? && e.duration.value >= 1 by {
      var v := InvalidDurationJobs(raw);
      assert v == [];
      forall e | e in raw ensures e.duration.Some? && e.duration.value >= 1 {
        assert e.id !in v;
      }
    }
  }

  lemma WellFormedHasNoViolation(raw: seq<Entry>)
    requires WellFormedInput(raw)
    ensures Violation(raw).None?
  {
    var root :| root in raw && root.dependencies == [];
    assert FirstDuplicate(raw).None?;
    assert FirstSelfDependent(raw).None?;
    assert Filter(raw, IsRoot) != [] by {
      assert root in Filter(raw, IsRoot);
    }
    assert MissingDependencyJobs(raw, Keys(raw)) == [] by {
      var m := MissingDependencyJobs(raw, Keys(raw));
      assert forall e :: e in raw ==> !HasMissingDependency(e, Keys(raw));
      NoMembersIsEmpty(m);
    }
    assert InvalidDurationJobs(raw) == [] by {
      var v := InvalidDurationJobs(raw);
      assert forall e :: e in raw ==> !HasInvalidDuration(e);
      NoMembersIsEmpty(v);
    }
  }

  // ----- Check 3: de-duplication of each dependency list (line 50) -----

  /** `u` is `s` with repetitions removed, first occurrences kept in order
      (Ruby's `uniq!`). */
  ghost predicate IsDeduplication(s: seq<JobId>, u: seq<JobId>) {
    && NoDuplicates(u)
    && (forall x :: x in u <==> x in s)
    && (forall i, j :: 0 <= i < j < |u| ==> u[i] in s && u[j] in s && IndexOf(s, u[i]) < IndexOf(s, u[j]))
  }

  /** `uniq!` on one dependency list. */
  method Dedup(s: seq<JobId>) returns (u: seq<JobId>)
    ensures NoDuplicates(u)
    ensures forall x :: x in u <==> x in s
    ensures forall i, j :: 0 <= i < j < |u| ==> u[i] in s && u[j] in s && IndexOf(s, u[i]) < IndexOf(s, u[j])
  {
    u := [];
    var n := 0;
    while n < |s|
      invariant n <= |s|
      invariant NoDuplicates(u)
      invariant forall x :: x in u <==> x in s[..n]
      invariant forall i :: 0 <= i < |u| ==> u[i] in s && IndexOf(s, u[i]) < n
      invariant forall i, j :: 0 <= i < j < |u| ==> IndexOf(s, u[i]) < IndexOf(s, u[j])
    {
      assert s[..n + 1] == s[..n] + [s[n]];
      if s[n] !in u {
        assert s[n] !in s[..n];
        assert IndexOf(s, s[n]) == n;
        u := u + [s[n]];
      }
      n := n + 1;
    }
    assert s[..n] == s;
  }

  /** Two entry lists that agree on ids and durations and whose dependency
      lists have the same members. */
  ghost predicate SameUpToDeduplication(a: seq<Entry>, b: seq<Entry>) {
    && |a| == |b|
    && forall i :: 0 <= i < |a| ==>
         && a[i].id == b[i].id && a[i].duration == b[i].duration
         && (forall d :: d in a[i].dependencies <==> d in b[i].dependencies)
  }

  lemma {:induction false} DeduplicationKeepsFilters(a: seq<Entry>, b: seq<Entry>, keys: seq<JobId>)
    requires SameUpToDeduplication(a, b)
    ensures Keys(Filter(a, IsRoot)) == Keys(Filter(b, IsRoot))
    ensures |Filter(a, IsRoot)| == |Filter(b, IsRoot)|
    ensures MissingDependencyJobs(a, keys) == MissingDependencyJobs(b, keys)
    ensures InvalidDurationJobs(a) == InvalidDurationJobs(b)
  {
    if a != [] {
      assert SameUpToDeduplication(a[1..], b[1..]) by {
        forall i | 0 <= i < |a| - 1 ensures a[1..][i] == a[i + 1] && b[1..][i] == b[i + 1] { }
      }
      DeduplicationKeepsFilters(a[1..], b[1..], keys);
      assert IsRoot(a[0]) <==> IsRoot(b[0]) by {
        if a[0].dependencies != [] {
          assert a[0].dependencies[0] in b[0].dependencies;
        }
        if b[0].dependencies != [] {
          assert b[0].dependencies[0] in a[0].dependencies;
        }
      }
      assert HasMissingDependency(a[0], keys) <==> HasMissingDependency(b[0], keys);
      assert Filter(a, IsRoot) == (if IsRoot(a[0]) then [a[0]] else []) + Filter(a[1..], IsRoot);
      assert Filter(b, IsRoot) == (if IsRoot(b[0]) then [b[0]] else []) + Filter(b[1..], IsRoot);
      KeysAppend(if IsRoot(a[0]) then [a[0]] else [], Filter(a[1..], IsRoot));
      KeysAppend(if IsRoot(b[0]) then [b[0]] else [], Filter(b[1..], IsRoot));
      var pa := (e: Entry) => HasMissingDependency(e, keys);
      assert Filter(a, pa) == (if pa(a[0]) then [a[0]] else []) + Filter(a[1..], pa);
      assert Filter(b, pa) == (if pa(b[0]) then [b[0]] else []) + Filter(b[1..], pa);
      KeysAppend(if pa(a[0]) then [a[0]] else [], Filter(a[1..], pa));
      KeysAppend(if pa(b[0]) then [b[0]] else [], Filter(b[1..], pa));
      assert Filter(a, HasInvalidDuration) == (if HasInvalidDuration(a[0]) then [a[0]] else []) + Filter(a[1..], HasInvalidDuration);
      assert Filter(b, HasInvalidDuration) == (if HasInvalidDuration(b[0]) then [b[0]] else []) + Filter(b[1..], HasInvalidDuration);
      KeysAppend(if HasInvalidDuration(a[0]) then [a[0]] else [], Filter(a[1..], HasInvalidDuration));
      KeysAppend(if HasInvalidDuration(b[0]) then [b[0]] else [], Filter(b[1..], HasInvalidDuration));
    }
  }

  lemma KeysAppend(x: seq<Entry>, y: seq<Entry>)
    ensures Keys(x + y) == Keys(x) + Keys(y)
  {
    assert forall i :: 0 <= i < |x + y| ==> Keys(x + y)[i] == (Keys(x) + Keys(y))[i];
  }

  /** Check 3 over the whole schedule: `uniq!` on every dependency list. */
  method DeduplicateAll(raw: seq<Entry>) returns (entries: seq<Entry>)
    ensures |entries| == |raw|
    ensures forall i :: 0 <= i < |raw| ==>
              && entries[i].id == raw[i].id && entries[i].duration == raw[i].duration
              && IsDeduplication(raw[i].dependencies, entries[i].dependencies)
    ensures DeduplicatedFrom(raw, entries)
  {
    entries := raw;
    var n := 0;
    while n < |entries|
      invariant n <= |entries| == |raw|
      invariant forall i :: 0 <= i < |raw| ==> entries[i].id == raw[i].id && entries[i].duration == raw[i].duration
      invariant forall i :: 0 <= i < n ==> IsDeduplication(raw[i].dependencies, entries[i].dependencies)
      invariant forall i :: n <= i < |raw| ==> entries[i] == raw[i]
    {
      var u := Dedup(entries[n].dependencies);
      entries := entries[n := entries[n].(dependencies := u)];
      n := n + 1;
    }
  }

  /** The validator. Runs the checks in the source's order, de-duplicates every
      dependency list in place (check 3) and, when every check passes, yields
      the schedule the passes work on. */
  method Validate(raw: seq<Entry>) returns (r: Result<Schedule>)
    ensures r.Err? <==> Violation(raw).Some?
    ensures r.Err? ==> r.error == Violation(raw).value
    ensures r.Ok? ==> r.value.Valid() && r.value.ids == Keys(raw)
    ensures r.Ok? ==> forall e :: e in raw ==>
              && e.id in r.value.jobs
              && Some(r.value.jobs[e.id].duration) == e.duration
              && IsDeduplication(e.dependencies, r.value.jobs[e.id].dependencies)
  {
    // 1. duplicate ids
    var dup := FirstDuplicate(raw);
    if dup.Some? {
      return Err(DuplicateJob(dup.value));
    }
    // 2. self-dependency
    var self := FirstSelfDependent(raw);
    if self.Some? {
      return Err(SelfDependency(self.value));
    }
    // 3. de-duplicate every dependency list
    var entries := DeduplicateAll(raw);
    RemainingChecks(raw, entries);
    // 4. at least one root
    if Filter(entries, IsRoot) == [] {
      return Err(NoRootJob);
    }
    // 5. dependencies that are not jobs
    var missing := MissingDependencyJobs(entries, Keys(entries));
    if missing != [] {
      return Err(MissingDependencies(missing));
    }
    // 6. durations
    var invalid := InvalidDurationJobs(entries);
    if invalid != [] {
      return Err(InvalidDurations(invalid));
    }
    BuiltScheduleValid(raw, entries);
    r := Ok(Build(entries));
  }

  /** After checks 1 and 2 pass, the remaining checks on the de-duplicated
      entries decide the outcome. */
  lemma RemainingChecks(raw: seq<Entry>, entries: seq<Entry>)
    requires FirstDuplicate(raw).None? && FirstSelfDependent(raw).None?
    requires DeduplicatedFrom(raw, entries)
    ensures Keys(entries) == Keys(raw)
    ensures Violation(raw) ==
      if Filter(entries, IsRoot) == [] then Some(NoRootJob)
      else if MissingDependencyJobs(entries, Keys(entries)) != [] then
        Some(MissingDependencies(MissingDependencyJobs(entries, Keys(entries))))
      else if InvalidDurationJobs(entries) != [] then Some(InvalidDurations(InvalidDurationJobs(entries)))
      else None
  {
    SameMembers(raw, entries);
    DeduplicationKeepsFilters(entries, raw, Keys(raw));
    assert Keys(entries) == Keys(raw);
  }

  lemma SameMembers(raw: seq<Entry>, entries: seq<Entry>)
    requires DeduplicatedFrom(raw, entries)
    ensures SameUpToDeduplication(entries, raw)
  {
  }

  /** The de-duplicated entries of a well-formed input. */
  ghost predicate DeduplicatedFrom(raw: seq<Entry>, entries: seq<Entry>) {
    && |entries| == |raw|
    && forall i :: 0 <= i < |raw| ==>
         && entries[i].id == raw[i].id && entries[i].duration == raw[i].duration
         && IsDeduplication(raw[i].dependencies, entries[i].dependencies)
  }

  /** The schedule built from the de-duplicated entries of a well-formed input
      meets the schedule invariants. */
  lemma BuiltScheduleValid(raw: seq<Entry>, entries: seq<Entry>)
    requires Violation(raw).None? && DeduplicatedFrom(raw, entries)
    ensures Keys(entries) == Keys(raw)
    ensures NoDuplicates(Keys(entries)) && forall e :: e in entries ==> e.duration.Some?
    ensures Build(entries).Valid() && Build(entries).ids == Keys(raw)
    ensures forall e :: e in raw ==>
              && e.id in Build(entries).jobs
              && Some(Build(entries).jobs[e.id].duration) == e.duration
              && IsDeduplication(e.dependencies, Build(entries).jobs[e.id].dependencies)
  {
    ViolationIffIllFormed(raw);
    assert Keys(entries) == Keys(raw);
    forall e | e in entries ensures e.duration.Some? {
      var i :| 0 <= i < |entries| && entries[i] == e;
      assert raw[i] in raw;
    }
    var s := Build(entries);
    forall j | j in s.jobs ensures s.JobValid(j) {
      BuiltJobValid(raw, entries, j);
    }
    BuiltHasRoot(raw, entries);
    forall e | e in raw
      ensures e.id in s.jobs
      ensures Some(s.jobs[e.id].duration) == e.duration
      ensures IsDeduplication(e.dependencies, s.jobs[e.id].dependencies)
    {
      var k :| 0 <= k < |raw| && raw[k] == e;
      assert entries[k] in entries;
    }
  }

  lemma BuiltJobValid(raw: seq<Entry>, entries: seq<Entry>, j: JobId)
    requires WellFormedInput(raw) && DeduplicatedFrom(raw, entries)
    requires Keys(entries) == Keys(raw)
    requires forall e :: e in entries ==> e.duration.Some?
    requires j in Build(entries).jobs
    ensures Build(entries).JobValid(j)
  {
    var s := Build(entries);
    var i :| 0 <= i < |entries| && Keys(entries)[i] == j;
    assert raw[i] in raw && entries[i] in entries;
    assert s.jobs[j] == Job(entries[i].duration.value, entries[i].dependencies);
    forall d | d in s.jobs[j].dependencies ensures d in s.jobs {
      assert d in raw[i].dependencies;
    }
  }

  lemma BuiltHasRoot(raw: seq<Entry>, entries: seq<Entry>)
    requires WellFormedInput(raw) && DeduplicatedFrom(raw, entries)
    requires Keys(entries) == Keys(raw)
    requires forall e :: e in entries ==> e.duration.Some?
    ensures exists j :: j in Build(entries).jobs && Build(entries).jobs[j].dependencies == []
  {
    var root :| root in raw && root.dependencies == [];
    var i :| 0 <= i < |raw| && raw[i] == root;
    assert entries[i] in entries;
    NoMembersIsEmpty(entries[i].dependencies);
    assert Build(entries).jobs[entries[i].id].dependencies == [];
  }

  /** The job record of a checked entry. */
  function JobOf(e: Entry): Job
    requires e.duration.Some?
  {
    Job(e.duration.value, e.dependencies)
  }

  /** The schedule of a checked entry list: ids in order, one job per id. */
  function Build(entries: seq<Entry>): (s: Schedule)
    requires NoDuplicates(Keys(entries))
    requires forall e :: e in entries ==> e.duration.Some?
    ensures s.ids == Keys(entries)
    ensures forall e :: e in entries ==> e.id in s.jobs && s.jobs[e.id] == Job(e.duration.value, e.dependencies)
    ensures forall j :: j in s.jobs <==> j in s.ids
  {
    var ks := Keys(entries);
    var jobs := map k | k in ks :: JobOf(entries[IndexOf(ks, k)]);
    assert forall e :: e in entries ==> e.id in jobs && jobs[e.id] == Job(e.duration.value, e.dependencies) by {
      forall e | e in entries ensures e.id in jobs && jobs[e.id] == Job(e.duration.value, e.dependencies) {
        var i :| 0 <= i < |entries| && entries[i] == e;
        assert ks[i] == e.id;
        IndexOfDistinct(ks, i);
      }
    }
    Schedule(ks, jobs)
  }
}
