/** The data model of the scheduler: the jobs as loaded from the schedule
    document, the validated schedule the passes work on, and the errors that
    abort the run. */
module Jobs {
  import opened Collections

  type JobId = string

  /** One entry of the loaded schedule document, in document order. The
      duration may be absent; the display-only description is not modelled. */
  datatype Entry = Entry(id: JobId, duration: Option<int>, dependencies: seq<JobId>)

  /** A job of a validated schedule. */
  datatype Job = Job(duration: int, dependencies: seq<JobId>)

  /** A validated schedule: the job ids in document order (the iteration order
      of the source's hash) and the job record of each id. */
  datatype Schedule = Schedule(ids: seq<JobId>, jobs: map<JobId, Job>) {

    /** The invariants validation establishes. */
    ghost predicate Valid() {
      && NoDuplicates(ids)
      && (forall j :: j in jobs <==> j in ids)
      && (forall j :: j in jobs ==> JobValid(j))
      && (exists j :: j in jobs && jobs[j].dependencies == [])
    }

    ghost predicate JobValid(j: JobId)
      requires j in jobs
    {
      && jobs[j].duration >= 1
      && NoDuplicates(jobs[j].dependencies)
      && j !in jobs[j].dependencies
      && (forall d :: d in jobs[j].dependencies ==> d in jobs)
    }

    function Deps(j: JobId): seq<JobId>
      requires j in jobs
    {
      jobs[j].dependencies
    }

    function Duration(j: JobId): int
      requires j in jobs
    {
      jobs[j].duration
    }
  }

  /** Why a run aborts. */
  datatype Error =
    | DuplicateJob(id: JobId)
    | SelfDependency(id: JobId)
    | NoRootJob
    | MissingDependencies(offenders: seq<JobId>)
    | InvalidDurations(offenders: seq<JobId>)
    | CyclicDependency(remaining: seq<JobId>)

  datatype Result<+T> = Ok(value: T) | Err(error: Error)

  /** The jobs among `xs` that list `job` as a dependency, in the order of
      `xs` (the source's `select { ... dependencies.include?(job) }`). */
  function DependentsIn(s: Schedule, xs: seq<JobId>, job: JobId): (r: seq<JobId>)
    ensures forall x {:trigger x in r} :: x in r <==> x in xs && x in s.jobs && job in s.jobs[x].dependencies
    ensures |r| <= |xs|
  {
    Filter(xs, x => x in s.jobs && job in s.jobs[x].dependencies)
  }

  /** The dependents of `job` over the whole schedule. */
  function Dependents(s: Schedule, job: JobId): (r: seq<JobId>)
    ensures forall x {:trigger x in r} :: x in r <==> x in s.ids && x in s.jobs && job in s.jobs[x].dependencies
  {
    DependentsIn(s, s.ids, job)
  }

  /** An endpoint (sink): a job that no job of the schedule lists as a dependency. */
  ghost predicate IsEndpoint(s: Schedule, job: JobId) {
    forall x :: x in s.ids && x in s.jobs ==> job !in s.jobs[x].dependencies
  }

  /** The source's test for an endpoint, an empty list of dependents, is
      exactly IsEndpoint. */
  lemma NoDependentsIsEndpoint(s: Schedule, job: JobId)
    ensures Dependents(s, job) == [] <==> IsEndpoint(s, job)
  {
    var r := Dependents(s, job);
    if r != [] {
      assert r[0] in r;
    } else {
      forall x | x in s.ids && x in s.jobs ensures job !in s.jobs[x].dependencies {
        assert x !in r;
      }
    }
    NoMembersIsEmpty(r);
  }
}
