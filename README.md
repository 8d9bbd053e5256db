# CPM scheduling engine of make_diagram.rb, in Dafny

`make_diagram.rb` loads a schedule, a map from job ids to a duration and a
list of dependencies. It validates the schedule and then runs a
critical-path computation over it. After that it prints a PERT-style HTML
diagram. This project models that computation and proves what it promises.

- **Validation (lines 43-58).** Six fail-fast checks run in the order of the
  source:
  1. duplicate ids;
  2. a job that depends on itself;
  3. de-duplication of every dependency list (Ruby's `uniq!`);
  4. at least one root;
  5. dependencies that are not jobs, listing every offender;
  6. durations that are missing or below 1, listing every offender.
- **Forward pass (lines 60-100).** It works in rounds. Each round takes every
  job whose dependencies are all completed. The round index is the job's
  layer (`left`). Each job gets a row (`top`) by the outward row search. Its
  early start is the largest early finish among its dependencies, and its
  early finish adds its duration. The pass also tracks the largest early
  finish and the endpoints. An empty round while jobs remain aborts with a
  cycle error.
- **Row normalisation (lines 101-103).** When the lowest row is negative,
  every row moves down by its absolute value.
- **Backward pass (lines 105-133).** The endpoints finish late at the
  makespan. Then, round by round, every job that no unfinished job depends on
  is finalised. Its late finish is the smallest late start among its
  dependents, its late start is the late finish less its duration, and its
  slack is the late start less its early start.
- **Criticality (lines 9 and 209).** A job is critical when its slack is 0. A
  connector is drawn dark when both of its ends are critical.

The modules follow that structure:

- `Collections` holds Ruby's `select`, `detect` and `delete` over ordered key lists.
- `Jobs` holds the entities and errors.
- `Validation` holds the six checks.
- `Rows` holds the row search and normalisation.
- `Forward` and `Backward` hold the two passes.
- `Critical` holds the critical-path theorem.
- `Example` runs the whole computation on a ten-job schedule: X (15) with no
  dependencies; A (15) after X; B (40) and C (9999) after A; D (30) after B;
  E (25) after C; F (115) after D and E; G (95) after D; H (45) after G; I (20)
  after F and H. Every run accepts it, finds the makespan 10189 and marks
  exactly X, A, C, E, F and I critical.
- `Pipeline` runs everything in the source's order.

The passes are `while` loops over explicit state. Each is proved against a
specification predicate (`ForwardSpec`, `BackwardSpec`). The loop bodies are
proved against recursive functions that fold the per-job step (`PlaceAll`,
`FinishAll`).

Some facts are proved beyond what the source checks:

- The backward pass's abort (line 117) can never be reached.
- The 0 sentinel of the scan on lines 124-127 never misfires: a job with
  dependents finishes late at the smallest of their late starts
  (`Backward.LateFinishIsSmallest`).
- No slack is negative.
- Some chain of critical jobs, linked by dark connectors, runs from a root to
  a job finishing at the makespan. Its durations add up to the makespan.

Where the surrounding text and the code disagree, the model follows the code:

- The anchor row of line 82 is the row of the LAST listed dependency that has
  a row. The comment on line 79 speaks of the "lowest" parent.
- The checks are fail-fast: the first failing check aborts the run.
- With no job free of dependencies, as in an A→B→A cycle, the run aborts at
  check 4 ("no root") before the forward pass can report a cycle.

## Model

| member | source | states |
|---|---|---|
| Collections.Filter | make_diagram.rb:69 | `select` over an ordered key list: an element is in the result exactly when it is in the list and passes the test |
| Collections.FilterKeepsOrder | make_diagram.rb:69 | the selection keeps the relative order of a list without repetitions |
| Collections.Detect | make_diagram.rb:45 | `detect`: none exactly when no element passes, otherwise the first element that passes |
| Collections.Without | make_diagram.rb:121 | `delete` on the unfinished list: exactly the other elements remain |
| Jobs.Dependents | make_diagram.rb:125 | the dependents of a job: exactly the jobs of the schedule that list it as a dependency |
| Jobs.NoDependentsIsEndpoint | make_diagram.rb:98 | the endpoint test (no job lists the job) holds exactly when the job has no dependents |
| Validation.Keys | make_diagram.rb:45 | the ids of the entries in order (`@schedule.keys`): position by position the entries' ids, and an id is listed exactly when some entry has it |
| Validation.FirstDuplicate | make_diagram.rb:45-46 | check 1: no result exactly when the ids are distinct, otherwise an id that occurs more than once |
| Validation.FirstSelfDependent | make_diagram.rb:48 | check 2: no result exactly when no job lists itself, otherwise a job that does |
| Validation.MissingDependencyJobs | make_diagram.rb:54-55 | check 5: exactly the jobs that have a dependency which is not a job id |
| Validation.InvalidDurationJobs | make_diagram.rb:57-58 | check 6: exactly the jobs whose duration is absent or below 1 |
| Validation.Dedup | make_diagram.rb:50 | `uniq!`: the result has no repetitions and the same members, and keeps the order of first occurrences |
| Validation.DeduplicateAll | make_diagram.rb:50 | every dependency list is replaced by its de-duplication; ids and durations are kept |
| Validation.DeduplicationKeepsFilters | make_diagram.rb:50-58 | checks 4 to 6 give the same answers on the de-duplicated lists as on the loaded ones |
| Validation.RemainingChecks | make_diagram.rb:50-58 | after checks 1 and 2 pass, checks 4 to 6 on the de-duplicated lists decide the error of the whole validation |
| Validation.Violation | make_diagram.rb:44-58 | the error of the first failing check in the source's order (duplicate id, self-dependency, no root, missing dependencies, invalid durations), none when all pass; Validation.ViolationIffIllFormed ties it to the well-formedness predicate |
| Validation.ViolationIffIllFormed | make_diagram.rb:44-58 | the checks pass exactly when the ids are distinct, no job depends on itself, some job is a root, every dependency is a job and every duration is at least 1 |
| Validation.BuiltScheduleValid | make_diagram.rb:43-58 | the schedule built from accepted input meets every schedule invariant and keeps each job's duration and de-duplicated dependencies |
| Validation.Validate | make_diagram.rb:43-58 | fails exactly when a check fails, with the first failing check's error; on success yields a valid schedule with the loaded ids in order, each job's duration and its de-duplicated dependency list |
| Forward.Remaining | make_diagram.rb:67 | the loop condition's list: exactly the ids not yet completed |
| Forward.Frontier | make_diagram.rb:69 | a round's jobs: exactly the uncompleted jobs whose dependencies are all completed |
| Forward.StuckWhenNoFrontier | make_diagram.rb:70 | when the frontier is empty, every remaining job waits for another remaining job |
| Forward.RankedNeverStuck | make_diagram.rb:70 | when a rank strictly increases along every dependency (no cycle), no set of jobs is stuck, so the abort is never reached |
| Forward.MaxFinish | make_diagram.rb:93 | the running maximum of line 93 over the dependencies that have an early finish, starting from 0; Forward.MaxFinishBounds and Forward.MaxFinishIsLargest state what it yields |
| Forward.MaxFinishBounds | make_diagram.rb:92-93 | the early-start scan is 0 or the early finish of a dependency, and no dependency finishes later |
| Forward.MaxFinishIsLargest | make_diagram.rb:92-93 | when every dependency has a positive early finish, the scan is the largest early finish among the dependencies, and 0 for a root |
| Forward.MaxFinishFrame | make_diagram.rb:93 | the early start depends only on the early finishes of the job's own dependencies |
| Forward.EarlyStartOf | make_diagram.rb:92-93 | the loop of line 93 computes the running-maximum scan |
| Forward.PlaceJob | make_diagram.rb:78-98 | one pass of the loop body: the first free row around the anchor, the early start from the scan, the early finish one duration later, the biggest early finish, the endpoint test and the rows used |
| Forward.PlaceAll | make_diagram.rb:77-99 | the round's loop as a fold of PlaceJob over the round's jobs in order; Forward.PlaceAllPlaced states what each job gets |
| Forward.PlaceNext | make_diagram.rb:78-98 | the loop body for one job computes one step of the round fold: row, early start, early finish, biggest early finish, endpoint, rows used |
| Forward.PlaceRound | make_diagram.rb:77-99 | the round loop computes the fold of the per-job step over the round's jobs in order |
| Forward.PlaceAllPlaced | make_diagram.rb:77-99 | after a round, earlier jobs keep their values; each round job takes the first free row of its layer around its anchor, starts at its dependencies' largest early finish and finishes its duration later; the biggest finish and the endpoints take in the round |
| Forward.ForwardPass | make_diagram.rb:60-100 | either aborts with a cycle error naming a stuck set of remaining jobs, or completes every job once: the layer is 0 for roots and one more than the deepest dependency; every dependency has a smaller layer; the row is the first free one in probe order around the anchor; ES = max EF of the dependencies and EF = ES + duration; the biggest early finish is the largest EF; the endpoints are exactly the jobs nothing depends on |
| Rows.FirstFreeRowIsFirstInProbeOrder | make_diagram.rb:84-88 | the row predicate holds exactly when the row is free and every earlier row of the probe order anchor, anchor+1, anchor-1, … is used |
| Rows.FirstFreeRowUnique | make_diagram.rb:84-88 | at most one row is the first free one |
| Rows.FirstFreeRowShift | make_diagram.rb:84-88 | moving the anchor and the used rows by the same amount moves the chosen row by that amount |
| Rows.FreeRowFrom | make_diagram.rb:84-88 | the search from a given offset, with every row nearer the anchor used, yields the first free row in probe order |
| Rows.FreeRow | make_diagram.rb:80-88 | the search terminates with the first free row in probe order |
| Rows.FindRow | make_diagram.rb:80-88 | the `while true` search returns that row, which is not among the rows used in the layer |
| Rows.AnchorOf | make_diagram.rb:82 | the anchor of line 82: the row of the last listed dependency that has a row, 0 when none has (proved in Rows.AnchorOfIsLastPlaced) |
| Rows.AnchorOfIsLastPlaced | make_diagram.rb:82 | the anchor is the row of the last listed dependency that has a row, and 0 when none has |
| Rows.AnchorOfFrame | make_diagram.rb:82 | the anchor depends only on the rows of the job's dependencies |
| Rows.AnchorOfAllPlaced | make_diagram.rb:82 | when every dependency has a row, the anchor is the row of the last one |
| Rows.AnchorRow | make_diagram.rb:82 | the `each` of line 82 computes that anchor |
| Rows.LowestRow | make_diagram.rb:102 | `min_by`: a row of some job, no larger than any job's row |
| Rows.ShiftRows | make_diagram.rb:103 | every job's row moves by the shift; no job is added or removed |
| Rows.NormalizeRows | make_diagram.rb:101-103 | the same jobs; every row moves by the absolute value of the lowest row when that is negative and is left alone otherwise; every row ends at least 0, some row is 0 after a shift, and differences between rows are preserved |
| Backward.Soonest | make_diagram.rb:124-127 | the scan over the dependents in schedule order with 0 standing for "none yet"; Backward.SoonestIsLeast and Backward.SentinelNeedsPositiveStarts state when it yields the smallest late start |
| Backward.SoonestIsLeast | make_diagram.rb:124-127 | when every dependent's late start is at least 1, the scan with its 0 sentinel yields the smallest late start among the dependents |
| Backward.SentinelNeedsPositiveStarts | make_diagram.rb:126 | with a dependent whose late start is 0 the sentinel misfires: the scan yields a value that is not the smallest |
| Backward.LateFinishIsSmallest | make_diagram.rb:124-127 | after both passes every dependent of a job starts late at 1 or later, so the job's late finish is the smallest late start among its dependents: the sentinel never misfires |
| Backward.SoonestFrame | make_diagram.rb:125-127 | the scan reads only the dependents' late starts |
| Backward.SoonestLateStart | make_diagram.rb:124-127 | the loop of lines 125-127 computes the scan |
| Backward.LateFrontier | make_diagram.rb:116 | a round's jobs: exactly the unfinished jobs that no unfinished job lists as a dependency |
| Backward.LateFrontierNonEmpty | make_diagram.rb:116-117 | after the forward pass, a non-empty unfinished set always has a job in its frontier, so the abort of line 117 is never taken |
| Backward.SeedEndpoints | make_diagram.rb:106-110 | exactly the endpoints get late finish = biggest early finish, late start = late finish − duration and slack = late start − early start |
| Backward.FinishJob | make_diagram.rb:119-131 | one job of a round: a job that has a late finish is only removed; any other gets lf from the dependents' scan, ls = lf − duration, slack = ls − es, and is removed |
| Backward.FinishAll | make_diagram.rb:118-132 | the round's `each` as a fold of FinishJob over the round's jobs in order |
| Backward.FinishNext | make_diagram.rb:119-131 | one job of a round: an endpoint is only removed; another job gets its late times from its dependents and is removed |
| Backward.FinishRound | make_diagram.rb:118-132 | the round's `each` computes the fold of the per-job step over the round's jobs in order |
| Backward.EndpointsAreSinks | make_diagram.rb:98 | the endpoints the forward pass collected are exactly the jobs without dependents |
| Backward.NewLateFinish | make_diagram.rb:124-130 | a job finalised in a round finishes late no earlier than its early finish and before the makespan |
| Backward.BackwardPass | make_diagram.rb:105-133 | every job gets late times: endpoints finish late at the makespan, any other job at the smallest late start among its dependents (stated outright, not only as the sentinel scan); ls = lf − duration, slack = ls − es; no slack is negative and no late finish exceeds the makespan |
| Critical.IsCriticalJob | make_diagram.rb:9 | a job is critical exactly when its slack is 0 |
| Critical.IsCriticalEdge | make_diagram.rb:209 | a connector from a dependency into a job is dark exactly when both ends have slack 0 |
| Critical.MakespanJob | make_diagram.rb:96 | a job finishing at the makespan exists; it has slack 0 and finishes late at the makespan |
| Critical.CriticalDependency | make_diagram.rb:9 | a dependency whose early finish is the early start of a critical job is critical |
| Critical.StartsTightHolds | make_diagram.rb:92-94 | a root starts at 0; any other job starts when one of its dependencies finishes |
| Critical.CriticalChainTo | make_diagram.rb:209 | every critical job ends a chain of critical jobs from a root, linked by dark connectors, whose durations add up to its early finish |
| Critical.CriticalPathExists | make_diagram.rb:9 | after both passes some critical chain from a root has durations adding up to the makespan, and some job finishes late at the makespan |
| Pipeline.MakeSchedule | make_diagram.rb:43-133 | the run aborts with the first failing check's error, or with a cycle error naming a stuck set of jobs; otherwise the plan meets the specifications of validation, the forward pass, normalisation and the backward pass, and holds a critical chain that reaches the makespan |
| Example.EntriesAccepted | make_diagram.rb:44-58 | the ten-job document passes every check |
| Example.ValidatedIsExample | make_diagram.rb:43-58 | whatever validation makes of the document has the document's ids, durations and dependencies |
| Example.NeverStuck | make_diagram.rb:69-70 | the ten-job schedule is acyclic, so the forward pass never reports a cycle |
| Example.EarlyOf | make_diagram.rb:92-95 | a job of the example starts early at 0 without dependencies, otherwise at the largest early finish among them, and finishes after its duration |
| Example.ForwardOnExample | make_diagram.rb:92-95 | the early starts and finishes of the ten jobs: X 0/15, A 15/30, B 30/70, C 30/10029, D 70/100, E 10029/10054, F 10054/10169, G 100/195, H 195/240, I 10169/10189 |
| Example.MakespanOfExample | make_diagram.rb:96 | the biggest early finish of the example is 10189 |
| Example.LateOf | make_diagram.rb:106-130 | a job of the example with no dependents finishes late at the makespan, any other at the smallest late start of its dependents |
| Example.BackwardLast | make_diagram.rb:105-133 | late starts I 10169, H 10124, F 10054, G 10029, E 10029, with slacks 0, 9929, 0, 9929, 0 |
| Example.BackwardFirst | make_diagram.rb:118-133 | late starts D 9999, C 30, B 9959, A 15, X 0, with slacks 9929, 0, 9929, 0, 0 |
| Example.CriticalOfExample | make_diagram.rb:9 | exactly X, A, C, E, F and I have slack 0 |
| Example.ExampleResult | make_diagram.rb:43-133 | every run that accepts the document finds the makespan 10189 and the early and late times above, and exactly X, A, C, E, F and I are critical |
| Example.RunExample | make_diagram.rb:43-133 | the run on the document succeeds with makespan 10189 and the critical jobs X, A, C, E, F and I |

## Left out

- Loading `data.yaml` and printing the HTML page (lines 6-39 and 135-221) are not modelled, nor is `diagram.js`. A run takes the loaded entries as a list and yields the computed plan.
- The display-only `description` field and the pixel spacing of `left` and `top` (line 14) are left out.
- The loaded schedule is a list of entries in document order. Ruby's hash iteration order is this document order.
- Validation.FirstDuplicate: in the source `@schedule` is a Hash, whose keys are distinct (a YAML mapping with a repeated key keeps one entry), so check 1 (lines 45-46) can never fire there. The model's input of a list with a repeated id, and its `DuplicateJob` error, have no counterpart in the source; on every input the source can load, the model passes check 1 too.
- Extra keys a document may give a job (`late_finish`, `late_start`, `slack`, `top`, `left`, `early_start`, `early_finish`) are assumed absent. The source's attribute hashes are the loaded ones, shared by the shallow `dup` of line 113, so line 120 would keep a pre-filled `late_finish` of a job that is not an endpoint and skip its computation; Backward.FinishJob treats "has a late finish" as "is an endpoint".
- Durations are integers. Fractional durations are not modelled.
- A job without a `dependencies` key makes the source fail on `nil`. The model always gives a job a list, empty by default.
- Forward.ForwardPass: the cycle error carries the remaining ids. The source's message does not list them.
- Backward.BackwardPass: it has no error result. The abort of line 117 is proved unreachable (Backward.LateFrontierNonEmpty) instead.
- Backward.FinishRound: it requires every dependent of the round's jobs to have a late start already. The source would compare with `nil` otherwise, and the pass never meets that case.
- The quadratic rescans of the source are kept as rescans. Running time is not modelled.
