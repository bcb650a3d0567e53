# Employee service: reporting-structure count, modelled in Dafny

This project models the employee service of the Mindex code challenge
(`EmployeeServiceImpl`). The service keeps employee records and compensation
records in two repositories. It offers create, read and update for employees,
and create and read for compensations. Its one algorithm is the
reporting-structure query. That query reads an employee and counts the
employee's direct and indirect reports with a breadth-first traversal. Each
subordinate entry is resolved through the repository, because nested entries
are often stubs that carry only an identifier. Identifiers are de-duplicated,
and the traversal carries on past references it cannot resolve.

Modules, one file each:

- `Wrappers` (`wrappers.dfy`): `Option` stands for Java's `null`. `Result`
  stands for the `RuntimeException` the service throws for an unknown id.
- `Data` (`data.dfy`): `Employee` (every field nullable; the direct reports are
  a nullable list of nullable `Employee` entries), `Compensation`, `Date`
  (the epoch milliseconds a `java.util.Date` wraps), `ReportingStructure` and
  `ServiceError`.
- `ReportingGraph` (`reporting_graph.dfy`): the reference meaning of "all
  reports". The repository is a `map<string, Employee>`. `ResolvableIds`
  gives the ids of a list of entries that the traversal can count. `Closure`
  is the least set of ids that contains the root's resolvable direct reports
  and holds the resolvable direct reports of each of its members.
  `ReportCount` is the size of that set. Lemmas show that the closure is
  closed, that it is the least closed set, and that it is exactly the set of
  ids reachable along reporting chains. Further lemmas show that the count
  ignores the order of the root's direct reports and of every stored record's
  direct reports, ignores dangling references, and is 0 without direct
  reports. `ReportCount` itself never exceeds the size of the store.
- `EmployeeServiceImpl` (`employee_service.dfy`):
  - `Read` and `ReadCompensation` are lookups that fail on an absent key.
  - `CountEmployeeReports` is the traversal as a `while` loop over a queue and
    a set of counted ids. It is proved to return `ReportCount`.
  - The class `EmployeeService` holds both repositories as map fields.
    `Create`, `Update` and `CreateCompensation` change them, and
    `EmployeeReports` only reads them.
- `Scenarios` (`scenarios.dfy`): concrete hierarchies and the counts they
  yield. These are the Mario and Peach cases of the application test, a chain,
  a diamond, dangling references, and a cycle through the root.
  `ReportsThroughService` states the application test's Mario and Peach
  sequence as a verified method on the `EmployeeService` class.

The root employee is never put into the set of counted ids before the
traversal starts. So, when the hierarchy has a cycle back to the root, the
root is counted as one of its own reports. `CycleCountsTheRoot` keeps that
behaviour. In the diamond in which a manages b and c, and both list x, the
count for a is 3: b, c and x are counted and a is not.

Each repository is keyed by employee id. The repository finds an employee by
matching the record's `employeeId` field, so the record stored under `k` has
id `k` (`WellKeyed`). Because of this, the id the traversal adds to its
counted set (the resolved record's id) is the id it checked in the queue
entry. The loop's termination measure is the pair (store ids not yet counted,
queue length), compared lexicographically. A counting step shrinks the first
component. A skipping step keeps the first and shrinks the second.

## Model

| member | source | states |
|---|---|---|
| `EmployeeServiceImpl.Read` | src/main/java/com/mindex/challenge/service/impl/EmployeeServiceImpl.java:42-52 | succeeds exactly when the id is a key of the store, and then returns the stored record, whose own employeeId is the id looked up when the store is well keyed; otherwise fails with InvalidEmployeeId(id) |
| `EmployeeServiceImpl.ReadCompensation` | src/main/java/com/mindex/challenge/service/impl/EmployeeServiceImpl.java:83-93 | succeeds exactly when a compensation is stored for that employee id, and then returns it, and (the repository being keyed by embedded id) that compensation embeds an employee with exactly that id; otherwise fails with InvalidCompensationId(id) |
| `EmployeeServiceImpl.CompensationsKeyed` | src/main/java/com/mindex/challenge/service/impl/EmployeeServiceImpl.java:86 | each compensation is stored under the id of the employee it embeds, as the lookup matches that field; so no compensation record answers for two employees |
| `EmployeeServiceImpl.CountEmployeeReports` | src/main/java/com/mindex/challenge/service/impl/EmployeeServiceImpl.java:96-136 | the traversal terminates, even on cyclic or diamond-shaped hierarchies, and returns ReportCount: the number of distinct stored ids reachable from the root's direct reports; the result is at most the size of the store; loop invariants: count equals the size of the counted-id set, counted ids are store keys, and everything counted or queued is a report |
| `EmployeeServiceImpl.SkipStep` | src/main/java/com/mindex/challenge/service/impl/EmployeeServiceImpl.java:105-131 | dequeuing a null entry, an entry with a null or empty id, an already counted id, or an id that read cannot resolve changes neither the count nor the counted set, and keeps the traversal invariant |
| `EmployeeServiceImpl.CountStep` | src/main/java/com/mindex/challenge/service/impl/EmployeeServiceImpl.java:115-126 | counting a newly resolved id and queueing that record's direct reports keeps the invariant, raises the counted set's size by exactly one, and strictly shrinks the set of uncounted store ids (the termination measure) |
| `EmployeeServiceImpl.TraversalDone` | src/main/java/com/mindex/challenge/service/impl/EmployeeServiceImpl.java:104-135 | when the queue is empty, the counted ids are exactly the reachable reports, and there are no more of them than records in the store |
| `EmployeeServiceImpl.EmployeeService.Create` | src/main/java/com/mindex/challenge/service/impl/EmployeeServiceImpl.java:32-39 | stores the record under the fresh id with only its employeeId changed; reading that id back returns it; every other record and every compensation is unchanged |
| `EmployeeServiceImpl.EmployeeService.Update` | src/main/java/com/mindex/challenge/service/impl/EmployeeServiceImpl.java:55-59 | full replace: reading the record's id afterwards returns exactly the given record, and reading any other id returns what it returned before |
| `EmployeeServiceImpl.EmployeeService.EmployeeReports` | src/main/java/com/mindex/challenge/service/impl/EmployeeServiceImpl.java:62-73 | fails with InvalidEmployeeId exactly when the root id is unknown; for a known root it never fails and pairs the stored record with its ReportCount |
| `EmployeeServiceImpl.EmployeeService.CreateCompensation` | src/main/java/com/mindex/challenge/service/impl/EmployeeServiceImpl.java:75-81 | stores the compensation under its embedded employee id; reading that id back returns the same salary and effective date; employees are unchanged |
| `ReportingGraph.WellKeyed` | src/main/java/com/mindex/challenge/service/impl/EmployeeServiceImpl.java:45 | the store holds each record under its own employeeId, as a lookup by that field finds it; so identifiers are unique: no record is stored under two keys |
| `ReportingGraph.UsableId` | src/main/java/com/mindex/challenge/service/impl/EmployeeServiceImpl.java:106-110 | defines the entry test of lines 106-110: a queue entry yields its employeeId to resolve only when the entry is non-null and the id is non-null and non-empty (its consequences are proved in ResolvableIdsMembers, SkipStep and CountStep) |
| `ReportingGraph.DirectReports` | src/main/java/com/mindex/challenge/service/impl/EmployeeServiceImpl.java:97-99 | defines the null-list-as-empty reading of lines 97 and 124 (its consequence for the count is proved in ReportCountWithoutDirectReports) |
| `ReportingGraph.ResolvableIds` | src/main/java/com/mindex/challenge/service/impl/EmployeeServiceImpl.java:106-115 | the ids the traversal can count from a list of entries are store keys and never the empty id |
| `ReportingGraph.Subordinates` | src/main/java/com/mindex/challenge/service/impl/EmployeeServiceImpl.java:124-126 | the direct reports queued after resolving a record contribute only store keys |
| `ReportingGraph.Successors` | src/main/java/com/mindex/challenge/service/impl/EmployeeServiceImpl.java:104-126 | one round of expansion covers the resolvable direct reports of every member and stays within the store |
| `ReportingGraph.Closure` | src/main/java/com/mindex/challenge/service/impl/EmployeeServiceImpl.java:101-133 | the reachable ids contain the starting ids and are store keys |
| `ReportingGraph.ReportCount` | src/main/java/com/mindex/challenge/service/impl/EmployeeServiceImpl.java:96-136 | 0 for a null root; otherwise the number of ids in the Closure of the root's resolvable direct reports; never more than the number of stored employees |
| `ReportingGraph.ResolvableIdsAppend` | src/main/java/com/mindex/challenge/service/impl/EmployeeServiceImpl.java:125 | appending direct reports to the queue (addAll) adds exactly their resolvable ids to the queue's |
| `ReportingGraph.ResolvableIdsMembers` | src/main/java/com/mindex/challenge/service/impl/EmployeeServiceImpl.java:106-115 | an id is resolvable in a list exactly when it is a store key and some entry carries it as a non-null, non-empty id |
| `ReportingGraph.ResolvableIdsOrderInsensitive` | src/main/java/com/mindex/challenge/service/impl/EmployeeServiceImpl.java:103-105 | two queues that are permutations of each other have the same resolvable ids |
| `ReportingGraph.ClosureClosed` | src/main/java/com/mindex/challenge/service/impl/EmployeeServiceImpl.java:123-126 | every resolvable direct report of a reachable id is reachable |
| `ReportingGraph.ClosureLeast` | src/main/java/com/mindex/challenge/service/impl/EmployeeServiceImpl.java:101-133 | the reachable ids lie inside every set that contains the starting ids and is closed under direct reports |
| `ReportingGraph.ChainEndsClosed` | src/main/java/com/mindex/challenge/service/impl/EmployeeServiceImpl.java:101-133 | the ends of reporting chains from the starting ids include those ids and are closed under direct reports |
| `ReportingGraph.ChainEndsInClosure` | src/main/java/com/mindex/challenge/service/impl/EmployeeServiceImpl.java:101-133 | the last id of every reporting chain from the starting ids is reachable |
| `ReportingGraph.ClosureIsReachability` | src/main/java/com/mindex/challenge/service/impl/EmployeeServiceImpl.java:101-133 | an id is reachable exactly when some reporting chain from the root's resolvable direct reports ends at it |
| `ReportingGraph.ReportCountWithoutDirectReports` | src/main/java/com/mindex/challenge/service/impl/EmployeeServiceImpl.java:97-99 | a null employee, or one whose direct-report list is null or empty, has 0 reports |
| `ReportingGraph.ReportCountOrderInsensitive` | src/main/java/com/mindex/challenge/service/impl/EmployeeServiceImpl.java:103-126 | reordering the root's direct reports leaves the count unchanged |
| `ReportingGraph.ResolvableIdsOnlyKeys` | src/main/java/com/mindex/challenge/service/impl/EmployeeServiceImpl.java:114-115 | which entries of a list resolve depends only on the identifiers the store holds, not on the records stored under them |
| `ReportingGraph.ClosureOnlySubordinates` | src/main/java/com/mindex/challenge/service/impl/EmployeeServiceImpl.java:101-133 | two stores with the same identifiers and the same resolvable direct reports under every identifier give the same reachable ids |
| `ReportingGraph.ReportCountStoredOrderInsensitive` | src/main/java/com/mindex/challenge/service/impl/EmployeeServiceImpl.java:123-126 | reordering the direct-report list of any stored record, which is appended to the queue when that record is resolved, leaves every employee's count unchanged |
| `ReportingGraph.ReportCountIgnoresDangling` | src/main/java/com/mindex/challenge/service/impl/EmployeeServiceImpl.java:106-131 | a direct report that is null, has a null or empty id, or names an id absent from the store adds nothing to the count, nor does anything listed inline under it |
| `Scenarios.MarioHasNoReports` | src/test/java/com/mindex/challenge/ChallengeApplicationTests.java:61-66 | an employee created without direct reports has 0 reports |
| `Scenarios.PeachHasOneReport` | src/test/java/com/mindex/challenge/ChallengeApplicationTests.java:76-81 | a manager whose only direct report is a stub of that employee has 1 report |
| `Scenarios.ReportsThroughService` | src/test/java/com/mindex/challenge/ChallengeApplicationTests.java:51-82 | going through the service object, a newly created employee with no direct reports has 0 reports, and a manager then created with a stub of that employee has 1 |
| `Scenarios.ChainHasThreeReports` | src/main/java/com/mindex/challenge/service/impl/EmployeeServiceImpl.java:104-126 | for the chain a, b, c, d the head has 3 reports |
| `Scenarios.DiamondHasThreeReports` | src/main/java/com/mindex/challenge/service/impl/EmployeeServiceImpl.java:110-111 | an employee listed under two managers is counted once: 3 reports, not 4 |
| `Scenarios.DanglingReferencesAreSkipped` | src/main/java/com/mindex/challenge/service/impl/EmployeeServiceImpl.java:106-131 | null entries, empty ids and unknown ids are skipped without aborting the traversal |
| `Scenarios.CycleCountsTheRoot` | src/main/java/com/mindex/challenge/service/impl/EmployeeServiceImpl.java:101-103 | with a reporting cycle a to b to a, the root a is counted among its own reports (2 reports), because it is never pre-marked as counted |

## Left out

- Logging and Spring wiring (the logger calls and the injected repositories) have no behaviour to model.
- The persistence of the employee and compensation repositories is not modelled. Each repository is a map, and only the absent-key failure is modelled. Other persistence failures (connectivity, write conflicts) are not.
- Identifier generation with a random UUID is a caller-supplied `freshId`, required to be absent from the store.
- `EmployeeServiceImpl.EmployeeService.Create`: Java sets the id on the caller's own object and returns that object. The model returns an updated value, so the aliasing is not captured.
- `EmployeeServiceImpl.EmployeeService.Update`: requires the record's id to be set, because a record with a null id has no key in the map model. The repository's behaviour for such a record is not part of this model.
- `EmployeeServiceImpl.EmployeeService.CreateCompensation`: requires the embedded employee id to be set and to have no compensation stored yet (one compensation per employee). The repository's response to a second compensation for the same employee is not part of this model.
- `EmployeeServiceImpl.CountEmployeeReports`: the count is a `nat`, not a Java `long`. `ReportCount` is proved never to exceed the number of stored employees, so it cannot overflow.
- `ReportingStructure.numberOfReports` is a nullable `Long` in Java. The model stores a plain integer, because the service always sets it.
- A `java.util.Date` is reduced to the epoch milliseconds it wraps.
- The HTTP controllers and the application test's HTTP round trips are left out. The test's two scenarios are stated as lemmas over the count.
- Concurrent writes to the store during a traversal are left out. The model counts over one fixed snapshot of the store.
