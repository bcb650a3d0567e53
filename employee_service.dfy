/** The employee service (EmployeeServiceImpl): CRUD over the employee and
    compensation repositories, and the breadth-first count of an employee's
    direct and indirect reports. The repositories are maps keyed by employee
    identifier; a lookup that Java answers with null, and the service turns into
    a RuntimeException, is a Failure here. */
module EmployeeServiceImpl {
  import opened Wrappers
  import opened Data
  import opened ReportingGraph

  /** The compensation repository: records keyed by the embedded employee's id. */
  type CompensationStore = map<string, Compensation>

  /** The repository keeps every compensation under the id of the employee it
      embeds, since it is looked up by matching that field. No compensation
      then answers for two employees. */
  ghost predicate CompensationsKeyed(compensations: CompensationStore)
    ensures CompensationsKeyed(compensations) ==>
              forall j, k :: j in compensations && k in compensations && j != k ==>
                compensations[j] != compensations[k]
  {
    forall k :: k in compensations ==> compensations[k].employee.employeeId == Some(k)
  }

  /** Looks an employee up by identifier; an unknown identifier is an error. */
  function Read(store: Store, id: string): (r: Result<Employee, ServiceError>)
    ensures r.Success? <==> id in store
    ensures r.Success? ==> r.value == store[id]
    ensures r.Failure? ==> r.error == InvalidEmployeeId(id)
    ensures WellKeyed(store) && r.Success? ==> r.value.employeeId == Some(id)
  {
    if id in store then Success(store[id]) else Failure(InvalidEmployeeId(id))
  }

  /** Looks a compensation up by the identifier of the employee it embeds. */
  function ReadCompensation(compensations: CompensationStore, id: string): (r: Result<Compensation, ServiceError>)
    ensures r.Success? <==> id in compensations
    ensures r.Success? ==> r.value == compensations[id]
    ensures r.Failure? ==> r.error == InvalidCompensationId(id)
    ensures CompensationsKeyed(compensations) && r.Success? ==> r.value.employee.employeeId == Some(id)
  {
    if id in compensations then Success(compensations[id]) else Failure(InvalidCompensationId(id))
  }

  /** What the traversal knows between two dequeues: every counted id and
      every resolvable queued id is a report; every resolvable direct report
      of the root, and of each counted employee, is counted or still queued. */
  ghost predicate TraversalInvariant(store: Store, seeds: set<string>, counted: set<string>,
                                     queue: seq<Option<Employee>>)
    requires seeds <= store.Keys
  {
    var pending := counted + ResolvableIds(store, queue);
    && counted <= store.Keys
    && pending <= Closure(store, seeds)
    && seeds <= pending
    && forall id {:trigger Subordinates(store, id)} :: id in counted ==> Subordinates(store, id) <= pending
  }

  /** Dequeuing an entry that is not counted keeps the invariant. */
  lemma SkipStep(store: Store, seeds: set<string>, counted: set<string>,
                 queue: seq<Option<Employee>>, rest: seq<Option<Employee>>)
    requires seeds <= store.Keys && |queue| > 0 && rest == queue[1..]
    requires TraversalInvariant(store, seeds, counted, queue)
    requires UsableId(queue[0]).Some? ==> UsableId(queue[0]).value in counted || UsableId(queue[0]).value !in store
    ensures TraversalInvariant(store, seeds, counted, rest)
  {
  }

  /** Counting a newly resolved id and queueing its direct reports keeps the
      invariant, adds one to the count and brings the traversal closer to
      having counted the whole store. */
  lemma CountStep(store: Store, seeds: set<string>, counted: set<string>, queue: seq<Option<Employee>>,
                  id: string, counted': set<string>, queue': seq<Option<Employee>>)
    requires seeds <= store.Keys && |queue| > 0
    requires TraversalInvariant(store, seeds, counted, queue)
    requires UsableId(queue[0]) == Some(id) && id in store && id !in counted
    requires counted' == counted + {id} && queue' == queue[1..] + DirectReports(store[id])
    ensures TraversalInvariant(store, seeds, counted', queue')
    ensures |counted'| == |counted| + 1
    ensures store.Keys - counted' < store.Keys - counted
  {
    var reports := Closure(store, seeds);
    var pending := counted + ResolvableIds(store, queue);
    var pending' := counted' + ResolvableIds(store, queue');
    ResolvableIdsAppend(store, queue[1..], DirectReports(store[id]));
    assert ResolvableIds(store, queue) == {id} + ResolvableIds(store, queue[1..]);
    assert pending' == pending + Subordinates(store, id);
    ClosureClosed(store, seeds);
    assert Subordinates(store, id) <= reports;
    forall x | x in counted' ensures Subordinates(store, x) <= pending' {
      if x != id {
        assert Subordinates(store, x) <= pending;
      }
    }
  }

  /** Once the queue is empty, the counted ids are exactly the reports. */
  lemma TraversalDone(store: Store, seeds: set<string>, counted: set<string>, queue: seq<Option<Employee>>)
    requires seeds <= store.Keys && queue == []
    requires TraversalInvariant(store, seeds, counted, queue)
    ensures counted == Closure(store, seeds)
    ensures |counted| <= |store|
  {
    assert ResolvableIds(store, queue) == {};
    forall x | x in counted ensures Subordinates(store, x) <= counted {
      assert Subordinates(store, x) <= counted + ResolvableIds(store, queue);
    }
    ClosureLeast(store, seeds, counted);
    SubsetCardinality(counted, store.Keys);
  }

  /** The breadth-first traversal: the number of distinct stored employees
      reachable from the direct reports of employee. Entries that are null,
      have no or an empty id, or were counted already are skipped; an id that
      does not resolve is skipped too, and the traversal carries on. The
      root is never marked, so a cycle back to it counts it. */
  method CountEmployeeReports(store: Store, employee: Option<Employee>) returns (count: nat)
    requires WellKeyed(store)
    ensures count == ReportCount(store, employee)
    ensures count <= |store|
  {
    if employee.None? || employee.value.directReports.None? || |employee.value.directReports.value| == 0 {
      ReportCountWithoutDirectReports(store, employee);
      return 0;
    }
    ghost var seeds := ResolvableIds(store, DirectReports(employee.value));

    var countedEmployeeIds: set<string> := {};
    count := 0;
    var queue := employee.value.directReports.value;
    while |queue| > 0
      invariant TraversalInvariant(store, seeds, countedEmployeeIds, queue)
      invariant count == |countedEmployeeIds|
      decreases store.Keys - countedEmployeeIds, |queue|
    {
      ghost var before := queue;
      var current := queue[0];
      queue := queue[1..];
      if current.Some? && current.value.employeeId.Some? && |current.value.employeeId.value| > 0
         && current.value.employeeId.value !in countedEmployeeIds
      {
        var id := current.value.employeeId.value;
        var resolved := Read(store, id);
        if resolved.Success? {
          var full := resolved.value;
          ghost var countedBefore := countedEmployeeIds;
          count := count + 1;
          countedEmployeeIds := countedEmployeeIds + {full.employeeId.value};
          if full.directReports.Some? && |full.directReports.value| > 0 {
            queue := queue + full.directReports.value;
          } else {
            assert queue + [] == queue;
          }
          CountStep(store, seeds, countedBefore, before, id, countedEmployeeIds, queue);
        } else {
          SkipStep(store, seeds, countedEmployeeIds, before, queue);
        }
      } else {
        SkipStep(store, seeds, countedEmployeeIds, before, queue);
      }
    }
    TraversalDone(store, seeds, countedEmployeeIds, queue);
  }

  /** The service object: the two repositories it reads and writes. */
  class EmployeeService {
    var employees: Store
    var compensations: CompensationStore

    ghost predicate Valid()
      reads this
    {
      WellKeyed(employees) && CompensationsKeyed(compensations)
    }

    constructor ()
      ensures Valid() && employees == map[] && compensations == map[]
    {
      employees := map[];
      compensations := map[];
    }

    /** Stores employee under a newly generated identifier and returns it with
        that identifier set; reading the identifier back yields the record. */
    method Create(employee: Employee, freshId: string) returns (created: Employee)
      requires Valid()
      requires freshId !in employees
      modifies this
      ensures Valid()
      ensures created == employee.(employeeId := Some(freshId))
      ensures employees == old(employees)[freshId := created]
      ensures Read(employees, freshId) == Success(created)
      ensures compensations == old(compensations)
    {
      created := employee.(employeeId := Some(freshId));
      employees := employees[freshId := created];
    }

    /** Replaces the record stored under employee's identifier (or adds it);
        every other record is left alone. */
    method Update(employee: Employee) returns (saved: Employee)
      requires Valid()
      requires employee.employeeId.Some?
      modifies this
      ensures Valid()
      ensures saved == employee
      ensures employees == old(employees)[employee.employeeId.value := employee]
      ensures Read(employees, employee.employeeId.value) == Success(employee)
      ensures forall k :: k != employee.employeeId.value ==> Read(employees, k) == Read(old(employees), k)
      ensures compensations == old(compensations)
    {
      employees := employees[employee.employeeId.value := employee];
      saved := employee;
    }

    /** The reporting structure of the employee stored under id: fails exactly
        when id is unknown, and otherwise pairs the record with its count. */
    method EmployeeReports(id: string) returns (r: Result<ReportingStructure, ServiceError>)
      requires Valid()
      ensures id !in employees ==> r == Failure(InvalidEmployeeId(id))
      ensures id in employees ==>
                r == Success(ReportingStructure(employees[id], ReportCount(employees, Some(employees[id]))))
    {
      var employee := Read(employees, id);
      if employee.Failure? {
        return Failure(employee.error);
      }
      var count := CountEmployeeReports(employees, Some(employee.value));
      r := Success(ReportingStructure(employee.value, count));
    }

    /** Stores a compensation under the id of the employee it embeds; reading
        that id back yields the same salary and effective date. */
    method CreateCompensation(compensation: Compensation) returns (created: Compensation)
      requires Valid()
      requires compensation.employee.employeeId.Some?
      requires compensation.employee.employeeId.value !in compensations
      modifies this
      ensures Valid()
      ensures created == compensation
      ensures compensations == old(compensations)[compensation.employee.employeeId.value := compensation]
      ensures ReadCompensation(compensations, compensation.employee.employeeId.value) == Success(compensation)
      ensures employees == old(employees)
    {
      compensations := compensations[compensation.employee.employeeId.value := compensation];
      created := compensation;
    }
  }
}
