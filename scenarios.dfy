/** Concrete hierarchies and the number of reports the traversal yields for
    them: the 0-report and 1-report cases of the service's application test,
    a chain, a diamond, a dangling reference and a cycle through the root. */
module Scenarios {
  import opened Wrappers
  import opened Data
  import opened ReportingGraph
  import opened EmployeeServiceImpl

  /** A stored record with the given identifier and direct-report stubs. */
  function Record(id: string, reports: seq<Option<Employee>>): Employee
  {
    Employee(Some(id), None, None, None, None, Some(reports))
  }

  /** "Mario" has no direct-report list at all; "Peach" lists a stub of Mario. */
  function MarioAndPeach(): Store
  {
    map[
      "mario" := Employee(Some("mario"), Some("It's-A Me"), Some("Mario"), Some("Plumber"), Some("Engineering"), None),
      "peach" := Employee(Some("peach"), Some("Princess"), Some("Peach"), Some("Manager"), Some("Engineering"),
                          Some([Some(Stub("mario"))]))
    ]
  }

  lemma MarioHasNoReports()
    ensures ReportCount(MarioAndPeach(), Some(MarioAndPeach()["mario"])) == 0
  {
    ReportCountWithoutDirectReports(MarioAndPeach(), Some(MarioAndPeach()["mario"]));
  }

  lemma PeachHasOneReport()
    ensures ReportCount(MarioAndPeach(), Some(MarioAndPeach()["peach"])) == 1
  {
    var store := MarioAndPeach();
    var seeds := ResolvableIds(store, DirectReports(store["peach"]));
    assert seeds == {"mario"};
    assert Subordinates(store, "mario") == {};
    ClosureLeast(store, seeds, {"mario"});
  }

  /** a manages b, b manages c, c manages d. */
  function Chain(): Store
  {
    map[
      "a" := Record("a", [Some(Stub("b"))]),
      "b" := Record("b", [Some(Stub("c"))]),
      "c" := Record("c", [Some(Stub("d"))]),
      "d" := Record("d", [])
    ]
  }

  lemma ChainHasThreeReports()
    ensures ReportCount(Chain(), Some(Chain()["a"])) == 3
  {
    var store := Chain();
    var seeds := ResolvableIds(store, DirectReports(store["a"]));
    assert seeds == {"b"};
    assert Subordinates(store, "b") == {"c"};
    assert Subordinates(store, "c") == {"d"};
    assert Subordinates(store, "d") == {};
    ClosureClosed(store, seeds);
    ClosureLeast(store, seeds, {"b", "c", "d"});
    assert Closure(store, seeds) == {"b", "c", "d"};
  }

  /** a manages b and c, and both b and c list x: x is counted once. */
  function Diamond(): Store
  {
    map[
      "a" := Record("a", [Some(Stub("b")), Some(Stub("c"))]),
      "b" := Record("b", [Some(Stub("x"))]),
      "c" := Record("c", [Some(Stub("x"))]),
      "x" := Record("x", [])
    ]
  }

  lemma DiamondHasThreeReports()
    ensures ReportCount(Diamond(), Some(Diamond()["a"])) == 3
  {
    var store := Diamond();
    var seeds := ResolvableIds(store, DirectReports(store["a"]));
    assert seeds == {"b", "c"};
    assert Subordinates(store, "b") == {"x"};
    assert Subordinates(store, "c") == {"x"};
    assert Subordinates(store, "x") == {};
    ClosureClosed(store, seeds);
    ClosureLeast(store, seeds, {"b", "c", "x"});
    assert Closure(store, seeds) == {"b", "c", "x"};
  }

  /** a lists b, a null entry, an entry with an empty id and a stub of the
      unknown id "gone"; b lists "gone" as well. Only b is counted. */
  function Dangling(): Store
  {
    map[
      "a" := Record("a", [Some(Stub("b")), None, Some(Stub("")), Some(Stub("gone"))]),
      "b" := Record("b", [Some(Stub("gone"))])
    ]
  }

  lemma DanglingReferencesAreSkipped()
    ensures ReportCount(Dangling(), Some(Dangling()["a"])) == 1
  {
    var store := Dangling();
    var seeds := ResolvableIds(store, DirectReports(store["a"]));
    assert seeds == {"b"};
    assert Subordinates(store, "b") == {};
    ClosureLeast(store, seeds, {"b"});
  }

  /** a manages b and b lists a: the root is not marked before the traversal,
      so a is counted as one of its own reports. */
  function Cycle(): Store
  {
    map[
      "a" := Record("a", [Some(Stub("b"))]),
      "b" := Record("b", [Some(Stub("a"))])
    ]
  }

  lemma CycleCountsTheRoot()
    ensures ReportCount(Cycle(), Some(Cycle()["a"])) == 2
  {
    var store := Cycle();
    var seeds := ResolvableIds(store, DirectReports(store["a"]));
    assert seeds == {"b"};
    assert Subordinates(store, "b") == {"a"};
    assert Subordinates(store, "a") == {"b"};
    ClosureClosed(store, seeds);
    ClosureLeast(store, seeds, {"a", "b"});
    assert Closure(store, seeds) == {"a", "b"};
  }

  /** The application test's sequence through the service: create Mario, ask
      for his reporting structure, create Peach with a stub of Mario as her
      only direct report, and ask for hers. */
  method ReportsThroughService() returns (marioReports: int, peachReports: int)
    ensures marioReports == 0 && peachReports == 1
  {
    var service := new EmployeeService();
    var mario := service.Create(
      Employee(None, Some("It's-A Me"), Some("Mario"), Some("Plumber"), Some("Engineering"), None), "mario");
    var marioStructure := service.EmployeeReports("mario");
    ReportCountWithoutDirectReports(service.employees, Some(mario));
    marioReports := marioStructure.value.numberOfReports;

    var peach := service.Create(
      Employee(None, Some("Princess"), Some("Peach"), Some("Manager"), Some("Engineering"),
               Some([Some(Stub("mario"))])), "peach");
    assert service.employees == MarioAndPeach();
    var peachStructure := service.EmployeeReports("peach");
    PeachHasOneReport();
    peachReports := peachStructure.value.numberOfReports;
  }
}
