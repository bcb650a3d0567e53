/** The reporting hierarchy as a graph over store identifiers, and the
    reference definition of "all direct and indirect reports": the least set
    of resolvable identifiers that contains the root's resolvable direct
    reports and is closed under taking the direct reports of resolved records. */
module ReportingGraph {
  import opened Wrappers
  import opened Data

  /** The employee repository: records keyed by their employeeId. */
  type Store = map<string, Employee>

  /** The repository keeps every record under its own identifier, since it is
      looked up by matching the record's employeeId field. Identifiers are
      then unique: no record is stored under two keys. */
  ghost predicate WellKeyed(store: Store)
    ensures WellKeyed(store) ==>
              forall j, k :: j in store && k in store && j != k ==> store[j] != store[k]
  {
    forall k :: k in store ==> store[k].employeeId == Some(k)
  }

  /** The identifier the traversal tries to resolve for a queue entry: none for
      a null entry, a null identifier or an empty one. */
  function UsableId(entry: Option<Employee>): Option<string>
  {
    if entry.Some? && entry.value.employeeId.Some? && |entry.value.employeeId.value| > 0
    then entry.value.employeeId
    else None
  }

  /** The direct reports of a record; a null list reads as an empty one. */
  function DirectReports(e: Employee): seq<Option<Employee>>
  {
    if e.directReports.Some? then e.directReports.value else []
  }

  /** The identifiers of the entries of refs that the traversal can count:
      usable ones that resolve in the store. Nothing else about an entry
      matters, so a full record and a stub with the same id are alike. */
  function ResolvableIds(store: Store, refs: seq<Option<Employee>>): (ids: set<string>)
    ensures ids <= store.Keys
    ensures "" !in ids
  {
    if refs == [] then {}
    else
      var head := UsableId(refs[0]);
      (if head.Some? && head.value in store then {head.value} else {})
      + ResolvableIds(store, refs[1..])
  }

  /** The resolvable direct reports of the record stored under id. */
  function Subordinates(store: Store, id: string): (ids: set<string>)
    ensures ids <= store.Keys
  {
    if id in store then ResolvableIds(store, DirectReports(store[id])) else {}
  }

  /** One expansion round: every identifier that some member of s has as a
      resolvable direct report. */
  ghost function Successors(store: Store, s: set<string>): (next: set<string>)
    ensures next <= store.Keys
    ensures forall id {:trigger Subordinates(store, id)} :: id in s ==> Subordinates(store, id) <= next
  {
    set c | c in store.Keys && exists id :: id in s && c in Subordinates(store, id)
  }

  /** No member of t has a resolvable direct report outside t. */
  ghost predicate Closed(store: Store, t: set<string>)
  {
    forall id {:trigger Subordinates(store, id)} :: id in t ==> Subordinates(store, id) <= t
  }

  /** The identifiers reachable from s, s included, by repeated expansion. */
  ghost function Closure(store: Store, s: set<string>): (c: set<string>)
    requires s <= store.Keys
    ensures s <= c <= store.Keys
    decreases |store.Keys - s|
  {
    var next := s + Successors(store, s);
    if next == s then s
    else
      ProperSubsetCardinality(store.Keys - next, store.Keys - s);
      Closure(store, next)
  }

  /** The number of distinct reports, direct or indirect, of root. Every
      counted report is a stored record, so the count never exceeds the size
      of the store (and so fits in the Java long that holds it). */
  ghost function ReportCount(store: Store, root: Option<Employee>): (r: nat)
    ensures root.None? ==> r == 0
    ensures root.Some? ==> r == |Closure(store, ResolvableIds(store, DirectReports(root.value)))|
    ensures r <= |store|
  {
    if root.None? then 0
    else
      var reports := Closure(store, ResolvableIds(store, DirectReports(root.value)));
      SubsetCardinality(reports, store.Keys);
      |reports|
  }

  lemma ProperSubsetCardinality<T>(a: set<T>, b: set<T>)
    requires a < b
    ensures |a| < |b|
  {
    assert b == a + (b - a);
    var x :| x in b - a;
    assert |b - a| >= 1 by { assert {x} <= b - a; }
  }

  lemma SubsetCardinality<T>(a: set<T>, b: set<T>)
    requires a <= b
    ensures |a| <= |b|
  {
    assert b == a + (b - a);
  }

  /** Resolvable ids distribute over concatenation of queues. */
  lemma {:induction false} ResolvableIdsAppend(store: Store, a: seq<Option<Employee>>, b: seq<Option<Employee>>)
    ensures ResolvableIds(store, a + b) == ResolvableIds(store, a) + ResolvableIds(store, b)
  {
    if a == [] {
      assert a + b == b;
    } else {
      assert (a + b)[1..] == a[1..] + b;
      ResolvableIdsAppend(store, a[1..], b);
    }
  }

  /** An id is resolvable in refs exactly when it is in the store and some
      entry of refs carries it as a usable id. */
  lemma {:induction false} ResolvableIdsMembers(store: Store, refs: seq<Option<Employee>>, id: string)
    ensures id in ResolvableIds(store, refs) <==>
            id in store && exists i :: 0 <= i < |refs| && UsableId(refs[i]) == Some(id)
  {
    if refs != [] {
      ResolvableIdsMembers(store, refs[1..], id);
      if id in ResolvableIds(store, refs[1..]) {
        var i :| 0 <= i < |refs[1..]| && UsableId(refs[1..][i]) == Some(id);
        assert UsableId(refs[i + 1]) == Some(id);
      }
      if id in store && exists i :: 0 <= i < |refs| && UsableId(refs[i]) == Some(id) {
        var i :| 0 <= i < |refs| && UsableId(refs[i]) == Some(id);
        if i > 0 {
          assert UsableId(refs[1..][i - 1]) == Some(id);
        }
      }
    }
  }

  /** The resolvable ids of a queue do not depend on the order of its entries. */
  lemma ResolvableIdsOrderInsensitive(store: Store, a: seq<Option<Employee>>, b: seq<Option<Employee>>)
    requires multiset(a) == multiset(b)
    ensures ResolvableIds(store, a) == ResolvableIds(store, b)
  {
    forall id | id in ResolvableIds(store, a)
      ensures id in ResolvableIds(store, b)
    {
      ResolvableIdsMembers(store, a, id);
      var i :| 0 <= i < |a| && UsableId(a[i]) == Some(id);
      assert a[i] in multiset(b);
      var j :| 0 <= j < |b| && b[j] == a[i];
      ResolvableIdsMembers(store, b, id);
    }
    forall id | id in ResolvableIds(store, b)
      ensures id in ResolvableIds(store, a)
    {
      ResolvableIdsMembers(store, b, id);
      var j :| 0 <= j < |b| && UsableId(b[j]) == Some(id);
      assert b[j] in multiset(a);
      var i :| 0 <= i < |a| && a[i] == b[j];
      ResolvableIdsMembers(store, a, id);
    }
  }

  /** The closure is closed: expanding any of its members adds nothing. */
  lemma {:induction false} ClosureClosed(store: Store, s: set<string>)
    requires s <= store.Keys
    ensures Closed(store, Closure(store, s))
    decreases |store.Keys - s|
  {
    var next := s + Successors(store, s);
    if next != s {
      ProperSubsetCardinality(store.Keys - next, store.Keys - s);
      ClosureClosed(store, next);
    }
  }

  /** The closure is the least closed set containing s. */
  lemma {:induction false} ClosureLeast(store: Store, s: set<string>, t: set<string>)
    requires s <= store.Keys
    requires s <= t && Closed(store, t)
    ensures Closure(store, s) <= t
    decreases |store.Keys - s|
  {
    var next := s + Successors(store, s);
    if next != s {
      forall c | c in Successors(store, s) ensures c in t {
        var id :| id in s && c in Subordinates(store, id);
      }
      ProperSubsetCardinality(store.Keys - next, store.Keys - s);
      ClosureLeast(store, next, t);
    }
  }

  /** A reporting chain from s: it starts at a member of s and each next
      identifier is a resolvable direct report of the previous one. */
  ghost predicate IsChain(store: Store, s: set<string>, path: seq<string>)
  {
    && |path| > 0
    && path[0] in s
    && forall i :: 0 <= i < |path| - 1 ==> path[i + 1] in Subordinates(store, path[i])
  }

  /** The identifiers at the end of some reporting chain from s. */
  ghost function ChainEnds(store: Store, s: set<string>): set<string>
  {
    set x | x in store.Keys && exists path :: IsChain(store, s, path) && path[|path| - 1] == x
  }

  lemma ChainEndsClosed(store: Store, s: set<string>)
    requires s <= store.Keys
    ensures s <= ChainEnds(store, s)
    ensures Closed(store, ChainEnds(store, s))
  {
    var reach := ChainEnds(store, s);
    forall x | x in s ensures x in reach {
      assert IsChain(store, s, [x]);
    }
    forall x | x in reach ensures Subordinates(store, x) <= reach {
      var path :| IsChain(store, s, path) && path[|path| - 1] == x;
      forall y | y in Subordinates(store, x) ensures y in reach {
        assert IsChain(store, s, path + [y]);
      }
    }
  }

  /** Membership of the closure is reachability along a reporting chain. */
  lemma ClosureIsReachability(store: Store, s: set<string>, id: string)
    requires s <= store.Keys
    ensures id in Closure(store, s) <==>
            exists path :: IsChain(store, s, path) && path[|path| - 1] == id
  {
    if exists path :: IsChain(store, s, path) && path[|path| - 1] == id {
      var path :| IsChain(store, s, path) && path[|path| - 1] == id;
      ChainEndsInClosure(store, s, path);
    }
    if id in Closure(store, s) {
      ChainEndsClosed(store, s);
      ClosureLeast(store, s, ChainEnds(store, s));
    }
  }

  lemma {:induction false} ChainEndsInClosure(store: Store, s: set<string>, path: seq<string>)
    requires s <= store.Keys
    requires IsChain(store, s, path)
    ensures path[|path| - 1] in Closure(store, s)
    decreases |path|
  {
    if |path| > 1 {
      var prefix := path[..|path| - 1];
      assert IsChain(store, s, prefix);
      ChainEndsInClosure(store, s, prefix);
      ClosureClosed(store, s);
      assert path[|path| - 1] in Subordinates(store, prefix[|prefix| - 1]);
    }
  }

  /** An employee without direct reports, or a null one, has no reports at all. */
  lemma ReportCountWithoutDirectReports(store: Store, root: Option<Employee>)
    requires root.Some? ==> DirectReports(root.value) == []
    ensures ReportCount(store, root) == 0
  {
    if root.Some? {
      assert Successors(store, {}) == {};
    }
  }

  /** Reordering the direct-report list of the root leaves the count unchanged. */
  lemma ReportCountOrderInsensitive(store: Store, root: Employee, reordered: seq<Option<Employee>>)
    requires multiset(reordered) == multiset(DirectReports(root))
    ensures ReportCount(store, Some(root.(directReports := Some(reordered)))) == ReportCount(store, Some(root))
  {
    ResolvableIdsOrderInsensitive(store, reordered, DirectReports(root));
  }

  /** A direct report whose id cannot be resolved (null entry, missing or empty
      id, or an id absent from the store) contributes nothing: neither itself
      nor any report it lists inline. */
  lemma ReportCountIgnoresDangling(store: Store, root: Employee, dangling: Option<Employee>)
    requires UsableId(dangling).Some? ==> UsableId(dangling).value !in store
    ensures ReportCount(store, Some(root.(directReports := Some(DirectReports(root) + [dangling]))))
         == ReportCount(store, Some(root))
  {
    ResolvableIdsAppend(store, DirectReports(root), [dangling]);
    assert ResolvableIds(store, [dangling]) == {} by {
      assert [dangling][1..] == [];
    }
  }

  /** Resolvable ids look only at which identifiers the store holds, not at
      the records stored under them. */
  lemma {:induction false} ResolvableIdsOnlyKeys(store: Store, store': Store, refs: seq<Option<Employee>>)
    requires store.Keys == store'.Keys
    ensures ResolvableIds(store, refs) == ResolvableIds(store', refs)
  {
    if refs != [] {
      ResolvableIdsOnlyKeys(store, store', refs[1..]);
    }
  }

  /** Two stores with the same identifiers and the same resolvable direct
      reports under each have the same closure. */
  lemma {:induction false} ClosureOnlySubordinates(store: Store, store': Store, s: set<string>)
    requires store.Keys == store'.Keys && s <= store.Keys
    requires forall id :: id in store ==> Subordinates(store, id) == Subordinates(store', id)
    ensures Closure(store, s) == Closure(store', s)
    decreases |store.Keys - s|
  {
    assert Successors(store, s) == Successors(store', s);
    var next := s + Successors(store, s);
    if next != s {
      ProperSubsetCardinality(store.Keys - next, store.Keys - s);
      ClosureOnlySubordinates(store, store', next);
    }
  }

  /** Reordering the direct-report list of any stored record, which the
      traversal appends to its queue when it resolves that record, leaves
      every employee's count unchanged. */
  lemma ReportCountStoredOrderInsensitive(store: Store, k: string, reordered: seq<Option<Employee>>,
                                          root: Option<Employee>)
    requires k in store
    requires multiset(reordered) == multiset(DirectReports(store[k]))
    ensures ReportCount(store[k := store[k].(directReports := Some(reordered))], root) == ReportCount(store, root)
  {
    var store' := store[k := store[k].(directReports := Some(reordered))];
    assert store'.Keys == store.Keys;
    forall id | id in store ensures Subordinates(store, id) == Subordinates(store', id) {
      ResolvableIdsOnlyKeys(store, store', DirectReports(store[id]));
      if id == k {
        ResolvableIdsOrderInsensitive(store', reordered, DirectReports(store[k]));
      }
    }
    if root.Some? {
      var refs := DirectReports(root.value);
      ResolvableIdsOnlyKeys(store, store', refs);
      ClosureOnlySubordinates(store, store', ResolvableIds(store, refs));
    }
  }
}
