/**
 * The employee service: the list query of EmployeeQuery plus lookup, create,
 * update and delete on the Employees table. The table is a sequence of records in
 * store order; each write is one atomic change to it (add or remove, then save).
 *
 * UpdateEmployee adds the record it is given instead of changing the stored one;
 * UpdateAppendsStaleRecord states what that does to a later lookup, and
 * UpdateIntended is the replace-in-place update, proved to take effect.
 */
module Services {
  import opened Wrappers
  import opened Employees
  import EmployeeQuery

  /** The service's EntityNotFoundException. */
  datatype ServiceError = EntityNotFound(id: int)

  /** The position of the first record with id `id`, if any (FirstOrDefault(x => x.Id == id)). */
  function FindFirst(s: seq<Employee>, id: int): (r: Option<nat>)
    ensures r.None? <==> forall i :: 0 <= i < |s| ==> s[i].id != id
    ensures r.Some? ==> r.value < |s| && s[r.value].id == id
    ensures r.Some? ==> forall j :: 0 <= j < r.value ==> s[j].id != id
  {
    if s == [] then None
    else if s[0].id == id then Some(0)
    else
      match FindFirst(s[1..], id)
      case None => None
      case Some(k) => Some(k + 1)
  }

  /** FindFirst picks out the one position that has the id and no earlier one does. */
  lemma FindFirstAt(s: seq<Employee>, id: int, i: nat)
    requires i < |s| && s[i].id == id
    requires forall j :: 0 <= j < i ==> s[j].id != id
    ensures FindFirst(s, id) == Some(i)
  {
    var r := FindFirst(s, id);
    assert r.Some?;
    assert !(r.value < i);
    assert !(r.value > i);
  }

  /** GetEmployeeById: the first record with the id, or NotFound when there is none. */
  function Lookup(s: seq<Employee>, id: int): (r: Result<EmployeeDto, ServiceError>)
    ensures r.Failure? <==> forall e :: e in s ==> e.id != id
    ensures r.Failure? ==> r.error == EntityNotFound(id)
    ensures r.Success? ==> r.value.id == id
    ensures r.Success? ==> exists i :: 0 <= i < |s| && s[i] == r.value && forall j :: 0 <= j < i ==> s[j].id != id
  {
    match FindFirst(s, id)
    case None => Failure(EntityNotFound(id))
    case Some(i) => Success(s[i])
  }

  /** DeleteEmployee's change to the table: the first record with the id goes, if there is one. */
  function RemoveFirst(s: seq<Employee>, id: int): (r: seq<Employee>)
    ensures FindFirst(s, id).None? ==> r == s
    ensures FindFirst(s, id).Some? ==> r == s[..FindFirst(s, id).value] + s[FindFirst(s, id).value + 1..]
  {
    if s == [] then []
    else if s[0].id == id then s[1..]
    else
      assert s == [s[0]] + s[1..];
      [s[0]] + RemoveFirst(s[1..], id)
  }

  /** The id the store's identity column gives a new record: above every id in the table. */
  function FreshId(s: seq<Employee>): (r: int)
    ensures r >= 1
    ensures forall e :: e in s ==> e.id < r
  {
    if s == [] then 1
    else
      var rest := FreshId(s[1..]);
      if s[0].id + 1 > rest then s[0].id + 1 else rest
  }

  /** No two records share an id (what the table's primary key requires). */
  predicate UniqueIds(s: seq<Employee>)
  {
    forall i, j :: 0 <= i < j < |s| ==> s[i].id != s[j].id
  }

  /** The corrected update: NotFound for an absent id, else the first record with the id is replaced. */
  function UpdateIntended(s: seq<Employee>, d: EmployeeForUpdateDto): (r: Result<seq<Employee>, ServiceError>)
    ensures r.Failure? <==> forall e :: e in s ==> e.id != d.id
    ensures r.Success? ==> |r.value| == |s| && FromUpdateDto(d) in r.value
  {
    match FindFirst(s, d.id)
    case None => Failure(EntityNotFound(d.id))
    case Some(i) =>
      var t := s[i := FromUpdateDto(d)];
      assert t[i] == FromUpdateDto(d);
      Success(t)
  }

  /** Dropping the record at `i` from a table with unique ids leaves no record with its id, and ids unique. */
  lemma DropUnique(s: seq<Employee>, i: nat)
    requires UniqueIds(s) && i < |s|
    ensures forall e :: e in s[..i] + s[i + 1..] ==> e.id != s[i].id
    ensures UniqueIds(s[..i] + s[i + 1..])
  {
    var r := s[..i] + s[i + 1..];
    forall k | 0 <= k < |r|
      ensures r[k] == s[if k < i then k else k + 1]
    {
    }
    forall e | e in r
      ensures e.id != s[i].id
    {
      var k :| 0 <= k < |r| && r[k] == e;
      if k >= i {
        assert s[i].id != s[k + 1].id;
      }
    }
    forall a, b | 0 <= a < b < |r|
      ensures r[a].id != r[b].id
    {
      var a', b' := if a < i then a else a + 1, if b < i then b else b + 1;
      assert s[a'].id != s[b'].id;
    }
  }

  /** Deleting an id removes one record and leaves the others, in order; with unique ids the id is then gone. */
  lemma DeleteThenNotFound(s: seq<Employee>, id: int)
    requires UniqueIds(s)
    ensures Lookup(RemoveFirst(s, id), id).Failure?
    ensures UniqueIds(RemoveFirst(s, id))
    ensures (exists e :: e in s && e.id == id) ==> |RemoveFirst(s, id)| == |s| - 1
  {
    var found := FindFirst(s, id);
    if found.Some? {
      var i := found.value;
      assert RemoveFirst(s, id) == s[..i] + s[i + 1..];
      DropUnique(s, i);
    }
  }

  /** A created record gets an id no other record has, and looking that id up finds it. */
  lemma CreateThenFound(s: seq<Employee>, d: EmployeeForCreateDto)
    ensures var e := FromCreateDto(d, FreshId(s));
      && Lookup(s + [e], e.id) == Success(e)
      && (UniqueIds(s) ==> UniqueIds(s + [e]))
  {
    var e := FromCreateDto(d, FreshId(s));
    var t := s + [e];
    forall j | 0 <= j < |s|
      ensures t[j].id != e.id
    {
      assert t[j] in s;
    }
    FindFirstAt(t, e.id, |s|);
  }

  /**
   * The entity UpdateEmployee adds: the request's fields and id, except that id 0, the
   * key's default value, counts as unset and the store gives the record a fresh
   * identity, as it does on create.
   */
  function AddedByUpdate(s: seq<Employee>, d: EmployeeForUpdateDto): (e: Employee)
    ensures e.firstName == d.firstName && e.lastName == d.lastName
    ensures e.salary == d.salary && e.positionId == d.positionId
    ensures d.id != 0 ==> e.id == d.id
    ensures d.id == 0 ==> e.id != 0 && forall r :: r in s ==> r.id != e.id
  {
    if d.id == 0 then FromUpdateDto(d).(id := FreshId(s)) else FromUpdateDto(d)
  }

  /**
   * UpdateEmployee as written, on a record that exists: the table grows by one, a
   * lookup still returns the old record, and for a non-zero id two records now share it.
   */
  lemma UpdateAppendsStaleRecord(s: seq<Employee>, d: EmployeeForUpdateDto)
    requires Lookup(s, d.id).Success?
    ensures var t := s + [AddedByUpdate(s, d)];
      && |t| == |s| + 1
      && (d.id != 0 ==> !UniqueIds(t))
      && Lookup(t, d.id) == Lookup(s, d.id)
  {
    var t := s + [AddedByUpdate(s, d)];
    var i := FindFirst(s, d.id).value;
    if d.id != 0 {
      assert t[i].id == t[|s|].id;
    }
    assert forall j :: 0 <= j < i ==> t[j] == s[j];
    FindFirstAt(t, d.id, i);
  }

  /** UpdateEmployee with the default id 0 inserts a new record under a fresh id, like create. */
  lemma UpdateWithDefaultIdInserts(s: seq<Employee>, d: EmployeeForUpdateDto)
    requires d.id == 0
    ensures var e := AddedByUpdate(s, d);
      && Lookup(s + [e], e.id) == Success(e)
      && (UniqueIds(s) ==> UniqueIds(s + [e]))
  {
    var e := AddedByUpdate(s, d);
    var t := s + [e];
    forall j | 0 <= j < |s|
      ensures t[j].id != e.id
    {
      assert t[j] in s;
    }
    FindFirstAt(t, e.id, |s|);
  }

  /** A one-record table on which UpdateEmployee leaves the salary a lookup sees unchanged. */
  lemma UpdateIsInvisibleExample()
    ensures var s := [Employee(1, "Ann", "Lee", 100, 2)];
      var t := s + [AddedByUpdate(s, EmployeeForUpdateDto(1, "Ann", "Lee", 200, 2))];
      Lookup(t, 1) == Success(Employee(1, "Ann", "Lee", 100, 2))
  {
    var s := [Employee(1, "Ann", "Lee", 100, 2)];
    UpdateAppendsStaleRecord(s, EmployeeForUpdateDto(1, "Ann", "Lee", 200, 2));
  }

  /**
   * The corrected update fails with NotFound exactly when no record has the id;
   * otherwise it changes only the first record with the id, a lookup returns the
   * new values, and unique ids stay unique.
   */
  lemma UpdateIntendedReplaces(s: seq<Employee>, d: EmployeeForUpdateDto)
    ensures UpdateIntended(s, d).Failure? <==> forall e :: e in s ==> e.id != d.id
    ensures UpdateIntended(s, d).Failure? ==> UpdateIntended(s, d).error == EntityNotFound(d.id)
    ensures UpdateIntended(s, d).Success? ==>
      var t := UpdateIntended(s, d).value;
      && |t| == |s|
      && Lookup(t, d.id) == Success(FromUpdateDto(d))
      && (forall k :: 0 <= k < |s| && t[k] != s[k] ==> k == FindFirst(s, d.id).value)
      && (UniqueIds(s) ==> UniqueIds(t))
  {
    match FindFirst(s, d.id)
    case None =>
    case Some(i) =>
      var t := s[i := FromUpdateDto(d)];
      FindFirstAt(t, d.id, i);
  }

  /** The service object; its one piece of state is the Employees table of its database context. */
  class EmployeeService {
    var employees: seq<Employee>

    constructor (initial: seq<Employee>)
      ensures employees == initial
    {
      employees := initial;
    }

    /** The list query, before paging. */
    method GetEmployees(p: EmployeeQuery.EmployeeResourceParameters) returns (r: seq<EmployeeDto>)
      ensures r == EmployeeQuery.GetEmployees(employees, p)
      ensures forall e :: e in r ==> EmployeeQuery.Satisfies(e, p)
    {
      r := EmployeeQuery.GetEmployees(employees, p);
    }

    method GetEmployeeById(id: int) returns (r: Result<EmployeeDto, ServiceError>)
      ensures r == Lookup(employees, id)
      ensures r.Failure? <==> forall e :: e in employees ==> e.id != id
    {
      var found := FindFirst(employees, id);
      if found.None? {
        r := Failure(EntityNotFound(id));
      } else {
        r := Success(employees[found.value]);
      }
    }

    method CreateEmployee(d: EmployeeForCreateDto) returns (r: EmployeeDto)
      modifies this
      ensures r == FromCreateDto(d, FreshId(old(employees)))
      ensures employees == old(employees) + [r]
      ensures forall e :: e in old(employees) ==> e.id != r.id
    {
      r := FromCreateDto(d, FreshId(employees));
      employees := employees + [r];
    }

    method UpdateEmployee(d: EmployeeForUpdateDto)
      modifies this
      ensures employees == old(employees) + [AddedByUpdate(old(employees), d)]
    {
      var e := FromUpdateDto(d);
      if d.id == 0 {
        e := e.(id := FreshId(employees));
      }
      employees := employees + [e];
    }

    method DeleteEmployee(id: int)
      modifies this
      ensures employees == RemoveFirst(old(employees), id)
    {
      var found := FindFirst(employees, id);
      if found.Some? {
        employees := employees[..found.value] + employees[found.value + 1..];
      }
    }
  }
}
