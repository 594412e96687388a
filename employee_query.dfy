/**
 * The read path of the employee service: GetEmployees narrows the Employees table
 * by up to four optional filters and then, when a sort key is given, orders it.
 *
 * The sort key is lowered with ToLowerInvariant before it is compared with case
 * labels that are all written with capital letters, so no label can ever match
 * and every non-empty key falls through to the default order, ascending by first
 * name. SortKeyIgnored states this; SwitchIntended is the switch with the labels
 * in lower case, which honours the key that was asked for.
 */
module EmployeeQuery {
  import opened Wrappers
  import opened Employees
  import opened Linq

  /** The filter and sort part of a list request; an absent (null) field is None. */
  datatype EmployeeResourceParameters = EmployeeResourceParameters(
    positionId: Option<int>,
    salary: Option<int>,
    salaryLessThan: Option<int>,
    salaryGreaterThan: Option<int>,
    orderBy: Option<string>)

  // The four filters. An absent filter admits every record.

  predicate PositionMatches(e: Employee, p: EmployeeResourceParameters)
  {
    p.positionId.None? || e.positionId == p.positionId.value
  }

  predicate SalaryMatches(e: Employee, p: EmployeeResourceParameters)
  {
    p.salary.None? || e.salary == p.salary.value
  }

  predicate SalaryBelowMatches(e: Employee, p: EmployeeResourceParameters)
  {
    p.salaryLessThan.None? || e.salary < p.salaryLessThan.value
  }

  predicate SalaryAboveMatches(e: Employee, p: EmployeeResourceParameters)
  {
    p.salaryGreaterThan.None? || e.salary > p.salaryGreaterThan.value
  }

  /** The record passes every filter the request supplies. */
  predicate Satisfies(e: Employee, p: EmployeeResourceParameters)
  {
    PositionMatches(e, p) && SalaryMatches(e, p) && SalaryBelowMatches(e, p) && SalaryAboveMatches(e, p)
  }

  function PositionFilter(p: EmployeeResourceParameters): Employee -> bool { e => PositionMatches(e, p) }
  function SalaryFilter(p: EmployeeResourceParameters): Employee -> bool { e => SalaryMatches(e, p) }
  function SalaryBelowFilter(p: EmployeeResourceParameters): Employee -> bool { e => SalaryBelowMatches(e, p) }
  function SalaryAboveFilter(p: EmployeeResourceParameters): Employee -> bool { e => SalaryAboveMatches(e, p) }
  function AllFilters(p: EmployeeResourceParameters): Employee -> bool { e => Satisfies(e, p) }

  /** One `if (… is not null) query = query.Where(…)` step. */
  function OptionalWhere(query: seq<Employee>, present: bool, f: Employee -> bool): seq<Employee>
  {
    if present then Where(query, f) else query
  }

  /** The query after the four filter steps, applied in the service's order. */
  function ApplyFilters(store: seq<Employee>, p: EmployeeResourceParameters): (r: seq<Employee>)
    ensures |r| <= |store|
    ensures forall i :: 0 <= i < |r| ==> r[i] in store && Satisfies(r[i], p)
  {
    var byPosition := OptionalWhere(store, p.positionId.Some?, PositionFilter(p));
    var bySalary := OptionalWhere(byPosition, p.salary.Some?, SalaryFilter(p));
    var byBelow := OptionalWhere(bySalary, p.salaryLessThan.Some?, SalaryBelowFilter(p));
    OptionalWhere(byBelow, p.salaryGreaterThan.Some?, SalaryAboveFilter(p))
  }

  /** Skipping a step whose filter admits everything is the same as applying it. */
  lemma OptionalWhereIsWhere(query: seq<Employee>, present: bool, f: Employee -> bool)
    requires !present ==> forall e :: f(e)
    ensures OptionalWhere(query, present, f) == Where(query, f)
  {
    if !present {
      WhereAll(query, f);
    }
  }

  /** The filter steps together keep exactly the records that satisfy every supplied filter, in store order. */
  lemma FiltersAreConjunction(store: seq<Employee>, p: EmployeeResourceParameters)
    ensures ApplyFilters(store, p) == Where(store, AllFilters(p))
  {
    var f1, f2, f3, f4 := PositionFilter(p), SalaryFilter(p), SalaryBelowFilter(p), SalaryAboveFilter(p);
    var g2 := (e: Employee) => PositionMatches(e, p) && SalaryMatches(e, p);
    var g3 := (e: Employee) => PositionMatches(e, p) && SalaryMatches(e, p) && SalaryBelowMatches(e, p);

    OptionalWhereIsWhere(store, p.positionId.Some?, f1);
    var q1 := Where(store, f1);
    OptionalWhereIsWhere(q1, p.salary.Some?, f2);
    WhereWhere(store, f1, f2, g2);
    var q2 := Where(store, g2);
    OptionalWhereIsWhere(q2, p.salaryLessThan.Some?, f3);
    WhereWhere(store, g2, f3, g3);
    var q3 := Where(store, g3);
    OptionalWhereIsWhere(q3, p.salaryGreaterThan.Some?, f4);
    WhereWhere(store, g3, f4, AllFilters(p));
  }

  // Lower-casing the sort key.

  predicate IsAsciiUpper(c: char)
  {
    'A' <= c <= 'Z'
  }

  function LowerInvariant(c: char): (d: char)
    ensures !IsAsciiUpper(d)
    ensures IsAsciiUpper(c) ==> d as int == c as int + 32
    ensures !IsAsciiUpper(c) ==> d == c
  {
    if IsAsciiUpper(c) then (c as int + 32) as char else c
  }

  /** C#'s string.ToLowerInvariant, on the ASCII letters. */
  function ToLowerInvariant(s: string): (r: string)
    ensures |r| == |s|
    ensures forall i :: 0 <= i < |r| ==> !IsAsciiUpper(r[i])
    ensures forall i :: 0 <= i < |s| && !IsAsciiUpper(s[i]) ==> r[i] == s[i]
    ensures forall i :: 0 <= i < |s| && IsAsciiUpper(s[i]) ==> r[i] as int == s[i] as int + 32
  {
    seq(|s|, i requires 0 <= i < |s| => LowerInvariant(s[i]))
  }

  // Sort orders.

  datatype SortField = FirstName | LastName | Salary | PositionId

  datatype SortOrder = Ascending(field: SortField) | Descending(field: SortField)

  /** Ordinal (code-unit by code-unit) string order. */
  predicate StrLe(a: string, b: string)
    decreases |a|
  {
    if a == [] then true
    else if b == [] then false
    else if a[0] != b[0] then a[0] < b[0]
    else StrLe(a[1..], b[1..])
  }

  lemma {:induction false} StrLeReflexive(a: string)
    ensures StrLe(a, a)
  {
    if a != [] {
      StrLeReflexive(a[1..]);
    }
  }

  lemma {:induction false} StrLeTotal(a: string, b: string)
    ensures StrLe(a, b) || StrLe(b, a)
    decreases |a|
  {
    if a != [] && b != [] && a[0] == b[0] {
      StrLeTotal(a[1..], b[1..]);
    }
  }

  lemma {:induction false} StrLeTransitive(a: string, b: string, c: string)
    requires StrLe(a, b) && StrLe(b, c)
    ensures StrLe(a, c)
    decreases |a|
  {
    if a != [] && b != [] && c != [] && a[0] == b[0] && b[0] == c[0] {
      StrLeTransitive(a[1..], b[1..], c[1..]);
    }
  }

  /** Strings that are ordered both ways are equal. */
  lemma {:induction false} StrLeAntisymmetric(a: string, b: string)
    requires StrLe(a, b) && StrLe(b, a)
    ensures a == b
    decreases |a|
  {
    if a != [] {
      StrLeAntisymmetric(a[1..], b[1..]);
      assert a == [a[0]] + a[1..] && b == [b[0]] + b[1..];
    }
  }

  /** `a` may come before `b` in ascending order of field `f`. */
  predicate FieldLe(f: SortField, a: Employee, b: Employee)
  {
    match f
    case FirstName => StrLe(a.firstName, b.firstName)
    case LastName => StrLe(a.lastName, b.lastName)
    case Salary => a.salary <= b.salary
    case PositionId => a.positionId <= b.positionId
  }

  /** The order an OrderBy / OrderByDescending by the order's field sorts into. */
  function Precedes(o: SortOrder): (Employee, Employee) -> bool
  {
    match o
    case Ascending(f) => (a: Employee, b: Employee) => FieldLe(f, a, b)
    case Descending(f) => (a: Employee, b: Employee) => FieldLe(f, b, a)
  }

  /** Two records tie in ascending first-name order exactly when their first names are equal. */
  lemma FirstNameTiesAreEqualNames(a: Employee, b: Employee)
    ensures (Precedes(Ascending(FirstName))(a, b) && Precedes(Ascending(FirstName))(b, a)) <==> a.firstName == b.firstName
  {
    if StrLe(a.firstName, b.firstName) && StrLe(b.firstName, a.firstName) {
      StrLeAntisymmetric(a.firstName, b.firstName);
    }
    if a.firstName == b.firstName {
      StrLeReflexive(a.firstName);
    }
  }

  lemma FieldLeTotalPreorder(f: SortField, a: Employee, b: Employee, c: Employee)
    ensures FieldLe(f, a, b) || FieldLe(f, b, a)
    ensures FieldLe(f, a, b) && FieldLe(f, b, c) ==> FieldLe(f, a, c)
  {
    match f
    case FirstName =>
      StrLeTotal(a.firstName, b.firstName);
      if StrLe(a.firstName, b.firstName) && StrLe(b.firstName, c.firstName) {
        StrLeTransitive(a.firstName, b.firstName, c.firstName);
      }
    case LastName =>
      StrLeTotal(a.lastName, b.lastName);
      if StrLe(a.lastName, b.lastName) && StrLe(b.lastName, c.lastName) {
        StrLeTransitive(a.lastName, b.lastName, c.lastName);
      }
    case Salary =>
    case PositionId =>
  }

  /** Every sort order the service can pick is a valid order to sort by. */
  lemma PrecedesIsTotalPreorder(o: SortOrder)
    ensures TotalPreorder(Precedes(o))
  {
    var le := Precedes(o);
    forall a, b
      ensures le(a, b) || le(b, a)
    {
      FieldLeTotalPreorder(o.field, a, b, b);
    }
    forall a, b, c | le(a, b) && le(b, c)
      ensures le(a, c)
    {
      if o.Ascending? {
        FieldLeTotalPreorder(o.field, a, b, c);
      } else {
        FieldLeTotalPreorder(o.field, c, b, a);
      }
    }
  }

  // The sort-key switch.

  /** The switch's case labels with the order each one selects, in the service's order. */
  const SortLabels: seq<(string, SortOrder)> := [
    ("FirstName", Ascending(FirstName)),
    ("FirstNamedesc", Descending(FirstName)),
    ("LastName", Ascending(LastName)),
    ("LastNamedesc", Descending(LastName)),
    ("Salary", Ascending(Salary)),
    ("Salarydesc", Descending(Salary)),
    ("PositionId", Ascending(PositionId)),
    ("PositionIddesc", Descending(PositionId))
  ]

  /** The switch as the service writes it, applied to the already-lowered key. */
  function SwitchAsWritten(key: string): (o: SortOrder)
    ensures forall i :: 0 <= i < |SortLabels| && key == SortLabels[i].0 ==> o == SortLabels[i].1
    ensures (forall i :: 0 <= i < |SortLabels| ==> key != SortLabels[i].0) ==> o == Ascending(FirstName)
  {
    match key
    case "FirstName" => Ascending(FirstName)
    case "FirstNamedesc" => assert key == SortLabels[1].0; Descending(FirstName)
    case "LastName" => assert key == SortLabels[2].0; Ascending(LastName)
    case "LastNamedesc" => assert key == SortLabels[3].0; Descending(LastName)
    case "Salary" => assert key == SortLabels[4].0; Ascending(Salary)
    case "Salarydesc" => assert key == SortLabels[5].0; Descending(Salary)
    case "PositionId" => assert key == SortLabels[6].0; Ascending(PositionId)
    case "PositionIddesc" => assert key == SortLabels[7].0; Descending(PositionId)
    case _ => Ascending(FirstName)
  }

  /** The switch with its labels lowered the same way as the key. */
  function SwitchIntended(key: string): (o: SortOrder)
    ensures forall i :: 0 <= i < |LoweredLabels| && key == LoweredLabels[i] ==> o == SortLabels[i].1
    ensures (forall i :: 0 <= i < |LoweredLabels| ==> key != LoweredLabels[i]) ==> o == Ascending(FirstName)
  {
    match key
    case "firstname" => Ascending(FirstName)
    case "firstnamedesc" => assert key == LoweredLabels[1]; Descending(FirstName)
    case "lastname" => assert key == LoweredLabels[2]; Ascending(LastName)
    case "lastnamedesc" => assert key == LoweredLabels[3]; Descending(LastName)
    case "salary" => assert key == LoweredLabels[4]; Ascending(Salary)
    case "salarydesc" => assert key == LoweredLabels[5]; Descending(Salary)
    case "positionid" => assert key == LoweredLabels[6]; Ascending(PositionId)
    case "positioniddesc" => assert key == LoweredLabels[7]; Descending(PositionId)
    case _ => Ascending(FirstName)
  }

  /**
   * Every label of the switch begins with a capital letter and a lowered key has
   * none, so whatever key is requested the switch picks its default.
   */
  lemma SortKeyIgnored(key: string)
    ensures SwitchAsWritten(ToLowerInvariant(key)) == Ascending(FirstName)
  {
    var lowered := ToLowerInvariant(key);
    if |lowered| > 0 {
      assert !IsAsciiUpper(lowered[0]);
    }
    forall i | 0 <= i < |SortLabels|
      ensures lowered != SortLabels[i].0
    {
      assert IsAsciiUpper(SortLabels[i].0[0]);
    }
  }

  /** The case labels, lowered. */
  const LoweredLabels: seq<string> := [
    "firstname", "firstnamedesc", "lastname", "lastnamedesc",
    "salary", "salarydesc", "positionid", "positioniddesc"
  ]

  lemma LabelLowered(i: nat)
    requires i < |SortLabels|
    ensures ToLowerInvariant(SortLabels[i].0) == LoweredLabels[i]
  {
  }

  /** With lowered labels, a key spelt like any label in any letter case selects that label's order. */
  lemma SwitchIntendedHonoursLabels(key: string, i: nat)
    requires i < |SortLabels|
    requires ToLowerInvariant(key) == ToLowerInvariant(SortLabels[i].0)
    ensures SwitchIntended(ToLowerInvariant(key)) == SortLabels[i].1
  {
    LabelLowered(i);
  }

  // The whole pipeline.

  predicate IsNullOrEmpty(s: Option<string>)
  {
    s.None? || s.value == ""
  }

  /** What GetEmployees hands to the paginator: the filtered query, ordered when a key is given. */
  function GetEmployees(store: seq<Employee>, p: EmployeeResourceParameters): (r: seq<Employee>)
    ensures |r| <= |store|
    ensures forall i :: 0 <= i < |r| ==> r[i] in store && Satisfies(r[i], p)
  {
    var query := ApplyFilters(store, p);
    if IsNullOrEmpty(p.orderBy) then query
    else
      var r := OrderBy(query, Precedes(SwitchAsWritten(ToLowerInvariant(p.orderBy.value))));
      assert forall i :: 0 <= i < |r| ==> r[i] in multiset(query);
      r
  }

  /** The same pipeline with the corrected switch. */
  function GetEmployeesIntended(store: seq<Employee>, p: EmployeeResourceParameters): (r: seq<Employee>)
    ensures |r| <= |store|
    ensures forall i :: 0 <= i < |r| ==> r[i] in store && Satisfies(r[i], p)
  {
    var query := ApplyFilters(store, p);
    if IsNullOrEmpty(p.orderBy) then query
    else
      var r := OrderBy(query, Precedes(SwitchIntended(ToLowerInvariant(p.orderBy.value))));
      assert forall i :: 0 <= i < |r| ==> r[i] in multiset(query);
      r
  }

  /** The records of the first name `name`. */
  function HasFirstName(name: string): Employee -> bool { (e: Employee) => e.firstName == name }

  /**
   * The result holds each record of the store that satisfies every supplied filter,
   * as many times as the store does, and nothing else: nothing is added or altered.
   */
  lemma GetEmployeesContents(store: seq<Employee>, p: EmployeeResourceParameters, e: Employee)
    ensures multiset(GetEmployees(store, p))[e] == if Satisfies(e, p) then multiset(store)[e] else 0
  {
    FiltersAreConjunction(store, p);
    WhereCounts(store, AllFilters(p), e);
  }

  /** Without a sort key, the result keeps the store's order: it is a subsequence of the store. */
  lemma GetEmployeesUnorderedKeepsStoreOrder(store: seq<Employee>, p: EmployeeResourceParameters)
    requires IsNullOrEmpty(p.orderBy)
    ensures GetEmployees(store, p) == Where(store, AllFilters(p))
    ensures IsSubsequence(GetEmployees(store, p), store)
  {
    FiltersAreConjunction(store, p);
    WhereIsSubsequence(store, AllFilters(p));
  }

  /**
   * With any non-empty sort key, "Salarydesc" included, the result is the filtered
   * records reordered ascending by first name.
   */
  lemma GetEmployeesAlwaysByFirstName(store: seq<Employee>, p: EmployeeResourceParameters)
    requires !IsNullOrEmpty(p.orderBy)
    ensures multiset(GetEmployees(store, p)) == multiset(Where(store, AllFilters(p)))
    ensures Sorted(GetEmployees(store, p), Precedes(Ascending(FirstName)))
  {
    SortKeyIgnored(p.orderBy.value);
    FiltersAreConjunction(store, p);
    PrecedesIsTotalPreorder(Ascending(FirstName));
    OrderBySorted(Where(store, AllFilters(p)), Precedes(Ascending(FirstName)));
  }

  /** With a non-empty sort key, records sharing a first name stay in store order. */
  lemma GetEmployeesKeepsTiesInStoreOrder(store: seq<Employee>, p: EmployeeResourceParameters, name: string)
    requires !IsNullOrEmpty(p.orderBy)
    ensures Where(GetEmployees(store, p), HasFirstName(name)) == Where(Where(store, AllFilters(p)), HasFirstName(name))
  {
    var le := Precedes(Ascending(FirstName));
    SortKeyIgnored(p.orderBy.value);
    FiltersAreConjunction(store, p);
    forall a, b | HasFirstName(name)(a) && HasFirstName(name)(b)
      ensures le(a, b)
    {
      StrLeReflexive(name);
    }
    OrderByStable(Where(store, AllFilters(p)), le, HasFirstName(name));
  }

  /** With the corrected switch, a key that spells a label in any letter case sorts by that label's order. */
  lemma GetEmployeesIntendedHonoursKey(store: seq<Employee>, p: EmployeeResourceParameters, i: nat)
    requires i < |SortLabels|
    requires p.orderBy.Some? && ToLowerInvariant(p.orderBy.value) == ToLowerInvariant(SortLabels[i].0)
    ensures multiset(GetEmployeesIntended(store, p)) == multiset(Where(store, AllFilters(p)))
    ensures Sorted(GetEmployeesIntended(store, p), Precedes(SortLabels[i].1))
  {
    var key := p.orderBy.value;
    var o := SortLabels[i].1;
    assert key != "" by {
      assert |ToLowerInvariant(key)| == |key|;
      assert |ToLowerInvariant(SortLabels[i].0)| == |SortLabels[i].0| > 0;
    }
    SwitchIntendedHonoursLabels(key, i);
    var filtered := Where(store, AllFilters(p));
    FiltersAreConjunction(store, p);
    assert GetEmployeesIntended(store, p) == OrderBy(filtered, Precedes(o));
    PrecedesIsTotalPreorder(o);
    OrderBySorted(filtered, Precedes(o));
  }
}
