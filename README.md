# StaySphere employee service, modelled in Dafny

This project models `EmployeeService`, the service layer of the StaySphere booking
backend. It covers the list query, lookup by id, create, update and delete over the
Employees table. The table is a sequence of `Employee` records (id, first name, last
name, salary, position id) in store order.

- `linq.dfy` (module `Linq`): the two query operators the service composes. `Where`
  keeps the elements that satisfy a predicate, in order. `OrderBy` is a stable sort
  by a total preorder, as LINQ to Objects' `OrderBy` is; the model sorts by insertion.
- `employees.dfy` (module `Employees`): the entity and its create and update shapes.
  The object mapper copies each field, so mapping is the identity on the fields used.
- `employee_query.dfy` (module `EmployeeQuery`): `GetEmployees`. It applies up to four
  optional filters (position id equal, salary equal, salary below, salary above). It
  then orders the result when a sort key is given.
- `employee_service.dfy` (module `Services`): the class `EmployeeService`, whose state
  is the Employees table. It also holds the pure functions its methods are proved
  against (`FindFirst`, `Lookup`, `RemoveFirst`, `FreshId`) and the lemmas about them.

The main results:

- A returned record satisfies every supplied filter. Every matching record of the
  store is returned, as often as it occurs in the store. Nothing is added or altered.
- Without a sort key, the result keeps the store's order.
- The sort key is lowered with `ToLowerInvariant` and then compared with case labels
  that all start with a capital letter. No label can match, so any non-empty key
  sorts ascending by first name. This includes `"Salarydesc"`. Records with equal
  first names stay in store order.
- `GetEmployeeById` fails with NotFound exactly when no record has the id. Otherwise it
  returns the first record with that id.
- `DeleteEmployee` does nothing when the id is absent. Otherwise it removes the first
  record with the id and keeps the others in order.
- `CreateEmployee` appends one record whose id no other record has.
- `UpdateEmployee` appends too, under a fresh id when the request's id is 0, as on
  create. The record it was meant to change is still there, and
  a later lookup still finds the old record.

In two places the evident intent and the code differ. The model follows the code:

- Sort keys are evidently meant to be matched case-insensitively. The code's switch
  can never match.
- An update is evidently meant to replace the stored record. The code adds a new one.

The corrected behaviours are modelled beside the as-written ones (see Findings).
`GetEmployeesIntended` is the pipeline with the corrected switch.

## Model

| member | source | states |
|---|---|---|
| `Linq.WhereCounts` | StaySphere.Api/StaySphere.Services/EmployeeService.cs:33-48 | a `Where` step keeps each occurrence of an element that passes its condition and drops every other |
| `Linq.WhereIsSubsequence` | StaySphere.Api/StaySphere.Services/EmployeeService.cs:33-48 | a `Where` step only deletes records; it never adds or reorders any |
| `Linq.OrderBySorted` | StaySphere.Api/StaySphere.Services/EmployeeService.cs:55-63 | `OrderBy` by a total preorder returns a sorted permutation of its input |
| `Linq.OrderByStable` | StaySphere.Api/StaySphere.Services/EmployeeService.cs:55-63 | among records that tie under the sort order, `OrderBy` keeps their input order |
| `Linq.Where` | StaySphere.Api/StaySphere.Services/EmployeeService.cs:33-48 | every element kept satisfies the condition and comes from the input, and there are no more of them than input elements (`WhereCounts`, `WhereIsSubsequence` state the rest) |
| `Linq.OrderBy` | StaySphere.Api/StaySphere.Services/EmployeeService.cs:55-63 | the sorted sequence is a permutation of the input (`OrderBySorted`, `OrderByStable` state the order) |
| `EmployeeQuery.ApplyFilters` | StaySphere.Api/StaySphere.Services/EmployeeService.cs:31-49 | the filtered query is no longer than the table, and each record in it is in the table and satisfies every supplied filter |
| `EmployeeQuery.FiltersAreConjunction` | StaySphere.Api/StaySphere.Services/EmployeeService.cs:29-49 | the four optional filter steps together keep exactly the store records that satisfy all supplied filters, in store order; an absent filter constrains nothing |
| `EmployeeQuery.ToLowerInvariant` | StaySphere.Api/StaySphere.Services/EmployeeService.cs:53 | the lowered key has the key's length, contains no capital letter, turns each capital letter into its lower-case letter (code plus 32), and keeps every other character |
| `EmployeeQuery.PrecedesIsTotalPreorder` | StaySphere.Api/StaySphere.Services/EmployeeService.cs:55-63 | every ascending or descending order by first name, last name, salary or position id is total and transitive, so it is a valid sort order |
| `EmployeeQuery.FirstNameTiesAreEqualNames` | StaySphere.Api/StaySphere.Services/EmployeeService.cs:63 | two records tie in ascending first-name order exactly when their first names are equal, so the tie classes are the first names |
| `EmployeeQuery.SortKeyIgnored` | StaySphere.Api/StaySphere.Services/EmployeeService.cs:53-63 | for every key, the switch applied to the lowered key selects the default order, ascending by first name |
| `EmployeeQuery.SwitchIntendedHonoursLabels` | StaySphere.Api/StaySphere.Services/EmployeeService.cs:53-62 | with lower-case labels, a key spelling any label in any letter case selects that label's field and direction |
| `EmployeeQuery.SwitchAsWritten` | StaySphere.Api/StaySphere.Services/EmployeeService.cs:53-63 | the switch as written: a key equal to one of the eight capitalised labels selects that label's field and direction; any other key selects ascending by first name (`SortKeyIgnored` shows that a lowered key is always "any other") |
| `EmployeeQuery.SwitchIntended` | StaySphere.Api/StaySphere.Services/EmployeeService.cs:53-63 | the switch with lower-case labels: a key equal to a lowered label selects that label's field and direction; a key equal to none selects ascending by first name |
| `EmployeeQuery.IsNullOrEmpty` | StaySphere.Api/StaySphere.Services/EmployeeService.cs:51 | `string.IsNullOrEmpty` on the optional sort key: a missing or empty key leaves the query unordered (`GetEmployeesUnorderedKeepsStoreOrder`), any other key orders it (`GetEmployeesAlwaysByFirstName`) |
| `EmployeeQuery.GetEmployees` | StaySphere.Api/StaySphere.Services/EmployeeService.cs:29-65 | the query handed to the paginator is no longer than the table, and each record in it is in the table and satisfies every supplied filter |
| `EmployeeQuery.GetEmployeesIntended` | StaySphere.Api/StaySphere.Services/EmployeeService.cs:29-65 | the pipeline with the corrected switch keeps the same guarantee: no longer than the table, each record from the table and satisfying every filter (`GetEmployeesIntendedHonoursKey` states its order) |
| `EmployeeQuery.GetEmployeesContents` | StaySphere.Api/StaySphere.Services/EmployeeService.cs:29-65 | the result holds each record satisfying all filters as many times as the store does, and no other record |
| `EmployeeQuery.GetEmployeesUnorderedKeepsStoreOrder` | StaySphere.Api/StaySphere.Services/EmployeeService.cs:51 | with a null or empty sort key, the result is the filtered store in store order, a subsequence of the store |
| `EmployeeQuery.GetEmployeesAlwaysByFirstName` | StaySphere.Api/StaySphere.Services/EmployeeService.cs:51-65 | with any non-empty sort key, the result is a permutation of the filtered records sorted ascending by first name |
| `EmployeeQuery.GetEmployeesKeepsTiesInStoreOrder` | StaySphere.Api/StaySphere.Services/EmployeeService.cs:51-65 | with any non-empty sort key, the records of any one first name appear in store order |
| `EmployeeQuery.GetEmployeesIntendedHonoursKey` | StaySphere.Api/StaySphere.Services/EmployeeService.cs:51-65 | with the corrected switch, a key naming a label in any letter case yields the filtered records sorted by that label's order |
| `Services.FindFirst` | StaySphere.Api/StaySphere.Services/EmployeeService.cs:75 | gives no position exactly when no record has the id; otherwise the position of a record with the id that has none before it |
| `Services.FindFirstAt` | StaySphere.Api/StaySphere.Services/EmployeeService.cs:75 | the first position holding the id is the one `FirstOrDefault` finds |
| `Services.Lookup` | StaySphere.Api/StaySphere.Services/EmployeeService.cs:75-83 | NotFound(id) exactly when no record has the id; otherwise the first record with that id |
| `Services.RemoveFirst` | StaySphere.Api/StaySphere.Services/EmployeeService.cs:107-112 | the table unchanged when no record has the id; otherwise the table without its first record with the id, every other record in order |
| `Services.FreshId` | StaySphere.Api/StaySphere.Services/EmployeeService.cs:88-91 | the id assigned on insert is positive and larger than every id already in the table |
| `Services.DeleteThenNotFound` | StaySphere.Api/StaySphere.Services/EmployeeService.cs:105-113 | on a table with unique ids, after a delete the id is not found, ids stay unique, and a present id costs exactly one record |
| `Services.CreateThenFound` | StaySphere.Api/StaySphere.Services/EmployeeService.cs:86-94 | a created record is found by its new id, and unique ids stay unique |
| `Services.UpdateAppendsStaleRecord` | StaySphere.Api/StaySphere.Services/EmployeeService.cs:97-103 | updating an existing id grows the table by one and a lookup still returns the old record; for a non-zero id two records now share it |
| `Services.UpdateIsInvisibleExample` | StaySphere.Api/StaySphere.Services/EmployeeService.cs:99-102 | on the table holding employee 1 with salary 100, an update to salary 200 leaves a lookup of id 1 at salary 100 |
| `Services.UpdateIntended` | StaySphere.Api/StaySphere.Services/EmployeeService.cs:97-103 | the corrected update fails exactly when no record has the id; on success the table keeps its length and holds the request's record |
| `Services.UpdateIntendedReplaces` | StaySphere.Api/StaySphere.Services/EmployeeService.cs:97-103 | the corrected update fails with NotFound exactly when the id is absent; otherwise it changes only the first record with the id, a lookup then returns the new values, and unique ids stay unique |
| `Services.AddedByUpdate` | StaySphere.Api/StaySphere.Services/EmployeeService.cs:99-101 | the record an update adds carries the request's fields; a non-zero request id is kept, and id 0 (the key's unset default) is replaced by an id no record in the table has |
| `Services.UpdateWithDefaultIdInserts` | StaySphere.Api/StaySphere.Services/EmployeeService.cs:99-102 | an update with id 0 inserts a new record under a fresh id, which a lookup then finds, and unique ids stay unique |
| `Services.EmployeeService.constructor` | StaySphere.Api/StaySphere.Services/EmployeeService.cs:20-25 | the service starts over the given table |
| `Services.EmployeeService.GetEmployees` | StaySphere.Api/StaySphere.Services/EmployeeService.cs:27-71 | returns the filtered, ordered query over the current table, before paging, and every record returned satisfies the filters |
| `Services.EmployeeService.GetEmployeeById` | StaySphere.Api/StaySphere.Services/EmployeeService.cs:73-84 | fails with NotFound exactly when no record has the id; otherwise returns the first record with it |
| `Services.EmployeeService.CreateEmployee` | StaySphere.Api/StaySphere.Services/EmployeeService.cs:86-95 | appends exactly one record with the request's fields and a fresh id, returns it, and leaves existing records untouched |
| `Services.EmployeeService.UpdateEmployee` | StaySphere.Api/StaySphere.Services/EmployeeService.cs:97-103 | appends the request as a new record, under a fresh id when the request's id is 0; the records already there, including any with the same id, are untouched |
| `Services.EmployeeService.DeleteEmployee` | StaySphere.Api/StaySphere.Services/EmployeeService.cs:105-113 | the new table is the old one without its first record with the id, or unchanged when the id is absent |

## Left out

- Paging (`ToPaginatedListAsync`, page size, page number and the `PaginatedList` metadata) is not part of this model. `ToPaginatedListAsync` is an extension method defined outside `EmployeeService.cs`; this model stops at the sequence handed to it.
- The object mapper and the `EmployeeMappings` profile are modelled as a field-by-field copy. `EmployeeDto` is the entity itself.
- Persistence is abstracted. The database context, `SaveChangesAsync`, async execution and logging are left out, and each save is treated as atomic and infallible.
- Services.EmployeeService.UpdateEmployee: with a non-zero id that is already in the table, the real save fails on the duplicate primary key (`Id` is the key by convention). The duplicate record exists only in this sequence model, which treats every save as succeeding. With a non-zero id not in the table, a store that forbids explicit values in an identity column also fails the save; the model inserts the record.
- EmployeeQuery.GetEmployeesUnorderedKeepsStoreOrder: a query without `ORDER BY` returns rows in whatever order the database chooses, and so does the "first" of `FirstOrDefault` in lookup and delete. The model takes one fixed row order, the sequence's, as the store order.
- The constructor's null-argument checks are left out. They concern dependency-injection wiring, and the model has no null references.
- Services.FreshId: models the identity column as one more than the largest id present (1 on an empty table). A real identity seed may differ, but it also never reuses an id in the table.
- EmployeeQuery.GetEmployeesKeepsTiesInStoreOrder: ties are kept in store order, as LINQ to Objects does. A database `ORDER BY` leaves the order of ties unspecified.
- EmployeeQuery.StrLe: strings are ordered ordinally, character code by character code. Database collations and culture-sensitive comparison are not modelled.
- EmployeeQuery.ToLowerInvariant: lowers the ASCII capitals only. Other Unicode case mappings are not modelled. The sort-key finding does not depend on them, because every case label starts with an ASCII capital.
- Salary is a decimal in the store and an unbounded integer here. The filters only compare salaries, so no arithmetic is lost.
- The `Booking` entity has no behaviour and is not part of this model.

## Findings

| source | as written | input that shows it | evidently intended | confidence | as-written member | corrected member |
|---|---|---|---|---|---|---|
| StaySphere.Api/StaySphere.Services/EmployeeService.cs:53-62 | the key is lowered, then compared with labels that each start with a capital letter, so only the default branch can be taken | `OrderBy = "Salarydesc"` returns the filtered records ascending by first name | compare the lowered key with lowered labels, so the requested field and direction are used | not executed | `EmployeeQuery.SortKeyIgnored` | `EmployeeQuery.SwitchIntendedHonoursLabels` |
| StaySphere.Api/StaySphere.Services/EmployeeService.cs:99-102 | update maps the request to a new entity and adds it | table `[Employee(1, "Ann", "Lee", 100, 2)]`, update id 1 to salary 200: two records with id 1, and a lookup of id 1 returns salary 100 | find the record with the id, replace its fields, NotFound when absent | not executed; for a non-zero id the real save fails on the duplicate key instead, so the two records exist only in the sequence model | `Services.UpdateAppendsStaleRecord` | `Services.UpdateIntendedReplaces` |
