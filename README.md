# HR employee directory: a Dafny model

The HR management server keeps one in-memory list of employee records. At
start-up the list holds three sample employees with ids 1, 2 and 3. The server
offers six operations. Four of them (get by id, get metrics, update role and
delete) scan the list from the front and stop at the first record whose id
matches; list all returns the list without scanning, and add appends to it:

- **list all** returns the list as it stands;
- **get by id** returns the record, or the error value
  `Employee with ID <id> not found`;
- **get metrics** returns name, department, salary, leave balance and
  last-updated time, or the error value `Metrics not found for employee ID <id>`;
- **update role** sets the `role` field and the timestamp of the matching record;
- **add** appends a new record with id `length + 1`
  (the leave balance defaults to 10);
- **delete** removes the matching record.

The model has three modules:

- `EmployeeTable` (`employee_table.dfy`) defines the record, the reply of
  each operation as a tagged datatype, and the shared first-match scan. It
  gives each operation's effect on the list as a pure function, whose
  `ensures` say which record changes, which fields change, how the length
  changes and that nothing else does. It holds the lemmas that relate one
  operation to another: update then get, delete then get, add then get,
  metrics against get-by-id.
- `HrServer` (`hr_server.dfy`) has the seed list and the class `Directory`.
  The class keeps the list in a field `employees` that its methods reassign.
  The four id-based methods scan with the same loop (`Find`). Update role,
  add, delete, get by id and metrics are each proved equal to the matching
  `EmployeeTable` function; list all is proved to return the field itself,
  and add appends without scanning.
- `IdAssignment` (`id_assignment.dfy`) covers the id scheme. If no delete
  happens, ids stay exactly `1..n` in list order, for any sequence of
  operations starting from the seed. From a directory whose ids are `1..n`,
  deleting a record other than the last and then adding one gives the new
  record an id that is still present.
  The model keeps the source's `length + 1` rule and proves that collision
  (for the seed: delete id 2, add, and the ids are `[1, 3, 3]`). In that
  state, looking up the new id returns the older record.

Replies are datatypes that carry the fields the server's messages mention;
the message text itself is not modelled. The server's clock is replaced by a
`Timestamp` argument. The constructor takes the three start-up times, and
update and add each take the current time. Salary is an integer.

One would expect ids to be unique at all times. The code does not make them
so: uniqueness is guaranteed only while nothing has been deleted, and
deleting a record other than the last and then adding one breaks it.
The model follows the code. `IdAssignment.DeleteThenAddReusesId` shows the
input that breaks uniqueness.

## Model

| member | source | states |
|---|---|---|
| EmployeeTable.FirstMatch | main.py:77-78 | the scan stops at a position whose record has the id and no earlier record has it; it finds nothing exactly when no record has the id |
| EmployeeTable.GetById | main.py:77-80 | found exactly when some record has the id; the result is the first such record; otherwise the not-found value carries the requested id |
| EmployeeTable.Metrics | main.py:182-191 | found exactly when some record has the id; the result is the name, department, salary, leave balance and last-updated time of the first such record; otherwise the not-found value carries the id |
| EmployeeTable.UpdateRole | main.py:98-104 | length and every id are kept; on a present id only the first match changes, only in role and timestamp, and the reply names the employee, the old role and the new role; on an absent id the list is unchanged and the reply is not-found |
| EmployeeTable.Add | main.py:117-144 | exactly one record is appended, with id old length + 1 and every other field from the arguments; leave balance defaults to 10; the earlier records are untouched |
| EmployeeTable.RemoveFirst | main.py:163 | removing an element that is present shortens the list by one |
| EmployeeTable.RemoveFirstAt | main.py:161-163 | removing by value the record the scan found removes exactly that position |
| EmployeeTable.Delete | main.py:161-165 | on a present id the first match is removed; the others keep their order; the length drops by one; the reply names the employee and the id; on an absent id the list is unchanged and the reply is not-found |
| EmployeeTable.GetByIdOfUnique | main.py:77-79 | with distinct ids, looking up any record's id returns that record and its metrics |
| EmployeeTable.MetricsProjectsGetById | main.py:182-191 | metrics is the five-field projection of what get-by-id returns, and is not-found exactly when get-by-id is |
| EmployeeTable.UpdateThenGet | main.py:98-102 | after an update of a present id, get-by-id on it shows the new role and timestamp with all other fields as before |
| EmployeeTable.UpdateKeepsUniqueIds | main.py:98-102 | an update keeps distinct ids distinct |
| EmployeeTable.DeleteThenGet | main.py:161-165 | with distinct ids, deleting keeps them distinct and leaves no record with the deleted id, so get-by-id yields not-found |
| EmployeeTable.AddThenGet | main.py:133-143 | if the new id was free, get-by-id on it returns the record add returned |
| HrServer.Seed | main.py:15-46 | the start-up list has three records whose ids are 1, 2, 3 in order (ConsecutiveIds) |
| HrServer.Directory.constructor | main.py:15-46 | the directory starts as the seed list |
| HrServer.Directory.Find | main.py:77-78 | the loop returns the position the first-match scan defines |
| HrServer.Directory.GetAllEmployees | main.py:53-60 | returns the directory's list as it is and changes nothing |
| HrServer.Directory.GetEmployeeById | main.py:67-80 | returns what GetById gives for the current list and changes nothing |
| HrServer.Directory.UpdateEmployeeRole | main.py:87-104 | the new list and the status are those UpdateRole gives for the old list |
| HrServer.Directory.AddEmployee | main.py:111-144 | the new list and the reply are those Add gives for the old list; the leave balance defaults to 10 |
| HrServer.Directory.DeleteEmployee | main.py:151-165 | the new list and the status are those Delete gives for the old list |
| HrServer.Directory.GetEmployeeMetrics | main.py:172-191 | returns what Metrics gives for the current list and changes nothing |
| HrServer.ListAllTwice | main.py:53-60 | two list calls with no mutation between them return equal sequences |
| IdAssignment.ConsecutiveIdsAreUnique | main.py:134 | ids 1..n in order are distinct, and id n + 1 is free |
| IdAssignment.AddKeepsConsecutiveIds | main.py:133-143 | add keeps ids 1..n in order, and the added record is then what get-by-id on its id returns |
| IdAssignment.WithoutDeletesIdsStayConsecutive | main.py:98-143 | any sequence of operations without a delete keeps ids 1..n in order, hence distinct |
| IdAssignment.SeedWithoutDeletesKeepsUniqueIds | main.py:15-46 | from the seed, ids stay distinct under every sequence of operations that deletes nothing |
| IdAssignment.DeleteThenAddReusesId | main.py:133-165 | with ids 1..n, deleting any id but n and then adding gives the new record id n, which the old last record still carries; ids are no longer distinct and get-by-id on the new id returns the old record |
| IdAssignment.SeedDeleteTwoThenAdd | main.py:15-165 | from the seed, deleting id 2 and then adding gives ids 1, 3, 3, and the new record has the default leave balance |

## Left out

- The tool-server wiring (creating the server object and registering each
  operation as a remotely callable tool) belongs to an external library. The
  operations are modelled as plain calls.
- The clock: `datetime.now().isoformat()` becomes a `Timestamp` argument. The
  model therefore does not say that a new timestamp is no earlier than the
  previous one.
- Salary is a Python float in the signature of add. The model uses an
  integer, since no operation computes with it.
- Message text: the emoji and formatted strings become tagged replies that
  carry the name, roles and ids the strings mention.
- Aliasing: the list and records the server returns are live references, so
  a caller could change them, and an update changes every reference to that
  record. The model returns values.
- EmployeeTable.RemoveFirst: requires the element to be present. Python's
  `list.remove` raises when it is absent, but delete only ever passes a
  record it has just found.
- Argument types: the model takes typed arguments. Python does not check
  them, so for example `True == 1` would match id 1. That is not modelled.
- Concurrency: calls run one at a time.
