/** Employee records of the HR directory and, as pure functions over the
    ordered record list, what each of the six directory operations replies
    and what the list looks like afterwards. Get by id, metrics, update role
    and delete locate their record with the same scan: the first record, in
    list order, whose id equals the requested id. List all and add do not
    scan. */
module EmployeeTable {

  /** ISO-8601 text produced by the server's clock. The clock itself is not
      modelled: every operation that stamps a record receives the time. */
  type Timestamp = string

  /** Leave balance given to an added employee when the caller names none. */
  const DefaultLeaveBalance: int := 10

  datatype Employee = Employee(
    id: int,
    name: string,
    role: string,
    department: string,
    email: string,
    salary: int,
    leaveBalance: int,
    lastUpdated: Timestamp)

  datatype Option<T> = None | Some(value: T)

  /** Reply of the get-by-id operation: the record, or the error value
      "Employee with ID <id> not found". */
  datatype EmployeeLookup = Found(employee: Employee) | EmployeeNotFound(id: int)

  /** The reduced view returned by the metrics operation. */
  datatype MetricsView = MetricsView(
    name: string,
    department: string,
    salary: int,
    leaveBalance: int,
    lastUpdated: Timestamp)

  /** Reply of the metrics operation: the view, or the error value
      "Metrics not found for employee ID <id>". */
  datatype MetricsLookup = MetricsFound(metrics: MetricsView) | MetricsNotFound(id: int)

  /** Status message of the update-role operation: the success text names the
      employee, the old role and the new role; the failure text is fixed. */
  datatype UpdateStatus = RoleUpdated(name: string, oldRole: string, newRole: string) | UpdateNotFound

  /** Reply of the add operation: a fixed success message and the new record. */
  datatype AddReply = EmployeeAdded(employee: Employee)

  /** Status message of the delete operation: the success text names the
      employee and the requested id; the failure text is fixed. */
  datatype DeleteStatus = Deleted(name: string, id: int) | DeleteNotFound

  /** The directory after an operation, paired with the operation's reply. */
  datatype Step<R> = Step(table: seq<Employee>, reply: R)

  predicate HasId(s: seq<Employee>, id: int)
  {
    exists i :: 0 <= i < |s| && s[i].id == id
  }

  /** Index i is where a front-to-back scan for `id` stops. */
  predicate IsFirstMatch(s: seq<Employee>, id: int, i: int)
  {
    0 <= i < |s| && s[i].id == id && forall j :: 0 <= j < i ==> s[j].id != id
  }

  /** The scan shared by the four id-based operations: the position of the first record
      carrying `id`, or None when no record does. */
  function FirstMatch(s: seq<Employee>, id: int): (r: Option<nat>)
    ensures r.Some? ==> IsFirstMatch(s, id, r.value)
    ensures r.None? <==> !HasId(s, id)
  {
    if s == [] then None
    else if s[0].id == id then Some(0)
    else
      match FirstMatch(s[1..], id)
      case None =>
        assert forall j :: 0 < j < |s| ==> s[j] == s[1..][j - 1];
        None
      case Some(k) =>
        assert forall j :: 0 < j <= k ==> s[j] == s[1..][j - 1];
        Some(k + 1)
  }

  lemma FirstMatchIsUnique(s: seq<Employee>, id: int, i: int, k: int)
    requires IsFirstMatch(s, id, i) && IsFirstMatch(s, id, k)
    ensures i == k
  {
  }

  /** get_employee_by_id: the first record carrying `id`, else not-found. */
  function GetById(s: seq<Employee>, id: int): (r: EmployeeLookup)
    ensures r.Found? <==> HasId(s, id)
    ensures forall i :: IsFirstMatch(s, id, i) ==> r == Found(s[i])
    ensures r.EmployeeNotFound? ==> r.id == id
  {
    match FirstMatch(s, id)
    case Some(i) => Found(s[i])
    case None => EmployeeNotFound(id)
  }

  /** get_employee_metrics: the five-field view of the first record carrying
      `id`, else not-found. */
  function Metrics(s: seq<Employee>, id: int): (r: MetricsLookup)
    ensures r.MetricsFound? <==> HasId(s, id)
    ensures forall i :: IsFirstMatch(s, id, i) ==>
              r == MetricsFound(MetricsView(s[i].name, s[i].department, s[i].salary,
                                            s[i].leaveBalance, s[i].lastUpdated))
    ensures r.MetricsNotFound? ==> r.id == id
  {
    match FirstMatch(s, id)
    case Some(i) =>
      var e := s[i];
      MetricsFound(MetricsView(e.name, e.department, e.salary, e.leaveBalance, e.lastUpdated))
    case None => MetricsNotFound(id)
  }

  /** update_employee_role: on the first record carrying `id`, the role becomes
      `newRole` and the timestamp becomes `now`; nothing else changes. */
  function UpdateRole(s: seq<Employee>, id: int, newRole: string, now: Timestamp): (r: Step<UpdateStatus>)
    ensures |r.table| == |s|
    ensures forall j :: 0 <= j < |s| ==> r.table[j].id == s[j].id
    ensures r.reply.RoleUpdated? <==> HasId(s, id)
    ensures forall i :: IsFirstMatch(s, id, i) ==>
              r.reply == RoleUpdated(s[i].name, s[i].role, newRole) &&
              r.table[i] == s[i].(role := newRole, lastUpdated := now) &&
              forall j :: 0 <= j < |s| && j != i ==> r.table[j] == s[j]
    ensures !HasId(s, id) ==> r.table == s
  {
    match FirstMatch(s, id)
    case Some(i) =>
      Step(s[i := s[i].(role := newRole, lastUpdated := now)], RoleUpdated(s[i].name, s[i].role, newRole))
    case None => Step(s, UpdateNotFound)
  }

  /** add_employee: the new record gets id `|s| + 1` and is appended; the
      leave balance defaults to DefaultLeaveBalance. */
  function Add(s: seq<Employee>, now: Timestamp, name: string, role: string, department: string,
               email: string, salary: int, leaveBalance: int := DefaultLeaveBalance): (r: Step<AddReply>)
    ensures r.table == s + [r.reply.employee]
    ensures r.reply.employee == Employee(|s| + 1, name, role, department, email, salary, leaveBalance, now)
  {
    var e := Employee(|s| + 1, name, role, department, email, salary, leaveBalance, now);
    Step(s + [e], EmployeeAdded(e))
  }

  /** Python's list.remove: drops the first element equal to `e`. The list
      method raises when `e` is absent; every caller here passes an element
      of the list. */
  function RemoveFirst(s: seq<Employee>, e: Employee): (r: seq<Employee>)
    requires e in s
    ensures |r| == |s| - 1
  {
    if s[0] == e then s[1..] else [s[0]] + RemoveFirst(s[1..], e)
  }

  /** Removing the first element equal to s[i] removes position i when no
      earlier element equals s[i]. */
  lemma {:induction false} RemoveFirstAt(s: seq<Employee>, i: nat)
    requires i < |s|
    requires forall j :: 0 <= j < i ==> s[j] != s[i]
    ensures RemoveFirst(s, s[i]) == s[..i] + s[i + 1..]
  {
    if i > 0 {
      assert s[1..][i - 1] == s[i];
      RemoveFirstAt(s[1..], i - 1);
      assert s[1..][..i - 1] + s[1..][i..] == s[1..i] + s[i + 1..];
      assert [s[0]] + s[1..i] == s[..i];
    }
  }

  /** delete_employee: the first record carrying `id` leaves the list, the
      others keep their relative order. The record is removed by value, as
      the source does; no earlier record can equal it, because no earlier
      record carries `id`. */
  function Delete(s: seq<Employee>, id: int): (r: Step<DeleteStatus>)
    ensures r.reply.Deleted? <==> HasId(s, id)
    ensures |r.table| == if HasId(s, id) then |s| - 1 else |s|
    ensures forall i :: IsFirstMatch(s, id, i) ==>
              r.table == s[..i] + s[i + 1..] && r.reply == Deleted(s[i].name, id)
    ensures !HasId(s, id) ==> r.table == s
  {
    match FirstMatch(s, id)
    case Some(i) =>
      RemoveFirstAt(s, i);
      Step(RemoveFirst(s, s[i]), Deleted(s[i].name, id))
    case None => Step(s, DeleteNotFound)
  }

  /** The record at position i carries id i + 1. */
  predicate ConsecutiveIds(s: seq<Employee>)
  {
    forall i :: 0 <= i < |s| ==> s[i].id == i + 1
  }

  /** Ids are pairwise distinct: the directory's intended invariant. */
  predicate UniqueIds(s: seq<Employee>)
  {
    forall i, j :: 0 <= i < j < |s| ==> s[i].id != s[j].id
  }

  /** With distinct ids, every lookup of a present id returns that record. */
  lemma GetByIdOfUnique(s: seq<Employee>, i: int)
    requires UniqueIds(s) && 0 <= i < |s|
    ensures GetById(s, s[i].id) == Found(s[i])
    ensures Metrics(s, s[i].id) == MetricsFound(MetricsView(s[i].name, s[i].department, s[i].salary,
                                                            s[i].leaveBalance, s[i].lastUpdated))
  {
    assert IsFirstMatch(s, s[i].id, i);
  }

  /** The metrics view is the projection of the record get-by-id returns. */
  lemma {:induction false} MetricsProjectsGetById(s: seq<Employee>, id: int)
    ensures match GetById(s, id)
            case Found(e) =>
              Metrics(s, id) == MetricsFound(MetricsView(e.name, e.department, e.salary, e.leaveBalance, e.lastUpdated))
            case EmployeeNotFound(missing) => Metrics(s, id) == MetricsNotFound(missing)
  {
    match FirstMatch(s, id)
    case Some(i) =>
    case None =>
  }

  /** After updating the role of a present id, a lookup of that id shows the
      new role and timestamp, and every other field as it was. */
  lemma {:induction false} UpdateThenGet(s: seq<Employee>, id: int, newRole: string, now: Timestamp)
    requires HasId(s, id)
    ensures GetById(UpdateRole(s, id, newRole, now).table, id).Found?
    ensures GetById(UpdateRole(s, id, newRole, now).table, id).employee
            == GetById(s, id).employee.(role := newRole, lastUpdated := now)
  {
    var i := FirstMatch(s, id).value;
    var t := UpdateRole(s, id, newRole, now).table;
    assert IsFirstMatch(t, id, i);
  }

  /** Updating a role leaves the set of ids, position by position, unchanged,
      and so keeps them distinct. */
  lemma UpdateKeepsUniqueIds(s: seq<Employee>, id: int, newRole: string, now: Timestamp)
    requires UniqueIds(s)
    ensures UniqueIds(UpdateRole(s, id, newRole, now).table)
  {
    var t := UpdateRole(s, id, newRole, now).table;
    forall i, j | 0 <= i < j < |t| ensures t[i].id != t[j].id {
      assert t[i].id == s[i].id && t[j].id == s[j].id;
    }
  }

  /** Position j of a list with position i removed holds the element that
      was at j before i and at j + 1 from i on. */
  lemma RemovedAt(s: seq<Employee>, i: int, j: int)
    requires 0 <= i < |s| && 0 <= j < |s| - 1
    ensures (s[..i] + s[i + 1..])[j] == if j < i then s[j] else s[j + 1]
  {
  }

  /** Deleting keeps distinct ids distinct, and afterwards the deleted id is no
      longer present, so looking it up yields not-found. */
  lemma {:induction false} DeleteThenGet(s: seq<Employee>, id: int)
    requires UniqueIds(s)
    ensures UniqueIds(Delete(s, id).table)
    ensures !HasId(Delete(s, id).table, id)
    ensures GetById(Delete(s, id).table, id) == EmployeeNotFound(id)
  {
    var t := Delete(s, id).table;
    var k := FirstMatch(s, id);
    if k.Some? {
      var i := k.value;
      assert t == s[..i] + s[i + 1..];
      forall a, b | 0 <= a < b < |t| ensures t[a].id != t[b].id {
        RemovedAt(s, i, a);
        RemovedAt(s, i, b);
      }
      forall j | 0 <= j < |t| ensures t[j].id != id {
        RemovedAt(s, i, j);
      }
    }
  }

  /** An added record is found by its id whenever that id was free. */
  lemma AddThenGet(s: seq<Employee>, now: Timestamp, name: string, role: string, department: string,
                   email: string, salary: int, leaveBalance: int)
    requires !HasId(s, |s| + 1)
    ensures var r := Add(s, now, name, role, department, email, salary, leaveBalance);
            GetById(r.table, r.reply.employee.id) == Found(r.reply.employee)
  {
    var r := Add(s, now, name, role, department, email, salary, leaveBalance);
    assert IsFirstMatch(r.table, |s| + 1, |s|);
  }
}
