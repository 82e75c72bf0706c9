/** The HR server's in-memory employee directory: one list of records, seeded
    with three sample employees at start-up and updated in place by the
    update-role, add and delete operations. Get by id, metrics, update role
    and delete scan the list front to back and stop at the first record with
    the requested id; list all returns the list and add appends to it. */
module HrServer {
  import opened EmployeeTable

  /** The three sample records present when the server starts. Each carries
      the time at which the server stamped it. */
  function Seed(t1: Timestamp, t2: Timestamp, t3: Timestamp): (s: seq<Employee>)
    ensures |s| == 3
    ensures ConsecutiveIds(s)
  {
    [ Employee(1, "Alice Johnson", "Software Engineer", "Engineering", "alice@company.com", 80000, 12, t1),
      Employee(2, "Bob Smith", "HR Manager", "Human Resources", "bob@company.com", 90000, 8, t2),
      Employee(3, "Charlie Brown", "Data Analyst", "Analytics", "charlie@company.com", 75000, 15, t3) ]
  }

  class Directory {
    var employees: seq<Employee>

    constructor (t1: Timestamp, t2: Timestamp, t3: Timestamp)
      ensures employees == Seed(t1, t2, t3)
    {
      employees := Seed(t1, t2, t3);
    }

    /** The scan the four id-based operations perform: walk the records in order and stop
        at the first whose id equals `id`. */
    method Find(id: int) returns (k: Option<nat>)
      ensures k == FirstMatch(employees, id)
    {
      var i := 0;
      while i < |employees|
        invariant 0 <= i <= |employees|
        invariant forall j :: 0 <= j < i ==> employees[j].id != id
      {
        if employees[i].id == id {
          FirstMatchIsUnique(employees, id, i, FirstMatch(employees, id).value);
          return Some(i);
        }
        i := i + 1;
      }
      return None;
    }

    /** get_all_employees: the directory as it stands. */
    method GetAllEmployees() returns (r: seq<Employee>)
      ensures r == employees
    {
      r := employees;
    }

    method GetEmployeeById(id: int) returns (r: EmployeeLookup)
      ensures r == GetById(employees, id)
    {
      var k := Find(id);
      match k
      case Some(i) => r := Found(employees[i]);
      case None => r := EmployeeNotFound(id);
    }

    method UpdateEmployeeRole(id: int, newRole: string, now: Timestamp) returns (status: UpdateStatus)
      modifies this
      ensures Step(employees, status) == UpdateRole(old(employees), id, newRole, now)
    {
      var k := Find(id);
      match k
      case Some(i) =>
        var oldRole := employees[i].role;
        employees := employees[i := employees[i].(role := newRole)];
        employees := employees[i := employees[i].(lastUpdated := now)];
        status := RoleUpdated(employees[i].name, oldRole, newRole);
      case None =>
        status := UpdateNotFound;
    }

    method AddEmployee(now: Timestamp, name: string, role: string, department: string, email: string,
                       salary: int, leaveBalance: int := DefaultLeaveBalance) returns (r: AddReply)
      modifies this
      ensures Step(employees, r) == Add(old(employees), now, name, role, department, email, salary, leaveBalance)
    {
      var e := Employee(|employees| + 1, name, role, department, email, salary, leaveBalance, now);
      employees := employees + [e];
      r := EmployeeAdded(e);
    }

    method DeleteEmployee(id: int) returns (status: DeleteStatus)
      modifies this
      ensures Step(employees, status) == Delete(old(employees), id)
    {
      var k := Find(id);
      match k
      case Some(i) =>
        var e := employees[i];
        employees := RemoveFirst(employees, e);
        status := Deleted(e.name, id);
      case None =>
        status := DeleteNotFound;
    }

    method GetEmployeeMetrics(id: int) returns (r: MetricsLookup)
      ensures r == Metrics(employees, id)
    {
      var k := Find(id);
      match k
      case Some(i) =>
        var e := employees[i];
        r := MetricsFound(MetricsView(e.name, e.department, e.salary, e.leaveBalance, e.lastUpdated));
      case None =>
        r := MetricsNotFound(id);
    }
  }

  /** Listing twice with no mutation in between gives equal sequences; this
      follows from the contract of GetAllEmployees alone. */
  method ListAllTwice(d: Directory) returns (first: seq<Employee>, second: seq<Employee>)
    ensures first == second == d.employees
  {
    first := d.GetAllEmployees();
    second := d.GetAllEmployees();
  }
}
