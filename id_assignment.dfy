/** How the directory assigns ids. A new record gets the list's length plus
    one. As long as nothing is deleted, the ids stay exactly 1..n in list
    order, so they are distinct. From ids 1..n, deleting a record other than
    the last and then adding one reuses an id that is still present. */
module IdAssignment {
  import opened EmployeeTable
  import opened HrServer

  lemma ConsecutiveIdsAreUnique(s: seq<Employee>)
    requires ConsecutiveIds(s)
    ensures UniqueIds(s)
    ensures !HasId(s, |s| + 1)
  {
  }

  /** Adding keeps ids consecutive, and the added record is then the one a
      lookup of its id returns. */
  lemma AddKeepsConsecutiveIds(s: seq<Employee>, now: Timestamp, name: string, role: string,
                               department: string, email: string, salary: int, leaveBalance: int)
    requires ConsecutiveIds(s)
    ensures var r := Add(s, now, name, role, department, email, salary, leaveBalance);
            ConsecutiveIds(r.table) &&
            GetById(r.table, r.reply.employee.id) == Found(r.reply.employee)
  {
    ConsecutiveIdsAreUnique(s);
    AddThenGet(s, now, name, role, department, email, salary, leaveBalance);
  }

  /** One call of a directory operation, with its arguments. */
  datatype Command =
    | ListAll
    | GetOne(id: int)
    | GetMetrics(id: int)
    | UpdateRoleOf(id: int, newRole: string, now: Timestamp)
    | AddOne(now: Timestamp, name: string, role: string, department: string, email: string,
             salary: int, leaveBalance: int)
    | DeleteOne(id: int)

  /** The directory after one operation; the read-only ones change nothing. */
  function Apply(s: seq<Employee>, c: Command): seq<Employee>
  {
    match c
    case ListAll => s
    case GetOne(_) => s
    case GetMetrics(_) => s
    case UpdateRoleOf(id, newRole, now) => UpdateRole(s, id, newRole, now).table
    case AddOne(now, name, role, department, email, salary, leaveBalance) =>
      Add(s, now, name, role, department, email, salary, leaveBalance).table
    case DeleteOne(id) => Delete(s, id).table
  }

  /** The directory after a sequence of operations, first to last. */
  function Run(s: seq<Employee>, cs: seq<Command>): seq<Employee>
    decreases |cs|
  {
    if cs == [] then s else Run(Apply(s, cs[0]), cs[1..])
  }

  predicate NoDeletes(cs: seq<Command>)
  {
    forall i :: 0 <= i < |cs| ==> !cs[i].DeleteOne?
  }

  /** Any run of operations without a delete keeps the ids 1..n in order. */
  lemma {:induction false} WithoutDeletesIdsStayConsecutive(s: seq<Employee>, cs: seq<Command>)
    requires ConsecutiveIds(s) && NoDeletes(cs)
    ensures ConsecutiveIds(Run(s, cs))
    ensures UniqueIds(Run(s, cs))
    decreases |cs|
  {
    if cs == [] {
      ConsecutiveIdsAreUnique(s);
    } else {
      var t := Apply(s, cs[0]);
      match cs[0] {
        case AddOne(now, name, role, department, email, salary, leaveBalance) =>
          AddKeepsConsecutiveIds(s, now, name, role, department, email, salary, leaveBalance);
        case UpdateRoleOf(id, newRole, now) =>
          assert forall j :: 0 <= j < |s| ==> t[j].id == s[j].id;
        case _ =>
      }
      assert ConsecutiveIds(t);
      assert NoDeletes(cs[1..]) by {
        forall i | 0 <= i < |cs| - 1 ensures !cs[1..][i].DeleteOne? {
          assert cs[1..][i] == cs[i + 1];
        }
      }
      WithoutDeletesIdsStayConsecutive(t, cs[1..]);
    }
  }

  /** From the sample directory, ids stay distinct under every run of
      operations that deletes nothing. */
  lemma SeedWithoutDeletesKeepsUniqueIds(t1: Timestamp, t2: Timestamp, t3: Timestamp, cs: seq<Command>)
    requires NoDeletes(cs)
    ensures UniqueIds(Run(Seed(t1, t2, t3), cs))
  {
    WithoutDeletesIdsStayConsecutive(Seed(t1, t2, t3), cs);
  }

  /** Deleting any record but the last from a directory with ids 1..n, then
      adding one, gives the new record id n: the id of the record that was
      last, which is still present. The ids are no longer distinct, and a
      lookup of the new id returns the older record, not the added one. */
  lemma {:induction false} DeleteThenAddReusesId(s: seq<Employee>, k: int, now: Timestamp, name: string,
                                                 role: string, department: string, email: string,
                                                 salary: int, leaveBalance: int)
    requires ConsecutiveIds(s) && 1 <= k < |s|
    ensures var d := Delete(s, k).table;
            var r := Add(d, now, name, role, department, email, salary, leaveBalance);
            r.reply.employee.id == |s| &&
            r.table[|s| - 2] == s[|s| - 1] &&
            r.table[|s| - 2].id == r.reply.employee.id &&
            !UniqueIds(r.table) &&
            GetById(r.table, r.reply.employee.id) == Found(s[|s| - 1])
  {
    var d := Delete(s, k).table;
    var r := Add(d, now, name, role, department, email, salary, leaveBalance);
    assert IsFirstMatch(s, k, k - 1);
    assert d == s[..k - 1] + s[k..];
    assert d[|s| - 2] == s[|s| - 1];
    assert r.table[|s| - 2] == d[|s| - 2];
    assert r.table[|s| - 1] == r.reply.employee;
    forall j | 0 <= j < |s| - 2 ensures r.table[j].id != |s| {
      assert r.table[j] == d[j] == if j < k - 1 then s[j] else s[j + 1];
    }
    assert IsFirstMatch(r.table, |s|, |s| - 2);
  }

  /** The sample scenario: deleting id 2 and then adding an employee yields a
      second record with id 3. */
  lemma SeedDeleteTwoThenAdd(t1: Timestamp, t2: Timestamp, t3: Timestamp, now: Timestamp)
    ensures var d := Delete(Seed(t1, t2, t3), 2).table;
            var r := Add(d, now, "X", "Y", "Z", "x@z.com", 1000);
            r.reply.employee.id == 3 &&
            r.reply.employee.leaveBalance == DefaultLeaveBalance &&
            [r.table[0].id, r.table[1].id, r.table[2].id] == [1, 3, 3]
  {
    DeleteThenAddReusesId(Seed(t1, t2, t3), 2, now, "X", "Y", "Z", "x@z.com", 1000, DefaultLeaveBalance);
    assert IsFirstMatch(Seed(t1, t2, t3), 2, 1);
  }
}
