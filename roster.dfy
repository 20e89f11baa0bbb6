/**
 * The small employee roster: a list of `{id, name, department}` records that
 * the menu appends to, edits the department of the first record with an id,
 * and filters to delete every record with an id.
 */
module Roster {
  import opened Wrappers

  datatype Employee = Employee(id: int, name: string, department: string)

  /** The position of the first record with this id, if any. */
  function FirstWith(s: seq<Employee>, id: int): (r: Option<nat>)
    ensures r.None? <==> forall k | 0 <= k < |s| :: s[k].id != id
    ensures r.Some? ==> r.value < |s| && s[r.value].id == id && forall k | 0 <= k < r.value :: s[k].id != id
  {
    if s == [] then None
    else if s[0].id == id then Some(0)
    else
      assert forall k | 1 <= k < |s| :: s[k] == s[1..][k - 1];
      match FirstWith(s[1..], id)
      case None => None
      case Some(j) => Some(j + 1)
  }

  /** The list after moving the first record with this id to `dept`. */
  function Updated(s: seq<Employee>, id: int, dept: string): (r: seq<Employee>)
    ensures |r| == |s|
    ensures FirstWith(s, id).None? ==> r == s
    ensures FirstWith(s, id).Some? ==>
      var i := FirstWith(s, id).value;
      r[i] == s[i].(department := dept) && forall k | 0 <= k < |s| && k != i :: r[k] == s[k]
  {
    if s == [] then []
    else if s[0].id == id then [s[0].(department := dept)] + s[1..]
    else
      var rest := Updated(s[1..], id, dept);
      assert forall k | 1 <= k < |s| :: s[k] == s[1..][k - 1];
      [s[0]] + rest
  }

  /** The list after deleting every record with this id. */
  function Deleted(s: seq<Employee>, id: int): (r: seq<Employee>)
    ensures |r| <= |s|
    ensures forall k | 0 <= k < |r| :: r[k].id != id
  {
    var r := Select(s, (e: Employee) => e.id != id);
    SelectMembers(s, (e: Employee) => e.id != id);
    assert forall k | 0 <= k < |r| :: r[k] in r;
    r
  }

  /** Deleting keeps exactly the records with another id. */
  lemma DeleteMembers(s: seq<Employee>, id: int)
    ensures forall e :: e in Deleted(s, id) <==> e in s && e.id != id
  {
    SelectMembers(s, (e: Employee) => e.id != id);
  }

  /** Deleting an id no record carries changes nothing. */
  lemma DeleteAbsent(s: seq<Employee>, id: int)
    requires forall k | 0 <= k < |s| :: s[k].id != id
    ensures Deleted(s, id) == s
  {
    SelectAll(s, (e: Employee) => e.id != id);
  }

  /** Deleting shortens the list by the number of records with that id. */
  lemma DeleteCount(s: seq<Employee>, id: int)
    ensures |Deleted(s, id)| == |s| - CountIf(s, (e: Employee) => e.id == id)
  {
    SelectLength(s, (e: Employee) => e.id != id, (e: Employee) => e.id == id);
  }

  /** Deleting keeps the order of the records left: deleting from a concatenation deletes from each part. */
  lemma DeleteKeepsOrder(a: seq<Employee>, b: seq<Employee>, id: int)
    ensures Deleted(a + b, id) == Deleted(a, id) + Deleted(b, id)
  {
    SelectConcat(a, b, (e: Employee) => e.id != id);
  }

  /** A record added with another id survives a later delete, last in the list. */
  lemma AddThenDeleteOther(s: seq<Employee>, e: Employee, id: int)
    requires e.id != id
    ensures Deleted(s + [e], id) == Deleted(s, id) + [e]
  {
    SelectConcat(s, [e], (x: Employee) => x.id != id);
    SelectAll([e], (x: Employee) => x.id != id);
  }

  /** The global `employees` list of the program. */
  class Roster {
    var employees: seq<Employee>

    constructor (employees: seq<Employee>)
      ensures this.employees == employees
    {
      this.employees := employees;
    }

    /** `add_employee`: one record at the end, nothing else changed. */
    method AddEmployee(id: int, name: string, dept: string)
      modifies this
      ensures employees == old(employees) + [Employee(id, name, dept)]
    {
      employees := employees + [Employee(id, name, dept)];
    }

    /** `update_department`: the first record with the id gets the new department and the search stops; `found` is false ("Employee not found") when none has it. */
    method UpdateDepartment(id: int, dept: string) returns (found: bool)
      modifies this
      ensures found <==> exists k | 0 <= k < |old(employees)| :: old(employees)[k].id == id
      ensures employees == Updated(old(employees), id, dept)
    {
      var k := 0;
      while k < |employees|
        invariant 0 <= k <= |employees|
        invariant employees == old(employees)
        invariant forall j | 0 <= j < k :: employees[j].id != id
      {
        if employees[k].id == id {
          ghost var s := employees;
          employees := employees[k := employees[k].(department := dept)];
          assert FirstWith(s, id) == Some(k);
          assert employees == Updated(s, id, dept);
          return true;
        }
        k := k + 1;
      }
      return false;
    }

    /** `delete_employee`: the list is rebuilt from the records with another id. */
    method DeleteEmployee(id: int)
      modifies this
      ensures employees == Deleted(old(employees), id)
    {
      employees := Deleted(employees, id);
    }
  }
}
