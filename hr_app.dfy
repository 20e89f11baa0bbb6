/**
 * The controller of the employee-records application: the list of employees it
 * holds, and the effect of the create, edit and delete commands on that list and
 * on the saved file. The prompts of the menu become parameters.
 */
module HrApp {
  import opened Wrappers
  import opened Text
  import opened HrEmployee
  import opened HrData

  /** The message the controller shows at the end of a command. */
  datatype Response =
    | Created | DuplicateId | CreateFailed(error: HrError)
    | NoSuchEmployee
    | InvalidChoice | EditFailed(error: HrError) | Updated(teamSizeIgnored: bool)
    | DeleteCanceled | Deleted

  /** The fields the edit menu offers. */
  datatype Field = FirstName | LastName | Department | Phone

  predicate UniqueIds(recs: seq<HrRecord>) {
    forall i, j | 0 <= i < j < |recs| :: recs[i].id != recs[j].id
  }

  predicate AllOk(recs: seq<HrRecord>) {
    forall k | 0 <= k < |recs| :: RecordOk(recs[k])
  }

  // ---------------------------------------------------------------- the list, as values

  /** `_find_by_id`: the position of the first employee with the id, if any. */
  function FindRecord(recs: seq<HrRecord>, id: string): (r: Option<nat>)
    ensures r.Some? ==> r.value < |recs| && recs[r.value].id == id
    ensures r.Some? ==> forall k | 0 <= k < r.value :: recs[k].id != id
    ensures r.None? <==> forall k | 0 <= k < |recs| :: recs[k].id != id
  {
    if recs == [] then None
    else if recs[0].id == id then Some(0)
    else match FindRecord(recs[1..], id)
      case None => None
      case Some(j) => Some(j + 1)
  }

  /** `create_employee`: construct first, then reject an id already present, else append. */
  function CreateAll(recs: seq<HrRecord>, id: string, fname: string, lname: string, department: string,
                     phNumber: string, teamSize: Option<int>): (r: (Response, seq<HrRecord>))
    ensures r.0 == Created || r.0 == DuplicateId || r.0.CreateFailed?
    ensures r.0.CreateFailed? <==> Validate(id, fname, lname, department, phNumber, teamSize).Err?
    ensures r.0 != Created ==> r.1 == recs
    ensures r.0 == DuplicateId ==>
      FindRecord(recs, Validate(id, fname, lname, department, phNumber, teamSize).value.id).Some?
    ensures r.0 == Created ==>
      && |r.1| == |recs| + 1 && r.1[..|recs|] == recs
      && r.1[|recs|] == Validate(id, fname, lname, department, phNumber, teamSize).value
      && FindRecord(recs, r.1[|recs|].id).None?
    ensures UniqueIds(recs) ==> UniqueIds(r.1)
    ensures AllOk(recs) ==> AllOk(r.1)
  {
    match Validate(id, fname, lname, department, phNumber, teamSize)
    case Err(e) => (CreateFailed(e), recs)
    case Ok(rec) =>
      if FindRecord(recs, rec.id).Some? then (DuplicateId, recs)
      else (Created, recs + [rec])
  }

  /** The edit menu's choice "1" to "4"; anything else is an invalid choice. */
  function ParseChoice(choice: string): Option<Field> {
    if choice == "1" then Some(FirstName)
    else if choice == "2" then Some(LastName)
    else if choice == "3" then Some(Department)
    else if choice == "4" then Some(Phone)
    else None
  }

  /** The two records agree on everything but the one field. */
  predicate SameExcept(a: HrRecord, b: HrRecord, field: Field) {
    && a.id == b.id && a.role == b.role
    && (field != FirstName ==> a.fname == b.fname)
    && (field != LastName ==> a.lname == b.lname)
    && (field != Department ==> a.department == b.department)
    && (field != Phone ==> a.phNumber == b.phNumber)
  }

  /** The chosen field's validated setter applied to a record. */
  function EditField(rec: HrRecord, field: Field, value: string): (r: Result<HrRecord, HrError>)
    ensures r.Ok? ==> SameExcept(rec, r.value, field)
    ensures RecordOk(rec) && r.Ok? ==> RecordOk(r.value)
    ensures field == Phone ==> (r.Ok? <==> |DigitsOnly(value)| == 10)
    ensures field == Department ==> (r.Ok? <==> DepartmentOk(Strip(value)))
    ensures field == FirstName || field == LastName ==>
      (r.Ok? <==> Strip(value) != [] && NoDigits(Strip(value)))
    ensures r.Ok? && field == FirstName ==> r.value.fname == Strip(value)
    ensures r.Ok? && field == LastName ==> r.value.lname == Strip(value)
    ensures r.Ok? && field == Department ==> r.value.department == Strip(value)
    ensures r.Ok? && field == Phone ==> r.value.phNumber == DigitsOnly(value)
  {
    match field
    case FirstName =>
      (match CheckName(value, EmptyFirstName, FirstNameHasDigit)
       case Ok(s) => Ok(rec.(fname := s))
       case Err(e) => Err(e))
    case LastName =>
      (match CheckName(value, EmptyLastName, LastNameHasDigit)
       case Ok(s) => Ok(rec.(lname := s))
       case Err(e) => Err(e))
    case Department =>
      (match CheckDepartment(value)
       case Ok(s) => Ok(rec.(department := s))
       case Err(e) => Err(e))
    case Phone =>
      (match CheckPhone(value)
       case Ok(s) => Ok(rec.(phNumber := s))
       case Err(e) => Err(e))
  }

  /**
   * The optional team-size edit of a Manager: `input` is the text typed, or None when
   * the user declined. A text that is not an integer, or a negative size, is ignored.
   */
  function TeamSizeEdit(rec: HrRecord, input: Option<string>): (r: (bool, HrRecord))
    ensures r.1 == rec.(role := r.1.role)
    ensures r.0 ==> r.1 == rec
    ensures r.0 <==>
      rec.role.Manager? && input.Some? &&
      (ParseInt(Strip(input.value)).None? || ParseInt(Strip(input.value)).value < 0)
    ensures r.1 != rec ==> rec.role.Manager? && r.1.role.Manager? && r.1.role.teamSize >= 0
    ensures RecordOk(rec) ==> RecordOk(r.1)
  {
    if !rec.role.Manager? || input.None? then (false, rec)
    else match ParseInt(Strip(input.value))
      case None => (true, rec)
      case Some(n) => if n < 0 then (true, rec) else (false, rec.(role := Manager(n)))
  }

  /** One employee's edit: the field's setter on the stripped input, then the team size. */
  function EditOne(rec: HrRecord, field: Field, value: string, teamSize: Option<string>): (r: (Response, HrRecord))
    ensures r.0.Updated? || r.0.EditFailed?
    ensures r.1.id == rec.id
    ensures r.0.EditFailed? <==> EditField(rec, field, Strip(value)).Err?
    ensures r.0.EditFailed? ==> r.1 == rec
    ensures r.0 == Updated(true) ==> r.1 == EditField(rec, field, Strip(value)).value
    ensures r.0 == Updated(false) ==> r.1 == TeamSizeEdit(EditField(rec, field, Strip(value)).value, teamSize).1
    ensures r.0.Updated? ==> r.1.(role := rec.role) == EditField(rec, field, Strip(value)).value
    ensures RecordOk(rec) ==> RecordOk(r.1)
  {
    match EditField(rec, field, Strip(value))
    case Err(e) => (EditFailed(e), rec)
    case Ok(edited) =>
      var t := TeamSizeEdit(edited, teamSize);
      (Updated(t.0), t.1)
  }

  /** `edit_employee`: find the employee, pick the field, edit that one employee. */
  function EditAll(recs: seq<HrRecord>, id: string, choice: string, value: string,
                   teamSize: Option<string>): (r: (Response, seq<HrRecord>))
    ensures |r.1| == |recs|
    ensures forall k | 0 <= k < |recs| :: r.1[k].id == recs[k].id
    ensures forall k | 0 <= k < |recs| && r.1[k] != recs[k] :: FindRecord(recs, id) == Some(k)
    ensures r.0 == NoSuchEmployee <==> FindRecord(recs, id).None?
    ensures r.0 == InvalidChoice <==> FindRecord(recs, id).Some? && ParseChoice(choice).None?
    ensures !r.0.Updated? ==> r.1 == recs
    ensures r.0.Updated? ==>
      && FindRecord(recs, id).Some? && ParseChoice(choice).Some?
      && r.1 == recs[FindRecord(recs, id).value :=
                     EditOne(recs[FindRecord(recs, id).value], ParseChoice(choice).value, value, teamSize).1]
    ensures AllOk(recs) ==> AllOk(r.1)
    ensures UniqueIds(recs) ==> UniqueIds(r.1)
  {
    match FindRecord(recs, id)
    case None => (NoSuchEmployee, recs)
    case Some(i) =>
      match ParseChoice(choice)
      case None => (InvalidChoice, recs)
      case Some(field) =>
        var e := EditOne(recs[i], field, value, teamSize);
        if e.0.Updated? then (e.0, recs[i := e.1]) else (e.0, recs)
  }

  /**
   * A successful edit changes only the chosen field of the found employee, through that
   * field's check, plus at most a Manager's team size; every other employee is untouched.
   */
  lemma EditChangesOnlyChosenField(recs: seq<HrRecord>, id: string, choice: string, value: string,
                                   teamSize: Option<string>)
    requires EditAll(recs, id, choice, value, teamSize).0.Updated?
    ensures var i := FindRecord(recs, id).value;
      var field := ParseChoice(choice).value;
      var after := EditAll(recs, id, choice, value, teamSize).1;
      && SameExcept(recs[i], after[i].(role := recs[i].role), field)
      && (after[i].role != recs[i].role ==> recs[i].role.Manager? && after[i].role.Manager?)
      && (forall k | 0 <= k < |recs| && k != i :: after[k] == recs[k])
  {
    var i := FindRecord(recs, id).value;
    var field := ParseChoice(choice).value;
    var edited := EditField(recs[i], field, Strip(value)).value;
    var t := TeamSizeEdit(edited, teamSize);
    assert SameExcept(recs[i], edited, field);
    assert t.1 != edited ==> edited.role.Manager? && t.1.role.Manager?;
  }

  /** `delete_employee`: find, ask for confirmation, remove that one employee. */
  function DeleteAll(recs: seq<HrRecord>, id: string, confirmed: bool): (r: (Response, seq<HrRecord>))
    ensures r.0 == NoSuchEmployee <==> FindRecord(recs, id).None?
    ensures r.0 == Deleted <==> confirmed && FindRecord(recs, id).Some?
    ensures r.0 == DeleteCanceled <==> !confirmed && FindRecord(recs, id).Some?
    ensures r.0 != Deleted ==> r.1 == recs
    ensures r.0 == Deleted ==> |r.1| == |recs| - 1
  {
    match FindRecord(recs, id)
    case None => (NoSuchEmployee, recs)
    case Some(i) =>
      if !confirmed then (DeleteCanceled, recs)
      else (Deleted, recs[..i] + recs[i + 1..])
  }

  /** A delete removes exactly the found record and keeps the others in their order. */
  lemma DeleteRemovesFound(recs: seq<HrRecord>, id: string)
    requires FindRecord(recs, id).Some?
    ensures var i := FindRecord(recs, id).value;
      var after := DeleteAll(recs, id, true).1;
      && (forall k | 0 <= k < i :: after[k] == recs[k])
      && (forall k | i < k < |recs| :: after[k - 1] == recs[k])
      && multiset(after) + multiset{recs[i]} == multiset(recs)
  {
    var i := FindRecord(recs, id).value;
    assert DeleteAll(recs, id, true).1 == recs[..i] + recs[i + 1..];
    RemoveAt(recs, i);
  }

  /** Removing position `i` shifts the later elements down by one and takes one copy out of the multiset. */
  lemma RemoveAt<T>(s: seq<T>, i: nat)
    requires i < |s|
    ensures var after := s[..i] + s[i + 1..];
      && (forall k | 0 <= k < i :: after[k] == s[k])
      && (forall k | i < k < |s| :: after[k - 1] == s[k])
      && multiset(after) + multiset{s[i]} == multiset(s)
  {
    var before, rest := s[..i], s[i + 1..];
    assert multiset(before + rest) + multiset{s[i]} == multiset(s) by {
      assert s == before + [s[i]] + rest;
    }
  }

  /** With unique ids, the deleted id is gone afterwards, and delete keeps the list's invariants. */
  lemma DeleteKeepsInvariants(recs: seq<HrRecord>, id: string, confirmed: bool)
    ensures UniqueIds(recs) ==> UniqueIds(DeleteAll(recs, id, confirmed).1)
    ensures AllOk(recs) ==> AllOk(DeleteAll(recs, id, confirmed).1)
    ensures UniqueIds(recs) && DeleteAll(recs, id, confirmed).0 == Deleted ==>
      forall k | 0 <= k < |DeleteAll(recs, id, confirmed).1| :: DeleteAll(recs, id, confirmed).1[k].id != id
  {
    var r := DeleteAll(recs, id, confirmed);
    if r.0 == Deleted {
      var i := FindRecord(recs, id).value;
      forall k | 0 <= k < |r.1|
        ensures r.1[k] == recs[if k < i then k else k + 1]
      {
      }
    }
  }

  // ---------------------------------------------------------------- the objects

  /** Removing one object and its record keeps the two lists in step. */
  lemma MirrorsRemove(employees: seq<Employee>, recs: seq<HrRecord>, i: nat)
    requires Mirrors(employees, recs) && i < |employees|
    ensures Mirrors(employees[..i] + employees[i + 1..], recs[..i] + recs[i + 1..])
  {
    var es, rs := employees[..i] + employees[i + 1..], recs[..i] + recs[i + 1..];
    forall k | 0 <= k < |es|
      ensures es[k].Snapshot() == rs[k]
    {
      var j := if k < i then k else k + 1;
      assert es[k] == employees[j] && rs[k] == recs[j];
    }
  }

  /** The lists stay in step when the one changed object's record is replaced. */
  lemma MirrorsSet(employees: seq<Employee>, recs: seq<HrRecord>, i: nat)
    requires i < |employees| == |recs|
    requires forall k | 0 <= k < |employees| && k != i :: employees[k].Snapshot() == recs[k]
    ensures Mirrors(employees, recs[i := employees[i].Snapshot()])
  {
  }

  /** The setter calls of `edit_employee` on the found employee. */
  method ApplyEdit(emp: Employee, field: Field, value: string, teamSize: Option<string>) returns (resp: Response)
    modifies emp
    ensures (resp, emp.Snapshot()) == EditOne(old(emp.Snapshot()), field, value, teamSize)
  {
    var v := Strip(value);
    var r: Outcome<HrError>;
    match field {
      case FirstName => r := emp.SetFirstName(v);
      case LastName => r := emp.SetLastName(v);
      case Department => r := emp.SetDepartment(v);
      case Phone => r := emp.SetPhone(v);
    }
    if r.Fail? {
      return EditFailed(r.error);
    }
    var ignored := false;
    if emp.role.Manager? && teamSize.Some? {
      var n := ParseInt(Strip(teamSize.value));
      if n.None? {
        ignored := true;
      } else {
        var t := emp.SetTeamSize(n.value);
        ignored := t.Fail?;
      }
    }
    return Updated(ignored);
  }

  /** `_find_by_id` as the loop it is. */
  method FindById(employees: seq<Employee>, ghost recs: seq<HrRecord>, id: string) returns (found: Option<nat>)
    requires Mirrors(employees, recs)
    ensures found == FindRecord(recs, id)
  {
    var i := 0;
    while i < |employees|
      invariant 0 <= i <= |employees|
      invariant forall k | 0 <= k < i :: recs[k].id != id
    {
      assert employees[i].Snapshot().id == employees[i].id;
      if employees[i].id == id {
        return Some(i);
      }
      i := i + 1;
    }
    return None;
  }

  /** The controller's state: the employee objects, the records they hold, and the saved file. */
  class Controller {
    var employees: seq<Employee>
    ghost var recs: seq<HrRecord>
    var file: Option<seq<Row>>

    ghost predicate Valid()
      reads this, employees
    {
      Distinct(employees) && Mirrors(employees, recs)
    }

    /** `main`: the list starts as what loading the file gives. */
    constructor Open(file: Option<seq<Row>>)
      ensures Valid() && this.file == file
      ensures file.None? ==> recs == []
      ensures file.Some? ==> recs == DecodeAll(file.value)
    {
      var loaded := Load(file);
      employees := loaded;
      recs := if file.Some? then DecodeAll(file.value) else [];
      this.file := file;
    }

    /** `save_employees` on the current list: the file then loads back as the same records. */
    method Persist()
      requires Valid()
      modifies this
      ensures employees == old(employees) && recs == old(recs) && Valid()
      ensures file == Some(EncodeAll(recs))
    {
      var rows := Save(employees);
      EncodeAllOfRows(rows, recs);
      file := Some(rows);
    }

    /** `employees.append(emp)`, then the save. */
    method Append(emp: Employee)
      requires Valid() && emp !in employees
      modifies this
      ensures Valid()
      ensures employees == old(employees) + [emp] && recs == old(recs) + [emp.Snapshot()]
      ensures file == Some(EncodeAll(recs))
    {
      MirrorsSnoc(employees, recs, emp);
      DistinctAppend(employees, emp);
      employees := employees + [emp];
      recs := recs + [emp.Snapshot()];
      Persist();
    }

    method Create(id: string, fname: string, lname: string, department: string, phNumber: string,
                  teamSize: Option<int>) returns (resp: Response)
      requires Valid()
      modifies this
      ensures Valid()
      ensures (resp, recs) == CreateAll(old(recs), id, fname, lname, department, phNumber, teamSize)
      ensures resp == Created ==>
        && employees[..|old(employees)|] == old(employees) && |employees| == |old(employees)| + 1
        && fresh(employees[|old(employees)|])
        && file == Some(EncodeAll(recs))
      ensures resp != Created ==> employees == old(employees) && file == old(file)
    {
      var r := Employee.Create(id, fname, lname, department, phNumber, teamSize);
      if r.Err? {
        return CreateFailed(r.error);
      }
      var emp := r.value;
      var found := FindById(employees, recs, emp.id);
      if found.Some? {
        return DuplicateId;
      }
      Append(emp);
      return Created;
    }

    method Edit(id: string, choice: string, value: string, teamSize: Option<string>) returns (resp: Response)
      requires Valid()
      modifies this, employees
      ensures Valid()
      ensures (resp, recs) == EditAll(old(recs), id, choice, value, teamSize)
      ensures employees == old(employees)
      ensures resp.Updated? ==> file == Some(EncodeAll(recs))
      ensures !resp.Updated? ==> file == old(file)
    {
      var found := FindById(employees, recs, id);
      if found.None? {
        return NoSuchEmployee;
      }
      var i := found.value;
      var field := ParseChoice(choice);
      if field.None? {
        return InvalidChoice;
      }
      var emp := employees[i];
      resp := ApplyEdit(emp, field.value, value, teamSize);
      forall k | 0 <= k < |employees| && k != i
        ensures employees[k].Snapshot() == recs[k]
      {
        assert employees[k] != emp;
      }
      MirrorsSet(employees, recs, i);
      if !resp.Updated? {
        assert recs[i := emp.Snapshot()] == recs;
        return;
      }
      recs := recs[i := emp.Snapshot()];
      Persist();
    }

    /** `employees.remove(emp)` for the employee at position `i`, then the save. */
    method Remove(i: nat)
      requires Valid() && i < |employees|
      modifies this
      ensures Valid()
      ensures employees == old(employees[..i] + employees[i + 1..]) && recs == old(recs[..i] + recs[i + 1..])
      ensures file == Some(EncodeAll(recs))
    {
      MirrorsRemove(employees, recs, i);
      DistinctRemove(employees, i);
      employees := employees[..i] + employees[i + 1..];
      recs := recs[..i] + recs[i + 1..];
      Persist();
    }

    method Delete(id: string, confirmed: bool) returns (resp: Response)
      requires Valid()
      modifies this
      ensures Valid()
      ensures (resp, recs) == DeleteAll(old(recs), id, confirmed)
      ensures resp == Deleted ==>
        var i := FindRecord(old(recs), id).value;
        employees == old(employees[..i] + employees[i + 1..]) && file == Some(EncodeAll(recs))
      ensures resp != Deleted ==> employees == old(employees) && file == old(file)
    {
      var found := FindById(employees, recs, id);
      if found.None? {
        return NoSuchEmployee;
      }
      if !confirmed {
        return DeleteCanceled;
      }
      Remove(found.value);
      return Deleted;
    }
  }
}
