/**
 * The HR prototype's model layer: an employee whose id is fixed at
 * construction and whose other fields go through validating setters, and
 * the Manager variant with a non-negative team size.
 *
 * A setter that raises is a method returning `Fail(error)` that leaves the
 * object as it was; a constructor that raises is a factory returning `Err`.
 */
module HrEmployee {
  import opened Wrappers
  import opened Text

  datatype HrError =
    | EmptyId
    | EmptyFirstName | FirstNameHasDigit
    | EmptyLastName | LastNameHasDigit
    | BadDepartment
    | BadPhone
    | TeamSizeNotInteger | NegativeTeamSize

  // ---------------------------------------------------------------- field rules

  predicate NoDigits(s: string) {
    forall i | 0 <= i < |s| :: !IsDigit(s[i])
  }

  /** A stored id: stripped and not empty. */
  predicate IdOk(s: string) {
    s != [] && Trimmed(s)
  }

  /** A stored first or last name: stripped, not empty, no digit. */
  predicate NameOk(s: string) {
    s != [] && Trimmed(s) && NoDigits(s)
  }

  /** A stored department: exactly three upper-case letters. */
  predicate DepartmentOk(s: string) {
    |s| == 3 && forall i | 0 <= i < |s| :: IsUpper(s[i])
  }

  /** A stored phone number: exactly ten digits. */
  predicate PhoneOk(s: string) {
    |s| == 10 && AllDigits(s)
  }

  /** The id check of `Employee.__init__`: the stripped id, which must not be empty. */
  function CheckId(value: string): (r: Result<string, HrError>)
    ensures r.Ok? <==> !AllSpace(value)
    ensures r.Ok? ==> r.value == Strip(value) && IdOk(r.value)
    ensures r.Err? ==> r.error == EmptyId
  {
    StripEmptyIffBlank(value);
    var v := Strip(value);
    if v == [] then Err(EmptyId) else Ok(v)
  }

  /** The `fname`/`lname` setters: strip, then reject an empty value, then one holding a digit. */
  function CheckName(value: string, emptyError: HrError, digitError: HrError): (r: Result<string, HrError>)
    ensures r.Ok? <==> Strip(value) != [] && NoDigits(Strip(value))
    ensures r.Ok? ==> r.value == Strip(value) && NameOk(r.value)
    ensures Strip(value) == [] ==> r == Err(emptyError)
    ensures Strip(value) != [] && !NoDigits(Strip(value)) ==> r == Err(digitError)
  {
    var v := Strip(value);
    if v == [] then Err(emptyError)
    else if exists i | 0 <= i < |v| :: IsDigit(v[i]) then Err(digitError)
    else Ok(v)
  }

  /** The `department` setter: the stripped value must be exactly three upper-case letters. */
  function CheckDepartment(value: string): (r: Result<string, HrError>)
    ensures r.Ok? <==> DepartmentOk(Strip(value))
    ensures r.Ok? ==> r.value == Strip(value)
    ensures r.Err? ==> r.error == BadDepartment
  {
    var v := Strip(value);
    if |v| == 3 && IsUpper(v[0]) && IsUpper(v[1]) && IsUpper(v[2]) then Ok(v) else Err(BadDepartment)
  }

  /** The `phNumber` setter: the digits of the value, which must be exactly ten. */
  function CheckPhone(value: string): (r: Result<string, HrError>)
    ensures r.Ok? <==> |DigitsOnly(value)| == 10
    ensures r.Ok? ==> r.value == DigitsOnly(value) && PhoneOk(r.value)
    ensures r.Err? ==> r.error == BadPhone
  {
    var digits := DigitsOnly(value);
    if |digits| != 10 then Err(BadPhone) else Ok(digits)
  }

  /** The `team_size` setter once `int(value)` has succeeded: negative sizes are rejected. */
  function CheckTeamSize(value: int): (r: Result<int, HrError>)
    ensures r.Ok? <==> value >= 0
    ensures r.Ok? ==> r.value == value
    ensures r.Err? ==> r.error == NegativeTeamSize
  {
    if value < 0 then Err(NegativeTeamSize) else Ok(value)
  }

  // The stored values are fixed points of their checks: writing back what was read changes nothing.

  lemma CheckIdStored(s: string)
    requires IdOk(s)
    ensures CheckId(s) == Ok(s)
  {
    StripTrimmed(s);
  }

  lemma CheckNameStored(s: string, emptyError: HrError, digitError: HrError)
    requires NameOk(s)
    ensures CheckName(s, emptyError, digitError) == Ok(s)
  {
    StripTrimmed(s);
  }

  lemma CheckDepartmentStored(s: string)
    requires DepartmentOk(s)
    ensures CheckDepartment(s) == Ok(s)
  {
    assert Trimmed(s);
    StripTrimmed(s);
  }

  lemma CheckPhoneStored(s: string)
    requires PhoneOk(s)
    ensures CheckPhone(s) == Ok(s)
  {
    DigitsOnlyOfDigits(s);
  }

  // Pieces of the formatted example, each small enough to check on its own.
  lemma AreaCodeDigits(area: string)
    requires area == "(123)"
    ensures DigitsOnly(area) == "123"
  {
    assert DigitsOnly("(123)") == "123";
  }

  lemma LineDigits(line: string)
    requires line == "-7890"
    ensures DigitsOnly(line) == "7890"
  {
    assert DigitsOnly("-7890") == "7890";
  }

  lemma DigitsOfConcat(s: string, a: string, b: string, da: string, db: string)
    requires s == a + b && DigitsOnly(a) == da && DigitsOnly(b) == db
    ensures DigitsOnly(s) == da + db
  {
    DigitsOnlyAppend(a, b);
  }

  lemma ExchangeAndLineDigits(rest: string, exchange: string, line: string)
    requires exchange == "456" && line == "-7890" && rest == exchange + line
    ensures DigitsOnly(rest) == "4567890"
  {
    DigitsOnlyOfDigits(exchange);
    LineDigits(line);
    DigitsOfConcat(rest, exchange, line, "456", "7890");
  }

  lemma FormattedDigits(s: string, area: string, rest: string)
    requires area == "(123)" && rest == "456-7890" && s == area + rest
    ensures DigitsOnly(s) == "1234567890"
  {
    AreaCodeDigits(area);
    ExchangeAndLineDigits(rest, "456", "-7890");
    DigitsOfConcat(s, area, rest, "123", "4567890");
  }

  /** "(123)456-7890" is stored as "1234567890". */
  lemma PhoneFormattedExample()
    ensures CheckPhone("(123)456-7890") == Ok("1234567890")
  {
    FormattedDigits("(123)456-7890", "(123)", "456-7890");
  }

  /** "12345" has too few digits and is rejected. */
  lemma PhoneShortExample()
    ensures CheckPhone("12345") == Err(BadPhone)
  {
    DigitsOnlyOfDigits("12345");
  }

  /** "ENG" is accepted; "EN" (too short) and "Eng" (not all upper case) are rejected. */
  lemma DepartmentExamples()
    ensures CheckDepartment("ENG") == Ok("ENG")
    ensures CheckDepartment("EN") == Err(BadDepartment)
    ensures CheckDepartment("Eng") == Err(BadDepartment)
  {
    CheckDepartmentStored("ENG");
    assert Trimmed("EN") && Trimmed("Eng");
    StripTrimmed("EN");
    StripTrimmed("Eng");
    assert !IsUpper("Eng"[1]);
  }

  // ---------------------------------------------------------------- records

  /** Plain employee, or Manager with its team size. */
  datatype HrRole = Plain | Manager(teamSize: int)

  /** The observable state of an employee object. */
  datatype HrRecord = HrRecord(id: string, fname: string, lname: string, department: string,
                               phNumber: string, role: HrRole)

  predicate RecordOk(r: HrRecord) {
    && IdOk(r.id) && NameOk(r.fname) && NameOk(r.lname)
    && DepartmentOk(r.department) && PhoneOk(r.phNumber)
    && (r.role.Manager? ==> r.role.teamSize >= 0)
  }

  /** The team size passed to the Manager constructor, or None for a plain Employee. */
  function TeamSizeOf(role: HrRole): Option<int> {
    match role
    case Plain => None
    case Manager(n) => Some(n)
  }

  /**
   * Construction (`Employee(...)`, or `Manager(...)` when a team size is
   * given): the checks run in the order id, first name, last name,
   * department, phone, team size, and the first failure is the one raised.
   */
  function Validate(id: string, fname: string, lname: string, department: string, phNumber: string,
                    teamSize: Option<int>): (r: Result<HrRecord, HrError>)
    ensures r.Ok? <==>
      && CheckId(id).Ok? && CheckName(fname, EmptyFirstName, FirstNameHasDigit).Ok?
      && CheckName(lname, EmptyLastName, LastNameHasDigit).Ok?
      && CheckDepartment(department).Ok? && CheckPhone(phNumber).Ok?
      && (teamSize.Some? ==> teamSize.value >= 0)
    ensures r.Ok? ==> RecordOk(r.value) && TeamSizeOf(r.value.role) == teamSize
    ensures r.Ok? ==>
      (r.value.id == Strip(id) && r.value.fname == Strip(fname) && r.value.lname == Strip(lname)
       && r.value.department == Strip(department) && r.value.phNumber == DigitsOnly(phNumber))
    ensures CheckId(id).Err? ==> r == Err(EmptyId)
    ensures CheckId(id).Ok? && CheckName(fname, EmptyFirstName, FirstNameHasDigit).Err? ==>
      r == Err(CheckName(fname, EmptyFirstName, FirstNameHasDigit).error)
    ensures (CheckId(id).Ok? && CheckName(fname, EmptyFirstName, FirstNameHasDigit).Ok?
       && CheckName(lname, EmptyLastName, LastNameHasDigit).Err?) ==>
      r == Err(CheckName(lname, EmptyLastName, LastNameHasDigit).error)
    ensures (CheckId(id).Ok? && CheckName(fname, EmptyFirstName, FirstNameHasDigit).Ok?
       && CheckName(lname, EmptyLastName, LastNameHasDigit).Ok? && CheckDepartment(department).Err?) ==>
      r == Err(BadDepartment)
    ensures (CheckId(id).Ok? && CheckName(fname, EmptyFirstName, FirstNameHasDigit).Ok?
       && CheckName(lname, EmptyLastName, LastNameHasDigit).Ok? && CheckDepartment(department).Ok?
       && CheckPhone(phNumber).Err?) ==>
      r == Err(BadPhone)
    ensures (CheckId(id).Ok? && CheckName(fname, EmptyFirstName, FirstNameHasDigit).Ok?
       && CheckName(lname, EmptyLastName, LastNameHasDigit).Ok? && CheckDepartment(department).Ok?
       && CheckPhone(phNumber).Ok? && teamSize.Some? && teamSize.value < 0) ==>
      r == Err(NegativeTeamSize)
  {
    var i := CheckId(id);
    if i.Err? then Err(i.error) else
    var f := CheckName(fname, EmptyFirstName, FirstNameHasDigit);
    if f.Err? then Err(f.error) else
    var l := CheckName(lname, EmptyLastName, LastNameHasDigit);
    if l.Err? then Err(l.error) else
    var d := CheckDepartment(department);
    if d.Err? then Err(d.error) else
    var p := CheckPhone(phNumber);
    if p.Err? then Err(p.error) else
    var role := match teamSize
      case None => Plain
      case Some(n) => Manager(n);
    if role.Manager? && CheckTeamSize(role.teamSize).Err? then Err(NegativeTeamSize)
    else Ok(HrRecord(i.value, f.value, l.value, d.value, p.value, role))
  }

  /** When every field passes its check unchanged, construction gives back exactly those fields. */
  lemma ValidateOfChecks(rec: HrRecord)
    requires CheckId(rec.id) == Ok(rec.id)
    requires CheckName(rec.fname, EmptyFirstName, FirstNameHasDigit) == Ok(rec.fname)
    requires CheckName(rec.lname, EmptyLastName, LastNameHasDigit) == Ok(rec.lname)
    requires CheckDepartment(rec.department) == Ok(rec.department)
    requires CheckPhone(rec.phNumber) == Ok(rec.phNumber)
    requires rec.role.Manager? ==> rec.role.teamSize >= 0
    ensures Validate(rec.id, rec.fname, rec.lname, rec.department, rec.phNumber, TeamSizeOf(rec.role)) == Ok(rec)
  {
  }

  /** Constructing from a valid record's own fields gives back that record. */
  lemma ValidateStored(rec: HrRecord)
    requires RecordOk(rec)
    ensures Validate(rec.id, rec.fname, rec.lname, rec.department, rec.phNumber, TeamSizeOf(rec.role)) == Ok(rec)
  {
    CheckIdStored(rec.id);
    CheckNameStored(rec.fname, EmptyFirstName, FirstNameHasDigit);
    CheckNameStored(rec.lname, EmptyLastName, LastNameHasDigit);
    CheckDepartmentStored(rec.department);
    CheckPhoneStored(rec.phNumber);
    ValidateOfChecks(rec);
  }

  // ---------------------------------------------------------------- the object

  /** `Employee` / `Manager`: the id is a constant, every other field has a validating setter. */
  class Employee {
    const id: string
    var fname: string
    var lname: string
    var department: string
    var phNumber: string
    var role: HrRole

    function Snapshot(): HrRecord
      reads this
    {
      HrRecord(id, fname, lname, department, phNumber, role)
    }

    ghost predicate Valid()
      reads this
    {
      RecordOk(Snapshot())
    }

    constructor FromRecord(rec: HrRecord)
      requires RecordOk(rec)
      ensures Valid() && Snapshot() == rec
    {
      id := rec.id;
      fname, lname := rec.fname, rec.lname;
      department, phNumber := rec.department, rec.phNumber;
      role := rec.role;
    }

    /** Construction: an object exists only when every check passed. */
    static method Create(id: string, fname: string, lname: string, department: string, phNumber: string,
                         teamSize: Option<int>) returns (r: Result<Employee, HrError>)
      ensures r.Err? <==> Validate(id, fname, lname, department, phNumber, teamSize).Err?
      ensures r.Err? ==> r.error == Validate(id, fname, lname, department, phNumber, teamSize).error
      ensures r.Ok? ==> fresh(r.value) && r.value.Valid()
      ensures r.Ok? ==> r.value.Snapshot() == Validate(id, fname, lname, department, phNumber, teamSize).value
    {
      var v := Validate(id, fname, lname, department, phNumber, teamSize);
      if v.Err? {
        return Err(v.error);
      }
      var e := new Employee.FromRecord(v.value);
      return Ok(e);
    }

    /** The `fname` setter. */
    method SetFirstName(value: string) returns (r: Outcome<HrError>)
      modifies this
      ensures r.Pass? <==> CheckName(value, EmptyFirstName, FirstNameHasDigit).Ok?
      ensures r.Pass? ==> Snapshot() == old(Snapshot()).(fname := Strip(value))
      ensures r.Fail? ==> Snapshot() == old(Snapshot()) && r.error == CheckName(value, EmptyFirstName, FirstNameHasDigit).error
      ensures old(Valid()) ==> Valid()
    {
      var c := CheckName(value, EmptyFirstName, FirstNameHasDigit);
      if c.Err? {
        return Fail(c.error);
      }
      fname := c.value;
      return Pass;
    }

    /** The `lname` setter. */
    method SetLastName(value: string) returns (r: Outcome<HrError>)
      modifies this
      ensures r.Pass? <==> CheckName(value, EmptyLastName, LastNameHasDigit).Ok?
      ensures r.Pass? ==> Snapshot() == old(Snapshot()).(lname := Strip(value))
      ensures r.Fail? ==> Snapshot() == old(Snapshot()) && r.error == CheckName(value, EmptyLastName, LastNameHasDigit).error
      ensures old(Valid()) ==> Valid()
    {
      var c := CheckName(value, EmptyLastName, LastNameHasDigit);
      if c.Err? {
        return Fail(c.error);
      }
      lname := c.value;
      return Pass;
    }

    /** The `department` setter. */
    method SetDepartment(value: string) returns (r: Outcome<HrError>)
      modifies this
      ensures r.Pass? <==> DepartmentOk(Strip(value))
      ensures r.Pass? ==> Snapshot() == old(Snapshot()).(department := Strip(value))
      ensures r.Fail? ==> Snapshot() == old(Snapshot()) && r.error == BadDepartment
      ensures old(Valid()) ==> Valid()
    {
      var c := CheckDepartment(value);
      if c.Err? {
        return Fail(c.error);
      }
      department := c.value;
      return Pass;
    }

    /** The `phNumber` setter: stores the ten digits, or raises and keeps the old number. */
    method SetPhone(value: string) returns (r: Outcome<HrError>)
      modifies this
      ensures r.Pass? <==> |DigitsOnly(value)| == 10
      ensures r.Pass? ==> Snapshot() == old(Snapshot()).(phNumber := DigitsOnly(value))
      ensures r.Fail? ==> Snapshot() == old(Snapshot()) && r.error == BadPhone
      ensures old(Valid()) ==> Valid()
    {
      var c := CheckPhone(value);
      if c.Err? {
        return Fail(c.error);
      }
      phNumber := c.value;
      return Pass;
    }

    /** The `team_size` setter of a Manager. */
    method SetTeamSize(value: int) returns (r: Outcome<HrError>)
      requires role.Manager?
      modifies this
      ensures r.Pass? <==> value >= 0
      ensures r.Pass? ==> Snapshot() == old(Snapshot()).(role := Manager(value))
      ensures r.Fail? ==> Snapshot() == old(Snapshot()) && r.error == NegativeTeamSize
      ensures old(Valid()) ==> Valid()
    {
      var c := CheckTeamSize(value);
      if c.Err? {
        return Fail(c.error);
      }
      role := Manager(c.value);
      return Pass;
    }

    /** `getphNumber`: the stored number, always ten digits. */
    function GetPhone(): (p: string)
      reads this
      requires Valid()
      ensures PhoneOk(p)
      ensures p == Snapshot().phNumber
    {
      phNumber
    }
  }

  /**
   * Whatever passes as a plain employee also passes as a Manager with team size 0
   * (the constructor's default) or 5, and keeps that team size; a negative one is rejected.
   */
  lemma ManagerTeamSizes(id: string, fname: string, lname: string, department: string, phNumber: string)
    requires Validate(id, fname, lname, department, phNumber, None).Ok?
    ensures Validate(id, fname, lname, department, phNumber, Some(0)).Ok?
    ensures Validate(id, fname, lname, department, phNumber, Some(0)).value.role == Manager(0)
    ensures Validate(id, fname, lname, department, phNumber, Some(5)).value.role == Manager(5)
    ensures Validate(id, fname, lname, department, phNumber, Some(-1)) == Err(NegativeTeamSize)
  {
  }
}
