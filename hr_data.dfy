/**
 * The HR prototype's data layer: employees are saved as CSV lines with
 * the columns role, id, fname, lname, department, phNumber, team_size and
 * loaded back, skipping every line whose construction raises.
 *
 * The file itself is a parameter: loading receives the data lines already
 * split into cells (`None` for a missing file), saving returns the lines
 * that overwrite the file.
 */
module HrData {
  import opened Wrappers
  import opened Text
  import opened HrEmployee

  /**
   * One data line as `csv.DictReader` yields it: each column's cell, or
   * `None` when the line stops short of that column.
   */
  datatype Row = Row(role: Option<string>, id: Option<string>, fname: Option<string>,
                     lname: Option<string>, department: Option<string>,
                     phNumber: Option<string>, teamSize: Option<string>)

  /** `(row.get(column) or "").strip()` */
  function Cell(c: Option<string>): string {
    Strip(if c.Some? then c.value else "")
  }

  /**
   * The team size handed to the constructor: `None` unless the role cell is
   * "Manager"; then `int(team_size)`, or 0 when the cell is empty. A cell
   * `int` rejects raises before any field is checked.
   */
  function RowTeamSize(row: Row): (r: Result<Option<int>, HrError>)
    ensures r.Ok? ==> (r.value.Some? <==> Cell(row.role) == "Manager")
    ensures r.Err? <==> Cell(row.role) == "Manager" && Cell(row.teamSize) != "" && ParseInt(Cell(row.teamSize)).None?
    ensures r.Err? ==> r.error == TeamSizeNotInteger
    ensures r.Ok? && r.value.Some? ==>
      r.value.value == (if Cell(row.teamSize) == "" then 0 else ParseInt(Cell(row.teamSize)).value)
  {
    if Cell(row.role) != "Manager" then Ok(None)
    else if Cell(row.teamSize) == "" then Ok(Some(0))
    else match ParseInt(Cell(row.teamSize))
      case None => Err(TeamSizeNotInteger)
      case Some(n) => Ok(Some(n))
  }

  /** The object one data line becomes, or the error its construction raises. */
  function DecodeRow(row: Row): (r: Result<HrRecord, HrError>)
    ensures r.Ok? ==> RecordOk(r.value)
  {
    var ts := RowTeamSize(row);
    if ts.Err? then Err(ts.error)
    else Validate(Cell(row.id), Cell(row.fname), Cell(row.lname), Cell(row.department),
                  Cell(row.phNumber), ts.value)
  }

  /** A line becomes a Manager exactly when its role cell reads "Manager". */
  lemma DecodeRowRole(row: Row)
    requires DecodeRow(row).Ok?
    ensures DecodeRow(row).value.role.Manager? <==> Cell(row.role) == "Manager"
  {
  }

  /** What loading makes of a file's data lines: the lines that construct, in file order. */
  function DecodeAll(rows: seq<Row>): (r: seq<HrRecord>)
    ensures |r| <= |rows|
  {
    if rows == [] then []
    else
      var last := DecodeRow(rows[|rows| - 1]);
      DecodeAll(rows[..|rows| - 1]) + (if last.Ok? then [last.value] else [])
  }

  /** Every loaded employee satisfies all the field rules. */
  lemma {:induction false} DecodeAllValid(rows: seq<Row>)
    ensures forall i | 0 <= i < |DecodeAll(rows)| :: RecordOk(DecodeAll(rows)[i])
  {
    if rows != [] {
      DecodeAllValid(rows[..|rows| - 1]);
    }
  }

  /** Loading line by line: the lines before do not affect what a later line becomes. */
  lemma {:induction false} DecodeAllAppend(a: seq<Row>, b: seq<Row>)
    ensures DecodeAll(a + b) == DecodeAll(a) + DecodeAll(b)
    decreases |b|
  {
    if b == [] {
      assert a + b == a;
    } else {
      var init, row := b[..|b| - 1], b[|b| - 1];
      TakeSnoc(b, |b| - 1);
      assert b == b[..|b|] == init + [row];
      assert a + b == (a + init) + [row];
      DecodeAllAppend(a, init);
      DecodeAllSnoc(a + init, row);
      DecodeAllSnoc(init, row);
    }
  }

  /** Loading one more line adds its object, if it constructs, at the end. */
  lemma DecodeAllSnoc(rows: seq<Row>, row: Row)
    ensures DecodeAll(rows + [row]) ==
            DecodeAll(rows) + (if DecodeRow(row).Ok? then [DecodeRow(row).value] else [])
  {
    assert (rows + [row])[..|rows|] == rows;
  }

  /** A line whose construction raises is skipped and loading goes on with the rest. */
  lemma SkipBadRow(before: seq<Row>, bad: Row, after: seq<Row>)
    requires DecodeRow(bad).Err?
    ensures DecodeAll(before + [bad] + after) == DecodeAll(before) + DecodeAll(after)
  {
    DecodeAllAppend(before + [bad], after);
    DecodeAllSnoc(before, bad);
  }

  /** The objects hold exactly the given records, position by position. */
  ghost predicate Mirrors(employees: seq<Employee>, recs: seq<HrRecord>)
    reads set e | e in employees
  {
    |employees| == |recs| &&
    forall k | 0 <= k < |employees| :: employees[k].Snapshot() == recs[k]
  }

  lemma MirrorsSnoc(employees: seq<Employee>, recs: seq<HrRecord>, e: Employee)
    requires Mirrors(employees, recs)
    ensures Mirrors(employees + [e], recs + [e.Snapshot()])
  {
  }

  /** The body of the `load_employees` loop for one line: an employee, or nothing when constructing raises. */
  method LoadRow(ghost before: seq<Row>, row: Row) returns (made: Option<Employee>)
    ensures made.Some? ==> fresh(made.value)
    ensures DecodeAll(before + [row]) ==
            DecodeAll(before) + (if made.Some? then [made.value.Snapshot()] else [])
  {
    DecodeAllSnoc(before, row);
    var ts := RowTeamSize(row);
    if ts.Err? {
      return None;
    }
    var r := Employee.Create(Cell(row.id), Cell(row.fname), Cell(row.lname),
                             Cell(row.department), Cell(row.phNumber), ts.value);
    if r.Err? {
      return None;
    }
    return Some(r.value);
  }

  /** `load_employees`: a missing file gives no employees; otherwise one fresh object per line that constructs. */
  method Load(file: Option<seq<Row>>) returns (employees: seq<Employee>)
    ensures file.None? ==> employees == []
    ensures file.Some? ==> Mirrors(employees, DecodeAll(file.value))
    ensures forall e | e in employees :: fresh(e)
    ensures Distinct(employees)
  {
    employees := [];
    if file.None? {
      return;
    }
    var rows := file.value;
    var i := 0;
    ghost var prefix: seq<Row> := [];
    ghost var loaded: seq<HrRecord> := [];
    while i < |rows|
      invariant 0 <= i <= |rows| && prefix == rows[..i]
      invariant loaded == DecodeAll(prefix)
      invariant Mirrors(employees, loaded)
      invariant forall e | e in employees :: fresh(e)
      invariant Distinct(employees)
    {
      var made := LoadRow(prefix, rows[i]);
      if made.Some? {
        MirrorsSnoc(employees, loaded, made.value);
        DistinctAppend(employees, made.value);
        employees := employees + [made.value];
        loaded := loaded + [made.value.Snapshot()];
      }
      TakeSnoc(rows, i);
      prefix := prefix + [rows[i]];
      i := i + 1;
    }
    assert prefix == rows;
  }

  /** The line `save_employees` writes for one employee. */
  function EncodeRow(rec: HrRecord): (row: Row)
    ensures row.role.Some? && row.teamSize.Some?
    ensures row.role.value == "Manager" <==> rec.role.Manager?
    ensures rec.role.Plain? ==> row.teamSize.value == ""
  {
    Row(Some(if rec.role.Manager? then "Manager" else "Employee"),
        Some(rec.id), Some(rec.fname), Some(rec.lname), Some(rec.department),
        Some(rec.phNumber),
        Some(if rec.role.Manager? then IntToString(rec.role.teamSize) else ""))
  }

  function EncodeAll(recs: seq<HrRecord>): (rows: seq<Row>)
    ensures |rows| == |recs|
  {
    if recs == [] then [] else EncodeAll(recs[..|recs| - 1]) + [EncodeRow(recs[|recs| - 1])]
  }

  /** `save_employees`: the data lines that overwrite the file, one per employee in list order. */
  method Save(employees: seq<Employee>) returns (rows: seq<Row>)
    ensures |rows| == |employees|
    ensures forall k | 0 <= k < |rows| :: rows[k] == EncodeRow(employees[k].Snapshot())
  {
    rows := [];
    var i := 0;
    while i < |employees|
      invariant 0 <= i <= |employees| && |rows| == i
      invariant forall k | 0 <= k < i :: rows[k] == EncodeRow(employees[k].Snapshot())
    {
      rows := rows + [EncodeRow(employees[i].Snapshot())];
      i := i + 1;
    }
  }

  lemma DigitsTrimmed(s: string)
    requires AllDigits(s)
    ensures Strip(s) == s
  {
    StripTrimmed(s);
  }

  /** A team size written by saving reads back as the same number. */
  lemma TeamSizeCellRoundTrip(n: int)
    requires n >= 0
    ensures Cell(Some(IntToString(n))) == IntToString(n) != ""
    ensures ParseInt(Cell(Some(IntToString(n)))) == Some(n)
  {
    DigitsTrimmed(IntToString(n));
    ParseIntRoundTrip(n);
  }

  /** Every cell of a saved line reads back as the stored value. */
  lemma CellsRoundTrip(rec: HrRecord)
    requires RecordOk(rec)
    ensures Cell(EncodeRow(rec).id) == rec.id
    ensures Cell(EncodeRow(rec).fname) == rec.fname
    ensures Cell(EncodeRow(rec).lname) == rec.lname
    ensures Cell(EncodeRow(rec).department) == rec.department
    ensures Cell(EncodeRow(rec).phNumber) == rec.phNumber
    ensures RowTeamSize(EncodeRow(rec)) == Ok(TeamSizeOf(rec.role))
  {
    StripTrimmed(rec.id);
    StripTrimmed(rec.fname);
    StripTrimmed(rec.lname);
    assert Trimmed(rec.department);
    StripTrimmed(rec.department);
    DigitsTrimmed(rec.phNumber);
    assert Cell(EncodeRow(rec).role) == EncodeRow(rec).role.value by {
      if rec.role.Manager? {
        assert Trimmed("Manager");
        StripTrimmed("Manager");
      } else {
        assert Trimmed("Employee");
        StripTrimmed("Employee");
      }
    }
    if rec.role.Manager? {
      TeamSizeCellRoundTrip(rec.role.teamSize);
    }
  }

  /** Loading the line saved for a valid employee gives back that employee. */
  lemma DecodeEncodeRow(rec: HrRecord)
    requires RecordOk(rec)
    ensures DecodeRow(EncodeRow(rec)) == Ok(rec)
  {
    CellsRoundTrip(rec);
    ValidateStored(rec);
  }

  /** Save then load: the same employees, with the same roles, in the same order. */
  lemma {:induction false} LoadSaveRoundTrip(recs: seq<HrRecord>)
    requires forall i | 0 <= i < |recs| :: RecordOk(recs[i])
    ensures DecodeAll(EncodeAll(recs)) == recs
  {
    if recs != [] {
      var init, last := recs[..|recs| - 1], recs[|recs| - 1];
      assert recs == init + [last];
      LoadSaveRoundTrip(init);
      DecodeEncodeRow(last);
      DecodeAllSnoc(EncodeAll(init), EncodeRow(last));
    }
  }

  /** Lines written one per record, in order, are what saving those records produces. */
  lemma {:induction false} EncodeAllOfRows(rows: seq<Row>, recs: seq<HrRecord>)
    requires |rows| == |recs|
    requires forall k | 0 <= k < |rows| :: rows[k] == EncodeRow(recs[k])
    ensures rows == EncodeAll(recs)
  {
    if recs != [] {
      var n := |recs| - 1;
      EncodeAllOfRows(rows[..n], recs[..n]);
      TakeSnoc(rows, n);
      assert rows == rows[..n + 1];
    }
  }

  /**
   * The CSV round trip: saving valid employees and loading the file back
   * gives as many new objects as there were employees, each in the same
   * state (Manager role and team size included) and in the same order.
   */
  method SaveThenLoad(employees: seq<Employee>) returns (loaded: seq<Employee>)
    requires forall k | 0 <= k < |employees| :: employees[k].Valid()
    ensures |loaded| == |employees|
    ensures forall k | 0 <= k < |loaded| :: loaded[k].Snapshot() == employees[k].Snapshot()
  {
    var rows := Save(employees);
    ghost var recs := seq(|employees|, k requires 0 <= k < |employees| reads employees => employees[k].Snapshot());
    EncodeAllOfRows(rows, recs);
    LoadSaveRoundTrip(recs);
    loaded := Load(Some(rows));
  }
}
