# Course exercises: compensation registry, HR records, Tetris board, book catalogue and small object demos

This project is a Dafny model of the logic at the heart of a set of Python
teaching exercises. It covers nine parts.

- **Compensation registry** (`compensation.dfy`, both twin files of the
  second assignment). A `ProjectRegistry` keeps a first-write-wins
  dictionary of projects keyed by the stripped, lower-cased name. It also
  keeps a list of registered general managers. Employees have four roles
  (General Manager, Project Manager, Programmer, Staff). Construction and
  the phone and base-salary setters are validated. Each role has its own
  pay rule. A General Manager's share of the revenue pool is divided by
  max(1, number of GMs).
- **HR employee model** (`hr_employee.dfy`). Covers the `Employee` and
  `Manager` classes of the third assignment. Every attribute has a
  validated setter, and a failed check leaves the stored value unchanged.
- **CSV data layer** (`hr_data.dfy`). Rows are decoded into employees;
  rows that fail validation are skipped. Employees are encoded back to rows,
  and saving then loading round-trips.
- **Menu controller** (`hr_app.dfy`). Create, edit and delete on the
  shared employee list, each followed by a save.
- **Tetris board** (`tetris.dfy`):
  - shape rotation and cell projection;
  - building the grid and the collision test;
  - row clearing on the `locked` dictionary, modelled exactly as written;
  - a corrected clearing (see Findings);
  - the move-then-revert rule and the lock/score step of the game loop.
- **Book catalogue** (`books.dfy`). Next id = max + 1. Book and review
  insertion, where a review is added only after its guards pass. The year
  and AI-metric filters, where a missing or malformed metric counts as 101.
  Review counts per book.
- **Employee roster demo** (`roster.dfy`). Append. Update the first
  matching id. Delete every matching id.
- **Dogs** (`dogs.dfy`). A trick list that never holds duplicates, and the
  defaults of the `FamilyPet` and `ShowDog` constructors.
- **Stores** (`stores.dfy`). `Store` and its `Grocery` subclass:
  - the 15-character name limit;
  - the upper-cased name getter;
  - the sales setter, which rejects negatives;
  - plain vs. 1.10× sales increases;
  - the manager list;
  - the grocery location text.
- **Primality** (`primes.dfy`). Trial division up to the square root.

Shared pieces:

- `wrappers.dfy` holds `Option`, `Result`, `Outcome`, distinctness and
  filtering.
- `text.dfy` holds ASCII models of Python's `strip`, `lower`, `upper`,
  `isdigit`, `int()`/`str()` and `split`/`join`.

How the Python maps onto Dafny:

- An exception becomes an `Err`/`Fail` value.
- A constructor that can raise becomes a pure validation function plus a
  static `Create` method that allocates only on success.
- Objects whose fields the Python mutates are classes. Their methods are
  proved against specification functions.

`Compensation.CheckIdentity` follows `Assgt_02/aidd_assgt_02_employees.py`,
lines 105-119, which check the start year first, then first name, last name
and id.

## Model

| member | source | states |
|---|---|---|
| Compensation.NewProject | Assgt_02/aidd_assgt_02_employees.py:41-45 | a project is built exactly when the name is not blank and the revenue is not negative; a blank name is reported before a negative revenue |
| Compensation.Upsert | Assgt_02/aidd_assgt_02_employees.py:67-75 | an existing normalised key returns the stored project and leaves the dictionary alone (the new revenue is ignored); a fresh key validates `Project(strip(name), revenue)`, stores it under the key and appends the key to the insertion order, and a failed validation stores nothing |
| Compensation.UpsertKeepsIndex | Assgt_02/AiDD_Assgt-02_employees.py:46-50 | every stored project keeps a non-blank name and non-negative revenue, and the insertion order lists each key once |
| Compensation.Key | Assgt_02/aidd_assgt_02_employees.py:63-65 | the key of a name is as long as the name with its surrounding blanks removed, and no longer than the name |
| Compensation.KeyOfStripped | Assgt_02/AiDD_Assgt-02_employees.py:73-75 | the key of the stripped name equals the key of the raw name, so the stored stripped name maps back to its own key |
| Compensation.KeyOfTrimmed | Assgt_02/AiDD_Assgt-02_employees.py:73-75 | for a name without surrounding blanks, stripping is the identity and the key is just its lower-case form |
| Compensation.UpsertKeepsKeys | Assgt_02/AiDD_Assgt-02_employees.py:85-87 | after any upsert every stored project still sits under the key of its own (stripped) name |
| Compensation.UpsertNewKey | Assgt_02/AiDD_Assgt-02_employees.py:82-87 | a successful upsert of a fresh key adds exactly that one key |
| Compensation.UpsertTrimmedFresh | Assgt_02/AiDD_Assgt-02_employees.py:85-87 | a fresh, already trimmed, valid name is stored as given and raises the total by its revenue |
| Compensation.UpsertTotal | Assgt_02/aidd_assgt_02_employees.py:86-89 | the total revenue grows by the new revenue on a successful fresh insert and is unchanged otherwise, so no upsert decreases it |
| Compensation.UpsertFirstWriteWins | Assgt_02/AiDD_Assgt-02_employees.py:82-84 | once a name is stored, upserting any name with the same key returns the original project with its original revenue and changes nothing |
| Compensation.FirstWriteWinsExample | Assgt_02/AiDD_Assgt-02_employees.py:77-87 | upserting "Alpha" at 100 and then "alpha " at 999 returns the project with revenue 100 and leaves the registry as after the first call |
| Compensation.UpsertTwoFresh | Assgt_02/AiDD_Assgt-02_employees.py:98-101 | two upserts of distinct fresh valid names store both and add both revenues to the total |
| Compensation.UpsertTwoFreshFromEmpty | Assgt_02/aidd_assgt_02_employees.py:86-89 | from an empty registry, two distinct fresh valid projects give a total equal to the sum of their revenues |
| Compensation.ProjectRegistry.constructor | Assgt_02/aidd_assgt_02_employees.py:59-61 | a new registry has no projects and no general managers |
| Compensation.ProjectRegistry.UpsertProject | Assgt_02/aidd_assgt_02_employees.py:67-75 | the registry's dictionary moves exactly as `Upsert` says, the GM list is untouched, and the total revenue rises by the revenue only on a fresh successful insert |
| Compensation.ProjectRegistry.GetProject | Assgt_02/aidd_assgt_02_employees.py:77-79 | returns a project exactly when the normalised key is present, and then the stored one, whose own key matches |
| Compensation.ProjectRegistry.RegisterGm | Assgt_02/aidd_assgt_02_employees.py:81-84 | appends the GM only if it is not already registered; the distinct-GM count becomes the size of the old set plus this GM, so re-registering changes nothing |
| Compensation.ProjectRegistry.TotalRevenue | Assgt_02/aidd_assgt_02_employees.py:86-89 | the total is the sum over the stored projects and is never negative |
| Compensation.ProjectRegistry.GmCount | Assgt_02/AiDD_Assgt-02_employees.py:103-106 | the count equals the number of distinct registered GMs |
| Compensation.NormalizePhone | Assgt_02/aidd_assgt_02_employees.py:130-133 | the stored phone holds only digits, is no longer than the input, and an all-digit input is kept as is (no length check) |
| Compensation.CheckIdentity | Assgt_02/aidd_assgt_02_employees.py:105-119 | fails first on a future start year, then on a blank first name, last name or id, in that order; on success the names and id are stripped and the phone is digits-only |
| Compensation.CheckRole | Assgt_02/AiDD_Assgt-02_employees.py:190-195 | a GM needs a non-empty project list and a Programmer or Staff member a non-negative base salary; otherwise the role is accepted |
| Compensation.CheckEmployee | Assgt_02/aidd_assgt_02_employees.py:211-215 | the base-class checks run before the role's own check, and the employee is accepted exactly when both pass |
| Compensation.Employee.Create | Assgt_02/aidd_assgt_02_employees.py:105-119 | construction is all-or-nothing: an object is allocated exactly when the checks pass, holding the normalised fields and the role |
| Compensation.Employee.SetPhone | Assgt_02/aidd_assgt_02_employees.py:126-128 | the phone becomes the digits of the new value; no other field changes |
| Compensation.Employee.SetBaseSalary | Assgt_02/AiDD_Assgt-02_employees.py:264-269 | a negative value is rejected and the previous salary kept; otherwise only the base salary changes |
| Compensation.Employee.YearsOfService | Assgt_02/aidd_assgt_02_employees.py:135-138 | years of service is max(0, current year − start year): never negative, and at least the difference |
| Compensation.GmShare | Assgt_02/aidd_assgt_02_employees.py:175-178 | the share times max(1, GM count) is 3% of the total revenue, so it lies between 0 and that 3% and there is no division by zero |
| Compensation.RolePay | Assgt_02/aidd_assgt_02_employees.py:175-261 | GM pay is the pool share, PM pay is 1/20 of the project revenue, Programmer pay is base plus 1/100 of the revenue, Staff pay is base plus 100 per year of service |
| Compensation.RolePayNonNegative | Assgt_02/aidd_assgt_02_employees.py:221-233 | for an accepted role over stored (non-negative) projects, pay is never negative |
| Compensation.Employee.Compensation | Assgt_02/aidd_assgt_02_employees.py:140-144 | an employee's pay is the rule of its role, evaluated with its years of service and the registry's total revenue and GM count |
| Compensation.PoolSplitExamples | Assgt_02/AiDD_Assgt-02_employees.py:201-205 | with revenue 1,000,000 and two GMs each gets 15,000; with no GMs a GM gets 3% of the total |
| Compensation.StaffFirstYear | Assgt_02/AiDD_Assgt-02_employees.py:314-316 | a Staff member who started this year is paid exactly the base salary |
| Compensation.Employee.Describe | Assgt_02/aidd_assgt_02_employees.py:180-182 | the description starts with the role tag, the names and the id |
| Compensation.Employee.CompensationSummary | Assgt_02/AiDD_Assgt-02_employees.py:171-174 | the summary is the description followed by " \| Total Compensation: $" and the formatted computed pay |
| Compensation.AddDemoProjects | Assgt_02/aidd_assgt_02_main.py:181-184 | the demonstration projects are both stored and the total revenue is 1,500,000 |
| Compensation.AddDemoPay | Assgt_02/aidd_assgt_02_main.py:181-191 | in the demonstration the GM earns 45,000, the PM 50,000, the Programmer 100,000 and the Staff member 55,000 plus 100 per year since 2020 |
| HrEmployee.CheckId | AiDD_Assgt_03/employee.py:38-43 | the id is accepted exactly when it is not blank, and is stored stripped |
| HrEmployee.CheckName | AiDD_Assgt_03/employee.py:69-76 | a name is accepted exactly when, stripped, it is non-empty and has no digit; the empty case is reported before the digit case; the stored value is the stripped name |
| HrEmployee.CheckDepartment | AiDD_Assgt_03/employee.py:97-102 | the department is accepted exactly when, stripped, it is three upper-case letters, and is stored stripped |
| HrEmployee.CheckPhone | AiDD_Assgt_03/employee.py:110-115 | the phone is accepted exactly when it has ten digits, and the stored value is those digits |
| HrEmployee.CheckTeamSize | AiDD_Assgt_03/employee.py:139-147 | a team size is accepted exactly when it is not negative |
| HrEmployee.CheckIdStored | AiDD_Assgt_03/employee.py:57-62 | a stored id passes its own check unchanged |
| HrEmployee.CheckNameStored | AiDD_Assgt_03/employee.py:83-90 | a stored name passes its own check unchanged |
| HrEmployee.CheckDepartmentStored | AiDD_Assgt_03/employee.py:99-102 | a stored department passes its own check unchanged |
| HrEmployee.CheckPhoneStored | AiDD_Assgt_03/employee.py:112-115 | a stored phone passes its own check unchanged |
| HrEmployee.PhoneFormattedExample | AiDD_Assgt_03/tests/test_employee.py:11-25 | "(123)456-7890" is stored as "1234567890" |
| HrEmployee.PhoneShortExample | AiDD_Assgt_03/tests/test_employee.py:27-32 | "12345" is rejected as a phone |
| HrEmployee.DepartmentExamples | AiDD_Assgt_03/employee.py:179-185 | "ENG" is accepted, "EN" and "Eng" are rejected |
| HrEmployee.Validate | AiDD_Assgt_03/employee.py:38-55 | the checks run in the order id, first name, last name, department, phone, team size, and each one's error is the result exactly when every earlier check passed and it fails; on success the record holds the normalised values and the Manager role exactly when a team size was given |
| HrEmployee.ValidateStored | AiDD_Assgt_03/employee.py:45-55 | validating the fields of a valid record gives back that same record |
| HrEmployee.ManagerTeamSizes | AiDD_Assgt_03/employee.py:130-147 | a Manager accepts team sizes 0 and 5 and rejects -1, with all other fields as for a plain employee |
| HrEmployee.Employee.Create | AiDD_Assgt_03/employee.py:40-55 | construction is all-or-nothing: an object is allocated exactly when validation passes, and it holds the validated record |
| HrEmployee.Employee.SetFirstName | AiDD_Assgt_03/employee.py:71-76 | on success only the first name changes, to the stripped value; on failure nothing changes and the check's error is returned |
| HrEmployee.Employee.SetLastName | AiDD_Assgt_03/employee.py:85-90 | on success only the last name changes, to the stripped value; on failure nothing changes |
| HrEmployee.Employee.SetDepartment | AiDD_Assgt_03/employee.py:97-102 | on success only the department changes; a value that is not three upper-case letters changes nothing |
| HrEmployee.Employee.SetPhone | AiDD_Assgt_03/employee.py:110-115 | on success only the phone changes, to the ten digits; otherwise nothing changes |
| HrEmployee.Employee.SetTeamSize | AiDD_Assgt_03/employee.py:141-147 | a Manager's team size changes exactly when the new value is not negative; otherwise nothing changes |
| HrEmployee.Employee.GetPhone | AiDD_Assgt_03/employee.py:118-119 | the returned phone is the stored one and always has exactly ten digits |
| HrData.RowTeamSize | AiDD_Assgt_03/EmployeeData.py:38-44 | a team size is read exactly for role "Manager": an empty cell gives 0, a number gives its value, anything else is an error |
| HrData.DecodeRow | AiDD_Assgt_03/EmployeeData.py:32-44 | a decoded row is always a valid record |
| HrData.DecodeRowRole | AiDD_Assgt_03/EmployeeData.py:40-44 | a decoded row is a Manager exactly when its role cell is "Manager" |
| HrData.DecodeAll | AiDD_Assgt_03/EmployeeData.py:30-48 | loading never yields more employees than the file has rows (a bad row is skipped) |
| HrData.EncodeAll | AiDD_Assgt_03/EmployeeData.py:57-67 | saving writes one row per employee |
| HrData.DecodeAllValid | AiDD_Assgt_03/EmployeeData.py:30-48 | every employee loaded from a file is valid |
| HrData.DecodeAllAppend | AiDD_Assgt_03/EmployeeData.py:30-35 | loading is row by row: decoding a concatenation concatenates the results, so valid rows come out in file order |
| HrData.SkipBadRow | AiDD_Assgt_03/EmployeeData.py:45-48 | a row that fails validation is skipped and loading continues with the next row |
| HrData.LoadRow | AiDD_Assgt_03/EmployeeData.py:31-48 | one loop step allocates an employee exactly for a row that decodes, holding its record |
| HrData.Load | AiDD_Assgt_03/EmployeeData.py:23-49 | a missing file gives no employees; otherwise the fresh, distinct employees hold exactly the decodings of the valid rows, in order |
| HrData.EncodeRow | AiDD_Assgt_03/EmployeeData.py:57-66 | the role cell is "Manager" exactly for a Manager, and the team-size cell is empty for a plain employee |
| HrData.Save | AiDD_Assgt_03/EmployeeData.py:52-67 | one row per employee, each the encoding of that employee's current record |
| HrData.CellsRoundTrip | AiDD_Assgt_03/EmployeeData.py:58-66 | every encoded cell reads back as the stored field, the phone as its digits and the team size as the same number |
| HrData.TeamSizeCellRoundTrip | AiDD_Assgt_03/EmployeeData.py:41 | a non-negative team size written with `str` reads back with `int` as the same number |
| HrData.DecodeEncodeRow | AiDD_Assgt_03/EmployeeData.py:32-66 | decoding the encoding of a valid record gives that record back |
| HrData.LoadSaveRoundTrip | AiDD_Assgt_03/tests/test_employee.py:35-45 | loading the saved rows of valid records gives the same records, so the count and the Manager role survive |
| HrData.SaveThenLoad | AiDD_Assgt_03/tests/test_employee.py:36-44 | saving valid employees and loading them back gives as many employees, each with the same record |
| HrApp.FindRecord | AiDD_Assgt_03/EmployeeApp.py:41-45 | returns the index of the first employee with the id, or none exactly when no employee has it |
| HrApp.FindById | AiDD_Assgt_03/EmployeeApp.py:42-45 | the search loop returns the same index as the first-match specification |
| HrApp.CreateAll | AiDD_Assgt_03/EmployeeApp.py:48-68 | a duplicate id or a failed validation leaves the list unchanged; otherwise the validated record is appended at the end; unique ids and validity are preserved |
| HrApp.EditField | AiDD_Assgt_03/EmployeeApp.py:78-90 | only the chosen field changes, through the same check its setter applies; the result stays valid |
| HrApp.TeamSizeEdit | AiDD_Assgt_03/EmployeeApp.py:92-97 | only a Manager's team size can change, and only to a non-negative integer; bad input is ignored and the record kept |
| HrApp.EditOne | AiDD_Assgt_03/EmployeeApp.py:79-97 | the id never changes; a rejected field edit changes nothing; an accepted edit gives the record with the chosen field set to the stripped value (the digits for a phone), and an invalid team size is ignored while that field edit is kept |
| HrApp.EditAll | AiDD_Assgt_03/EmployeeApp.py:71-103 | an unknown id or unknown field changes nothing; an update replaces exactly the found employee by `EditOne` of it; ids, validity and uniqueness are preserved |
| HrApp.EditChangesOnlyChosenField | AiDD_Assgt_03/EmployeeApp.py:79-97 | an update changes only the chosen field of the found employee (and a manager's team size), and no other employee |
| HrApp.ApplyEdit | AiDD_Assgt_03/EmployeeApp.py:79-97 | calling the found object's setters moves its record exactly as the edit specification says |
| HrApp.DeleteAll | AiDD_Assgt_03/EmployeeApp.py:106-117 | an unknown id or an unconfirmed delete changes nothing; a confirmed delete removes one employee |
| HrApp.DeleteRemovesFound | AiDD_Assgt_03/EmployeeApp.py:115 | a confirmed delete removes exactly the found employee and keeps the others in order |
| HrApp.DeleteKeepsInvariants | AiDD_Assgt_03/EmployeeApp.py:106-117 | deleting preserves unique ids and validity, and with unique ids a confirmed delete leaves no employee with that id |
| HrApp.Controller.Open | AiDD_Assgt_03/EmployeeApp.py:132 | at start-up the controller holds the employees loaded from the file, or none if it is missing |
| HrApp.Controller.Persist | AiDD_Assgt_03/EmployeeApp.py:99 | saving writes the encoding of every current record and changes nothing else |
| HrApp.Controller.Append | AiDD_Assgt_03/EmployeeApp.py:63-64 | the new employee is appended at the end and the file is rewritten |
| HrApp.Controller.Create | AiDD_Assgt_03/EmployeeApp.py:48-68 | the records move as `CreateAll` says; on success a fresh employee is appended and saved, otherwise nothing changes |
| HrApp.Controller.Edit | AiDD_Assgt_03/EmployeeApp.py:71-103 | the records move as `EditAll` says, the list of objects is unchanged, and the file is rewritten only after an update |
| HrApp.Controller.Remove | AiDD_Assgt_03/EmployeeApp.py:115-116 | removes the object at the index together with its record and rewrites the file |
| HrApp.Controller.Delete | AiDD_Assgt_03/EmployeeApp.py:106-117 | the records move as `DeleteAll` says; only a confirmed delete of a known id changes the list and the file |
| Tetris.Width | tetris.py:52 | the width of a shape is its shortest row, as `zip` truncates |
| Tetris.RotateRect | tetris.py:52 | a quarter-turn maps an r×c shape to a c×r shape with new[j][k] = shape[r−1−k][j] |
| Tetris.RotateTwice | tetris.py:50-52 | two quarter-turns turn the shape upside down and back to front |
| Tetris.RotateFour | tetris.py:50-52 | four quarter-turns give back the shape |
| Tetris.BlocksPeriodic | tetris.py:47-53 | rotations r and r+4 give the same blocks |
| Tetris.RotateKeepsFilled | tetris.py:52 | a quarter-turn keeps the number of filled cells |
| Tetris.Tetromino.constructor | tetris.py:40-45 | a new piece has the given position, shape and colour and rotation 0 |
| Tetris.Tetromino.Blocks | tetris.py:47-53 | the loop applies rotation mod 4 quarter-turns |
| Tetris.ShapeCellsSpec | tetris.py:55-61 | the cells are exactly (x+j, y+i) for each non-zero block, one entry per filled cell |
| Tetris.AddRowCells | tetris.py:58-61 | the inner loop appends the cells of one block row |
| Tetris.Tetromino.GetCells | tetris.py:55-61 | the loop returns the piece's cells at its rotation |
| Tetris.CreateGrid | tetris.py:64-70 | the grid is ROWS×COLS and cell (x, y) holds the locked colour there or nothing; keys off the board are ignored |
| Tetris.ValidSpace | tetris.py:72-78 | the answer is false exactly when a cell is off the sides or below the bottom, or is on the board over an occupied cell; cells above the top are allowed |
| Tetris.GridRowFull | tetris.py:64-70 | a grid row built from the locked cells is full exactly when all its cells are locked |
| Tetris.ClearRowSpec | tetris.py:85-90 | clearing row y drops its cells, moves every locked cell above it down one and keeps the cells below it |
| Tetris.FirstMissing | tetris.py:85-86 | finds the first column of a row with no locked cell, which is the key `del` would fail on |
| Tetris.DeleteRow | tetris.py:85-86 | deleting a row's cells fails with the first missing key, or removes the whole row |
| Tetris.DropRows | tetris.py:87-90 | the nested shifting loops produce exactly the row-cleared dictionary |
| Tetris.ClearFrom | tetris.py:80-91 | the clearing as written counts at most one row per row it visits, and a `KeyError` names a cell of a visited row |
| Tetris.ClearRows | tetris.py:80-91 | the method computes the bottom-up clearing as written, including its `KeyError` |
| Tetris.ClearCount | tetris.py:80-91 | when the clearing as written succeeds, its count is the number of full rows of the given grid |
| Tetris.ClearNothing | tetris.py:82-83 | with no full row nothing changes and the count is 0 |
| Tetris.ClearSingle | tetris.py:80-91 | with exactly one full row, locked in full, that row is cleared and the count is 1 |
| Tetris.SingleRowAgrees | tetris.py:80-91 | on a grid built from the locked cells with one full row, the clearing as written gives count 1 and the cleared dictionary |
| Tetris.ClearCrash | tetris.py:82-90 | as written, two full grid rows at the bottom with an empty cell at (0, 17) raise `KeyError` on key (0, 18) |
| Tetris.StaleGridLeavesFullRow | tetris.py:173-182 | as written, a piece completing the bottom row is locked but the pre-lock grid makes `clear_rows` clear nothing |
| Tetris.ClearDown | tetris.py:80-91 | the corrected clearing clears at most one row per row it visits |
| Tetris.ClearDownCountsFullRows | tetris.py:80-91 | the corrected clearing's count is the number of rows that were full on the board it was given |
| Tetris.ClearDownLeavesNoFullRow | tetris.py:80-91 | the corrected clearing leaves no full row |
| Tetris.ClearDownSingle | tetris.py:80-91 | with one full row the corrected clearing counts 1 and gives the same dictionary as the code |
| Tetris.ClearFullRows | tetris.py:80-91 | the corrected clearing loop computes the top-down specification |
| Tetris.Stamp | tetris.py:175-178 | locking keeps every cell that was locked before |
| Tetris.StampSpec | tetris.py:174-178 | locking writes every cell with y ≥ 0 in the piece's colour and keeps the other locked cells |
| Tetris.Game.constructor | tetris.py:127-135 | a new game has no locked cells, score 0, is running, and has the current and next pieces at (3, −2) |
| Tetris.Game.Shift | tetris.py:143-148 | a move is kept exactly when the moved piece fits, otherwise the previous x, y and rotation are restored |
| Tetris.Game.HandleEvent | tetris.py:151-170 | quit stops the game; left, right, down and up move or rotate with the undo rule; nothing else changes |
| Tetris.Game.Paint | tetris.py:174-178 | locking writes the cells on the board and ends the game if a cell is above the top |
| Tetris.Game.Lock | tetris.py:173-182 | the next piece becomes current, a fresh next piece is made, and the score rises by 100 per row cleared by the corrected clearing |
| Tetris.Game.Frame | tetris.py:137-182 | a frame without a pending lock or gravity step keeps the locked cells, the score and both pieces; with no events as well, the game keeps running as before and the piece keeps its position and rotation; a quit stops the game; the score never falls |
| Books.IdValue | book_assgt.py:63 | an integer id is its value and a text id has a value exactly when `int` accepts it |
| Books.Metric | book_assgt.py:312-317 | a missing, null or malformed AI metric counts as 101; an integer, or a string that reads as one, counts as its value |
| Books.MaxId | book_assgt.py:63 | the maximum exists exactly when every id is an integer, bounds them all and is one of them |
| Books.NextIdIsFresh | book_assgt.py:62-66 | a new id is an integer greater than every existing id (or "1" for none) |
| Books.NextId | book_assgt.py:62-66 | the first id is "1"; generating an id fails exactly when some existing id is not an integer |
| Books.ParseInts | book_assgt.py:85-86 | the sales figures parse exactly when every part does, giving their values in order |
| Books.Genres | book_assgt.py:75-76 | one genre per comma-separated part, each stripped |
| Books.HasBook | book_assgt.py:129-133 | true means some book has that id; false means none does |
| Books.HasBookTotal | book_assgt.py:130 | when every book has an id the test succeeds, and is true exactly when a book has that id |
| Books.Catalogue.AddBook | book_assgt.py:61-108 | on success exactly one book is appended at the end with the new id, the stripped genres and the parsed pages and sales; on failure nothing changes |
| Books.Catalogue.AddReview | book_assgt.py:118-158 | with no books, or a book id that matches no book, nothing is added; otherwise exactly one review is appended with the next review id |
| Books.BooksByYear | book_assgt.py:269-285 | no books or non-digit input is an error; otherwise the matches are the books whose stripped year equals the input |
| Books.BooksByAiMetric | book_assgt.py:300-319 | no books or a non-integer threshold is an error; otherwise the matches are the books whose metric is below it |
| Books.MalformedMetricExcluded | book_assgt.py:312-319 | a book with a missing or malformed metric matches only when the threshold exceeds 101 |
| Books.QueriesKeepOrder | book_assgt.py:275-319 | both filters keep list order |
| Books.TallyMembers | book_assgt.py:346-347 | the result pairs exactly the books with a positive review count with that count |
| Books.CountReviews | book_assgt.py:335-344 | the count of each non-empty stripped id is its number of reviews, and only ids with reviews are keys |
| Books.BooksWithReviews | book_assgt.py:329-355 | no books is an error; otherwise the books with reviews, in book order, paired with their counts |
| Roster.FirstWith | demo_app_09_04.py:15-16 | finds the first record with the id, or none exactly when no record has it |
| Roster.Updated | demo_app_09_04.py:14-20 | only the first matching record's department changes; with no match the list is unchanged |
| Roster.Deleted | demo_app_09_04.py:25 | deleting never lengthens the list, and no record left carries the deleted id |
| Roster.DeleteMembers | demo_app_09_04.py:25 | after a delete the list holds exactly the records with other ids |
| Roster.DeleteAbsent | demo_app_09_04.py:25 | deleting an absent id leaves the list equal to before |
| Roster.DeleteCount | demo_app_09_04.py:25 | the length drops by the number of matching records |
| Roster.DeleteKeepsOrder | demo_app_09_04.py:22-25 | the remaining records keep their original order |
| Roster.AddThenDeleteOther | demo_app_09_04.py:3-25 | adding a record and then deleting another id keeps the new record at the end |
| Roster.Roster.AddEmployee | demo_app_09_04.py:3-6 | one record is appended at the end and the rest is unchanged |
| Roster.Roster.UpdateDepartment | demo_app_09_04.py:14-20 | the search loop reports whether the id exists and updates as the first-match specification says |
| Roster.Roster.DeleteEmployee | demo_app_09_04.py:22-26 | the list becomes the records with other ids |
| Dogs.WithTrick | AiDD_session-7/dog_objects.py:14-18 | a trick is appended at the end only if absent; a duplicate leaves the list unchanged; no duplicates arise |
| Dogs.TaughtDistinct | AiDD_session-7/dog_objects.py:14-18 | tricks added one by one give a list without duplicates holding each trick taught |
| Dogs.TaughtKeepsOrder | AiDD_session-7/dog_objects.py:16 | existing tricks keep their order at the front |
| Dogs.SitTwice | AiDD_session-7/dog_objects.py:145-150 | adding "Sit" twice leaves one trick |
| Dogs.Dog.constructor | AiDD_session-7/dog_objects.py:6-11 | a new dog has the given name and price and no tricks |
| Dogs.Dog.FamilyPet | AiDD_session-7/dog_objects.py:50-52 | a family pet is a dog with the given name and price and a nickname |
| Dogs.Dog.ShowDog | AiDD_session-7/dog_objects.py:69-71 | a show dog is a dog with the given name and price and a show id |
| Dogs.Dog.AddTrick | AiDD_session-7/dog_objects.py:14-18 | the trick list moves as `WithTrick` says and the dog's other fields are unchanged |
| Dogs.Defaults | AiDD_session-7/dog_objects.py:50-71 | the default nickname is "Buddy" and the default show id is "9999"; both dogs start with an empty name, price 0 and no tricks |
| Stores.Store.constructor | AiDD_session-7/store2.py:27-31 | a new store has the name and sales given (negative sales included), no employees and no managers |
| Stores.NewStore | AiDD_session-7/store2.py:18-31 | a store is built exactly when the name has at most 15 characters |
| Stores.NewGrocery | AiDD_session-7/grocery.py:15-24 | a grocery is built under the same name limit, with its location text |
| Stores.Store.Name | AiDD_session-7/store2.py:41-43 | the name read back is the stored name upper-cased, letter by letter: each lower-case letter becomes its capital and every other character is kept |
| Stores.Store.SetName | AiDD_session-7/store2.py:46-53 | a name longer than 15 characters is rejected and the old name kept; otherwise the raw value is stored |
| Stores.Store.SetTotalSales | AiDD_session-7/store2.py:61-65 | negative sales are rejected and the old value kept; otherwise stored |
| Stores.Store.SetNumEmpl | AiDD_session-7/store2.py:73-75 | the employee count is set without a check |
| Stores.Store.SetLocation | AiDD_session-7/grocery.py:31-33 | the location is stored as "Grocery location is " followed by the value |
| Stores.Store.ResetSales | AiDD_session-7/store2.py:82-83 | sales become 0 |
| Stores.Store.IncreaseSales | AiDD_session-7/store2.py:90-91 | a store adds the value; a grocery adds 1.10 times it |
| Stores.IncreasedBySum | AiDD_session-7/grocery.py:38-39 | a run of increases adds the sum of the values, times 1.10 for a grocery |
| Stores.IncreasesGrow | AiDD_session-7/store2.py:86-91 | with non-negative increases sales never fall, and a grocery gains at least as much as a plain store |
| Stores.Store.SetManagers | AiDD_session-7/store2.py:94-95 | the team is replaced by the given list |
| Stores.Store.AddManager | AiDD_session-7/store2.py:98-99 | the manager is appended at the end |
| Stores.Store.GetManagers | AiDD_session-7/store2.py:108-109 | returns the current team |
| Stores.Store.Describe | AiDD_session-7/grocery.py:43-44 | the text starts with "Store name: ", and for a grocery ends with a newline and the location |
| Primes.NoLargeDivisor | Demo.py:8-13 | a number above 1 with no divisor below the first i with i·i > n is prime |
| Primes.IsPrime | Demo.py:3-13 | the loop answers true exactly when n > 1 and n has no divisor in 2..n−1 |
| Primes.Examples | Demo.py:16-17 | 11 is prime and 4 is not |
| Text.StripEmptyIffBlank | Assgt_02/aidd_assgt_02_employees.py:42 | a string strips to empty exactly when it is all whitespace |
| Text.ParseIntRoundTrip | AiDD_Assgt_03/EmployeeData.py:65 | `int(str(n))` is n |

## Left out

- Console menus, prompts and printing are left out: the driver's input helpers and reports, the view module, the menu loops, `list_tricks`, `displayManagers`, `list_employees` and the catalogue's display functions. User choices are parameters.
- File, JSON and CSV plumbing is left out: the catalogue's `load_data`/`save_data`, the roster's CSV save/load and the `open`/reader/writer calls of the HR data layer. A file is an optional list of rows of optional cells. Logging is left out too.
- pygame drawing, fonts and event polling are left out, and so are the clock and `random.choice`. The fall timer is a boolean parameter; the events and the next shape and colour are parameters.
- The current year, `date.today()` and `datetime.now()` are parameters.
- Python's Unicode `strip`, `lower`, `upper` and `isdigit` are modelled on ASCII. `int()` is modelled as an optional sign followed by ASCII digits, surrounded by optional whitespace; underscores and non-ASCII digits are not accepted.
- Money, revenue and the 1.10 multiplier are exact reals: no IEEE rounding. `round(..., 2)` in `format_price`/`discountPrice` is not modelled, and neither is the `:,.2f` formatting, which is a `money` function parameter. `int(n ** 0.5)` is replaced by the bound `i * i <= n`.
- JSON floats and booleans in the catalogue's id, AI-metric and release-year fields are not modelled: such a field is absent, null, a string or an integer, so what `int(...)` and `str(...)` make of a float or a boolean is left out.
- Books.Catalogue.AddReview: loaded books are assumed to carry `title` and `author` (they are plain strings in `Book`); the listing at book_assgt.py:123-124 would raise `KeyError` on a book without them, where the model goes on to the id check.
- The `__str__` texts of `Project`, the HR `Employee`/`Manager` and the dogs are not modelled; they are display only.
- The abstract `Employee` class hierarchy is a `Role` datatype with four variants. The GM `projects` getter's defensive copy is automatic, because lists are values in the model.
- Stores.Store.SetManagers: the team is stored as a value, so the sharing between the caller's list and the store's team is not modelled, and neither is the aliasing of the list `getManagers` returns.
- Compensation.Employee.Describe: states only the prefix of the text (tag, names, id); the rest depends on the money formatting.
- Stores.Store.Describe: states only the prefix and the grocery suffix; the sales text is a parameter.
- Tetris.Game.Frame: states the no-op, quit and score facts of a frame; the piece's position after a run of events is stated per event by `HandleEvent`.
- Tetris.Game.Lock: clears rows with the corrected top-down clearing on the locked cells after the lock, not with the code's clearing on the pre-lock grid (see Findings).
- `register_gm` does not check the argument's type in the code; the model takes an `Employee` object, and identity is reference equality as in Python without `__eq__`.
- The roster script assigns its list only after its menu loop, so most menu options would raise `NameError`. The model keeps the list as explicit state instead.
- The other demonstration scripts (cars, the dog application, the store test script, `demo_cw_0905.py`) only print or repeat the modelled classes and are not part of this model.

## Findings

| source | as written | input that shows it | evidently intended | confidence | as-written member | corrected member |
|---|---|---|---|---|---|---|
| tetris.py:82-90 | `clear_rows` decides which rows are full from the grid it is given, but deletes from and shifts the `locked` dictionary as it goes; after the first clear, a row the grid still shows as full holds the cells moved down from above | rows 18 and 19 full in the grid, row 19 fully locked, no locked cell at (0, 17): deleting row 18 raises `KeyError` for (0, 18) | every full row is cleared once, and the rows above drop down | not executed | Tetris.ClearCrash | Tetris.ClearDownLeavesNoFullRow |
| tetris.py:173-182 | the grid passed to `clear_rows` is the one built at the start of the frame, before the piece's cells are written into `locked` | nine cells of row 19 locked, and the falling piece locks the tenth at (9, 19): nothing is cleared and no score is added | rows completed by a lock are cleared and scored at that lock | not executed | Tetris.StaleGridLeavesFullRow | Tetris.Game.Lock |
