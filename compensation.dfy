/**
 * The personnel-compensation prototype: projects, the project registry that
 * deduplicates them by normalised name and counts the General Managers, and
 * the four kinds of employee with their pay rules.
 *
 * `CURRENT_YEAR` (`date.today().year` in the source) is a parameter.
 * Money is `real`; float rounding and the `:,.2f` rendering are not modelled
 * (the rendering of an amount is a parameter `money` where text is built).
 */
module Compensation {
  import opened Wrappers
  import opened Text

  // ================================================================ projects

  /** A frozen project record: its display name and its revenue. */
  datatype Project = Project(name: string, revenue: real)

  datatype ProjectError = EmptyProjectName | NegativeRevenue

  /** What `Project.__post_init__` lets through. */
  predicate ProjectOk(p: Project) {
    !AllSpace(p.name) && p.revenue >= 0.0
  }

  /**
   * `Project(name, revenue)`: fails on an empty or whitespace-only name,
   * then on a negative revenue; otherwise holds exactly the given values.
   */
  function NewProject(name: string, revenue: real): (r: Result<Project, ProjectError>)
    ensures r.Ok? <==> !AllSpace(name) && revenue >= 0.0
    ensures r.Ok? ==> r.value == Project(name, revenue) && ProjectOk(r.value)
    ensures AllSpace(name) ==> r == Err(EmptyProjectName)
    ensures !AllSpace(name) && revenue < 0.0 ==> r == Err(NegativeRevenue)
  {
    StripEmptyIffBlank(name);
    if Strip(name) == [] then Err(EmptyProjectName)
    else if revenue < 0.0 then Err(NegativeRevenue)
    else Ok(Project(name, revenue))
  }

  /** `ProjectRegistry._key`: `name.strip().lower()`. */
  function Key(name: string): (r: string)
    ensures |r| == |Strip(name)| <= |name|
  {
    Lower(Strip(name))
  }

  /** The stored (stripped) name of a project has the key it was stored under. */
  lemma KeyOfStripped(name: string)
    ensures Key(Strip(name)) == Key(name)
  {
    StripIdempotent(name);
  }

  /** Sum of the revenues of the projects stored under `keys`, in that order (a key with no entry adds nothing). */
  function SumRevenue(keys: seq<string>, m: map<string, Project>): (r: real)
    ensures (forall k | k in m :: m[k].revenue >= 0.0) ==> r >= 0.0
  {
    if keys == [] then 0.0
    else
      var last := keys[|keys| - 1];
      SumRevenue(keys[..|keys| - 1], m) + (if last in m then m[last].revenue else 0.0)
  }

  /** Storing under a key that is not summed does not change the sum. */
  lemma {:induction false} SumRevenueFrame(keys: seq<string>, m: map<string, Project>, k: string, p: Project)
    requires k !in keys
    ensures SumRevenue(keys, m[k := p]) == SumRevenue(keys, m)
  {
    if keys != [] {
      SumRevenueFrame(keys[..|keys| - 1], m, k, p);
    }
  }

  /** Appending a new key adds the revenue stored under it. */
  lemma {:induction false} SumRevenueAppend(keys: seq<string>, m: map<string, Project>, k: string, p: Project)
    requires k !in keys
    ensures SumRevenue(keys + [k], m[k := p]) == SumRevenue(keys, m) + p.revenue
  {
    SumRevenueFrame(keys, m, k, p);
    assert (keys + [k])[..|keys|] == keys;
  }

  /** The registry's `_projects` dictionary: its entries and, as a Python dict keeps, their insertion order. */
  datatype ProjectIndex = ProjectIndex(entries: map<string, Project>, order: seq<string>)

  /** Every stored project valid, and each key listed exactly once in the order. */
  ghost predicate IndexOk(d: ProjectIndex) {
    && (forall k | k in d.entries :: ProjectOk(d.entries[k]))
    && Distinct(d.order)
    && (forall k :: k in d.entries <==> k in d.order)
  }

  /** Every project is stored under the normalised form of its own name. */
  ghost predicate KeysMatch(d: ProjectIndex) {
    forall k | k in d.entries :: k == Key(d.entries[k].name)
  }

  /** The sum of the stored revenues; never negative. */
  function Total(d: ProjectIndex): (r: real)
    requires IndexOk(d)
    ensures r >= 0.0
  {
    SumRevenue(d.order, d.entries)
  }

  /**
   * `upsert_project` on the dictionary: first write wins.  A known key
   * gives back the stored project and leaves the dictionary alone, whatever
   * the revenue; a new key stores `Project(name.strip(), revenue)` when that
   * is valid, and nothing when it raises.
   */
  function Upsert(d: ProjectIndex, name: string, revenue: real): (out: (Result<Project, ProjectError>, ProjectIndex))
    ensures Key(name) in d.entries ==> out == (Ok(d.entries[Key(name)]), d)
    ensures Key(name) !in d.entries ==> out.0 == NewProject(Strip(name), revenue)
    ensures out.0.Err? ==> out.1 == d
    ensures Key(name) !in d.entries && out.0.Ok? ==>
      out.1 == ProjectIndex(d.entries[Key(name) := out.0.value], d.order + [Key(name)])
  {
    var k := Key(name);
    if k in d.entries then (Ok(d.entries[k]), d)
    else
      match NewProject(Strip(name), revenue)
      case Err(e) => (Err(e), d)
      case Ok(p) => (Ok(p), ProjectIndex(d.entries[k := p], d.order + [k]))
  }

  /** Upserting keeps the dictionary consistent. */
  lemma UpsertKeepsIndex(d: ProjectIndex, name: string, revenue: real)
    requires IndexOk(d)
    ensures IndexOk(Upsert(d, name, revenue).1)
  {
    var out := Upsert(d, name, revenue);
    if Key(name) !in d.entries && out.0.Ok? {
      DistinctAppend(d.order, Key(name));
    }
  }

  /** Upserting stores a new project under the key of its own (stripped) name. */
  lemma UpsertKeepsKeys(d: ProjectIndex, name: string, revenue: real)
    requires KeysMatch(d)
    ensures KeysMatch(Upsert(d, name, revenue).1)
  {
    var out := Upsert(d, name, revenue);
    if Key(name) !in d.entries && out.0.Ok? {
      KeyOfStripped(name);
    }
  }

  /** Only a first, valid upsert of a name adds to the total revenue, and it adds exactly its revenue. */
  lemma UpsertTotal(d: ProjectIndex, name: string, revenue: real)
    requires IndexOk(d)
    ensures IndexOk(Upsert(d, name, revenue).1)
    ensures Total(Upsert(d, name, revenue).1)
      == Total(d) + (if Key(name) !in d.entries && Upsert(d, name, revenue).0.Ok? then revenue else 0.0)
  {
    UpsertKeepsIndex(d, name, revenue);
    var k := Key(name);
    var out := Upsert(d, name, revenue);
    if k !in d.entries && out.0.Ok? {
      var p := out.0.value;
      assert p.revenue == revenue;
      assert out.1 == ProjectIndex(d.entries[k := p], d.order + [k]);
      SumRevenueAppend(d.order, d.entries, k, p);
    } else {
      assert out.1 == d;
    }
  }

  /**
   * First write wins across case and surrounding whitespace: once a name is
   * stored, upserting any name with the same key returns the stored project
   * and changes nothing.
   */
  lemma UpsertFirstWriteWins(d: ProjectIndex, name: string, revenue: real, again: string, revenue2: real)
    requires Upsert(d, name, revenue).0.Ok?
    requires Key(again) == Key(name)
    ensures Upsert(Upsert(d, name, revenue).1, again, revenue2)
      == (Upsert(d, name, revenue).0, Upsert(d, name, revenue).1)
  {
  }

  // ================================================================ the registry

  /**
   * `ProjectRegistry`: the dictionary of unique projects and the list of
   * registered General Managers, deduplicated by object identity.
   */
  class ProjectRegistry {
    var projects: ProjectIndex
    var generalManagers: seq<Employee>

    ghost predicate Valid()
      reads this
    {
      IndexOk(projects) && KeysMatch(projects) && Distinct(generalManagers)
    }

    constructor ()
      ensures Valid()
      ensures projects == ProjectIndex(map[], []) && generalManagers == []
    {
      projects := ProjectIndex(map[], []);
      generalManagers := [];
    }

    /** `total_revenue`: the sum over the stored projects; never negative. */
    function TotalRevenue(): (r: real)
      reads this
      requires Valid()
      ensures r >= 0.0
      ensures r == Total(projects)
    {
      Total(projects)
    }

    /** `gm_count`: the number of distinct registered General Managers. */
    function GmCount(): (n: nat)
      reads this
      requires Valid()
      ensures n == |set g | g in generalManagers|
    {
      DistinctCardinality(generalManagers);
      |generalManagers|
    }

    /** `get_project`: the entry under the normalised name, if any. */
    function GetProject(name: string): (r: Option<Project>)
      reads this
      requires Valid()
      ensures r.Some? <==> Key(name) in projects.entries
      ensures r.Some? ==> r.value == projects.entries[Key(name)] && Key(r.value.name) == Key(name) && ProjectOk(r.value)
    {
      if Key(name) in projects.entries then Some(projects.entries[Key(name)]) else None
    }

    /** `upsert_project`: the dictionary becomes the one `Upsert` gives, and the total grows only on a first valid write. */
    method UpsertProject(name: string, revenue: real) returns (r: Result<Project, ProjectError>)
      requires Valid()
      modifies this
      ensures Valid()
      ensures generalManagers == old(generalManagers)
      ensures (r, projects) == Upsert(old(projects), name, revenue)
      ensures TotalRevenue() == old(TotalRevenue())
        + (if Key(name) !in old(projects).entries && r.Ok? then revenue else 0.0)
    {
      var out := Upsert(projects, name, revenue);
      assert IndexOk(out.1) && KeysMatch(out.1) by {
        UpsertKeepsIndex(projects, name, revenue);
        UpsertKeepsKeys(projects, name, revenue);
      }
      assert Total(out.1) == Total(projects)
        + (if Key(name) !in projects.entries && out.0.Ok? then revenue else 0.0) by {
        UpsertTotal(projects, name, revenue);
      }
      r, projects := out.0, out.1;
    }

    /** `register_gm`: appends the manager unless this very object is already registered. */
    method RegisterGm(gm: Employee)
      requires Valid()
      modifies this
      ensures Valid()
      ensures projects == old(projects)
      ensures generalManagers == if gm in old(generalManagers) then old(generalManagers) else old(generalManagers) + [gm]
      ensures GmCount() == |(set g | g in old(generalManagers)) + {gm}|
    {
      if gm !in generalManagers {
        generalManagers := generalManagers + [gm];
        assert (set g | g in generalManagers) == (set g | g in old(generalManagers)) + {gm};
      } else {
        assert (set g | g in generalManagers) == (set g | g in old(generalManagers)) + {gm};
      }
    }
  }

  // ================================================================ employees

  /** The four concrete kinds of employee and what each adds to the shared fields. */
  datatype Role =
    | GeneralManager(projects: seq<Project>)
    | ProjectManager(project: Project)
    | Programmer(baseSalary: real, project: Project)
    | Staff(baseSalary: real)

  datatype EmployeeError =
    | FutureStartYear | EmptyFirstName | EmptyLastName | EmptyEmpId
    | NoProjects | NegativeBaseSalary

  /** The fields every employee has, as stored after construction. */
  datatype Identity = Identity(firstName: string, lastName: string, empId: string, phone: string, startYear: int)

  /** `Employee._normalize_phone`: keeps only the digits, with no length check. */
  function NormalizePhone(v: string): (r: string)
    ensures AllDigits(r) && |r| <= |v|
    ensures AllDigits(v) ==> r == v
  {
    if AllDigits(v) then DigitsOnlyOfDigits(v); DigitsOnly(v) else DigitsOnly(v)
  }

  /**
   * `Employee.__init__`: the names and id are stripped and the phone
   * normalised; then it fails on a future start year, then on an empty
   * first name, last name or id, in that order.
   */
  function CheckIdentity(firstName: string, lastName: string, empId: string, phone: string,
                         startYear: int, currentYear: int): (r: Result<Identity, EmployeeError>)
    ensures startYear > currentYear ==> r == Err(FutureStartYear)
    ensures startYear <= currentYear && AllSpace(firstName) ==> r == Err(EmptyFirstName)
    ensures startYear <= currentYear && !AllSpace(firstName) && AllSpace(lastName) ==> r == Err(EmptyLastName)
    ensures startYear <= currentYear && !AllSpace(firstName) && !AllSpace(lastName) && AllSpace(empId) ==>
      r == Err(EmptyEmpId)
    ensures r.Ok? <==> startYear <= currentYear && !AllSpace(firstName) && !AllSpace(lastName) && !AllSpace(empId)
    ensures r.Ok? ==> r.value == Identity(Strip(firstName), Strip(lastName), Strip(empId), NormalizePhone(phone), startYear)
  {
    StripEmptyIffBlank(firstName);
    StripEmptyIffBlank(lastName);
    StripEmptyIffBlank(empId);
    var first, last, id := Strip(firstName), Strip(lastName), Strip(empId);
    if startYear > currentYear then Err(FutureStartYear)
    else if first == [] then Err(EmptyFirstName)
    else if last == [] then Err(EmptyLastName)
    else if id == [] then Err(EmptyEmpId)
    else Ok(Identity(first, last, id, NormalizePhone(phone), startYear))
  }

  /** What a role's own constructor checks once the shared fields are in. */
  predicate RoleOk(role: Role) {
    match role
    case GeneralManager(ps) => |ps| >= 1
    case ProjectManager(_) => true
    case Programmer(base, _) => base >= 0.0
    case Staff(base) => base >= 0.0
  }

  /** The role-specific checks: a GM needs a project, a base salary may not be negative. */
  function CheckRole(role: Role): (r: Outcome<EmployeeError>)
    ensures r.Pass? <==> RoleOk(role)
    ensures role.GeneralManager? && role.projects == [] ==> r == Fail(NoProjects)
    ensures (role.Programmer? || role.Staff?) && role.baseSalary < 0.0 ==> r == Fail(NegativeBaseSalary)
  {
    match role
    case GeneralManager(ps) => if ps == [] then Fail(NoProjects) else Pass
    case ProjectManager(_) => Pass
    case Programmer(base, _) => if base < 0.0 then Fail(NegativeBaseSalary) else Pass
    case Staff(base) => if base < 0.0 then Fail(NegativeBaseSalary) else Pass
  }

  /** The whole construction of a role: shared checks first (`super().__init__`), then the role's. */
  function CheckEmployee(firstName: string, lastName: string, empId: string, phone: string,
                         startYear: int, currentYear: int, role: Role): (r: Result<Identity, EmployeeError>)
    ensures r.Ok? <==> CheckIdentity(firstName, lastName, empId, phone, startYear, currentYear).Ok? && RoleOk(role)
    ensures CheckIdentity(firstName, lastName, empId, phone, startYear, currentYear).Err? ==>
      r == CheckIdentity(firstName, lastName, empId, phone, startYear, currentYear)
    ensures r.Ok? ==> r == CheckIdentity(firstName, lastName, empId, phone, startYear, currentYear)
  {
    var id := CheckIdentity(firstName, lastName, empId, phone, startYear, currentYear);
    if id.Err? then id
    else match CheckRole(role)
      case Fail(e) => Err(e)
      case Pass => id
  }

  /** The 3% pool of the total revenue, split over `max(1, gmCount)` managers. */
  function GmShare(totalRevenue: real, gmCount: nat): (r: real)
    ensures r * (if gmCount < 1 then 1 else gmCount) as real == 0.03 * totalRevenue
    ensures totalRevenue >= 0.0 ==> 0.0 <= r <= 0.03 * totalRevenue
  {
    var n := if gmCount < 1 then 1 else gmCount;
    (0.03 * totalRevenue) / n as real
  }

  /**
   * `calculate_compensation` of each kind: GM an equal share of the pool,
   * PM 5% of its project, Programmer base plus 1% of its project, Staff
   * base plus $100 per year of service.
   */
  function RolePay(role: Role, years: nat, totalRevenue: real, gmCount: nat): (r: real)
    ensures role.GeneralManager? ==> r == GmShare(totalRevenue, gmCount)
    ensures role.ProjectManager? ==> 20.0 * r == role.project.revenue
    ensures role.Programmer? ==> 100.0 * (r - role.baseSalary) == role.project.revenue
    ensures role.Staff? ==> r - role.baseSalary == 100.0 * years as real
  {
    match role
    case GeneralManager(_) => GmShare(totalRevenue, gmCount)
    case ProjectManager(p) => 0.05 * p.revenue
    case Programmer(base, p) => base + 0.01 * p.revenue
    case Staff(base) => base + 100.0 * years as real
  }

  /** Valid inputs never give a negative pay. */
  lemma RolePayNonNegative(role: Role, years: nat, totalRevenue: real, gmCount: nat)
    requires RoleOk(role) && totalRevenue >= 0.0
    requires role.ProjectManager? || role.Programmer? ==> role.project.revenue >= 0.0
    ensures RolePay(role, years, totalRevenue, gmCount) >= 0.0
  {
  }

  /** The role tag that opens the one-line description of each kind. */
  function Tag(role: Role): string {
    match role
    case GeneralManager(_) => "[GM]"
    case ProjectManager(_) => "[PM]"
    case Programmer(_, _) => "[Programmer]"
    case Staff(_) => "[Staff]"
  }

  /** `", ".join(names)`. */
  function JoinNames(ps: seq<Project>): string {
    if ps == [] then ""
    else if |ps| == 1 then ps[0].name
    else ps[0].name + ", " + JoinNames(ps[1..])
  }

  /** An employee of one of the four kinds; its fields are updated in place by the setters. */
  class Employee {
    var firstName: string
    var lastName: string
    var empId: string
    var phone: string
    var startYear: int
    var role: Role

    ghost predicate Valid()
      reads this
    {
      firstName != [] && lastName != [] && empId != [] && AllDigits(phone) && RoleOk(role)
    }

    constructor (id: Identity, role: Role)
      requires id.firstName != [] && id.lastName != [] && id.empId != [] && AllDigits(id.phone)
      requires RoleOk(role)
      ensures Valid()
      ensures Fields() == id && this.role == role
    {
      firstName, lastName, empId := id.firstName, id.lastName, id.empId;
      phone, startYear := id.phone, id.startYear;
      this.role := role;
    }

    /** The shared fields as one value. */
    function Fields(): Identity
      reads this
    {
      Identity(firstName, lastName, empId, phone, startYear)
    }

    /**
     * Constructing one of the four kinds: nothing is allocated when a check
     * fails, so no partially built employee can be observed.
     */
    static method Create(firstName: string, lastName: string, empId: string, phone: string,
                         startYear: int, currentYear: int, role: Role) returns (r: Result<Employee, EmployeeError>)
      ensures r.Err? <==> CheckEmployee(firstName, lastName, empId, phone, startYear, currentYear, role).Err?
      ensures r.Err? ==> r.error == CheckEmployee(firstName, lastName, empId, phone, startYear, currentYear, role).error
      ensures r.Ok? ==> fresh(r.value) && r.value.Valid() && r.value.role == role
      ensures r.Ok? ==> r.value.Fields() == CheckEmployee(firstName, lastName, empId, phone, startYear, currentYear, role).value
    {
      var c := CheckEmployee(firstName, lastName, empId, phone, startYear, currentYear, role);
      if c.Err? {
        return Err(c.error);
      }
      StripEmptyIffBlank(firstName);
      StripEmptyIffBlank(lastName);
      StripEmptyIffBlank(empId);
      var e := new Employee(c.value, role);
      return Ok(e);
    }

    /** The `phone` setter: stores the digits of the new value. */
    method SetPhone(v: string)
      modifies this
      ensures phone == NormalizePhone(v)
      ensures firstName == old(firstName) && lastName == old(lastName) && empId == old(empId)
      ensures startYear == old(startYear) && role == old(role)
      ensures old(Valid()) ==> Valid()
    {
      phone := NormalizePhone(v);
    }

    /**
     * The `base_salary` setter of Programmer and Staff: a negative value
     * raises and keeps the previous salary.
     */
    method SetBaseSalary(v: real) returns (r: Outcome<EmployeeError>)
      requires role.Programmer? || role.Staff?
      modifies this
      ensures v < 0.0 ==> r == Fail(NegativeBaseSalary) && role == old(role)
      ensures v >= 0.0 ==> r == Pass && role == old(role).(baseSalary := v)
      ensures Fields() == old(Fields())
      ensures old(Valid()) ==> Valid()
    {
      if v < 0.0 {
        return Fail(NegativeBaseSalary);
      }
      role := role.(baseSalary := v);
      return Pass;
    }

    /** `years_of_service`: `max(0, CURRENT_YEAR - start_year)`, never negative. */
    function YearsOfService(currentYear: int): (n: nat)
      reads this
      ensures n >= currentYear - startYear
      ensures n == 0 || n == currentYear - startYear
    {
      if currentYear - startYear > 0 then currentYear - startYear else 0
    }

    /** `calculate_compensation(registry)`, dispatched on the kind. */
    function Compensation(registry: ProjectRegistry, currentYear: int): (r: real)
      reads this, registry
      requires registry.Valid()
      ensures r == RolePay(role, YearsOfService(currentYear), registry.TotalRevenue(), registry.GmCount())
    {
      RolePay(role, YearsOfService(currentYear), registry.TotalRevenue(), registry.GmCount())
    }

    /** `__str__` of each kind; `money` renders an amount. */
    function Describe(money: real -> string): (s: string)
      reads this
      ensures Tag(role) + " " + firstName + " " + lastName + " (ID " + empId + ") | " <= s
    {
      var head := Tag(role) + " " + firstName + " " + lastName + " (ID " + empId + ") | ";
      match role
      case GeneralManager(ps) => head + "Projects: " + JoinNames(ps)
      case ProjectManager(p) => head + "Project: " + p.name
      case Programmer(base, p) => head + "Base $" + money(base) + " | Project: " + p.name
      case Staff(base) => head + "Base $" + money(base)
    }

    /** `compensation_summary`: the description, then the same computed total. */
    function CompensationSummary(registry: ProjectRegistry, currentYear: int, money: real -> string): (s: string)
      reads this, registry
      requires registry.Valid()
      ensures Describe(money) <= s
      ensures s[|Describe(money)|..] == " | Total Compensation: $" + money(Compensation(registry, currentYear))
    {
      var d := Describe(money);
      var t := " | Total Compensation: $" + money(Compensation(registry, currentYear));
      ConcatSplits(d, t);
      d + t
    }
  }

  /** A concatenation starts with its first part and continues with its second. */
  lemma ConcatSplits(a: string, b: string)
    ensures a <= a + b && (a + b)[|a|..] == b
  {
  }

  // ================================================================ scenarios

  /**
   * The pool split: with a total revenue of 1,000,000 and two registered
   * General Managers each gets 15,000; with none registered a GM gets the
   * whole 3% pool rather than dividing by zero.
   */
  lemma PoolSplitExamples(total: real)
    ensures GmShare(1000000.0, 2) == 15000.0
    ensures GmShare(total, 0) == 0.03 * total
  {
  }

  /** Staff pay is exactly the base salary in the year the employee started. */
  lemma StaffFirstYear(e: Employee, registry: ProjectRegistry, currentYear: int)
    requires registry.Valid() && e.role.Staff?
    requires e.startYear == currentYear
    ensures e.Compensation(registry, currentYear) == e.role.baseSalary
  {
  }

  /** The registry's dictionary when it is first created. */
  const EmptyIndex := ProjectIndex(map[], [])

  /** A name without edge whitespace keys to its lower-case form, of the same length. */
  lemma {:induction false} KeyOfTrimmed(name: string)
    requires Trimmed(name)
    ensures Strip(name) == name && Key(name) == Lower(name) && |Key(name)| == |name|
  {
    StripTrimmed(name);
  }

  /**
   * First write wins across case and surrounding whitespace: after "Alpha"
   * is stored at 100, upserting "alpha " at 999 gives back the stored
   * project and leaves the dictionary as it was.
   */
  lemma FirstWriteWinsExample()
    ensures Upsert(EmptyIndex, "Alpha", 100.0).0 == Ok(Project("Alpha", 100.0))
    ensures Upsert(Upsert(EmptyIndex, "Alpha", 100.0).1, "alpha ", 999.0) == Upsert(EmptyIndex, "Alpha", 100.0)
  {
    assert StripLeft("Alpha") == "Alpha" && StripRight("Alpha") == "Alpha";
    assert StripLeft("alpha ") == "alpha ";
    assert StripRight("alpha ") == "alpha";
    assert Lower("Alpha") == "alpha" && Lower("alpha") == "alpha";
    assert !IsSpace("Alpha"[0]);
    UpsertFirstWriteWins(EmptyIndex, "Alpha", 100.0, "alpha ", 999.0);
  }

  /** A name without surrounding whitespace and not blank is stored as it is, under a fresh key. */
  lemma UpsertTrimmedFresh(d: ProjectIndex, name: string, revenue: real)
    requires IndexOk(d) && Trimmed(name) && name != [] && revenue >= 0.0
    requires Key(name) !in d.entries
    ensures Upsert(d, name, revenue).0 == Ok(Project(name, revenue))
    ensures IndexOk(Upsert(d, name, revenue).1)
    ensures Total(Upsert(d, name, revenue).1) == Total(d) + revenue
  {
    assert NewProject(Strip(name), revenue) == Ok(Project(name, revenue)) by {
      StripTrimmed(name);
      assert !IsSpace(name[0]);
    }
    UpsertTotal(d, name, revenue);
  }

  /** Storing a new project adds exactly its key to the dictionary. */
  lemma UpsertNewKey(d: ProjectIndex, name: string, revenue: real)
    requires Key(name) !in d.entries && Upsert(d, name, revenue).0.Ok?
    ensures Upsert(d, name, revenue).1.entries.Keys == d.entries.Keys + {Key(name)}
  {
    var out := Upsert(d, name, revenue);
    assert out.1.entries == d.entries[Key(name) := out.0.value];
  }

  /** Two names without surrounding whitespace, with different keys that are both new: both are stored, and the total grows by both revenues. */
  lemma UpsertTwoFresh(d: ProjectIndex, n1: string, r1: real, n2: string, r2: real)
    requires IndexOk(d) && Key(n1) !in d.entries && Key(n2) !in d.entries && Key(n1) != Key(n2)
    requires Trimmed(n1) && n1 != [] && r1 >= 0.0
    requires Trimmed(n2) && n2 != [] && r2 >= 0.0
    ensures Upsert(d, n1, r1).0 == Ok(Project(n1, r1))
    ensures Upsert(Upsert(d, n1, r1).1, n2, r2).0 == Ok(Project(n2, r2))
    ensures IndexOk(Upsert(Upsert(d, n1, r1).1, n2, r2).1)
    ensures Total(Upsert(Upsert(d, n1, r1).1, n2, r2).1) == Total(d) + r1 + r2
  {
    UpsertTrimmedFresh(d, n1, r1);
    UpsertNewKey(d, n1, r1);
    UpsertTrimmedFresh(Upsert(d, n1, r1).1, n2, r2);
  }

  /** From the empty dictionary: both names are stored, for a total of the two revenues. */
  lemma UpsertTwoFreshFromEmpty(n1: string, r1: real, n2: string, r2: real)
    requires Trimmed(n1) && n1 != [] && r1 >= 0.0
    requires Trimmed(n2) && n2 != [] && r2 >= 0.0
    requires Key(n1) != Key(n2)
    ensures Upsert(EmptyIndex, n1, r1).0 == Ok(Project(n1, r1))
    ensures Upsert(Upsert(EmptyIndex, n1, r1).1, n2, r2).0 == Ok(Project(n2, r2))
    ensures IndexOk(Upsert(Upsert(EmptyIndex, n1, r1).1, n2, r2).1)
    ensures Total(Upsert(Upsert(EmptyIndex, n1, r1).1, n2, r2).1) == r1 + r2
  {
    assert IndexOk(EmptyIndex) && Total(EmptyIndex) == 0.0;
    UpsertTwoFresh(EmptyIndex, n1, r1, n2, r2);
  }

  /**
   * The projects of the driver's demonstration data: "Core Banking Revamp"
   * at 1,000,000 and "Digital Wallet" at 500,000 are both stored, for a
   * total revenue of 1,500,000.
   */
  lemma AddDemoProjects()
    ensures Upsert(EmptyIndex, "Core Banking Revamp", 1000000.0).0 == Ok(Project("Core Banking Revamp", 1000000.0))
    ensures
      var d1 := Upsert(EmptyIndex, "Core Banking Revamp", 1000000.0).1;
      && Upsert(d1, "Digital Wallet", 500000.0).0 == Ok(Project("Digital Wallet", 500000.0))
      && IndexOk(Upsert(d1, "Digital Wallet", 500000.0).1)
      && Total(Upsert(d1, "Digital Wallet", 500000.0).1) == 1500000.0
  {
    var n1, n2 := "Core Banking Revamp", "Digital Wallet";
    assert Trimmed(n1) && Trimmed(n2);
    assert Key(n1) != Key(n2) by {
      KeyOfTrimmed(n1);
      KeyOfTrimmed(n2);
    }
    UpsertTwoFreshFromEmpty(n1, 1000000.0, n2, 500000.0);
  }

  /**
   * The pay of the driver's demonstration staff, with the one GM
   * registered and a total revenue of 1,500,000: the GM (on both projects)
   * gets 45,000, the PM 50,000, the Programmer (base 95,000) 100,000, and
   * the Staff member (base 55,000, started 2020) 55,000 plus 100 a year.
   */
  lemma AddDemoPay(currentYear: int)
    requires currentYear >= 2021
    ensures
      var p1 := Project("Core Banking Revamp", 1000000.0);
      var p2 := Project("Digital Wallet", 500000.0);
      && RolePay(GeneralManager([p1, p2]), currentYear - 2018, 1500000.0, 1) == 45000.0
      && RolePay(ProjectManager(p1), currentYear - 2019, 1500000.0, 1) == 50000.0
      && RolePay(Programmer(95000.0, p2), currentYear - 2021, 1500000.0, 1) == 100000.0
      && RolePay(Staff(55000.0), currentYear - 2020, 1500000.0, 1) == 55000.0 + 100.0 * (currentYear - 2020) as real
  {
  }
}
