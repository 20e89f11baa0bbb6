/**
 * Stores and grocery stores: a store name of at most 15 characters, shown in
 * upper case; total sales that the setter keeps non-negative; a head count;
 * and a management team. A grocery store also has a location, and its sales
 * increases carry a 10% mark-up.
 */
module Stores {
  import opened Wrappers
  import opened Text

  /** The class variable `parentCompany`. */
  const PARENT_COMPANY := "Target"

  /** The longest name the `name` setter accepts. */
  const MAX_NAME := 15

  const LOCATION_PREFIX := "Grocery location is "

  /** Why a setter refuses its value. */
  datatype StoreError = NameTooLong | NegativeSales

  /** A plain store, or a grocery store with its (prefixed) location. */
  datatype Kind = Plain | Grocery(location: string)

  /** The total after one sales increase: the value itself for a store, 1.10 times it for a grocery store. */
  function Increased(kind: Kind, total: real, value: real): real {
    if kind.Plain? then total + value else total + 11.0 / 10.0 * value
  }

  function Sum(values: seq<real>): real {
    if values == [] then 0.0 else Sum(values[..|values| - 1]) + values[|values| - 1]
  }

  /** The total after a series of increases. */
  function IncreasedBy(kind: Kind, total: real, values: seq<real>): real {
    if values == [] then total
    else Increased(kind, IncreasedBy(kind, total, values[..|values| - 1]), values[|values| - 1])
  }

  /** A series of increases adds their sum to a store's total, and 1.10 times their sum to a grocery store's. */
  lemma {:induction false} IncreasedBySum(kind: Kind, total: real, values: seq<real>)
    ensures kind.Plain? ==> IncreasedBy(kind, total, values) == total + Sum(values)
    ensures kind.Grocery? ==> IncreasedBy(kind, total, values) == total + 11.0 / 10.0 * Sum(values)
  {
    if values != [] {
      IncreasedBySum(kind, total, values[..|values| - 1]);
    }
  }

  /** Non-negative increases never lower the total, and a grocery store gains at least as much as a store would. */
  lemma {:induction false} IncreasesGrow(total: real, values: seq<real>, location: string)
    requires forall k | 0 <= k < |values| :: values[k] >= 0.0
    ensures total <= IncreasedBy(Plain, total, values) <= IncreasedBy(Grocery(location), total, values)
  {
    SumNonNegative(values);
    IncreasedBySum(Plain, total, values);
    IncreasedBySum(Grocery(location), total, values);
  }

  lemma {:induction false} SumNonNegative(values: seq<real>)
    requires forall k | 0 <= k < |values| :: values[k] >= 0.0
    ensures Sum(values) >= 0.0
  {
    if values != [] {
      SumNonNegative(values[..|values| - 1]);
    }
  }

  class Store {
    var storedName: string
    var totalSales: real
    var numEmpl: int
    var managers: seq<string>
    var kind: Kind

    /** The body of `__init__` once the `name` setter has accepted the name; the sales are stored without the setter's check. */
    constructor (name: string, sales: real, kind: Kind)
      requires |name| <= MAX_NAME
      ensures storedName == name && totalSales == sales && numEmpl == 0 && managers == [] && this.kind == kind
    {
      storedName := name;
      totalSales := sales;
      numEmpl := 0;
      managers := [];
      this.kind := kind;
    }

    /** The `name` property: the stored name in upper case. */
    function Name(): (r: string)
      reads this
      ensures |r| == |storedName|
      ensures forall i | 0 <= i < |r| :: !IsLower(r[i]) && (!IsLower(storedName[i]) ==> r[i] == storedName[i])
      ensures forall i | 0 <= i < |r| :: r[i] == ToUpper(storedName[i])
    {
      Upper(storedName)
    }

    /** The `location` property of a grocery store; empty for a plain store. */
    function Location(): string
      reads this
    {
      if kind.Grocery? then kind.location else ""
    }

    /** The `name` setter: a name longer than 15 characters is refused and the old name kept. */
    method SetName(name: string) returns (r: Outcome<StoreError>)
      modifies this
      ensures r.Pass? <==> |name| <= MAX_NAME
      ensures storedName == (if r.Pass? then name else old(storedName))
      ensures totalSales == old(totalSales) && numEmpl == old(numEmpl) && managers == old(managers) && kind == old(kind)
    {
      if |name| > MAX_NAME {
        return Fail(NameTooLong);
      }
      storedName := name;
      return Pass;
    }

    /** The `totalsales` setter: a negative value is refused and the old total kept. */
    method SetTotalSales(sales: real) returns (r: Outcome<StoreError>)
      modifies this
      ensures r.Pass? <==> sales >= 0.0
      ensures totalSales == (if r.Pass? then sales else old(totalSales))
      ensures storedName == old(storedName) && numEmpl == old(numEmpl) && managers == old(managers) && kind == old(kind)
    {
      if sales < 0.0 {
        return Fail(NegativeSales);
      }
      totalSales := sales;
      return Pass;
    }

    /** The `numempl` setter, which stores any value. */
    method SetNumEmpl(n: int)
      modifies this
      ensures numEmpl == n
      ensures storedName == old(storedName) && totalSales == old(totalSales) && managers == old(managers) && kind == old(kind)
    {
      numEmpl := n;
    }

    /** The grocery `location` setter: the value is stored after the fixed prefix. */
    method SetLocation(location: string)
      requires kind.Grocery?
      modifies this
      ensures kind == Grocery(LOCATION_PREFIX + location)
      ensures storedName == old(storedName) && totalSales == old(totalSales) && numEmpl == old(numEmpl) && managers == old(managers)
    {
      kind := Grocery(LOCATION_PREFIX + location);
    }

    method ResetSales()
      modifies this
      ensures totalSales == 0.0
      ensures storedName == old(storedName) && numEmpl == old(numEmpl) && managers == old(managers) && kind == old(kind)
    {
      totalSales := 0.0;
    }

    /** `increaseSales`: a store adds the value, a grocery store (whose method overrides it) adds 1.10 times the value. */
    method IncreaseSales(value: real)
      modifies this
      ensures totalSales == Increased(kind, old(totalSales), value)
      ensures storedName == old(storedName) && numEmpl == old(numEmpl) && managers == old(managers) && kind == old(kind)
    {
      if kind.Plain? {
        totalSales := totalSales + value;
      } else {
        totalSales := totalSales + 11.0 / 10.0 * value;
      }
    }

    method SetManagers(team: seq<string>)
      modifies this
      ensures managers == team
      ensures storedName == old(storedName) && totalSales == old(totalSales) && numEmpl == old(numEmpl) && kind == old(kind)
    {
      managers := team;
    }

    method AddManager(manager: string)
      modifies this
      ensures managers == old(managers) + [manager]
      ensures storedName == old(storedName) && totalSales == old(totalSales) && numEmpl == old(numEmpl) && kind == old(kind)
    {
      managers := managers + [manager];
    }

    method GetManagers() returns (team: seq<string>)
      ensures team == managers
    {
      team := managers;
    }

    /** `__str__`, with the sales already rendered as text; a grocery store's adds a line with its location. */
    function Describe(salesText: string): (r: string)
      reads this
      ensures |r| >= 12 && r[..12] == "Store name: "
      ensures kind.Grocery? ==> |r| > |Location()| && r[|r| - |Location()| - 1..] == "\n" + Location()
    {
      var base := "Store name: " + storedName + " \nCurrent Sales: " + salesText;
      if kind.Grocery? then base + "\n" + kind.location else base
    }
  }

  /** Constructing a `Store`: the `name` setter raises on a name over 15 characters; the sales, even negative ones, are stored unchecked. */
  method NewStore(name: string, sales: real) returns (r: Option<Store>)
    ensures r.None? <==> |name| > MAX_NAME
    ensures r.Some? ==> fresh(r.value) && r.value.storedName == name && r.value.totalSales == sales &&
                        r.value.numEmpl == 0 && r.value.managers == [] && r.value.kind == Plain
  {
    if |name| > MAX_NAME {
      return None;
    }
    var s := new Store(name, sales, Plain);
    return Some(s);
  }

  /** Constructing a `Grocery`: the store constructor first (so the same name limit), then the prefixed location. */
  method NewGrocery(name: string, sales: real, location: string) returns (r: Option<Store>)
    ensures r.None? <==> |name| > MAX_NAME
    ensures r.Some? ==> fresh(r.value) && r.value.storedName == name && r.value.totalSales == sales &&
                        r.value.numEmpl == 0 && r.value.managers == [] &&
                        r.value.kind == Grocery(LOCATION_PREFIX + location)
  {
    if |name| > MAX_NAME {
      return None;
    }
    var s := new Store(name, sales, Grocery(""));
    s.SetLocation(location);
    return Some(s);
  }
}
