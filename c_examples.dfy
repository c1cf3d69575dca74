/**
 * The C half of the language comparison: pointers and pass-by-value, designated
 * initialisers, a struct built on the stack and one built on the heap, and
 * enumeration constants.
 */
module CExamples {
  import opened Ints
  import opened Wrappers

  // ---------------------------------------------------------------------------
  // Objects whose address is taken

  /** An `int` object that a pointer can designate (`&count`, `&a`). */
  class IntCell {
    var value: int32

    constructor (v: int32)
      ensures value == v
    {
      value := v;
    }
  }

  /**
   * `increment1`: the parameter is the callee's own copy, so its increment is lost on
   * return. The method has no `modifies` clause: no object of the caller can change.
   * `inc++` on `INT_MAX` would be signed overflow, which C leaves undefined.
   */
  method Increment1(inc: int32)
    requires inc < INT32_MAX
  {
    var copy := inc;
    copy := copy + 1;
  }

  /** `increment2`: the pointee is incremented in place, and nothing else changes. */
  method Increment2(inc: IntCell)
    requires inc.value < INT32_MAX
    modifies inc
    ensures inc.value as int == old(inc.value) as int + 1
  {
    inc.value := inc.value + 1;
  }

  /** `cPassByValue`: the three values of `count` that it prints. */
  method PassByValue() returns (observed: seq<int32>)
    ensures observed == [10, 10, 11]
  {
    var count := new IntCell(10);
    observed := [count.value];
    Increment1(count.value);
    observed := observed + [count.value];
    Increment2(count);
    observed := observed + [count.value];
  }

  /** `cPointers` up to its first output line: a store through `p` is a store to `a`. */
  method Pointers() returns (a: int32, deref: int32)
    ensures a == 20 && deref == 20
  {
    var cellA := new IntCell(10);
    var p := cellA;
    p.value := 20;
    a, deref := cellA.value, p.value;
  }

  // ---------------------------------------------------------------------------
  // struct Employee and designated initialisers

  /** `struct Employee` without its `float Salary` member. */
  datatype Employee = Employee(id: int32, name: string, department: string)

  datatype Designator =
    | DesignateId(id: int32)
    | DesignateName(name: string)
    | DesignateDepartment(department: string)

  datatype Member = IdMember | NameMember | DepartmentMember

  /** A member's value, whatever its type. */
  datatype MemberValue = IntValue(i: int32) | StringValue(s: string)

  function MemberOf(d: Designator): (m: Member) {
    match d
    case DesignateId(_) => IdMember
    case DesignateName(_) => NameMember
    case DesignateDepartment(_) => DepartmentMember
  }

  function DesignatedValue(d: Designator): (v: MemberValue) {
    match d
    case DesignateId(v) => IntValue(v)
    case DesignateName(v) => StringValue(v)
    case DesignateDepartment(v) => StringValue(v)
  }

  function Get(e: Employee, m: Member): (v: MemberValue) {
    match m
    case IdMember => IntValue(e.id)
    case NameMember => StringValue(e.name)
    case DepartmentMember => StringValue(e.department)
  }

  /** The value a member has with static storage duration: 0 for `int`, the empty string for `char[]`. */
  function ZeroOf(m: Member): (v: MemberValue) {
    if m == IdMember then IntValue(0) else StringValue("")
  }

  const ZeroEmployee := Employee(0, "", "")

  /** Writes one designated member and leaves the others as they were. */
  function Store(e: Employee, d: Designator): (r: Employee)
    ensures Get(r, MemberOf(d)) == DesignatedValue(d)
    ensures forall m :: m != MemberOf(d) ==> Get(r, m) == Get(e, m)
  {
    match d
    case DesignateId(v) => e.(id := v)
    case DesignateName(v) => e.(name := v)
    case DesignateDepartment(v) => e.(department := v)
  }

  /**
   * A designated initialiser `{ .F = v, ... }`: the object starts zeroed and the
   * initialisers apply in list order.
   */
  function Initialize(inits: seq<Designator>): (e: Employee)
    decreases |inits|
  {
    if inits == [] then ZeroEmployee
    else Store(Initialize(inits[..|inits| - 1]), inits[|inits| - 1])
  }

  /** A member that no initialiser names is zero-initialised. */
  lemma {:induction false} UndesignatedMemberIsZero(inits: seq<Designator>, m: Member)
    requires forall j :: 0 <= j < |inits| ==> MemberOf(inits[j]) != m
    ensures Get(Initialize(inits), m) == ZeroOf(m)
    decreases |inits|
  {
    if inits != [] {
      var init := inits[..|inits| - 1];
      assert forall j :: 0 <= j < |init| ==> init[j] == inits[j];
      UndesignatedMemberIsZero(init, m);
    }
  }

  /** A member takes the value of the last initialiser that names it, overriding earlier ones. */
  lemma {:induction false} LastDesignatorWins(inits: seq<Designator>, m: Member, j: nat)
    requires j < |inits| && MemberOf(inits[j]) == m
    requires forall k :: j < k < |inits| ==> MemberOf(inits[k]) != m
    ensures Get(Initialize(inits), m) == DesignatedValue(inits[j])
    decreases |inits|
  {
    if j < |inits| - 1 {
      var init := inits[..|inits| - 1];
      assert forall k :: j <= k < |init| ==> init[k] == inits[k];
      LastDesignatorWins(init, m, j);
    }
  }

  /** `emp1` names every member; `emp2` omits `ID` and `Department`, which are zeroed. */
  lemma StructExamples()
    ensures Initialize([DesignateName("Bob"), DesignateDepartment("Sales"), DesignateId(102)])
      == Employee(102, "Bob", "Sales")
    ensures Initialize([DesignateName("Charlie")]) == Employee(0, "Charlie", "")
  {
  }

  // ---------------------------------------------------------------------------
  // struct User on the stack and on the heap

  datatype User = User(name: string, email: string)

  /** `stayOnStackC`: a positional initialiser fills the members in declaration order. */
  function StayOnStackC(): (u: User) {
    User("Bill", "bill@email.com")
  }

  /** The storage `malloc` returns for a `struct User`. */
  class HeapUser {
    var name: string
    var email: string

    /** `malloc`: fresh storage whose contents are indeterminate. */
    constructor Allocate()
    {
    }
  }

  /** `escapeToHeapC`: fresh heap storage, then both members written with `strcpy`. */
  method EscapeToHeapC() returns (u: HeapUser)
    ensures fresh(u)
    ensures u.name == "Bill" && u.email == "bill@email.com"
  {
    u := new HeapUser.Allocate();
    u.name := "Bill";
    u.email := "bill@email.com";
  }

  /** `cManualMemory`: the stack copy and the pointee of the heap copy hold the same strings. */
  method ManualMemory() returns (u1: User, u2: User)
    ensures u1 == u2
    ensures u1.name == "Bill" && u1.email == "bill@email.com"
  {
    u1 := StayOnStackC();
    var p := EscapeToHeapC();
    u2 := User(p.name, p.email);
  }

  // ---------------------------------------------------------------------------
  // Enumeration constants

  /** An enumerator and its optional `= constant-expression`. */
  datatype Enumerator = Enumerator(name: string, init: Option<int>)

  /**
   * The values of a run of enumerators when the one before them is `next - 1`: an
   * enumerator with `=` takes that value, and one without it takes the previous
   * enumerator's value plus one.
   */
  function EnumValuesFrom(decls: seq<Enumerator>, next: int): (r: seq<int>)
    ensures |r| == |decls|
    ensures forall i :: 0 <= i < |decls| && decls[i].init.Some? ==> r[i] == decls[i].init.value
    ensures |decls| > 0 && decls[0].init.None? ==> r[0] == next
    ensures forall i :: 0 < i < |decls| && decls[i].init.None? ==> r[i] == r[i - 1] + 1
  {
    if decls == [] then []
    else
      var v := decls[0].init.GetOr(next);
      var rest := EnumValuesFrom(decls[1..], v + 1);
      assert forall i :: 1 < i < |decls| ==> decls[i] == decls[1..][i - 1];
      [v] + rest
  }

  /** The enumerators of one `enum { ... }` list: the first one without `=` is 0. */
  function EnumValues(decls: seq<Enumerator>): (r: seq<int>)
    ensures |r| == |decls|
    ensures |decls| > 0 && decls[0].init.None? ==> r[0] == 0
  {
    EnumValuesFrom(decls, 0)
  }

  const AnonymousEnum := [
    Enumerator("A", Some(0)),
    Enumerator("B", None),
    Enumerator("C", None),
    Enumerator("D", Some(4)),
    Enumerator("E", None)
  ]

  lemma AnonymousEnumValues()
    ensures EnumValues(AnonymousEnum) == [0, 1, 2, 4, 5]
  {
    var r := EnumValues(AnonymousEnum);
    assert r[0] == 0 && r[3] == 4;
    assert r[1] == 1 && r[2] == 2 && r[4] == 5;
  }
}
