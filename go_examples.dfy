/**
 * The Go half of the language comparison: pointers and pass-by-value, zero values and
 * keyed composite literals, a struct value that escapes to the heap, and `iota`.
 */
module GoExamples {
  import opened Ints
  import opened Wrappers

  // ---------------------------------------------------------------------------
  // Integer arithmetic

  /** Go's signed integer overflow wraps around: the result is the exact sum modulo 2^64. */
  function WrapInt64(x: int): (r: int64)
    ensures INT64_MIN as int <= x <= INT64_MAX as int ==> r as int == x
    ensures (r as int - x) % 0x1_0000_0000_0000_0000 == 0
  {
    var u := (x - INT64_MIN as int) % 0x1_0000_0000_0000_0000;
    assert (u + INT64_MIN as int) - x == 0x1_0000_0000_0000_0000 * -((x - INT64_MIN as int) / 0x1_0000_0000_0000_0000);
    (u + INT64_MIN as int) as int64
  }

  // ---------------------------------------------------------------------------
  // Variables whose address is taken

  /** An `int` variable that a pointer can designate (`&count`, `&a`). */
  class IntCell {
    var value: int64

    constructor (v: int64)
      ensures value == v
    {
      value := v;
    }
  }

  /**
   * `increment1`: the parameter is the callee's own copy, so its increment is lost on
   * return. The method has no `modifies` clause: no variable of the caller can change.
   */
  method Increment1(inc: int64) {
    var copy := inc;
    copy := WrapInt64(copy as int + 1);
  }

  /** `increment2`: `*inc++` adds one to the pointee, wrapping at the top, and changes nothing else. */
  method Increment2(inc: IntCell)
    modifies inc
    ensures old(inc.value) < INT64_MAX ==> inc.value as int == old(inc.value) as int + 1
    ensures old(inc.value) == INT64_MAX ==> inc.value == INT64_MIN
  {
    inc.value := WrapInt64(inc.value as int + 1);
  }

  /** `goPassByValue`: the three values of `count` that it prints. */
  method PassByValue() returns (observed: seq<int64>)
    ensures observed == [10, 10, 11]
  {
    var count := new IntCell(10);
    observed := [count.value];
    Increment1(count.value);
    observed := observed + [count.value];
    Increment2(count);
    observed := observed + [count.value];
  }

  /** `goPointers`: a store through `p` is a store to `a`. */
  method Pointers() returns (a: int64, deref: int64)
    ensures a == 20 && deref == 20
  {
    var cellA := new IntCell(10);
    var p := cellA;
    p.value := 20;
    a, deref := cellA.value, p.value;
  }

  // ---------------------------------------------------------------------------
  // Zero values and keyed composite literals

  const ZeroInt: int64 := 0
  const ZeroString: string := ""

  /** `goZeroValue`: `var a int`, `var b string` and `var c *int` hold 0, "" and nil. */
  method ZeroValues() returns (a: int64, b: string, c: IntCell?)
    ensures a == 0 && b == "" && c == null
  {
    var zeroPointer: IntCell? := null;
    a, b, c := ZeroInt, ZeroString, zeroPointer;
  }

  /** `type Employee struct` without its `float64 Salary` field. */
  datatype Employee = Employee(id: int64, name: string, department: string)

  /** A keyed element `Field: value` of a composite literal. */
  datatype KeyedElement =
    | IdKey(id: int64)
    | NameKey(name: string)
    | DepartmentKey(department: string)

  datatype Field = IdField | NameField | DepartmentField

  /** A field's value, whatever its type. */
  datatype FieldValue = IntValue(i: int64) | StringValue(s: string)

  function FieldOf(k: KeyedElement): (f: Field) {
    match k
    case IdKey(_) => IdField
    case NameKey(_) => NameField
    case DepartmentKey(_) => DepartmentField
  }

  function ElementValue(k: KeyedElement): (v: FieldValue) {
    match k
    case IdKey(v) => IntValue(v)
    case NameKey(v) => StringValue(v)
    case DepartmentKey(v) => StringValue(v)
  }

  function Get(e: Employee, f: Field): (v: FieldValue) {
    match f
    case IdField => IntValue(e.id)
    case NameField => StringValue(e.name)
    case DepartmentField => StringValue(e.department)
  }

  function ZeroOf(f: Field): (v: FieldValue) {
    if f == IdField then IntValue(ZeroInt) else StringValue(ZeroString)
  }

  const ZeroEmployee := Employee(ZeroInt, ZeroString, ZeroString)

  /** Some field is named by two elements of the literal. */
  predicate HasDuplicateKey(elems: seq<KeyedElement>) {
    exists j, k :: 0 <= j < k < |elems| && FieldOf(elems[j]) == FieldOf(elems[k])
  }

  /**
   * A keyed literal `Employee{F: v, ...}`. A field named twice is a compile-time error
   * (None); otherwise each named field takes its element's value and every other field
   * is the zero value of its type.
   */
  function CompositeLiteral(elems: seq<KeyedElement>): (r: Option<Employee>)
    ensures r.None? <==> HasDuplicateKey(elems)
    ensures r.Some? ==> forall j :: 0 <= j < |elems| ==> Get(r.value, FieldOf(elems[j])) == ElementValue(elems[j])
    ensures r.Some? ==> forall f :: (forall j :: 0 <= j < |elems| ==> FieldOf(elems[j]) != f) ==> Get(r.value, f) == ZeroOf(f)
    decreases |elems|
  {
    if elems == [] then Some(ZeroEmployee)
    else
      var init := elems[..|elems| - 1];
      var last := elems[|elems| - 1];
      assert forall j :: 0 <= j < |init| ==> init[j] == elems[j];
      match CompositeLiteral(init)
      case None => None
      case Some(e) =>
        if exists j :: 0 <= j < |init| && FieldOf(init[j]) == FieldOf(last) then None
        else
          Some(match last
            case IdKey(v) => e.(id := v)
            case NameKey(v) => e.(name := v)
            case DepartmentKey(v) => e.(department := v))
  }

  /** `emp1` names every field; `emp2` leaves `ID` and `Department` at their zero values. */
  lemma StructExamples()
    ensures CompositeLiteral([NameKey("Bob"), DepartmentKey("Sales"), IdKey(102)])
      == Some(Employee(102, "Bob", "Sales"))
    ensures CompositeLiteral([NameKey("Charlie")]) == Some(Employee(0, "Charlie", ""))
  {
  }

  // ---------------------------------------------------------------------------
  // Escape analysis

  datatype User = User(name: string, email: string)

  /** `stayOnStack`: the struct is returned by value. */
  function StayOnStack(): (u: User) {
    User("Bill", "bill@email.com")
  }

  /** The variable `u` of `escapeToHeap`, which outlives the call because its address escapes. */
  class UserVar {
    var name: string
    var email: string

    constructor (name: string, email: string)
      ensures this.name == name && this.email == email
    {
      this.name := name;
      this.email := email;
    }
  }

  /** `escapeToHeap`: the address of a fresh variable holding the literal. */
  method EscapeToHeap() returns (p: UserVar)
    ensures fresh(p)
    ensures p.name == "Bill" && p.email == "bill@email.com"
  {
    p := new UserVar("Bill", "bill@email.com");
  }

  /** `goEscapeAnalysis`: the returned value and the pointee of the returned pointer are field-wise equal. */
  method EscapeAnalysis() returns (u1: User, u2: User)
    ensures u1 == u2
    ensures u1.name == "Bill" && u1.email == "bill@email.com"
  {
    u1 := StayOnStack();
    var p := EscapeToHeap();
    u2 := User(p.name, p.email);
  }

  // ---------------------------------------------------------------------------
  // iota

  /** The constant expressions the `const` block uses. */
  datatype ConstExpr =
    | Iota
    | Literal(n: int)
    | ShiftLeft(x: ConstExpr, count: nat)

  /** Untyped constant arithmetic is exact: `x << k` is x * 2^k. */
  function Eval(e: ConstExpr, iota: nat): (v: int) {
    match e
    case Iota => iota
    case Literal(n) => n
    case ShiftLeft(x, k) => Eval(x, iota) * Pow2(k)
  }

  /** A ConstSpec `Name = Expr`, or just `Name` when the expression list is omitted. */
  datatype ConstSpec = ConstSpec(name: string, expr: Option<ConstExpr>)

  /**
   * The expression in force at spec i: its own, or else the nearest one before it, or
   * else `previous`, the one in force before the first spec.
   */
  function ExprInForce(specs: seq<ConstSpec>, i: nat, previous: ConstExpr): (e: ConstExpr)
    requires i < |specs|
    decreases i
  {
    if specs[i].expr.Some? then specs[i].expr.value
    else if i == 0 then previous
    else ExprInForce(specs, i - 1, previous)
  }

  /** Dropping the first spec hands its in-force expression on as the new `previous`. */
  lemma {:induction false} ExprInForceTail(specs: seq<ConstSpec>, i: nat, previous: ConstExpr)
    requires 0 < i < |specs|
    ensures ExprInForce(specs[1..], i - 1, specs[0].expr.GetOr(previous)) == ExprInForce(specs, i, previous)
    decreases i
  {
    assert specs[1..][i - 1] == specs[i];
    if specs[i].expr.None? && i > 1 {
      ExprInForceTail(specs, i - 1, previous);
    }
  }

  /**
   * The values of a run of ConstSpecs whose first has iota `iota`, when `previous` is
   * the expression in force before them.
   */
  function ValuesFrom(specs: seq<ConstSpec>, iota: nat, previous: ConstExpr): (r: seq<int>)
    ensures |r| == |specs|
    ensures forall i :: 0 <= i < |specs| && specs[i].expr.Some? ==> r[i] == Eval(specs[i].expr.value, iota + i)
    ensures forall i :: 0 <= i < |specs| ==> r[i] == Eval(ExprInForce(specs, i, previous), iota + i)
  {
    if specs == [] then []
    else
      var e := specs[0].expr.GetOr(previous);
      var rest := ValuesFrom(specs[1..], iota + 1, e);
      assert forall i :: 0 < i < |specs| ==> ExprInForce(specs[1..], i - 1, e) == ExprInForce(specs, i, previous) by {
        forall i | 0 < i < |specs| ensures ExprInForce(specs[1..], i - 1, e) == ExprInForce(specs, i, previous) {
          ExprInForceTail(specs, i, previous);
        }
      }
      [Eval(e, iota)] + rest
  }

  /**
   * A parenthesised `const` block. iota is the index of each ConstSpec; an omitted
   * expression list repeats the nearest preceding one, and the first ConstSpec must
   * have one (None stands for the compile-time error).
   */
  function ConstBlock(specs: seq<ConstSpec>): (r: Option<seq<int>>)
    ensures r.None? <==> |specs| > 0 && specs[0].expr.None?
    ensures r.Some? ==> |r.value| == |specs|
  {
    if |specs| > 0 && specs[0].expr.None? then None
    else if specs == [] then Some([])
    else Some(ValuesFrom(specs, 0, specs[0].expr.value))
  }

  /** Each constant is its in-force expression evaluated with iota equal to its index. */
  lemma ConstBlockValues(specs: seq<ConstSpec>, i: nat)
    requires i < |specs| && specs[0].expr.Some?
    ensures ConstBlock(specs).Some?
    ensures ConstBlock(specs).value[i] == Eval(ExprInForce(specs, i, specs[0].expr.value), i)
  {
  }

  const IotaBlock := [
    ConstSpec("A", Some(Iota)),
    ConstSpec("B", None),
    ConstSpec("C", None),
    ConstSpec("D", Some(ShiftLeft(Iota, 2))),
    ConstSpec("E", None)
  ]

  /** A, B and C count 0, 1, 2; D is 3 << 2 and E repeats `iota << 2` with iota = 4. */
  lemma IotaBlockValues()
    ensures ConstBlock(IotaBlock) == Some([0, 1, 2, 12, 16])
  {
    assert Pow2(2) == 4;
    var r := ConstBlock(IotaBlock);
    forall i | 0 <= i < 5 ensures r.value[i] == Eval(ExprInForce(IotaBlock, i, Iota), i) {
      ConstBlockValues(IotaBlock, i);
    }
    assert ExprInForce(IotaBlock, 4, Iota) == ShiftLeft(Iota, 2);
    assert r.value == [0, 1, 2, 12, 16];
  }
}
