// The type checker (analyzer/type-checker.ts) against the evaluator
// (executor/expression-evaluator.ts), and the filter step that relies on both.
module TypeCheck {
  import opened ExprSyntax

  datatype Result<+T> = Ok(value: T) | Throws {
    predicate IsFailure() { Throws? }
    function PropagateFailure<U>(): Result<U>
      requires Throws?
    { Throws }
    function Extract(): T
      requires Ok?
    { value }
  }

  // ---------------------------------------------------------------- static types

  datatype DataType = STRING | NUMBER | BOOLEAN | NULL | ARRAY | OBJECT | UNKNOWN | OTHER(name: string)

  // What the symbol table knows of names, and the type assigned to a call by its name.
  datatype Symbols = Symbols(types: map<string, DataType>, callType: string -> DataType)

  function LiteralType(l: Literal): DataType {
    match l
    case LString(_) => STRING
    case LNumber(_) => NUMBER
    case LBool(_) => BOOLEAN
    case LNull => NULL
  }

  predicate Compatible(s: DataType, t: DataType) {
    || s == t
    || (s == NULL && (t == NUMBER || t == STRING || t == BOOLEAN))
    || (t == NULL && (s == NUMBER || s == STRING || s == BOOLEAN))
  }

  predicate IsComparison(op: BinOp) {
    op in {Eq, Ne, Gt, Ge, Lt, Le, In, Like, Matches, Contains}
  }

  predicate IsArithmetic(op: BinOp) {
    op in {Plus, Minus, Star, Slash, Percent}
  }

  function BinaryType(op: BinOp, left: DataType, right: DataType): Result<DataType> {
    if IsComparison(op) then
      if left != UNKNOWN && right != UNKNOWN && !Compatible(left, right) then Throws else Ok(BOOLEAN)
    else if op == And || op == Or then
      if (left != BOOLEAN && left != UNKNOWN) || (right != BOOLEAN && right != UNKNOWN) then Throws else Ok(BOOLEAN)
    else if IsArithmetic(op) then
      if left == STRING || right == STRING then
        if op == Plus then Ok(STRING) else Throws
      else if (left != NUMBER && left != UNKNOWN) || (right != NUMBER && right != UNKNOWN) then Throws
      else Ok(NUMBER)
    else Ok(STRING)
  }

  function InferType(g: Symbols, e: Expr): Result<DataType> {
    match e
    case Lit(l) => Ok(LiteralType(l))
    case Ident(name) => Ok(if name in g.types then g.types[name] else UNKNOWN)
    case Binary(op, left, right) =>
      var s :- InferType(g, left);
      var t :- InferType(g, right);
      BinaryType(op, s, t)
    case Unary(uop, operand) =>
      var t :- InferType(g, operand);
      if uop == Not then if t != BOOLEAN && t != UNKNOWN then Throws else Ok(BOOLEAN)
      else if t != NUMBER && t != UNKNOWN then Throws else Ok(NUMBER)
    case Call(callee, _) => Ok(g.callType(callee))
    case Member(obj, _, _) =>
      var _ :- InferType(g, obj);
      Ok(UNKNOWN)
    case Array(_) => Ok(ARRAY)
    case Object(_) => Ok(OBJECT)
  }

  // ---------------------------------------------------------------- values

  // A number is known only by a code: what arithmetic does with it is the library's
  // business, so NaN and rounding are covered.
  datatype Value =
    | Undefined | NullValue | Bool(b: bool) | Num(code: real) | Str(s: string)
    | Arr(items: seq<Value>) | Obj(fields: map<string, Value>)

  datatype Order = Lower | Same | Higher | Unordered

  // The conversions, the arithmetic and the comparisons of plain numbers and texts that
  // the evaluator calls, left arbitrary; `mixed` compares an array with an object.
  datatype Library = Library(
    number: string -> real,
    toNumber: Value -> real,
    toText: Value -> string,
    truthy: Value -> bool,
    isZero: real -> bool,
    isOne: real -> bool,
    arithmetic: (BinOp, real, real) -> real,
    negate: real -> real,
    sameNumber: (real, real) -> bool,
    mixed: (Value, Value) -> bool,
    orderNumbers: (real, real) -> Order,
    collate: (string, string) -> Order,
    matchText: (BinOp, string, string) -> Result<bool>,
    arrayProperty: (seq<Value>, string) -> Value,
    call: (string, seq<Value>) -> Result<Value>)

  datatype Env = Env(row: map<string, Value>, variables: map<string, Value>)

  function LiteralValue(lib: Library, l: Literal): Value {
    match l
    case LString(s) => Str(s)
    case LNumber(text) => Num(lib.number(text))
    case LBool(b) => Bool(b)
    case LNull => NullValue
  }

  function ToBoolean(lib: Library, v: Value): bool {
    if v.Bool? then v.b else lib.truthy(v)
  }

  predicate IsNull(v: Value) {
    v.Undefined? || v.NullValue?
  }

  // Deep equality; a field that is missing on the right reads as undefined.
  predicate Equal(lib: Library, l: Value, r: Value)
    decreases l
  {
    if IsNull(l) then IsNull(r)
    else if IsNull(r) then false
    else if l.Arr? && r.Arr? then
      |l.items| == |r.items| && forall i :: 0 <= i < |l.items| ==> Equal(lib, l.items[i], r.items[i])
    else if l.Obj? && r.Obj? then
      && |l.fields| == |r.fields|
      && forall k :: k in l.fields ==> Equal(lib, l.fields[k], if k in r.fields then r.fields[k] else Undefined)
    else if (l.Arr? && r.Obj?) || (l.Obj? && r.Arr?) then lib.mixed(l, r)
    else if l.Num? && r.Num? then lib.sameNumber(l.code, r.code)
    else l == r
  }

  function Compare(lib: Library, l: Value, r: Value): Order {
    if IsNull(l) then if IsNull(r) then Same else Lower
    else if IsNull(r) then Higher
    else if l.Num? && r.Num? then lib.orderNumbers(l.code, r.code)
    else if l.Str? && r.Str? then lib.collate(l.s, r.s)
    else if l.Bool? && r.Bool? then if l.b == r.b then Same else if l.b then Higher else Lower
    else lib.collate(lib.toText(l), lib.toText(r))
  }

  predicate Includes(s: string, t: string) {
    exists i :: 0 <= i <= |s| - |t| && FoundAt(s, t, i)
  }

  predicate FoundAt(s: string, t: string, i: int) {
    0 <= i <= |s| - |t| && s[i..i + |t|] == t
  }

  function EvaluateBinary(lib: Library, op: BinOp, left: Value, right: Value): Result<Value> {
    match op
    case Plus =>
      if left.Str? || right.Str? then Ok(Str(lib.toText(left) + lib.toText(right)))
      else Ok(Num(lib.arithmetic(op, lib.toNumber(left), lib.toNumber(right))))
    case Slash =>
      if lib.isZero(lib.toNumber(right)) then Throws
      else Ok(Num(lib.arithmetic(op, lib.toNumber(left), lib.toNumber(right))))
    case Minus | Star | Percent => Ok(Num(lib.arithmetic(op, lib.toNumber(left), lib.toNumber(right))))
    case Eq => Ok(Bool(Equal(lib, left, right)))
    case Ne => Ok(Bool(!Equal(lib, left, right)))
    case Gt => Ok(Bool(Compare(lib, left, right) == Higher))
    case Ge => Ok(Bool(Compare(lib, left, right) in {Higher, Same}))
    case Lt => Ok(Bool(Compare(lib, left, right) == Lower))
    case Le => Ok(Bool(Compare(lib, left, right) in {Lower, Same}))
    case And => Ok(Bool(ToBoolean(lib, left) && ToBoolean(lib, right)))
    case Or => Ok(Bool(ToBoolean(lib, left) || ToBoolean(lib, right)))
    case Concat => Ok(Str(lib.toText(left) + lib.toText(right)))
    case Contains => Ok(Bool(Includes(lib.toText(left), lib.toText(right))))
    case Like | Matches =>
      // An invalid regular expression throws.
      var found :- lib.matchText(op, lib.toText(left), lib.toText(right));
      Ok(Bool(found))
    case In =>
      if right.Arr? then Ok(Bool(exists i :: 0 <= i < |right.items| && Equal(lib, left, right.items[i]))) else Throws
  }

  function Evaluate(lib: Library, env: Env, e: Expr): Result<Value>
    decreases e, 1
  {
    match e
    case Lit(l) => Ok(LiteralValue(lib, l))
    case Ident(name) =>
      if name in env.row then Ok(env.row[name])
      else if name in env.variables then Ok(env.variables[name])
      else Throws
    case Binary(op, left, right) =>
      var l :- Evaluate(lib, env, left);
      var r :- Evaluate(lib, env, right);
      EvaluateBinary(lib, op, l, r)
    case Unary(uop, operand) =>
      var v :- Evaluate(lib, env, operand);
      if uop == Not then Ok(Bool(!ToBoolean(lib, v))) else Ok(Num(lib.negate(lib.toNumber(v))))
    case Call(callee, args) =>
      var vs :- EvaluateAll(lib, env, args);
      lib.call(callee, vs)
    case Member(obj, property, _) =>
      var o :- Evaluate(lib, env, obj);
      if o.Obj? then Ok(if property in o.fields then o.fields[property] else Undefined)
      else if o.Arr? then Ok(lib.arrayProperty(o.items, property))
      else Throws
    case Array(elements) =>
      var vs :- EvaluateAll(lib, env, elements);
      Ok(Arr(vs))
    case Object(properties) =>
      var fields :- EvaluateProps(lib, env, properties);
      Ok(Obj(fields))
  }

  function EvaluateAll(lib: Library, env: Env, es: seq<Expr>): Result<seq<Value>>
    decreases es, 0
  {
    if es == [] then Ok([])
    else
      var v :- Evaluate(lib, env, es[0]);
      var vs :- EvaluateAll(lib, env, es[1..]);
      Ok([v] + vs)
  }

  // A repeated key keeps its last value.
  function EvaluateProps(lib: Library, env: Env, ps: seq<Property>): Result<map<string, Value>>
    decreases ps, 0
  {
    if ps == [] then Ok(map[])
    else
      var v :- Evaluate(lib, env, ps[0].value);
      var rest :- EvaluateProps(lib, env, ps[1..]);
      Ok(map[ps[0].key := v] + rest)
  }

  // ---------------------------------------------------------------- type preservation

  predicate HasType(v: Value, t: DataType) {
    match t
    case STRING => v.Str?
    case NUMBER => v.Num?
    case BOOLEAN => v.Bool?
    case NULL => v.NullValue?
    case ARRAY => v.Arr?
    case OBJECT => v.Obj?
    case UNKNOWN => true
    case OTHER(_) => true
  }

  // Every name visible to the evaluator holds a value of its declared type.
  ghost predicate Respects(env: Env, g: Symbols) {
    forall name :: name in g.types ==>
      && (name in env.row ==> HasType(env.row[name], g.types[name]))
      && (name !in env.row && name in env.variables ==> HasType(env.variables[name], g.types[name]))
  }

  // The inferred type of e can be relied on. Only calls, whose type is taken from
  // their name, and sums can mislead: a sum inherits the trust of the operands that
  // gave it its type.
  predicate Trusted(g: Symbols, e: Expr) {
    match e
    case Call(_, _) => false
    case Binary(Plus, left, right) =>
      || (InferType(g, left) == Ok(STRING) && Trusted(g, left))
      || (InferType(g, right) == Ok(STRING) && Trusted(g, right))
      || (InferType(g, left) == Ok(NUMBER) && Trusted(g, left) && InferType(g, right) == Ok(NUMBER) &&
        Trusted(g, right))
    case _ => true
  }

  // A trusted expression evaluates, if at all, to a value of its inferred type.
  lemma {:induction false} TypePreservation(lib: Library, g: Symbols, env: Env, e: Expr)
    requires Respects(env, g) && Trusted(g, e)
    requires InferType(g, e).Ok? && Evaluate(lib, env, e).Ok?
    ensures HasType(Evaluate(lib, env, e).value, InferType(g, e).value)
  {
    match e
    case Binary(Plus, left, right) =>
      if InferType(g, left) == Ok(STRING) && Trusted(g, left) {
        TypePreservation(lib, g, env, left);
      } else if InferType(g, right) == Ok(STRING) && Trusted(g, right) {
        TypePreservation(lib, g, env, right);
      } else {
        TypePreservation(lib, g, env, left);
        TypePreservation(lib, g, env, right);
      }
    case _ =>
  }

  predicate CallFree(e: Expr) {
    match e
    case Lit(_) => true
    case Ident(_) => true
    case Binary(_, left, right) => CallFree(left) && CallFree(right)
    case Unary(_, operand) => CallFree(operand)
    case Call(_, _) => false
    case Member(obj, _, _) => CallFree(obj)
    case Array(elements) => forall i :: 0 <= i < |elements| ==> CallFree(elements[i])
    case Object(properties) => forall i :: 0 <= i < |properties| ==> CallFree(properties[i].value)
  }

  // A sum typed Number with an operand of unknown type, its own operands of type Number
  // looked through.
  predicate Doubtful(g: Symbols, e: Expr) {
    match e
    case Binary(Plus, left, right) =>
      && InferType(g, e) == Ok(NUMBER)
      && (InferType(g, left) == Ok(UNKNOWN) || InferType(g, right) == Ok(UNKNOWN) || Doubtful(g, left) ||
        Doubtful(g, right))
    case _ => false
  }

  // Without calls, exactly the doubtful sums cannot be trusted.
  lemma {:induction false} CallFreeIsTrusted(g: Symbols, e: Expr)
    requires CallFree(e) && InferType(g, e).Ok?
    ensures Trusted(g, e) <==> !Doubtful(g, e)
  {
    match e
    case Binary(Plus, left, right) =>
      CallFreeIsTrusted(g, left);
      CallFreeIsTrusted(g, right);
    case _ =>
  }

  // e is a sum one of whose operands evaluates to a string.
  predicate AddsString(lib: Library, env: Env, e: Expr) {
    match e
    case Binary(Plus, left, right) =>
      var l, r := Evaluate(lib, env, left), Evaluate(lib, env, right);
      (l.Ok? && l.value.Str?) || (r.Ok? && r.value.Str?)
    case _ => false
  }

  // For every call-free expression: its value has the inferred type unless it is a sum
  // typed Number to which an operand contributes a string, and only then it has not.
  lemma PreservationExactly(lib: Library, g: Symbols, env: Env, e: Expr)
    requires Respects(env, g) && CallFree(e)
    requires InferType(g, e).Ok? && Evaluate(lib, env, e).Ok?
    ensures HasType(Evaluate(lib, env, e).value, InferType(g, e).value)
      <==> !(InferType(g, e) == Ok(NUMBER) && AddsString(lib, env, e))
  {
    CallFreeIsTrusted(g, e);
    if Trusted(g, e) {
      TypePreservation(lib, g, env, e);
    }
  }

  // Without trust the inferred type can be wrong: an undeclared x holding a string.
  lemma DoubtfulSumFails(lib: Library, g: Symbols)
    requires g.types == map[]
    ensures var e := Binary(Plus, Ident("x"), Lit(LNumber("1")));
      var env := Env(map["x" := Str("a")], map[]);
      && Respects(env, g) && CallFree(e) && Doubtful(g, e) && InferType(g, e) == Ok(NUMBER)
      && Evaluate(lib, env, e).Ok? && !HasType(Evaluate(lib, env, e).value, NUMBER)
  {
  }

  // ---------------------------------------------------------------- WHERE and the filter step

  // checkSelect accepts a WHERE clause only when its type is Boolean.
  predicate AcceptsWhere(g: Symbols, where: Expr) {
    InferType(g, where) == Ok(BOOLEAN)
  }

  predicate Kept(lib: Library, v: Value) {
    v == Bool(true) || (v.Num? && lib.isOne(v.code)) || (v.Str? && |v.s| > 0)
  }

  type Row = map<string, Value>

  // The rows kept, in order; Throws as soon as the predicate does.
  function Filtered(lib: Library, variables: map<string, Value>, rows: seq<Row>, condition: Expr): Result<seq<Row>> {
    if rows == [] then Ok([])
    else
      var n := |rows| - 1;
      var front :- Filtered(lib, variables, rows[..n], condition);
      var v :- Evaluate(lib, Env(rows[n], variables), condition);
      Ok(front + if Kept(lib, v) then [rows[n]] else [])
  }

  // The rows on which the predicate is true.
  function WhereTrue(lib: Library, variables: map<string, Value>, rows: seq<Row>, condition: Expr): seq<Row> {
    if rows == [] then []
    else
      var n := |rows| - 1;
      WhereTrue(lib, variables, rows[..n], condition) +
      if Evaluate(lib, Env(rows[n], variables), condition) == Ok(Bool(true)) then [rows[n]] else []
  }

  method ExecuteFilter(lib: Library, variables: map<string, Value>, rows: seq<Row>, condition: Expr)
    returns (r: Result<seq<Row>>)
    ensures r == Filtered(lib, variables, rows, condition)
  {
    var filtered: seq<Row> := [];
    for i := 0 to |rows|
      invariant Filtered(lib, variables, rows[..i], condition) == Ok(filtered)
    {
      assert rows[..i + 1][..i] == rows[..i];
      var v := Evaluate(lib, Env(rows[i], variables), condition);
      if v.Throws? {
        FilterThrows(lib, variables, rows, i, condition);
        return Throws;
      }
      assert filtered + [] == filtered;
      if Kept(lib, v.value) {
        filtered := filtered + [rows[i]];
      }
    }
    assert rows[..|rows|] == rows;
    return Ok(filtered);
  }

  lemma {:induction false} FilterThrows(lib: Library, variables: map<string, Value>, rows: seq<Row>, i: nat,
                                        condition: Expr)
    requires i < |rows| && Evaluate(lib, Env(rows[i], variables), condition).Throws?
    ensures Filtered(lib, variables, rows, condition).Throws?
  {
    var n := |rows| - 1;
    if i < n {
      FilterThrows(lib, variables, rows[..n], i, condition);
    }
  }

  // Behind an accepted WHERE the filter keeps exactly the rows where it is true.
  lemma {:induction false} AcceptedFilterIsWhere(lib: Library, g: Symbols, variables: map<string, Value>,
                                                 rows: seq<Row>, where: Expr)
    requires AcceptsWhere(g, where) && Trusted(g, where)
    requires forall row :: row in rows ==> Respects(Env(row, variables), g)
    requires Filtered(lib, variables, rows, where).Ok?
    ensures Filtered(lib, variables, rows, where).value == WhereTrue(lib, variables, rows, where)
  {
    if rows != [] {
      var n := |rows| - 1;
      AcceptedFilterIsWhere(lib, g, variables, rows[..n], where);
      TypePreservation(lib, g, Env(rows[n], variables), where);
    }
  }

  // The filter throws exactly when evaluating the predicate throws on some row.
  lemma {:induction false} FilterThrowsIff(lib: Library, variables: map<string, Value>, rows: seq<Row>, where: Expr)
    ensures Filtered(lib, variables, rows, where).Throws? <==>
      exists row :: row in rows && Evaluate(lib, Env(row, variables), where).Throws?
  {
    if rows != [] {
      var n := |rows| - 1;
      FilterThrowsIff(lib, variables, rows[..n], where);
      assert rows == rows[..n] + [rows[n]];
    }
  }
}
