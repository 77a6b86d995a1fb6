// What conditions mean: which rows a filter keeps, in terms of the values in the rows
// rather than of the evaluator.
module FilterMeaning {
  import opened ExprSyntax
  import opened TypeCheck

  // ---------------------------------------------------------------- rows in order

  function RowsWhere(rows: seq<Row>, p: Row -> bool): seq<Row> {
    if rows == [] then []
    else RowsWhere(rows[..|rows| - 1], p) + if p(rows[|rows| - 1]) then [rows[|rows| - 1]] else []
  }

  // `kept` are the rows with property p, at rising positions and none of them left out.
  ghost predicate Selects(rows: seq<Row>, p: Row -> bool, kept: seq<Row>, at: seq<nat>) {
    && |at| == |kept|
    && (forall x :: 0 <= x < |at| ==> at[x] < |rows| && kept[x] == rows[at[x]] && p(kept[x]))
    && (forall x, y :: 0 <= x < y < |at| ==> at[x] < at[y])
    && (forall i :: 0 <= i < |rows| && p(rows[i]) ==> i in at)
  }

  lemma {:induction false} RowsWhereAt(rows: seq<Row>, p: Row -> bool) returns (at: seq<nat>)
    ensures Selects(rows, p, RowsWhere(rows, p), at)
  {
    if rows == [] {
      at := [];
    } else {
      var n := |rows| - 1;
      var front := RowsWhereAt(rows[..n], p);
      assert rows == rows[..n] + [rows[n]];
      at := front + if p(rows[n]) then [n] else [];
      SelectsNext(rows[..n], p, RowsWhere(rows[..n], p), front, rows[n]);
    }
  }

  lemma SelectsNext(rows: seq<Row>, p: Row -> bool, kept: seq<Row>, at: seq<nat>, row: Row)
    requires Selects(rows, p, kept, at)
    ensures Selects(rows + [row], p, kept + if p(row) then [row] else [], at + if p(row) then [|rows|] else [])
  {
    var more := at + if p(row) then [|rows|] else [];
    forall i | 0 <= i < |rows + [row]| && p((rows + [row])[i])
      ensures i in more
    {
      if i < |rows| {
        assert p(rows[i]);
      } else {
        assert more[|at|] == i;
      }
    }
  }

  // The condition evaluates on every row to a value that is kept exactly when p holds.
  ghost predicate Decides(lib: Library, variables: map<string, Value>, rows: seq<Row>, e: Expr, p: Row -> bool) {
    forall row :: row in rows ==>
      var v := Evaluate(lib, Env(row, variables), e);
      v.Ok? && Kept(lib, v.value) == p(row)
  }

  lemma {:induction false} FilterKeeps(lib: Library, variables: map<string, Value>, rows: seq<Row>, e: Expr,
                                       p: Row -> bool)
    requires Decides(lib, variables, rows, e, p)
    ensures Filtered(lib, variables, rows, e) == Ok(RowsWhere(rows, p))
  {
    hide Evaluate, Kept;
    if rows != [] {
      var n := |rows| - 1;
      assert forall row :: row in rows[..n] ==> row in rows;
      FilterKeeps(lib, variables, rows[..n], e, p);
      assert rows[n] in rows;
    }
  }

  // ---------------------------------------------------------------- comparisons of numbers

  // Numbers compare as real numbers.
  ghost predicate Numeric(lib: Library) {
    && (forall x, y :: lib.sameNumber(x, y) <==> x == y)
    && (forall x, y :: lib.orderNumbers(x, y) == if x < y then Lower else if x == y then Same else Higher)
  }

  // e evaluates to the number f(row) on every row.
  ghost predicate Yields(lib: Library, variables: map<string, Value>, rows: seq<Row>, e: Expr, f: Row -> real) {
    forall row :: row in rows ==> Evaluate(lib, Env(row, variables), e) == Ok(Num(f(row)))
  }

  // Filtering by a comparison keeps exactly the rows whose two numbers stand in it.
  lemma ComparisonFilter(lib: Library, variables: map<string, Value>, rows: seq<Row>, l: Expr, r: Expr,
                         f: Row -> real, g: Row -> real)
    requires Numeric(lib) && Yields(lib, variables, rows, l, f) && Yields(lib, variables, rows, r, g)
    ensures Filtered(lib, variables, rows, Binary(Gt, l, r)) == Ok(RowsWhere(rows, row => f(row) > g(row)))
    ensures Filtered(lib, variables, rows, Binary(Ge, l, r)) == Ok(RowsWhere(rows, row => f(row) >= g(row)))
    ensures Filtered(lib, variables, rows, Binary(Lt, l, r)) == Ok(RowsWhere(rows, row => f(row) < g(row)))
    ensures Filtered(lib, variables, rows, Binary(Le, l, r)) == Ok(RowsWhere(rows, row => f(row) <= g(row)))
    ensures Filtered(lib, variables, rows, Binary(Eq, l, r)) == Ok(RowsWhere(rows, row => f(row) == g(row)))
    ensures Filtered(lib, variables, rows, Binary(Ne, l, r)) == Ok(RowsWhere(rows, row => f(row) != g(row)))
  {
    hide Filtered, Evaluate, EvaluateBinary;
    forall row
      ensures EvaluateBinary(lib, Gt, Num(f(row)), Num(g(row))) == Ok(Bool(f(row) > g(row)))
      ensures EvaluateBinary(lib, Ge, Num(f(row)), Num(g(row))) == Ok(Bool(f(row) >= g(row)))
      ensures EvaluateBinary(lib, Lt, Num(f(row)), Num(g(row))) == Ok(Bool(f(row) < g(row)))
      ensures EvaluateBinary(lib, Le, Num(f(row)), Num(g(row))) == Ok(Bool(f(row) <= g(row)))
      ensures EvaluateBinary(lib, Eq, Num(f(row)), Num(g(row))) == Ok(Bool(f(row) == g(row)))
      ensures EvaluateBinary(lib, Ne, Num(f(row)), Num(g(row))) == Ok(Bool(f(row) != g(row)))
    {
      ComparedNumbers(lib, f(row), g(row));
    }
    OneComparison(lib, variables, rows, Gt, l, r, f, g, row => f(row) > g(row));
    OneComparison(lib, variables, rows, Ge, l, r, f, g, row => f(row) >= g(row));
    OneComparison(lib, variables, rows, Lt, l, r, f, g, row => f(row) < g(row));
    OneComparison(lib, variables, rows, Le, l, r, f, g, row => f(row) <= g(row));
    OneComparison(lib, variables, rows, Eq, l, r, f, g, row => f(row) == g(row));
    OneComparison(lib, variables, rows, Ne, l, r, f, g, row => f(row) != g(row));
  }

  lemma ComparedNumbers(lib: Library, x: real, y: real)
    requires Numeric(lib)
    ensures EvaluateBinary(lib, Gt, Num(x), Num(y)) == Ok(Bool(x > y))
    ensures EvaluateBinary(lib, Ge, Num(x), Num(y)) == Ok(Bool(x >= y))
    ensures EvaluateBinary(lib, Lt, Num(x), Num(y)) == Ok(Bool(x < y))
    ensures EvaluateBinary(lib, Le, Num(x), Num(y)) == Ok(Bool(x <= y))
    ensures EvaluateBinary(lib, Eq, Num(x), Num(y)) == Ok(Bool(x == y))
    ensures EvaluateBinary(lib, Ne, Num(x), Num(y)) == Ok(Bool(x != y))
  {
  }

  lemma OneComparison(lib: Library, variables: map<string, Value>, rows: seq<Row>, op: BinOp, l: Expr, r: Expr,
                      f: Row -> real, g: Row -> real, p: Row -> bool)
    requires Yields(lib, variables, rows, l, f) && Yields(lib, variables, rows, r, g)
    requires forall row :: row in rows ==> EvaluateBinary(lib, op, Num(f(row)), Num(g(row))) == Ok(Bool(p(row)))
    ensures Filtered(lib, variables, rows, Binary(op, l, r)) == Ok(RowsWhere(rows, p))
  {
    hide EvaluateBinary;
    FilterKeeps(lib, variables, rows, Binary(op, l, r), p);
  }

  function Number(row: Row, column: string): real {
    if column in row && row[column].Num? then row[column].code else 0.0
  }

  // A column of numbers against a number: no variable of the same name gets in the way.
  lemma ColumnFilter(lib: Library, variables: map<string, Value>, rows: seq<Row>, column: string, text: string)
    requires Numeric(lib) && forall row: Row :: row in rows ==> column in row && row[column].Num?
    ensures var f, c, x, n := Ident(column), Lit(LNumber(text)), (row: Row) => Number(row, column), lib.number(text);
      && Filtered(lib, variables, rows, Binary(Gt, f, c)) == Ok(RowsWhere(rows, row => x(row) > n))
      && Filtered(lib, variables, rows, Binary(Ge, f, c)) == Ok(RowsWhere(rows, row => x(row) >= n))
      && Filtered(lib, variables, rows, Binary(Lt, f, c)) == Ok(RowsWhere(rows, row => x(row) < n))
      && Filtered(lib, variables, rows, Binary(Le, f, c)) == Ok(RowsWhere(rows, row => x(row) <= n))
      && Filtered(lib, variables, rows, Binary(Eq, f, c)) == Ok(RowsWhere(rows, row => x(row) == n))
      && Filtered(lib, variables, rows, Binary(Ne, f, c)) == Ok(RowsWhere(rows, row => x(row) != n))
  {
    hide Filtered, Numeric, RowsWhere;
    var f, c, x, n := Ident(column), Lit(LNumber(text)), (row: Row) => Number(row, column), lib.number(text);
    var y := (row: Row) => n;
    assert Yields(lib, variables, rows, f, x) && Yields(lib, variables, rows, c, y);
    hide Evaluate, Yields;
    ComparisonFilter(lib, variables, rows, f, c, x, y);
    SameRows(rows, row => x(row) > y(row), row => x(row) > n);
    SameRows(rows, row => x(row) >= y(row), row => x(row) >= n);
    SameRows(rows, row => x(row) < y(row), row => x(row) < n);
    SameRows(rows, row => x(row) <= y(row), row => x(row) <= n);
    SameRows(rows, row => x(row) == y(row), row => x(row) == n);
    SameRows(rows, row => x(row) != y(row), row => x(row) != n);
  }

  lemma {:induction false} SameRows(rows: seq<Row>, p: Row -> bool, q: Row -> bool)
    requires forall row :: row in rows ==> p(row) == q(row)
    ensures RowsWhere(rows, p) == RowsWhere(rows, q)
  {
    if rows != [] {
      assert rows[|rows| - 1] in rows;
      SameRows(rows[..|rows| - 1], p, q);
    }
  }

  // Of conditions that are not Boolean, the number 1 and texts that are not empty keep
  // a row.
  lemma OtherConditions(lib: Library, variables: map<string, Value>, rows: seq<Row>, e: Expr, f: Row -> Value)
    requires forall x :: lib.isOne(x) <==> x == 1.0
    requires forall row :: row in rows ==> Evaluate(lib, Env(row, variables), e) == Ok(f(row))
    ensures Filtered(lib, variables, rows, e) ==
      Ok(RowsWhere(rows, row => f(row) in {Bool(true), Num(1.0)} || (f(row).Str? && f(row) != Str(""))))
  {
    hide Evaluate;
    FilterKeeps(lib, variables, rows, e, row => f(row) in {Bool(true), Num(1.0)} || (f(row).Str? && f(row) != Str("")));
  }

  // ---------------------------------------------------------------- comparisons of other values

  // The orders of numbers and texts are turned round when their sides are swapped.
  ghost predicate Turns(lib: Library) {
    && (forall x, y :: Turned(lib.orderNumbers(x, y), lib.orderNumbers(y, x)))
    && (forall s, t :: Turned(lib.collate(s, t), lib.collate(t, s)))
  }

  ghost predicate Turned(o: Order, p: Order) {
    && (o == Lower <==> p == Higher) && (o == Higher <==> p == Lower) && (o == Same <==> p == Same)
  }

  ghost predicate Is(lib: Library, op: BinOp, l: Value, r: Value) {
    EvaluateBinary(lib, op, l, r) == Ok(Bool(true))
  }

  // Null comes before everything else and false before true; swapping the sides of a
  // comparison turns it round, and no value is both smaller and greater than another.
  lemma ComparisonsAgree(lib: Library, l: Value, r: Value)
    requires Turns(lib)
    ensures Is(lib, Lt, l, r) <==> Is(lib, Gt, r, l)
    ensures Is(lib, Le, l, r) <==> Is(lib, Ge, r, l)
    ensures Is(lib, Lt, l, r) ==> Is(lib, Le, l, r) && !Is(lib, Ge, l, r)
    ensures Is(lib, Le, l, r) && Is(lib, Ge, l, r) ==> !Is(lib, Lt, l, r) && !Is(lib, Gt, l, r)
    ensures l == NullValue && r != NullValue && r != Undefined ==> Is(lib, Lt, l, r) && Is(lib, Ne, l, r)
    ensures l == NullValue && r == Undefined ==> Is(lib, Le, l, r) && Is(lib, Ge, l, r) && Is(lib, Eq, l, r)
    ensures l == Bool(false) && r == Bool(true) ==> Is(lib, Lt, l, r) && Is(lib, Ne, l, r)
    ensures Is(lib, Ne, l, r) <==> !Is(lib, Eq, l, r)
  {
    hide Equal;
    if l == NullValue || l.Bool? { EqualScalars(lib, l, r); }
    assert IsNull(l) <==> l == NullValue || l == Undefined;
    if l.Num? && r.Num? { assert Turned(lib.orderNumbers(l.code, r.code), lib.orderNumbers(r.code, l.code)); }
    if l.Str? && r.Str? { assert Turned(lib.collate(l.s, r.s), lib.collate(r.s, l.s)); }
    assert Turned(lib.collate(lib.toText(l), lib.toText(r)), lib.collate(lib.toText(r), lib.toText(l)));
  }

  lemma EqualScalars(lib: Library, l: Value, r: Value)
    requires l == NullValue || l.Bool?
    ensures Equal(lib, l, r) <==> if l == NullValue then r == NullValue || r == Undefined else l == r
  {
  }

  // Scalars and lists, without objects and undefined.
  predicate Listed(v: Value) {
    match v
    case Arr(items) => forall i :: 0 <= i < |items| ==> Listed(items[i])
    case Obj(_) => false
    case Undefined => false
    case _ => true
  }

  // Equality of such values is identity, down to the elements of lists.
  lemma {:induction false} EqualIsIdentity(lib: Library, l: Value, r: Value)
    requires Numeric(lib) && Listed(l) && Listed(r)
    ensures Equal(lib, l, r) <==> l == r
    decreases l
  {
    if l.Arr? && r.Arr? {
      forall i | 0 <= i < |l.items| && i < |r.items|
        ensures Equal(lib, l.items[i], r.items[i]) <==> l.items[i] == r.items[i]
      {
        EqualIsIdentity(lib, l.items[i], r.items[i]);
      }
    }
  }

  // x IN (list) holds exactly when x is an element of the list.
  lemma InIsMembership(lib: Library, x: Value, items: seq<Value>)
    requires Numeric(lib) && Listed(x) && Listed(Arr(items))
    ensures Is(lib, In, x, Arr(items)) <==> x in items
    ensures EvaluateBinary(lib, In, x, Arr(items)).Ok?
  {
    forall i | 0 <= i < |items|
      ensures Equal(lib, x, items[i]) <==> x == items[i]
    {
      EqualIsIdentity(lib, x, items[i]);
    }
  }

  // ---------------------------------------------------------------- AND, OR, NOT

  // e evaluates to the Boolean p(row) on every row.
  ghost predicate Tells(lib: Library, variables: map<string, Value>, rows: seq<Row>, e: Expr, p: Row -> bool) {
    forall row :: row in rows ==> Evaluate(lib, Env(row, variables), e) == Ok(Bool(p(row)))
  }

  // Filtering by p AND q is filtering by p and then by q; p OR q keeps what either
  // keeps, and NOT p what p does not.
  lemma LogicFilter(lib: Library, variables: map<string, Value>, rows: seq<Row>, e: Expr, p: Row -> bool,
                    d: Expr, q: Row -> bool)
    requires Tells(lib, variables, rows, e, p) && Tells(lib, variables, rows, d, q)
    ensures Filtered(lib, variables, rows, e) == Ok(RowsWhere(rows, p))
    ensures Filtered(lib, variables, rows, Binary(And, e, d)) ==
      Filtered(lib, variables, RowsWhere(rows, p), d) == Ok(RowsWhere(rows, row => p(row) && q(row)))
    ensures Filtered(lib, variables, rows, Binary(Or, e, d)) == Ok(RowsWhere(rows, row => p(row) || q(row)))
    ensures Filtered(lib, variables, rows, Unary(Not, e)) == Ok(RowsWhere(rows, row => !p(row)))
  {
    hide Filtered;
    LogicalValues(lib, variables, rows, e, p, d, q);
    BooleanFilter(lib, variables, rows, e, p);
    BooleanFilter(lib, variables, rows, Binary(And, e, d), row => p(row) && q(row));
    BooleanFilter(lib, variables, rows, Binary(Or, e, d), row => p(row) || q(row));
    BooleanFilter(lib, variables, rows, Unary(Not, e), row => !p(row));
    RowsWhereTwice(rows, p, q);
    BooleanFilter(lib, variables, RowsWhere(rows, p), d, q);
  }

  lemma LogicalValues(lib: Library, variables: map<string, Value>, rows: seq<Row>, e: Expr, p: Row -> bool,
                      d: Expr, q: Row -> bool)
    requires Tells(lib, variables, rows, e, p) && Tells(lib, variables, rows, d, q)
    ensures Tells(lib, variables, rows, Binary(And, e, d), row => p(row) && q(row))
    ensures Tells(lib, variables, rows, Binary(Or, e, d), row => p(row) || q(row))
    ensures Tells(lib, variables, rows, Unary(Not, e), row => !p(row))
  {
  }

  lemma BooleanFilter(lib: Library, variables: map<string, Value>, rows: seq<Row>, e: Expr, p: Row -> bool)
    requires Tells(lib, variables, rows, e, p)
    ensures Filtered(lib, variables, rows, e) == Ok(RowsWhere(rows, p))
  {
    hide Evaluate;
    FilterKeeps(lib, variables, rows, e, p);
  }

  lemma {:induction false} RowsWhereTwice(rows: seq<Row>, p: Row -> bool, q: Row -> bool)
    ensures RowsWhere(RowsWhere(rows, p), q) == RowsWhere(rows, row => p(row) && q(row))
    ensures forall row :: row in RowsWhere(rows, p) ==> row in rows
  {
    if rows != [] {
      var n := |rows| - 1;
      RowsWhereTwice(rows[..n], p, q);
      var front := RowsWhere(rows[..n], p);
      assert (front + [rows[n]])[..|front|] == front && front + [] == front;
    }
  }

  // ---------------------------------------------------------------- arithmetic and texts

  // Arithmetic over the real numbers.
  ghost predicate RealArithmetic(lib: Library) {
    && (forall x :: lib.toNumber(Num(x)) == x && (lib.isZero(x) <==> x == 0.0) && lib.negate(x) == -x)
    && (forall x, y :: lib.arithmetic(Plus, x, y) == x + y)
    && (forall x, y :: lib.arithmetic(Minus, x, y) == x - y)
    && (forall x, y :: lib.arithmetic(Star, x, y) == x * y)
    && (forall x, y :: y != 0.0 ==> lib.arithmetic(Slash, x, y) == x / y)
  }

  // What a name stands for: the row goes before the variables.
  function Visible(env: Env): map<string, Value> {
    env.variables + env.row
  }

  // Sums, differences, products, quotients and negations of numbers.
  predicate Arithmetic(env: Env, e: Expr) {
    match e
    case Lit(LNumber(_)) => true
    case Ident(name) => name in Visible(env) && Visible(env)[name].Num?
    case Binary(op, l, r) => op in {Plus, Minus, Star, Slash} && Arithmetic(env, l) && Arithmetic(env, r)
    case Unary(Neg, operand) => Arithmetic(env, operand)
    case _ => false
  }

  // The real number e denotes; none if it divides by zero.
  function RealValue(lib: Library, env: Env, e: Expr): Result<real>
    requires Arithmetic(env, e)
  {
    match e
    case Lit(l) => Ok(lib.number(l.text))
    case Ident(name) => Ok(Visible(env)[name].code)
    case Binary(op, l, r) =>
      var x :- RealValue(lib, env, l);
      var y :- RealValue(lib, env, r);
      Combined(op, x, y)
    case Unary(_, operand) =>
      var x :- RealValue(lib, env, operand);
      Ok(-x)
  }

  function Combined(op: BinOp, x: real, y: real): Result<real> {
    if op == Plus then Ok(x + y)
    else if op == Minus then Ok(x - y)
    else if op == Star then Ok(x * y)
    else if y == 0.0 then Throws else Ok(x / y)
  }

  function Numbered(x: Result<real>): Result<Value> {
    match x
    case Ok(value) => Ok(Num(value))
    case Throws => Throws
  }

  // An arithmetic expression evaluates to the real number it denotes, and fails exactly
  // when it divides by zero.
  lemma {:induction false} ArithmeticIsReal(lib: Library, env: Env, e: Expr)
    requires RealArithmetic(lib) && Arithmetic(env, e)
    ensures Evaluate(lib, env, e) == Numbered(RealValue(lib, env, e))
  {
    hide RealArithmetic, Combined, EvaluateBinary;
    match e
    case Binary(op, l, r) =>
      ArithmeticIsReal(lib, env, l);
      ArithmeticIsReal(lib, env, r);
      if RealValue(lib, env, l).Ok? && RealValue(lib, env, r).Ok? {
        CombinedIsReal(lib, op, RealValue(lib, env, l).value, RealValue(lib, env, r).value);
      }
    case Unary(_, operand) =>
      ArithmeticIsReal(lib, env, operand);
      if RealValue(lib, env, operand).Ok? {
        NegatedIsReal(lib, RealValue(lib, env, operand).value);
      }
    case _ =>
  }

  lemma CombinedIsReal(lib: Library, op: BinOp, x: real, y: real)
    requires RealArithmetic(lib) && op in {Plus, Minus, Star, Slash}
    ensures EvaluateBinary(lib, op, Num(x), Num(y)) == Numbered(Combined(op, x, y))
  {
    assert lib.toNumber(Num(x)) == x && lib.toNumber(Num(y)) == y && (lib.isZero(y) <==> y == 0.0);
  }

  lemma NegatedIsReal(lib: Library, x: real)
    requires RealArithmetic(lib)
    ensures lib.negate(lib.toNumber(Num(x))) == -x
  {
  }

  // A name reads the row first and the variables next, and fails when neither has it.
  lemma NameIsVisible(lib: Library, env: Env, name: string)
    ensures Evaluate(lib, env, Ident(name)) == if name in Visible(env) then Ok(Visible(env)[name]) else Throws
  {
  }

  // On texts || and + join left to right, and CONTAINS looks for the right one in the left.
  lemma TextOperators(lib: Library, s: string, t: string)
    requires forall u :: lib.toText(Str(u)) == u
    ensures EvaluateBinary(lib, Concat, Str(s), Str(t)) == EvaluateBinary(lib, Plus, Str(s), Str(t)) == Ok(Str(s + t))
    ensures EvaluateBinary(lib, Contains, Str(s), Str(t)).Ok?
    ensures Is(lib, Contains, Str(s), Str(t)) <==> exists a: string, b: string :: s == a + t + b
  {
    if i :| FoundAt(s, t, i) {
      assert s == s[..i] + t + s[i + |t|..];
    }
    if a: string, b: string :| s == a + t + b {
      assert FoundAt(s, t, |a|);
    }
  }

  // ---------------------------------------------------------------- lists and objects

  lemma {:induction false} ListElements(lib: Library, env: Env, es: seq<Expr>)
    ensures var r := Evaluate(lib, env, Array(es));
      && (r.Ok? <==> forall i :: 0 <= i < |es| ==> Evaluate(lib, env, es[i]).Ok?)
      && (r.Ok? ==>
           && r.value.Arr? && |r.value.items| == |es|
           && forall i :: 0 <= i < |es| ==> Evaluate(lib, env, es[i]) == Ok(r.value.items[i]))
  {
    AllElements(lib, env, es);
  }

  lemma {:induction false} AllElements(lib: Library, env: Env, es: seq<Expr>)
    ensures var r := EvaluateAll(lib, env, es);
      && (r.Ok? <==> forall i :: 0 <= i < |es| ==> Evaluate(lib, env, es[i]).Ok?)
      && (r.Ok? ==> |r.value| == |es| && forall i :: 0 <= i < |es| ==> Evaluate(lib, env, es[i]) == Ok(r.value[i]))
  {
    hide Evaluate;
    if es != [] {
      AllElements(lib, env, es[1..]);
      assert forall i :: 0 < i < |es| ==> es[i] == es[1..][i - 1];
    }
  }

  // No later property has the key of the i-th.
  ghost predicate LastOfKey(ps: seq<Property>, i: nat) {
    i < |ps| && forall j :: i < j < |ps| ==> ps[j].key != ps[i].key
  }

  // An object has the keys written in it, and each holds its last value.
  lemma ObjectFields(lib: Library, env: Env, ps: seq<Property>, i: nat, key: string)
    requires Evaluate(lib, env, Object(ps)).Ok?
    ensures var o := Evaluate(lib, env, Object(ps)).value;
      && o.Obj?
      && (key in o.fields <==> exists j :: 0 <= j < |ps| && ps[j].key == key)
      && (LastOfKey(ps, i) ==>
           ps[i].key in o.fields && Evaluate(lib, env, ps[i].value) == Ok(o.fields[ps[i].key]))
  {
    FieldKeys(lib, env, ps, key);
    if LastOfKey(ps, i) {
      FieldKeys(lib, env, ps, ps[i].key);
      FieldValue(lib, env, ps, i);
    }
  }

  lemma {:induction false} FieldKeys(lib: Library, env: Env, ps: seq<Property>, key: string)
    requires EvaluateProps(lib, env, ps).Ok?
    ensures key in EvaluateProps(lib, env, ps).value <==> exists j :: 0 <= j < |ps| && ps[j].key == key
  {
    hide Evaluate;
    if ps != [] {
      FieldKeys(lib, env, ps[1..], key);
      assert forall j :: 0 < j < |ps| ==> ps[j] == ps[1..][j - 1];
    }
  }

  lemma {:induction false} FieldValue(lib: Library, env: Env, ps: seq<Property>, i: nat)
    requires EvaluateProps(lib, env, ps).Ok? && LastOfKey(ps, i) && ps[i].key in EvaluateProps(lib, env, ps).value
    ensures Evaluate(lib, env, ps[i].value) == Ok(EvaluateProps(lib, env, ps).value[ps[i].key])
  {
    hide Evaluate;
    FieldKeys(lib, env, ps[1..], ps[i].key);
    if i > 0 {
      assert ps[1..][i - 1] == ps[i];
      FieldValue(lib, env, ps[1..], i - 1);
    }
  }

  // ---------------------------------------------------------------- what the type checker lets pass

  // A comparison is rejected exactly when its operands have known types that differ and
  // are not null and a scalar.
  lemma RejectedComparison(g: Symbols, op: BinOp, l: Expr, r: Expr)
    requires op in {Eq, Ne, Gt, Ge, Lt, Le, In, Like, Matches, Contains}
    requires InferType(g, l).Ok? && InferType(g, r).Ok?
    ensures var s, t := InferType(g, l).value, InferType(g, r).value;
      InferType(g, Binary(op, l, r)) == Throws <==>
        UNKNOWN !in {s, t} && s != t && {s, t} !in {{NULL, NUMBER}, {NULL, STRING}, {NULL, BOOLEAN}}
  {
    var s, t := InferType(g, l).value, InferType(g, r).value;
    forall u | u in {NUMBER, STRING, BOOLEAN} && {s, t} == {NULL, u}
      ensures (s == NULL && t == u) || (s == u && t == NULL)
    {
      assert s in {NULL, u} && t in {NULL, u} && NULL in {s, t} && u in {s, t};
    }
    if s == NULL { assert {s, t} == {NULL, t}; }
    if t == NULL { assert {s, t} == {NULL, s}; }
  }

  // Where the types of the operands are known and can be trusted, an accepted
  // comparison has two values of one kind or a null, logic has Booleans, and arithmetic
  // numbers: nothing is converted.
  lemma AcceptedOperands(lib: Library, g: Symbols, env: Env, op: BinOp, l: Expr, r: Expr)
    requires Respects(env, g) && Trusted(g, l) && Trusted(g, r)
    requires InferType(g, Binary(op, l, r)).Ok? && Evaluate(lib, env, l).Ok? && Evaluate(lib, env, r).Ok?
    requires InferType(g, l).value in KNOWN && InferType(g, r).value in KNOWN
    ensures var v, w := Evaluate(lib, env, l).value, Evaluate(lib, env, r).value;
      && (op in {And, Or} ==> v.Bool? && w.Bool?)
      && (op in {Minus, Star, Slash, Percent} ==> v.Num? && w.Num?)
      && (op == Plus ==> (v.Num? && w.Num?) || v.Str? || w.Str?)
      && (op in {Eq, Ne, Gt, Ge, Lt, Le, In, Like, Matches, Contains} ==>
           v.NullValue? || w.NullValue? || exists t :: t in KNOWN && HasType(v, t) && HasType(w, t))
  {
    TypePreservation(lib, g, env, l);
    TypePreservation(lib, g, env, r);
    hide Evaluate, Trusted, Respects;
    KnownOperands(op, InferType(g, l).value, InferType(g, r).value,
                  Evaluate(lib, env, l).value, Evaluate(lib, env, r).value);
  }

  lemma KnownOperands(op: BinOp, s: DataType, t: DataType, v: Value, w: Value)
    requires s in KNOWN && t in KNOWN && HasType(v, s) && HasType(w, t) && BinaryType(op, s, t).Ok?
    ensures op in {And, Or} ==> v.Bool? && w.Bool?
    ensures op in {Minus, Star, Slash, Percent} ==> v.Num? && w.Num?
    ensures op == Plus ==> (v.Num? && w.Num?) || v.Str? || w.Str?
    ensures op in {Eq, Ne, Gt, Ge, Lt, Le, In, Like, Matches, Contains} ==>
      v.NullValue? || w.NullValue? || exists u :: u in KNOWN && HasType(v, u) && HasType(w, u)
  {
  }

  const KNOWN: set<DataType> := {STRING, NUMBER, BOOLEAN, NULL, ARRAY, OBJECT}

  // Logic is accepted exactly for operands that are Boolean or unknown, arithmetic for
  // numbers or unknown; a sum also for texts, and || for everything.
  lemma AcceptedTypes(g: Symbols, op: BinOp, l: Expr, r: Expr)
    requires InferType(g, l).Ok? && InferType(g, r).Ok?
    ensures var s, t, whole := InferType(g, l).value, InferType(g, r).value, InferType(g, Binary(op, l, r));
      && (op in {And, Or} ==> whole == if {s, t} <= {BOOLEAN, UNKNOWN} then Ok(BOOLEAN) else Throws)
      && (op in {Minus, Star, Slash, Percent} ==>
           whole == if {s, t} <= {NUMBER, UNKNOWN} then Ok(NUMBER) else Throws)
      && (op == Plus ==>
           whole == if STRING in {s, t} then Ok(STRING) else if {s, t} <= {NUMBER, UNKNOWN} then Ok(NUMBER) else Throws)
      && (op == Concat ==> whole == Ok(STRING))
    ensures InferType(g, Unary(Not, l)) == if InferType(g, l).value in {BOOLEAN, UNKNOWN} then Ok(BOOLEAN) else Throws
    ensures InferType(g, Unary(Neg, l)) == if InferType(g, l).value in {NUMBER, UNKNOWN} then Ok(NUMBER) else Throws
  {
    var s, t := InferType(g, l).value, InferType(g, r).value;
    forall a, b
      ensures {s, t} <= {a, b} <==> s in {a, b} && t in {a, b}
    {
      assert s in {s, t} && t in {s, t};
    }
  }
}
