// Printing an expression tree with only the parentheses it needs, and the round
// trip through the parser.
module ExprPrinter {
  import opened ExprSyntax
  import opened ExprGrammar
  import opened ExprComplete
  import P = Parser

  // The concrete syntax of e without redundant parentheses. A computed member is
  // written with its property as a string literal.
  function Minimal(e: Expr): Cst {
    match e
    case Lit(l) => CLit(l)
    case Ident(name) => CIdent(name)
    case Binary(op, left, right) => CBinary(op, Bind(Level(op), Minimal(left)), Bind(Level(op) + 1, Minimal(right)))
    case Unary(uop, operand) => CUnary(uop, Bind(UNARY, Minimal(operand)))
    case Call(callee, args) => CCall(CIdent(callee), MinimalAll(args))
    case Member(obj, property, computed) =>
      var o := Bind(MEMBER, Minimal(obj));
      if computed then CIndex(o, CLit(LString(property))) else CDot(o, property)
    case Array(elements) => CArray(MinimalAll(elements))
    case Object(properties) => CObject(MinimalProps(properties))
  }

  function MinimalAll(es: seq<Expr>): seq<Cst> {
    if es == [] then [] else [Minimal(es[0])] + MinimalAll(es[1..])
  }

  function MinimalProps(ps: seq<Property>): seq<CProperty> {
    if ps == [] then [] else [CProperty(ps[0].key, Minimal(ps[0].value))] + MinimalProps(ps[1..])
  }

  // Parentheses are added only around what binds too weakly.
  function Bind(level: nat, c: Cst): Cst {
    if LevelOf(c) >= level then c else CParen(c)
  }

  lemma {:induction false} MinimalIsRight(e: Expr)
    ensures WellFormed(Minimal(e)) && Strip(Minimal(e)) == e
    decreases e, 1
  {
    match e
    case Binary(op, left, right) => MinimalIsRight(left); MinimalIsRight(right);
    case Unary(_, operand) => MinimalIsRight(operand);
    case Call(_, args) => MinimalAllIsRight(args);
    case Member(obj, _, _) => MinimalIsRight(obj);
    case Array(elements) => MinimalAllIsRight(elements);
    case Object(properties) => MinimalPropsIsRight(properties);
    case _ =>
  }

  lemma {:induction false} MinimalAllIsRight(es: seq<Expr>)
    ensures AllWellFormed(MinimalAll(es)) && StripAll(MinimalAll(es)) == es
    decreases es, 0
  {
    if es != [] {
      MinimalIsRight(es[0]);
      MinimalAllIsRight(es[1..]);
    }
  }

  lemma {:induction false} MinimalPropsIsRight(ps: seq<Property>)
    ensures PropsWellFormed(MinimalProps(ps)) && StripProps(MinimalProps(ps)) == ps
    decreases ps, 0
  {
    if ps != [] {
      MinimalIsRight(ps[0].value);
      MinimalPropsIsRight(ps[1..]);
    }
  }

  // ---------------------------------------------------------------- no shorter text

  // Every well-formed text of the same tree, at any binding strength, is at least
  // as long.
  lemma {:induction false} NoShorterText(c: Cst, level: nat)
    requires WellFormed(c) && LevelOf(c) >= level
    ensures |Flatten(Bind(level, Minimal(Strip(c))))| <= |Flatten(c)|
    decreases c, 1
  {
    hide Flatten, FlattenAll, FlattenProps, MinimalAll, MinimalProps;
    match c
    case CParen(inner) =>
      NoShorterText(inner, 0);
      ParenLength(level, Minimal(Strip(inner)), inner);
    case CBinary(op, left, right) =>
      NoShorterText(left, Level(op));
      NoShorterText(right, Level(op) + 1);
      BinaryLength(op, left, right);
      BinaryLength(op, Bind(Level(op), Minimal(Strip(left))), Bind(Level(op) + 1, Minimal(Strip(right))));
    case CUnary(uop, operand) =>
      NoShorterText(operand, UNARY);
      UnaryLength(uop, operand);
      UnaryLength(uop, Bind(UNARY, Minimal(Strip(operand))));
    case CCall(callee, args) =>
      NoShorterItems(args);
      CallLength(callee, args, MinimalAll(StripAll(args)));
    case CDot(obj, name) =>
      NoShorterText(obj, MEMBER);
      MemberLength(obj, name, CLit(LString("")));
      MemberLength(Bind(MEMBER, Minimal(Strip(obj))), name, CLit(LString("")));
    case CIndex(obj, index) =>
      NoShorterText(obj, MEMBER);
      MemberLength(obj, "", index);
      MemberLength(Bind(MEMBER, Minimal(Strip(obj))), "", CLit(LString(PropertyName(Strip(index)))));
    case CArray(elements) =>
      NoShorterItems(elements);
      ListLength(elements);
      ListLength(MinimalAll(StripAll(elements)));
    case CObject(properties) =>
      NoShorterProps(properties);
      ObjectLength(properties);
      ObjectLength(MinimalProps(StripProps(properties)));
    case _ =>
  }

  // Parentheses, if needed, are no more than were there.
  lemma ParenLength(level: nat, c: Cst, inner: Cst)
    requires |Flatten(Bind(0, c))| <= |Flatten(inner)|
    ensures |Flatten(Bind(level, c))| <= |Flatten(CParen(inner))|
  {
  }

  lemma BinaryLength(op: BinOp, left: Cst, right: Cst)
    ensures |Flatten(CBinary(op, left, right))| == |Flatten(left)| + 1 + |Flatten(right)|
  {
  }

  lemma UnaryLength(uop: UnOp, operand: Cst)
    ensures |Flatten(CUnary(uop, operand))| == 1 + |Flatten(operand)|
  {
  }

  // A callee is at least its name.
  lemma CallLength(callee: Cst, args: seq<Cst>, fewer: seq<Cst>)
    requires |FlattenAll(fewer)| <= |FlattenAll(args)|
    ensures forall name :: |Flatten(CCall(CIdent(name), fewer))| <= |Flatten(CCall(callee, args))|
  {
    hide FlattenAll;
    assert |Flatten(CCall(callee, args))| == |Flatten(callee)| + 2 + |FlattenAll(args)|;
    forall name
      ensures |Flatten(CCall(CIdent(name), fewer))| == 3 + |FlattenAll(fewer)|
    {
      assert Flatten(CCall(CIdent(name), fewer)) == Flatten(CIdent(name)) + [LParen] + FlattenAll(fewer) + [RParen];
    }
  }

  lemma MemberLength(obj: Cst, name: string, index: Cst)
    ensures |Flatten(CDot(obj, name))| == |Flatten(obj)| + 2
    ensures |Flatten(CIndex(obj, index))| == |Flatten(obj)| + 2 + |Flatten(index)|
    ensures index.CLit? ==> |Flatten(index)| == 1
  {
  }

  lemma ListLength(cs: seq<Cst>)
    ensures |Flatten(CArray(cs))| == 2 + |FlattenAll(cs)|
  {
    hide FlattenAll;
  }

  lemma ObjectLength(ps: seq<CProperty>)
    ensures |Flatten(CObject(ps))| == 2 + |FlattenProps(ps)|
  {
    hide FlattenProps;
  }

  lemma {:induction false} NoShorterItems(cs: seq<Cst>)
    requires AllWellFormed(cs)
    ensures |FlattenAll(MinimalAll(StripAll(cs)))| <= |FlattenAll(cs)|
    ensures |MinimalAll(StripAll(cs))| == |cs|
    decreases cs, 0
  {
    if cs != [] {
      NoShorterText(cs[0], 0);
      NoShorterItems(cs[1..]);
    }
  }

  lemma {:induction false} NoShorterProps(ps: seq<CProperty>)
    requires PropsWellFormed(ps)
    ensures |FlattenProps(MinimalProps(StripProps(ps)))| <= |FlattenProps(ps)|
    ensures |MinimalProps(StripProps(ps))| == |ps|
    decreases ps, 0
  {
    if ps != [] {
      NoShorterText(ps[0].value, 0);
      NoShorterProps(ps[1..]);
    }
  }

  // ---------------------------------------------------------------- the round trip

  // Printing a tree and parsing the tokens gives the tree back and leaves the cursor
  // on the first token after it.
  method PrintThenParse(e: Expr, rest: seq<Token>) returns (r: P.Result<Expr>, position: nat)
    requires rest != [] && rest[|rest| - 1] == EOF && Stops(0, Minimal(e), rest[0])
    ensures r == P.Ok(e) && position == |Flatten(Minimal(e))|
  {
    MinimalIsRight(e);
    var text := Flatten(Minimal(e));
    var p := new P.Parser(text + rest);
    ReadsExactlyTheGrammar(text + rest, 0, Minimal(e), |text|);
    r := p.ParseExpression();
    position := p.current;
  }

  // Whatever the parser accepts is a tree whose minimal text parses to it again.
  lemma ParsedTreesRoundTrip(ts: seq<Token>, i: nat)
    requires Stream(ts) && i < |ts| && ReadExpr(ts, i).Read?
    ensures var e := Strip(ReadExpr(ts, i).value);
      var again := Flatten(Minimal(e)) + [EOF];
      && ReadExpr(again, 0) == Read(Minimal(e), |again| - 1)
      && |again| - 1 <= ReadExpr(ts, i).next - i
  {
    var c := ReadExpr(ts, i).value;
    var e := Strip(c);
    MinimalIsRight(e);
    NoShorterText(c, 0);
    var again := Flatten(Minimal(e)) + [EOF];
    ReadsExactlyTheGrammar(again, 0, Minimal(e), |again| - 1);
  }
}
