// Tokens, expression trees and concrete syntax of the query language's expressions
// (lexer/token.ts, types/ast.ts, parser/parser.ts).
module ExprSyntax {

  datatype BinOp =
    | Or | And
    | Eq | Ne | In | Like | Matches | Contains
    | Gt | Ge | Lt | Le
    | Concat
    | Plus | Minus
    | Star | Slash | Percent

  datatype UnOp = Not | Neg

  // The token types an expression can contain. `Other` stands for every other type
  // but EOF. A number token carries the decimal text of its value.
  datatype Token =
    | TString(s: string) | TNumber(text: string) | TBoolean(b: bool) | TNull
    | TIdent(name: string)
    | TOp(op: BinOp) | TNot
    | LParen | RParen | LBracket | RBracket | LBrace | RBrace
    | Comma | Dot | Colon
    | Other(name: string) | EOF

  datatype Literal = LString(s: string) | LNumber(text: string) | LBool(b: bool) | LNull

  datatype Expr =
    | Lit(l: Literal)
    | Ident(name: string)
    | Binary(op: BinOp, left: Expr, right: Expr)
    | Unary(uop: UnOp, operand: Expr)
    | Call(callee: string, args: seq<Expr>)
    | Member(obj: Expr, property: string, computed: bool)
    | Array(elements: seq<Expr>)
    | Object(properties: seq<Property>)

  datatype Property = Property(key: string, value: Expr)

  // Concrete syntax: an expression with every pair of parentheses it is written with.
  datatype Cst =
    | CLit(l: Literal)
    | CIdent(name: string)
    | CParen(inner: Cst)
    | CArray(elements: seq<Cst>)
    | CObject(properties: seq<CProperty>)
    | CDot(obj: Cst, name: string)
    | CIndex(obj: Cst, index: Cst)
    | CCall(callee: Cst, args: seq<Cst>)
    | CUnary(uop: UnOp, operand: Cst)
    | CBinary(op: BinOp, left: Cst, right: Cst)

  datatype CProperty = CProperty(key: string, value: Cst)

  // Binding strength, from OR (0) to the factors of a product (6).
  function Level(op: BinOp): (l: nat)
    ensures l <= 6
  {
    match op
    case Or => 0
    case And => 1
    case Eq | Ne | In | Like | Matches | Contains => 2
    case Gt | Ge | Lt | Le => 3
    case Concat => 4
    case Plus | Minus => 5
    case Star | Slash | Percent => 6
  }

  const UNARY: nat := 7
  const CALL: nat := 8
  const MEMBER: nat := 9
  const PRIMARY: nat := 10

  function LevelOf(c: Cst): nat {
    match c
    case CBinary(op, _, _) => Level(op)
    case CUnary(_, _) => UNARY
    case CCall(_, _) => CALL
    case CDot(_, _) => MEMBER
    case CIndex(_, _) => MEMBER
    case _ => PRIMARY
  }

  // ---------------------------------------------------------------- the tree a text denotes

  // A computed member keeps the text of a literal index; any other index is lost.
  function PropertyName(e: Expr): string {
    match e
    case Lit(LString(s)) => s
    case Lit(LNumber(text)) => text
    case Lit(LBool(b)) => if b then "true" else "false"
    case Lit(LNull) => "null"
    case _ => ""
  }

  function Strip(c: Cst): Expr {
    match c
    case CLit(l) => Lit(l)
    case CIdent(name) => Ident(name)
    case CParen(inner) => Strip(inner)
    case CArray(elements) => Array(StripAll(elements))
    case CObject(properties) => Object(StripProps(properties))
    case CDot(obj, name) => Member(Strip(obj), name, false)
    case CIndex(obj, index) => Member(Strip(obj), PropertyName(Strip(index)), true)
    case CCall(callee, args) => Call(match Strip(callee) case Ident(name) => name case _ => "", StripAll(args))
    case CUnary(uop, operand) => Unary(uop, Strip(operand))
    case CBinary(op, left, right) => Binary(op, Strip(left), Strip(right))
  }

  function StripAll(cs: seq<Cst>): (es: seq<Expr>)
    ensures |es| == |cs|
  {
    if cs == [] then [] else [Strip(cs[0])] + StripAll(cs[1..])
  }

  function StripProps(ps: seq<CProperty>): (es: seq<Property>)
    ensures |es| == |ps|
  {
    if ps == [] then [] else [Property(ps[0].key, Strip(ps[0].value))] + StripProps(ps[1..])
  }

  // ---------------------------------------------------------------- the text of a tree

  function UnToken(uop: UnOp): Token {
    if uop == Not then TNot else TOp(Minus)
  }

  function LitToken(l: Literal): Token {
    match l
    case LString(s) => TString(s)
    case LNumber(text) => TNumber(text)
    case LBool(b) => TBoolean(b)
    case LNull => TNull
  }

  function Flatten(c: Cst): (ts: seq<Token>)
    ensures |ts| >= 1
  {
    match c
    case CLit(l) => [LitToken(l)]
    case CIdent(name) => [TIdent(name)]
    case CParen(inner) => [LParen] + Flatten(inner) + [RParen]
    case CArray(elements) => [LBracket] + FlattenAll(elements) + [RBracket]
    case CObject(properties) => [LBrace] + FlattenProps(properties) + [RBrace]
    case CDot(obj, name) => Flatten(obj) + [Dot, TIdent(name)]
    case CIndex(obj, index) => Flatten(obj) + [LBracket] + Flatten(index) + [RBracket]
    case CCall(callee, args) => Flatten(callee) + [LParen] + FlattenAll(args) + [RParen]
    case CUnary(uop, operand) => [UnToken(uop)] + Flatten(operand)
    case CBinary(op, left, right) => Flatten(left) + [TOp(op)] + Flatten(right)
  }

  function FlattenAll(cs: seq<Cst>): seq<Token> {
    if cs == [] then []
    else Flatten(cs[0]) + (if |cs| == 1 then [] else [Comma] + FlattenAll(cs[1..]))
  }

  function FlattenProps(ps: seq<CProperty>): seq<Token> {
    if ps == [] then []
    else
      [TIdent(ps[0].key), Colon] + Flatten(ps[0].value) +
      (if |ps| == 1 then [] else [Comma] + FlattenProps(ps[1..]))
  }

  // ---------------------------------------------------------------- the grammar

  // Operands bind at least as tightly as their operator, the right one strictly
  // more; only an identifier, bare or parenthesized, can be called.
  predicate WellFormed(c: Cst) {
    match c
    case CLit(_) => true
    case CIdent(_) => true
    case CParen(inner) => WellFormed(inner)
    case CArray(elements) => AllWellFormed(elements)
    case CObject(properties) => PropsWellFormed(properties)
    case CDot(obj, _) => WellFormed(obj) && LevelOf(obj) >= MEMBER
    case CIndex(obj, index) => WellFormed(obj) && LevelOf(obj) >= MEMBER && WellFormed(index)
    case CCall(callee, args) =>
      WellFormed(callee) && LevelOf(callee) >= MEMBER && Strip(callee).Ident? && AllWellFormed(args)
    case CUnary(_, operand) => WellFormed(operand) && LevelOf(operand) >= UNARY
    case CBinary(op, left, right) =>
      WellFormed(left) && LevelOf(left) >= Level(op) && WellFormed(right) && LevelOf(right) > Level(op)
  }

  predicate AllWellFormed(cs: seq<Cst>) {
    cs == [] || (WellFormed(cs[0]) && AllWellFormed(cs[1..]))
  }

  predicate PropsWellFormed(ps: seq<CProperty>) {
    ps == [] || (WellFormed(ps[0].value) && PropsWellFormed(ps[1..]))
  }

  // Whether the text of c ends in the closing parenthesis of a call.
  predicate EndsInCall(c: Cst) {
    match c
    case CCall(_, _) => true
    case CUnary(_, operand) => EndsInCall(operand)
    case CBinary(_, _, right) => EndsInCall(right)
    case _ => false
  }

  // t cannot continue c at binding strength `level` or above. A member access does
  // not continue a call.
  predicate Stops(level: nat, c: Cst, t: Token) {
    && (t.TOp? ==> Level(t.op) < level)
    && (level <= CALL ==> t != LParen)
    && (level <= MEMBER && !EndsInCall(c) ==> t != Dot && t != LBracket)
  }
}
