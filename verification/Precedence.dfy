// Which operator binds how strongly, and the trees that follow from it, stated without
// the grammar: by the classes of operators in the order in which parser/parser.ts
// descends through them.
module Precedence {
  import opened ExprSyntax
  import opened ExprGrammar
  import opened ExprComplete

  // From the loosest to the tightest: parseLogicalOr to parseMultiplication.
  const CLASSES: seq<set<BinOp>> := [
    {Or},
    {And},
    {Eq, Ne, In, Like, Matches, Contains},
    {Gt, Ge, Lt, Le},
    {Concat},
    {Plus, Minus},
    {Star, Slash, Percent}
  ]

  // op1 stands in an earlier class than op2.
  predicate Looser(op1: BinOp, op2: BinOp) {
    exists i, j :: 0 <= i < j < |CLASSES| && op1 in CLASSES[i] && op2 in CLASSES[j]
  }

  lemma ClassIsLevel(op: BinOp, i: nat)
    requires i < |CLASSES|
    ensures op in CLASSES[i] <==> Level(op) == i
  {
  }

  lemma LooserIsLevel(op1: BinOp, op2: BinOp)
    ensures Looser(op1, op2) <==> Level(op1) < Level(op2)
  {
    hide CLASSES, Level;
    SevenClasses();
    forall i: nat | i < |CLASSES|
      ensures op1 in CLASSES[i] <==> Level(op1) == i
      ensures op2 in CLASSES[i] <==> Level(op2) == i
    {
      ClassIsLevel(op1, i);
      ClassIsLevel(op2, i);
    }
    assert op1 in CLASSES[Level(op1)] && op2 in CLASSES[Level(op2)];
  }

  lemma LooserIsOrder()
    ensures forall a, b :: Looser(a, b) <==> Level(a) < Level(b)
  {
    hide Looser;
    forall a, b
      ensures Looser(a, b) <==> Level(a) < Level(b)
    {
      LooserIsLevel(a, b);
    }
  }

  lemma SevenClasses()
    ensures |CLASSES| == 7
  {
  }

  // ---------------------------------------------------------------- chains of operands

  // The whole of `text` parses to e.
  ghost predicate Parses(text: seq<Token>, e: Expr) {
    var r := ReadExpr(text + [EOF], 0);
    r.Read? && r.next == |text| && Strip(r.value) == e
  }

  // What can stand beside a binary operator without parentheses around it.
  predicate Operand(c: Cst) {
    WellFormed(c) && !c.CBinary?
  }

  // a0 op0 a1 op1 ... an.
  function Chained(operands: seq<Cst>, ops: seq<BinOp>): seq<Token>
    requires |operands| == |ops| + 1
  {
    var n := |ops|;
    if n == 0 then Flatten(operands[0])
    else Chained(operands[..n], ops[..n - 1]) + [TOp(ops[n - 1])] + Flatten(operands[n])
  }

  // The operator at the root: the last one of the loosest class.
  predicate IsRoot(ops: seq<BinOp>, k: nat) {
    && k < |ops|
    && (forall i :: 0 <= i < k ==> !Looser(ops[i], ops[k]))
    && (forall i :: k < i < |ops| ==> Looser(ops[k], ops[i]))
  }

  function Root(ops: seq<BinOp>): (k: nat)
    requires ops != []
    ensures k < |ops| && IsRoot(ops, k)
  {
    hide Looser, Level;
    var n := |ops| - 1;
    LooserIsOrder();
    if n == 0 then 0
    else
      var k := Root(ops[..n]);
      if Looser(ops[k], ops[n]) then k else n
  }

  function Grouped(operands: seq<Expr>, ops: seq<BinOp>): Expr
    requires |operands| == |ops| + 1
    decreases |ops|
  {
    if ops == [] then operands[0]
    else
      var k := Root(ops);
      Binary(ops[k], Grouped(operands[..k + 1], ops[..k]), Grouped(operands[k + 1..], ops[k + 1..]))
  }

  // The same with the concrete syntax kept.
  function GroupedText(operands: seq<Cst>, ops: seq<BinOp>): Cst
    requires |operands| == |ops| + 1
    decreases |ops|
  {
    if ops == [] then operands[0]
    else
      var k := Root(ops);
      CBinary(ops[k], GroupedText(operands[..k + 1], ops[..k]), GroupedText(operands[k + 1..], ops[k + 1..]))
  }

  function Trees(operands: seq<Cst>): (es: seq<Expr>)
    ensures |es| == |operands|
  {
    seq(|operands|, i requires 0 <= i < |operands| => Strip(operands[i]))
  }

  lemma TreesSplit(operands: seq<Cst>, k: nat)
    requires k < |operands|
    ensures Trees(operands[..k]) == Trees(operands)[..k] && Trees(operands[k..]) == Trees(operands)[k..]
  {
  }

  lemma {:induction false} GroupedStrips(operands: seq<Cst>, ops: seq<BinOp>)
    requires |operands| == |ops| + 1
    ensures Strip(GroupedText(operands, ops)) == Grouped(Trees(operands), ops)
    decreases |ops|
  {
    hide IsRoot, Strip, Root, Trees;
    if ops == [] {
      OneTree(operands);
    } else {
      var k := Root(ops);
      var left, right := GroupedText(operands[..k + 1], ops[..k]), GroupedText(operands[k + 1..], ops[k + 1..]);
      BinaryText(ops[k], left, right);
      GroupedStrips(operands[..k + 1], ops[..k]);
      GroupedStrips(operands[k + 1..], ops[k + 1..]);
      TreesSplit(operands, k + 1);
    }
  }

  lemma OneTree(operands: seq<Cst>)
    requires |operands| == 1
    ensures Trees(operands)[0] == Strip(operands[0])
  {
  }

  lemma {:induction false} ChainedAt(operands: seq<Cst>, ops: seq<BinOp>, k: nat)
    requires |operands| == |ops| + 1 && k < |ops|
    ensures Chained(operands, ops) ==
      Chained(operands[..k + 1], ops[..k]) + [TOp(ops[k])] + Chained(operands[k + 1..], ops[k + 1..])
    decreases |ops|
  {
    hide Flatten;
    var n := |ops|;
    if k == n - 1 {
      assert operands[k + 1..] == [operands[n]] && ops[k + 1..] == [];
    } else {
      ChainedAt(operands[..n], ops[..n - 1], k);
      assert operands[..n][..k + 1] == operands[..k + 1] && ops[..n - 1][..k] == ops[..k];
      var rest, after := operands[k + 1..], ops[k + 1..];
      assert operands[..n][k + 1..] == rest[..|after|] && ops[..n - 1][k + 1..] == after[..|after| - 1];
      assert rest[|after|] == operands[n] && after[|after| - 1] == ops[n - 1];
    }
  }

  lemma {:induction false} GroupedFlattens(operands: seq<Cst>, ops: seq<BinOp>)
    requires |operands| == |ops| + 1
    ensures Flatten(GroupedText(operands, ops)) == Chained(operands, ops)
    decreases |ops|
  {
    hide IsRoot, Flatten, Root, Chained;
    if ops == [] {
      ChainedOne(operands);
    } else {
      var k := Root(ops);
      var left, right := GroupedText(operands[..k + 1], ops[..k]), GroupedText(operands[k + 1..], ops[k + 1..]);
      BinaryText(ops[k], left, right);
      GroupedFlattens(operands[..k + 1], ops[..k]);
      GroupedFlattens(operands[k + 1..], ops[k + 1..]);
      ChainedAt(operands, ops, k);
    }
  }

  lemma ChainedOne(operands: seq<Cst>)
    requires |operands| == 1
    ensures Chained(operands, []) == Flatten(operands[0])
  {
  }

  // Every operator binds at least as tightly as `level`.
  ghost predicate Tight(ops: seq<BinOp>, level: nat) {
    forall i :: 0 <= i < |ops| ==> Level(ops[i]) >= level
  }

  lemma RootIsLoosest(ops: seq<BinOp>)
    requires ops != []
    ensures var k := Root(ops);
      Tight(ops[..k], Level(ops[k])) && Tight(ops[k + 1..], Level(ops[k]) + 1)
  {
    hide Looser, Root, Level;
    LooserIsOrder();
    assert IsRoot(ops, Root(ops));
  }

  lemma BinaryBinds(op: BinOp, l: Cst, r: Cst)
    requires WellFormed(l) && LevelOf(l) >= Level(op) && WellFormed(r) && LevelOf(r) > Level(op)
    ensures WellFormed(CBinary(op, l, r)) && LevelOf(CBinary(op, l, r)) == Level(op)
  {
  }

  lemma {:induction false} GroupedWellFormed(operands: seq<Cst>, ops: seq<BinOp>, level: nat)
    requires |operands| == |ops| + 1 && forall i :: 0 <= i < |operands| ==> Operand(operands[i])
    requires Tight(ops, level) && level <= UNARY
    ensures WellFormed(GroupedText(operands, ops)) && LevelOf(GroupedText(operands, ops)) >= level
    decreases |ops|
  {
    hide WellFormed, Root, IsRoot, LevelOf, Level, Operand;
    if ops == [] {
      OperandBinds(operands[0]);
    } else {
      var k := Root(ops);
      RootIsLoosest(ops);
      GroupedWellFormed(operands[..k + 1], ops[..k], Level(ops[k]));
      GroupedWellFormed(operands[k + 1..], ops[k + 1..], Level(ops[k]) + 1);
      BinaryBinds(ops[k], GroupedText(operands[..k + 1], ops[..k]), GroupedText(operands[k + 1..], ops[k + 1..]));
    }
  }

  lemma OperandBinds(c: Cst)
    requires Operand(c)
    ensures WellFormed(c) && LevelOf(c) >= UNARY
  {
  }

  lemma TextParses(c: Cst)
    requires WellFormed(c)
    ensures Parses(Flatten(c), Strip(c))
  {
    hide WellFormed, Strip, Flatten, ReadExpr;
    var ts := Flatten(c) + [EOF];
    assert ts[0..|Flatten(c)|] == Flatten(c);
    ReadsExactlyTheGrammar(ts, 0, c, |Flatten(c)|);
  }

  // Operands joined by any operators parse to the tree with the last operator of the
  // loosest class at its root, and so on on both sides.
  lemma ChainsGroup(operands: seq<Cst>, ops: seq<BinOp>)
    requires |operands| == |ops| + 1 && forall i :: 0 <= i < |operands| ==> Operand(operands[i])
    ensures Parses(Chained(operands, ops), Grouped(Trees(operands), ops))
  {
    hide Strip, Parses, Flatten;
    GroupedWellFormed(operands, ops, 0);
    GroupedFlattens(operands, ops);
    GroupedStrips(operands, ops);
    TextParses(GroupedText(operands, ops));
  }

  lemma BinaryText(op: BinOp, l: Cst, r: Cst)
    ensures Flatten(CBinary(op, l, r)) == Flatten(l) + [TOp(op)] + Flatten(r)
    ensures Strip(CBinary(op, l, r)) == Binary(op, Strip(l), Strip(r))
  {
  }

  lemma BinaryFits(op: BinOp, l: Cst, r: Cst)
    requires WellFormed(l) && WellFormed(r)
    requires l.CBinary? ==> !Looser(l.op, op)
    requires r.CBinary? ==> Looser(op, r.op)
    ensures WellFormed(CBinary(op, l, r))
  {
    if l.CBinary? { LooserIsLevel(l.op, op); }
    if r.CBinary? { LooserIsLevel(op, r.op); }
  }

  // a op1 b op2 c: the right pair is taken together exactly when op2 is of a later class.
  lemma ThreeOperands(a: Cst, op1: BinOp, b: Cst, op2: BinOp, c: Cst)
    requires Operand(a) && Operand(b) && Operand(c)
    ensures Parses(
      Flatten(a) + [TOp(op1)] + Flatten(b) + [TOp(op2)] + Flatten(c),
      if Looser(op1, op2) then Binary(op1, Strip(a), Binary(op2, Strip(b), Strip(c)))
      else Binary(op2, Binary(op1, Strip(a), Strip(b)), Strip(c)))
  {
    hide Strip, Parses, Flatten, Looser, WellFormed;
    if Looser(op1, op2) {
      BinaryFits(op2, b, c);
      BinaryFits(op1, a, CBinary(op2, b, c));
      BinaryText(op1, a, CBinary(op2, b, c));
      BinaryText(op2, b, c);
      TextParses(CBinary(op1, a, CBinary(op2, b, c)));
      assert Flatten(a) + [TOp(op1)] + (Flatten(b) + [TOp(op2)] + Flatten(c)) ==
        Flatten(a) + [TOp(op1)] + Flatten(b) + [TOp(op2)] + Flatten(c);
    } else {
      BinaryFits(op1, a, b);
      BinaryFits(op2, CBinary(op1, a, b), c);
      BinaryText(op2, CBinary(op1, a, b), c);
      BinaryText(op1, a, b);
      TextParses(CBinary(op2, CBinary(op1, a, b), c));
    }
  }

  // ---------------------------------------------------------------- prefix and postfix forms

  // NOT and minus apply to the operand behind them before any binary operator does, on
  // either side of it.
  lemma PrefixBindsTighter(a: Cst, op: BinOp, b: Cst)
    requires Operand(a) && Operand(b)
    ensures Parses([TNot] + Flatten(a) + [TOp(op)] + Flatten(b), Binary(op, Unary(Not, Strip(a)), Strip(b)))
    ensures Parses([TOp(Minus)] + Flatten(a) + [TOp(op)] + Flatten(b), Binary(op, Unary(Neg, Strip(a)), Strip(b)))
    ensures Parses(Flatten(b) + [TOp(op), TNot] + Flatten(a), Binary(op, Strip(b), Unary(Not, Strip(a))))
    ensures Parses(Flatten(b) + [TOp(op), TOp(Minus)] + Flatten(a), Binary(op, Strip(b), Unary(Neg, Strip(a))))
  {
    PrefixedText(TNot, Not, a, op, b);
    PrefixedText(TOp(Minus), Neg, a, op, b);
  }

  lemma PrefixedText(sign: Token, uop: UnOp, a: Cst, op: BinOp, b: Cst)
    requires Operand(a) && Operand(b) && sign == UnToken(uop)
    ensures Parses([sign] + Flatten(a) + [TOp(op)] + Flatten(b), Binary(op, Unary(uop, Strip(a)), Strip(b)))
    ensures Parses(Flatten(b) + [TOp(op), sign] + Flatten(a), Binary(op, Strip(b), Unary(uop, Strip(a))))
  {
    hide Parses, Looser;
    var signed := CUnary(uop, a);
    assert Operand(signed) && Flatten(signed) == [sign] + Flatten(a) && Strip(signed) == Unary(uop, Strip(a));
    hide Strip, Flatten, WellFormed;
    BinaryFits(op, signed, b);
    BinaryText(op, signed, b);
    TextParses(CBinary(op, signed, b));
    BinaryFits(op, b, signed);
    BinaryText(op, b, signed);
    TextParses(CBinary(op, b, signed));
    assert Flatten(b) + [TOp(op)] + ([sign] + Flatten(a)) == Flatten(b) + [TOp(op), sign] + Flatten(a);
  }

  // What a member can be taken of without parentheses around it.
  predicate Base(c: Cst) {
    WellFormed(c) && !c.CBinary? && !c.CUnary? && !c.CCall?
  }

  // Members are taken before a sign applies.
  lemma MemberBindsTighter(uop: UnOp, c: Cst, name: string)
    requires Base(c)
    ensures Parses(Flatten(c) + [Dot, TIdent(name)], Member(Strip(c), name, false))
    ensures Parses([if uop == Not then TNot else TOp(Minus)] + Flatten(c) + [Dot, TIdent(name)],
                   Unary(uop, Member(Strip(c), name, false)))
  {
    hide Parses;
    var dot, text := CDot(c, name), Flatten(c) + [Dot, TIdent(name)];
    assert WellFormed(dot) && LevelOf(dot) == MEMBER;
    assert Flatten(dot) == text && Strip(dot) == Member(Strip(c), name, false);
    TextParses(dot);
    SignedText(uop, dot);
    assert [UnToken(uop)] + text == [UnToken(uop)] + Flatten(c) + [Dot, TIdent(name)];
  }

  lemma SignedText(uop: UnOp, c: Cst)
    requires WellFormed(c) && !c.CBinary?
    ensures Parses([UnToken(uop)] + Flatten(c), Unary(uop, Strip(c)))
  {
    hide Parses;
    TextParses(CUnary(uop, c));
  }

  // An index that is a literal stands for its text, any other index for the empty name.
  lemma IndexIsText(c: Cst, index: Cst, property: string)
    requires Base(c) && WellFormed(index) && IndexText(Strip(index), property)
    ensures Parses(Flatten(c) + [LBracket] + Flatten(index) + [RBracket], Member(Strip(c), property, true))
  {
    hide Parses;
    IndexParses(c, index);
  }

  lemma IndexParses(c: Cst, index: Cst)
    requires Base(c) && WellFormed(index)
    ensures Parses(Flatten(c) + [LBracket] + Flatten(index) + [RBracket],
                   Member(Strip(c), PropertyName(Strip(index)), true))
  {
    hide Parses, PropertyName;
    TextParses(CIndex(c, index));
  }

  // String(value) of a literal.
  ghost predicate IndexText(e: Expr, text: string) {
    || e == Lit(LString(text))
    || e == Lit(LNumber(text))
    || (e == Lit(LBool(true)) && text == "true")
    || (e == Lit(LBool(false)) && text == "false")
    || (e == Lit(LNull) && text == "null")
    || (!e.Lit? && text == "")
  }

  // A call takes an identifier and its arguments in order; nothing can be taken of it
  // without parentheses.
  lemma CallText(f: string, args: seq<Cst>)
    requires AllWellFormed(args)
    ensures Parses([TIdent(f), LParen] + FlattenAll(args) + [RParen], Call(f, Trees(args)))
    ensures var ts := [TIdent(f), LParen] + FlattenAll(args) + [RParen, Dot, TIdent("p"), EOF];
      ReadExpr(ts, 0).Read? && ts[ReadExpr(ts, 0).next] == Dot
  {
    hide Parses, ReadExpr;
    var call := CCall(CIdent(f), args);
    var text := [TIdent(f), LParen] + FlattenAll(args) + [RParen];
    assert Flatten(call) == text;
    StrippedAll(args);
    TextParses(call);
    var ts := [TIdent(f), LParen] + FlattenAll(args) + [RParen, Dot, TIdent("p"), EOF];
    assert ts[0..|text|] == text;
    ReadsExactlyTheGrammar(ts, 0, call, |text|);
  }

  lemma {:induction false} StrippedAll(cs: seq<Cst>)
    ensures StripAll(cs) == Trees(cs)
  {
    if cs != [] {
      StrippedAll(cs[1..]);
      assert cs == [cs[0]] + cs[1..];
      assert Trees(cs) == [Strip(cs[0])] + Trees(cs[1..]);
    }
  }

  // Elements and properties keep their order.
  lemma ListText(cs: seq<Cst>)
    requires AllWellFormed(cs)
    ensures Parses([LBracket] + FlattenAll(cs) + [RBracket], Array(Trees(cs)))
    ensures |cs| == 2 ==> FlattenAll(cs) == Flatten(cs[0]) + [Comma] + Flatten(cs[1])
  {
    hide Parses, ReadExpr, Flatten;
    StrippedAll(cs);
    ArrayFlattens(cs);
    TextParses(CArray(cs));
    if |cs| == 2 { TwoItems(cs[0], cs[1]); assert cs == [cs[0], cs[1]]; }
  }

  lemma ArrayFlattens(cs: seq<Cst>)
    ensures Flatten(CArray(cs)) == [LBracket] + FlattenAll(cs) + [RBracket]
  {
  }

  lemma TwoItems(a: Cst, b: Cst)
    ensures FlattenAll([a, b]) == Flatten(a) + [Comma] + Flatten(b)
  {
    hide Flatten;
    assert [a, b][1..] == [b];
    assert Flatten(b) + [] == Flatten(b);
  }

  lemma ObjectText(k: string, a: Cst, m: string, b: Cst)
    requires WellFormed(a) && WellFormed(b)
    ensures Parses(
      [LBrace, TIdent(k), Colon] + Flatten(a) + [Comma, TIdent(m), Colon] + Flatten(b) + [RBrace],
      Object([Property(k, Strip(a)), Property(m, Strip(b))]))
  {
    hide Parses, ReadExpr;
    var ps := [CProperty(k, a), CProperty(m, b)];
    assert ps[1..] == [CProperty(m, b)];
    TwoProperties(k, a, m, b);
    hide Flatten, FlattenProps;
    assert PropsWellFormed(ps[1..]) && PropsWellFormed(ps);
    assert StripProps(ps) == [Property(k, Strip(a)), Property(m, Strip(b))];
    TextParses(CObject(ps));
  }

  lemma TwoProperties(k: string, a: Cst, m: string, b: Cst)
    ensures Flatten(CObject([CProperty(k, a), CProperty(m, b)])) ==
      [LBrace, TIdent(k), Colon] + Flatten(a) + [Comma, TIdent(m), Colon] + Flatten(b) + [RBrace]
  {
    var ps := [CProperty(k, a), CProperty(m, b)];
    assert ps[1..] == [CProperty(m, b)];
    var last := [TIdent(m), Colon] + Flatten(b);
    assert FlattenProps(ps[1..]) == last + [] == last;
    assert FlattenProps(ps) == [TIdent(k), Colon] + Flatten(a) + ([Comma] + last);
  }

  // The operands of one token, and parentheses around anything.
  lemma AtomText(name: string, b: bool, inner: Cst)
    requires WellFormed(inner)
    ensures Parses([TIdent(name)], Ident(name)) && Parses([TString(name)], Lit(LString(name)))
    ensures Parses([TNumber(name)], Lit(LNumber(name))) && Parses([TBoolean(b)], Lit(LBool(b)))
    ensures Parses([TNull], Lit(LNull))
    ensures Operand(CParen(inner)) && Parses([LParen] + Flatten(inner) + [RParen], Strip(inner))
  {
    hide Parses, ReadExpr;
    TextParses(CIdent(name));
    TextParses(CLit(LString(name)));
    TextParses(CLit(LNumber(name)));
    TextParses(CLit(LBool(b)));
    TextParses(CLit(LNull));
    TextParses(CParen(inner));
  }
}
