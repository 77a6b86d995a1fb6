// Completeness: every well-formed text is read back, whole, as itself.
module ExprComplete {
  import opened ExprSyntax
  import opened ExprGrammar

  // The text a stands at i, with at least one more token behind it.
  ghost predicate TextAt(ts: seq<Token>, i: nat, a: seq<Token>) {
    i + |a| < |ts| && ts[i..i + |a|] == a
  }

  lemma Part(ts: seq<Token>, i: nat, a: seq<Token>, b: seq<Token>)
    requires TextAt(ts, i, a + b) && b != []
    ensures TextAt(ts, i, a) && TextAt(ts, i + |a|, b)
    ensures ts[i + |a|] == b[0]
    ensures a != [] ==> ts[i] == a[0]
    ensures |a| > 1 ==> ts[i + 1] == a[1]
  {
    var s := ts[i..i + |a + b|];
    assert s[..|a|] == a && s[|a|..] == b && s[|a|] == b[0];
    assert a != [] ==> s[0] == a[0];
    assert |a| > 1 ==> s[1] == a[1];
  }

  lemma Head(ts: seq<Token>, i: nat, a: seq<Token>)
    requires TextAt(ts, i, a) && a != []
    ensures ts[i] == a[0]
    ensures |a| > 1 ==> ts[i + 1] == a[1]
  {
    var s := ts[i..i + |a|];
    assert s[0] == a[0];
    assert |a| > 1 ==> s[1] == a[1];
  }

  // ---------------------------------------------------------------- where the pieces stand

  lemma BinaryPieces(ts: seq<Token>, i: nat, op: BinOp, left: Cst, right: Cst)
    requires TextAt(ts, i, Flatten(CBinary(op, left, right)))
    ensures var n := |Flatten(left)|;
      && TextAt(ts, i, Flatten(left)) && ts[i + n] == TOp(op) && TextAt(ts, i + n + 1, Flatten(right))
      && |Flatten(CBinary(op, left, right))| == n + 1 + |Flatten(right)|
  {
    hide TextAt;
    assert Flatten(CBinary(op, left, right)) == Flatten(left) + ([TOp(op)] + Flatten(right));
    Part(ts, i, Flatten(left), [TOp(op)] + Flatten(right));
    Part(ts, i + |Flatten(left)|, [TOp(op)], Flatten(right));
  }

  lemma UnaryPieces(ts: seq<Token>, i: nat, uop: UnOp, operand: Cst)
    requires TextAt(ts, i, Flatten(CUnary(uop, operand)))
    ensures ts[i] == UnToken(uop) && TextAt(ts, i + 1, Flatten(operand))
    ensures |Flatten(CUnary(uop, operand))| == 1 + |Flatten(operand)|
  {
    hide TextAt;
    Part(ts, i, [UnToken(uop)], Flatten(operand));
  }

  lemma CallPieces(ts: seq<Token>, i: nat, callee: Cst, args: seq<Cst>)
    requires TextAt(ts, i, Flatten(CCall(callee, args)))
    ensures var n, m := |Flatten(callee)|, |FlattenAll(args)|;
      && TextAt(ts, i, Flatten(callee)) && ts[i + n] == LParen
      && TextAt(ts, i + n + 1, FlattenAll(args)) && ts[i + n + 1 + m] == RParen
      && |Flatten(CCall(callee, args))| == n + m + 2
  {
    hide TextAt, Flatten, FlattenAll;
    FlattenCall(callee, args);
    var inner := FlattenAll(args) + [RParen];
    var tail := [LParen] + inner;
    Part(ts, i, Flatten(callee), tail);
    Part(ts, i + |Flatten(callee)|, [LParen], inner);
    Part(ts, i + |Flatten(callee)| + 1, FlattenAll(args), [RParen]);
  }

  lemma FlattenCall(callee: Cst, args: seq<Cst>)
    ensures Flatten(CCall(callee, args)) == Flatten(callee) + ([LParen] + (FlattenAll(args) + [RParen]))
  {
    calc {
      Flatten(CCall(callee, args));
      Flatten(callee) + [LParen] + FlattenAll(args) + [RParen];
      Flatten(callee) + ([LParen] + (FlattenAll(args) + [RParen]));
    }
  }

  lemma DotPieces(ts: seq<Token>, i: nat, obj: Cst, name: string)
    requires TextAt(ts, i, Flatten(CDot(obj, name)))
    ensures var n := |Flatten(obj)|;
      && TextAt(ts, i, Flatten(obj)) && ts[i + n] == Dot && ts[i + n + 1] == TIdent(name)
      && |Flatten(CDot(obj, name))| == n + 2
  {
    hide TextAt;
    Part(ts, i, Flatten(obj), [Dot, TIdent(name)]);
    Head(ts, i + |Flatten(obj)|, [Dot, TIdent(name)]);
  }

  lemma IndexPieces(ts: seq<Token>, i: nat, obj: Cst, index: Cst)
    requires TextAt(ts, i, Flatten(CIndex(obj, index)))
    ensures var n, m := |Flatten(obj)|, |Flatten(index)|;
      && TextAt(ts, i, Flatten(obj)) && ts[i + n] == LBracket
      && TextAt(ts, i + n + 1, Flatten(index)) && ts[i + n + 1 + m] == RBracket
      && |Flatten(CIndex(obj, index))| == n + m + 2
  {
    hide TextAt, Flatten;
    FlattenIndex(obj, index);
    var inner := Flatten(index) + [RBracket];
    var tail := [LBracket] + inner;
    Part(ts, i, Flatten(obj), tail);
    Part(ts, i + |Flatten(obj)|, [LBracket], inner);
    Part(ts, i + |Flatten(obj)| + 1, Flatten(index), [RBracket]);
  }

  lemma FlattenIndex(obj: Cst, index: Cst)
    ensures Flatten(CIndex(obj, index)) == Flatten(obj) + ([LBracket] + (Flatten(index) + [RBracket]))
  {
    calc {
      Flatten(CIndex(obj, index));
      Flatten(obj) + [LBracket] + Flatten(index) + [RBracket];
      Flatten(obj) + ([LBracket] + (Flatten(index) + [RBracket]));
    }
  }

  lemma Bracketed(ts: seq<Token>, i: nat, open: Token, a: seq<Token>, close: Token)
    requires TextAt(ts, i, [open] + a + [close])
    ensures i + 2 + |a| < |ts|
    ensures ts[i] == open && TextAt(ts, i + 1, a) && ts[i + 1 + |a|] == close
  {
    assert |[open] + a + [close]| == |a| + 2;
    hide TextAt;
    assert [open] + a + [close] == [open] + (a + [close]);
    Part(ts, i, [open], a + [close]);
    Part(ts, i + 1, a, [close]);
  }

  lemma ItemPieces(ts: seq<Token>, i: nat, c: Cst, cs: seq<Cst>)
    requires cs != [] && TextAt(ts, i, FlattenAll([c] + cs))
    ensures var n := |Flatten(c)|;
      && TextAt(ts, i, Flatten(c)) && ts[i + n] == Comma && TextAt(ts, i + n + 1, FlattenAll(cs))
      && |FlattenAll([c] + cs)| == n + 1 + |FlattenAll(cs)|
  {
    hide TextAt, Flatten, FlattenAll;
    FlattenCons(c, cs);
    var rest := FlattenAll(cs);
    var tail := [Comma] + rest;
    Part(ts, i, Flatten(c), tail);
    Part(ts, i + |Flatten(c)|, [Comma], rest);
  }

  lemma FlattenCons(c: Cst, cs: seq<Cst>)
    requires cs != []
    ensures FlattenAll([c] + cs) == Flatten(c) + ([Comma] + FlattenAll(cs))
    ensures FlattenAll(cs) != []
  {
    hide Flatten;
    assert ([c] + cs)[1..] == cs;
    ItemsNonEmpty(cs);
  }

  lemma ItemsNonEmpty(cs: seq<Cst>)
    requires cs != []
    ensures FlattenAll(cs) != [] && FlattenAll(cs)[0] == Flatten(cs[0])[0]
  {
  }

  lemma OnePropPieces(ts: seq<Token>, i: nat, p: CProperty)
    requires TextAt(ts, i, FlattenProps([p]))
    ensures ts[i] == TIdent(p.key) && ts[i + 1] == Colon && TextAt(ts, i + 2, Flatten(p.value))
    ensures |FlattenProps([p])| == |Flatten(p.value)| + 2
  {
    hide TextAt, Flatten;
    var key := [TIdent(p.key), Colon];
    assert FlattenProps([p]) == key + Flatten(p.value);
    Part(ts, i, key, Flatten(p.value));
  }

  lemma PropPieces(ts: seq<Token>, i: nat, p: CProperty, ps: seq<CProperty>)
    requires ps != [] && TextAt(ts, i, FlattenProps([p] + ps))
    ensures var n := |Flatten(p.value)|;
      && ts[i] == TIdent(p.key) && ts[i + 1] == Colon && TextAt(ts, i + 2, Flatten(p.value))
      && ts[i + 2 + n] == Comma && TextAt(ts, i + n + 3, FlattenProps(ps))
      && |FlattenProps([p] + ps)| == n + 3 + |FlattenProps(ps)|
  {
    hide TextAt, Flatten;
    var key, value, rest := [TIdent(p.key), Colon], Flatten(p.value), FlattenProps(ps);
    assert ([p] + ps)[1..] == ps;
    PropsNonEmpty(ps);
    var tail := [Comma] + rest;
    assert FlattenProps([p] + ps) == key + (value + tail);
    Part(ts, i, key, value + tail);
    Part(ts, i + 2, value, tail);
    Part(ts, i + 2 + |value|, [Comma], rest);
  }

  lemma PropsNonEmpty(ps: seq<CProperty>)
    requires ps != []
    ensures FlattenProps(ps) != [] && FlattenProps(ps)[0].TIdent?
  {
  }

  // ---------------------------------------------------------------- first tokens

  lemma {:induction false} FirstToken(c: Cst)
    requires WellFormed(c) && LevelOf(c) >= CALL
    ensures Flatten(c)[0] != TNot && !Flatten(c)[0].TOp?
  {
    match c
    case CDot(obj, _) => FirstToken(obj);
    case CIndex(obj, _) => FirstToken(obj);
    case CCall(callee, _) => FirstToken(callee);
    case _ =>
  }

  lemma {:induction false} NotClosing(c: Cst)
    requires WellFormed(c)
    ensures Flatten(c)[0] != RParen && Flatten(c)[0] != RBracket && Flatten(c)[0] != RBrace
  {
    match c
    case CDot(obj, _) => NotClosing(obj);
    case CIndex(obj, _) => NotClosing(obj);
    case CCall(callee, _) => NotClosing(callee);
    case CBinary(_, left, _) => NotClosing(left);
    case _ =>
  }

  // ---------------------------------------------------------------- reading it back

  // The text of c stands at i, and the token after it does not continue c.
  ghost predicate At(ts: seq<Token>, i: nat, c: Cst, level: nat) {
    && Stream(ts) && TextAt(ts, i, Flatten(c))
    && WellFormed(c) && LevelOf(c) >= level
    && Stops(level, c, ts[i + |Flatten(c)|])
  }

  lemma {:induction false} Complete(ts: seq<Token>, i: nat, c: Cst, level: nat)
    requires At(ts, i, c, level) && level <= UNARY
    ensures ReadLevel(ts, i, level) == Read(c, i + |Flatten(c)|)
    decreases c, 11 - level, 1
  {
    hide Flatten, WellFormed, Good, Strip;
    if level == UNARY {
      CompleteUnary(ts, i, c);
    } else {
      CompleteRest(ts, i, c, level);
    }
  }

  // As At, but an operator of `level` itself may follow.
  ghost predicate AtLoose(ts: seq<Token>, i: nat, c: Cst, level: nat) {
    && Stream(ts) && TextAt(ts, i, Flatten(c))
    && WellFormed(c) && LevelOf(c) >= level
    && Stops(level + 1, c, ts[i + |Flatten(c)|])
  }

  // Reading a binary level reaches its loop with c read, even if the loop goes on.
  lemma {:induction false} CompleteRest(ts: seq<Token>, i: nat, c: Cst, level: nat)
    requires level < UNARY && AtLoose(ts, i, c, level)
    ensures ReadLevel(ts, i, level) == ReadRest(ts, i, level, c, i + |Flatten(c)|)
    decreases c, 11 - level, 0
  {
    hide Flatten, TextAt, Good, Strip;
    if LevelOf(c) > level {
      Complete(ts, i, c, level + 1);
    } else {
      BinaryPieces(ts, i, c.op, c.left, c.right);
      CompleteRest(ts, i, c.left, level);
      Complete(ts, i + |Flatten(c.left)| + 1, c.right, level + 1);
    }
  }

  lemma {:induction false} CompleteUnary(ts: seq<Token>, i: nat, c: Cst)
    requires At(ts, i, c, UNARY)
    ensures ReadUnary(ts, i) == Read(c, i + |Flatten(c)|)
    decreases c, 4, 0
  {
    hide Flatten, TextAt, Good, Strip;
    if c.CUnary? {
      UnaryPieces(ts, i, c.uop, c.operand);
      CompleteUnary(ts, i + 1, c.operand);
    } else {
      FirstToken(c);
      Head(ts, i, Flatten(c));
      CompleteCall(ts, i, c);
    }
  }

  lemma {:induction false} CompleteCall(ts: seq<Token>, i: nat, c: Cst)
    requires At(ts, i, c, CALL)
    ensures ReadCall(ts, i) == Read(c, i + |Flatten(c)|)
    decreases c, 3, 0
  {
    hide Flatten, FlattenAll, TextAt, Good, Strip, ReadAccess, ReadList;
    TextIs(ts, i, c);
    if c.CCall? {
      CallPieces(ts, i, c.callee, c.args);
      TextIs(ts, i, c.callee);
      CompleteMember(ts, i, c.callee);
      AccessStops(ts, i, c.callee, i + |Flatten(c.callee)|);
      CompleteList(ts, i + |Flatten(c.callee)| + 1, c.args, RParen);
      assert ReadCalls(ts, i, c, i + |Flatten(c)|) == Read(c, i + |Flatten(c)|);
    } else {
      CompleteMember(ts, i, c);
      AccessStops(ts, i, c, i + |Flatten(c)|);
    }
  }

  lemma AccessStops(ts: seq<Token>, i: nat, c: Cst, j: nat)
    requires Stream(ts) && i < j < |ts|
    requires WellFormed(c) && LevelOf(c) >= MEMBER && Flatten(c) == ts[i..j]
    requires ts[j] != Dot && ts[j] != LBracket
    ensures ReadAccess(ts, i, c, j) == Read(c, j)
  {
    hide WellFormed, Flatten;
  }

  lemma {:induction false} CompleteMember(ts: seq<Token>, i: nat, c: Cst)
    requires WellFormed(c) && LevelOf(c) >= MEMBER && Stream(ts) && TextAt(ts, i, Flatten(c))
    ensures Flatten(c) == ts[i..i + |Flatten(c)|]
    ensures ReadMember(ts, i) == ReadAccess(ts, i, c, i + |Flatten(c)|)
    decreases c, 2, 0
  {
    hide Flatten, TextAt, Good, Strip, ReadAccess;
    TextIs(ts, i, c);
    if c.CDot? {
      CompleteDot(ts, i, c.obj, c.name);
    } else if c.CIndex? {
      CompleteIndex(ts, i, c.obj, c.index);
    } else {
      CompletePrimary(ts, i, c);
    }
  }

  lemma {:induction false} CompleteDot(ts: seq<Token>, i: nat, obj: Cst, name: string)
    requires WellFormed(CDot(obj, name)) && Stream(ts) && TextAt(ts, i, Flatten(CDot(obj, name)))
    ensures i + |Flatten(CDot(obj, name))| < |ts|
    ensures Flatten(CDot(obj, name)) == ts[i..i + |Flatten(CDot(obj, name))|]
    ensures ReadMember(ts, i) == ReadAccess(ts, i, CDot(obj, name), i + |Flatten(CDot(obj, name))|)
    decreases CDot(obj, name), 1, 1
  {
    hide Flatten, TextAt, Good, Strip, ReadAccess;
    TextIs(ts, i, CDot(obj, name));
    DotPieces(ts, i, obj, name);
    CompleteMember(ts, i, obj);
    AccessDot(ts, i, obj, name);
  }

  lemma {:induction false} CompleteIndex(ts: seq<Token>, i: nat, obj: Cst, index: Cst)
    requires WellFormed(CIndex(obj, index)) && Stream(ts) && TextAt(ts, i, Flatten(CIndex(obj, index)))
    ensures i + |Flatten(CIndex(obj, index))| < |ts|
    ensures Flatten(CIndex(obj, index)) == ts[i..i + |Flatten(CIndex(obj, index))|]
    ensures ReadMember(ts, i) == ReadAccess(ts, i, CIndex(obj, index), i + |Flatten(CIndex(obj, index))|)
    decreases CIndex(obj, index), 1, 1
  {
    hide Flatten, TextAt, Good, Strip, ReadAccess;
    TextIs(ts, i, CIndex(obj, index));
    IndexPieces(ts, i, obj, index);
    CompleteMember(ts, i, obj);
    Complete(ts, i + |Flatten(obj)| + 1, index, 0);
    AccessIndex(ts, i, obj, index);
  }

  lemma AccessDot(ts: seq<Token>, i: nat, obj: Cst, name: string)
    requires WellFormed(obj) && LevelOf(obj) >= MEMBER && Stream(ts)
    requires TextAt(ts, i, Flatten(obj)) && TextAt(ts, i, Flatten(CDot(obj, name)))
    requires var j := i + |Flatten(obj)|; ts[j] == Dot && ts[j + 1] == TIdent(name)
    ensures i + |Flatten(obj)| + 2 == i + |Flatten(CDot(obj, name))| < |ts|
    ensures ReadAccess(ts, i, obj, i + |Flatten(obj)|) == ReadAccess(ts, i, CDot(obj, name), i + |Flatten(obj)| + 2)
  {
    hide Good;
  }

  lemma AccessIndex(ts: seq<Token>, i: nat, obj: Cst, index: Cst)
    requires WellFormed(obj) && LevelOf(obj) >= MEMBER && Stream(ts) && WellFormed(index)
    requires TextAt(ts, i, Flatten(obj)) && TextAt(ts, i, Flatten(CIndex(obj, index)))
    requires var j, m := i + |Flatten(obj)|, |Flatten(index)|;
      ts[j] == LBracket && ReadExpr(ts, j + 1) == Read(index, j + 1 + m) && ts[j + 1 + m] == RBracket
    ensures |Flatten(CIndex(obj, index))| == |Flatten(obj)| + |Flatten(index)| + 2
    ensures ReadAccess(ts, i, obj, i + |Flatten(obj)|) ==
      ReadAccess(ts, i, CIndex(obj, index), i + |Flatten(CIndex(obj, index))|)
  {
    hide Good;
  }

  lemma TextIs(ts: seq<Token>, i: nat, c: Cst)
    requires TextAt(ts, i, Flatten(c))
    ensures i + |Flatten(c)| < |ts| && Flatten(c) == ts[i..i + |Flatten(c)|]
  {
  }

  lemma {:induction false} CompletePrimary(ts: seq<Token>, i: nat, c: Cst)
    requires WellFormed(c) && LevelOf(c) >= PRIMARY && Stream(ts) && TextAt(ts, i, Flatten(c))
    ensures ReadPrimary(ts, i) == Read(c, i + |Flatten(c)|)
    decreases c, 1, 0
  {
    hide TextAt, Good, Strip, FlattenAll, FlattenProps;
    match c
    case CParen(inner) =>
      CompleteParen(ts, i, inner);
    case CArray(elements) =>
      Bracketed(ts, i, LBracket, FlattenAll(elements), RBracket);
      CompleteList(ts, i + 1, elements, RBracket);
    case CObject(properties) =>
      Bracketed(ts, i, LBrace, FlattenProps(properties), RBrace);
      CompleteProps(ts, i + 1, properties);
    case _ =>
      Head(ts, i, Flatten(c));
  }

  lemma {:induction false} CompleteParen(ts: seq<Token>, i: nat, inner: Cst)
    requires WellFormed(inner) && Stream(ts) && TextAt(ts, i, Flatten(CParen(inner)))
    ensures i < |ts| && ReadPrimary(ts, i) == Read(CParen(inner), i + |Flatten(CParen(inner))|)
    decreases inner, 12, 1
  {
    hide TextAt, Good, Strip;
    Bracketed(ts, i, LParen, Flatten(inner), RParen);
    Complete(ts, i + 1, inner, 0);
    assert ReadExpr(ts, i + 1) == Read(inner, i + 1 + |Flatten(inner)|);
  }

  lemma {:induction false} CompleteList(ts: seq<Token>, i: nat, cs: seq<Cst>, close: Token)
    requires Stream(ts) && TextAt(ts, i, FlattenAll(cs)) && AllWellFormed(cs)
    requires ts[i + |FlattenAll(cs)|] == close && (close == RParen || close == RBracket)
    ensures ReadList(ts, i, close) == Read(cs, i + |FlattenAll(cs)|)
    decreases cs, 1, 0
  {
    if cs != [] {
      NotClosing(cs[0]);
      ItemsNonEmpty(cs);
      Head(ts, i, FlattenAll(cs));
      CompleteItems(ts, i, cs, close);
    }
  }

  lemma {:induction false} CompleteItems(ts: seq<Token>, i: nat, cs: seq<Cst>, close: Token)
    requires Stream(ts) && TextAt(ts, i, FlattenAll(cs)) && AllWellFormed(cs) && cs != []
    requires ts[i + |FlattenAll(cs)|] == close && (close == RParen || close == RBracket)
    ensures ReadItems(ts, i) == Read(cs, i + |FlattenAll(cs)|)
    decreases cs, 0, 0
  {
    hide TextAt, Good, Strip, Flatten, FlattenAll, WellFormed, ReadItems;
    var c, rest := cs[0], cs[1..];
    assert cs == [c] + rest;
    if rest == [] {
      FlattenOne(c);
      assert cs == [c];
      Complete(ts, i, c, 0);
      TextIs(ts, i, c);
      ItemsTurn(ts, i, c, i + |Flatten(c)|);
    } else {
      ItemPieces(ts, i, c, rest);
      Complete(ts, i, c, 0);
      CompleteItems(ts, i + |Flatten(c)| + 1, rest, close);
      TextIs(ts, i, c);
      ItemsTurn(ts, i, c, i + |Flatten(c)|);
    }
  }

  lemma FlattenOne(c: Cst)
    ensures FlattenAll([c]) == Flatten(c)
  {
  }

  // One item read: the list goes on behind a comma.
  lemma ItemsTurn(ts: seq<Token>, i: nat, c: Cst, j: nat)
    requires Stream(ts) && i < |ts| && ReadExpr(ts, i) == Read(c, j)
    ensures j < |ts|
    ensures ts[j] != Comma ==> ReadItems(ts, i) == Read([c], j)
    ensures ts[j] == Comma ==>
      && j + 1 < |ts|
      && (ReadItems(ts, j + 1).Read? ==>
           ReadItems(ts, i) == Read([c] + ReadItems(ts, j + 1).value, ReadItems(ts, j + 1).next))
  {
    hide Flatten, WellFormed;
  }

  lemma {:induction false} CompleteProps(ts: seq<Token>, i: nat, ps: seq<CProperty>)
    requires Stream(ts) && TextAt(ts, i, FlattenProps(ps)) && PropsWellFormed(ps)
    requires ts[i + |FlattenProps(ps)|] == RBrace
    ensures ReadProps(ts, i) == Read(ps, i + |FlattenProps(ps)|)
    decreases ps, 1, 0
  {
    hide TextAt, Good, Strip, Flatten, WellFormed, ReadPropItems;
    if ps != [] {
      PropsNonEmpty(ps);
      Head(ts, i, FlattenProps(ps));
      CompletePropItems(ts, i, ps);
    }
  }

  lemma {:induction false} CompletePropItems(ts: seq<Token>, i: nat, ps: seq<CProperty>)
    requires Stream(ts) && TextAt(ts, i, FlattenProps(ps)) && PropsWellFormed(ps) && ps != []
    requires ts[i + |FlattenProps(ps)|] == RBrace
    ensures ReadPropItems(ts, i) == Read(ps, i + |FlattenProps(ps)|)
    decreases ps, 0, 0
  {
    hide TextAt, Good, Strip, Flatten, FlattenProps, WellFormed, ReadPropItems;
    var p, rest := ps[0], ps[1..];
    assert ps == [p] + rest;
    if rest == [] {
      assert ps == [p];
      OnePropPieces(ts, i, p);
      Complete(ts, i + 2, p.value, 0);
      TextIs(ts, i + 2, p.value);
      PropItemsTurn(ts, i, p, i + 2 + |Flatten(p.value)|);
    } else {
      PropPieces(ts, i, p, rest);
      Complete(ts, i + 2, p.value, 0);
      CompletePropItems(ts, i + |Flatten(p.value)| + 3, rest);
      TextIs(ts, i + 2, p.value);
      PropItemsTurn(ts, i, p, i + 2 + |Flatten(p.value)|);
    }
  }

  lemma PropItemsTurn(ts: seq<Token>, i: nat, p: CProperty, j: nat)
    requires Stream(ts) && i + 2 < |ts| && ts[i] == TIdent(p.key) && ts[i + 1] == Colon
    requires ReadExpr(ts, i + 2) == Read(p.value, j)
    ensures j < |ts|
    ensures ts[j] != Comma ==> ReadPropItems(ts, i) == Read([p], j)
    ensures ts[j] == Comma ==>
      && j + 1 < |ts|
      && (ReadPropItems(ts, j + 1).Read? ==>
           ReadPropItems(ts, i) == Read([p] + ReadPropItems(ts, j + 1).value, ReadPropItems(ts, j + 1).next))
  {
    hide Flatten, WellFormed;
  }

  // The parser accepts exactly the well-formed texts and reads each as itself.
  lemma ReadsExactlyTheGrammar(ts: seq<Token>, i: nat, c: Cst, j: nat)
    requires Stream(ts) && i < |ts|
    ensures ReadExpr(ts, i) == Read(c, j) <==>
      i < j < |ts| && WellFormed(c) && Flatten(c) == ts[i..j] && Stops(0, c, ts[j])
  {
    if i < j < |ts| && WellFormed(c) && Flatten(c) == ts[i..j] && Stops(0, c, ts[j]) {
      assert j == i + |Flatten(c)|;
      Complete(ts, i, c, 0);
    }
  }
}
