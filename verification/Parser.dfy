// The recursive-descent expression parser over a mutable cursor (parser/parser.ts).
// Its seven binary levels differ only in their operators, so one method with the
// level as parameter stands for parseLogicalOr to parseMultiplication.
module Parser {
  import opened ExprSyntax
  import opened ExprGrammar

  datatype Result<+T> = Ok(value: T) | ParseError

  // The cursor ends up where the grammar says, with the tree the text denotes.
  ghost predicate Agrees(r: Result<Expr>, current: nat, spec: Read<Cst>) {
    match spec
    case None => r.ParseError?
    case Read(c, next) => r == Ok(Strip(c)) && current == next
  }

  ghost predicate AgreesAll(r: Result<seq<Expr>>, current: nat, spec: Read<seq<Cst>>) {
    match spec
    case None => r.ParseError?
    case Read(cs, next) => r == Ok(StripAll(cs)) && current == next
  }

  // Reading continues behind the items `done`.
  ghost function After(done: seq<Cst>, rest: Read<seq<Cst>>): Read<seq<Cst>> {
    if rest.None? then rest else Read(done + rest.value, rest.next)
  }

  ghost function AfterProps(done: seq<CProperty>, rest: Read<seq<CProperty>>): Read<seq<CProperty>> {
    if rest.None? then rest else Read(done + rest.value, rest.next)
  }

  lemma {:induction false} StripAllConcat(a: seq<Cst>, b: seq<Cst>)
    ensures StripAll(a + b) == StripAll(a) + StripAll(b)
  {
    if a == [] {
      assert a + b == b;
    } else {
      assert (a + b)[1..] == a[1..] + b;
      StripAllConcat(a[1..], b);
    }
  }

  lemma {:induction false} StripPropsConcat(a: seq<CProperty>, b: seq<CProperty>)
    ensures StripProps(a + b) == StripProps(a) + StripProps(b)
  {
    if a == [] {
      assert a + b == b;
    } else {
      assert (a + b)[1..] == a[1..] + b;
      StripPropsConcat(a[1..], b);
    }
  }

  class Parser {
    const tokens: seq<Token>
    var current: nat

    // The lexer always ends the stream with EOF; the cursor never passes it.
    ghost predicate Valid()
      reads this
    {
      Stream(tokens) && current < |tokens|
    }

    constructor (tokens: seq<Token>)
      requires Stream(tokens)
      ensures Valid() && this.tokens == tokens && current == 0
    {
      this.tokens := tokens;
      current := 0;
    }

    method Match(t: Token) returns (matched: bool)
      requires Valid() && t != EOF
      modifies this
      ensures Valid() && matched == (tokens[old(current)] == t)
      ensures current == old(current) + if matched then 1 else 0
    {
      matched := tokens[current] == t;
      if matched {
        current := current + 1;
      }
    }

    method ParseExpression() returns (r: Result<Expr>)
      requires Valid()
      modifies this
      ensures Valid() && Agrees(r, current, ReadExpr(tokens, old(current)))
      ensures r.Ok? ==> old(current) < current
      decreases |tokens| - current, 12
    {
      r := ParseLevel(0);
    }

    method ParseLevel(level: nat) returns (r: Result<Expr>)
      requires Valid() && level <= UNARY
      modifies this
      ensures Valid() && Agrees(r, current, ReadLevel(tokens, old(current), level))
      ensures r.Ok? ==> old(current) < current
      decreases |tokens| - current, 11 - level
    {
      hide Looping, Good, ReadLevel, ReadRest, Strip;
      LevelIsUnary(tokens, current);
      if level == UNARY {
        r := ParseUnary();
        return;
      }
      ghost var start := current;
      LoopStarts(tokens, start, level);
      r := ParseLevel(level + 1);
      if r.ParseError? {
        return;
      }
      var left := r.value;
      ghost var c := ReadLevel(tokens, start, level + 1).value;
      while tokens[current].TOp? && Level(tokens[current].op) == level
        invariant Valid() && left == Strip(c) && Looping(tokens, start, level, c, current)
        decreases |tokens| - current
      {
        var op := tokens[current].op;
        LoopTurns(tokens, start, level, c, current);
        current := current + 1;
        ghost var right := ReadLevel(tokens, current, level + 1);
        r := ParseLevel(level + 1);
        if r.ParseError? {
          return;
        }
        left := Binary(op, left, r.value);
        c := CBinary(op, c, right.value);
      }
      LoopEnds(tokens, start, level, c, current);
      r := Ok(left);
    }

    method ParseUnary() returns (r: Result<Expr>)
      requires Valid()
      modifies this
      ensures Valid() && Agrees(r, current, ReadUnary(tokens, old(current)))
      ensures r.Ok? ==> old(current) < current
      decreases |tokens| - current, 3
    {
      hide Flatten, Good, WellFormed;
      if tokens[current] == TNot || tokens[current] == TOp(Minus) {
        var uop := if tokens[current] == TNot then Not else Neg;
        current := current + 1;
        r := ParseUnary();
        if r.Ok? {
          r := Ok(Unary(uop, r.value));
        }
        return;
      }
      r := ParseCall();
    }

    method ParseCall() returns (r: Result<Expr>)
      requires Valid()
      modifies this
      ensures Valid() && Agrees(r, current, ReadCall(tokens, old(current)))
      ensures r.Ok? ==> old(current) < current
      decreases |tokens| - current, 2
    {
      hide Calling, Good, ReadCall, ReadCalls, ReadMember, Strip, StripAll;
      ghost var start := current;
      CallStarts(tokens, start);
      r := ParseMember();
      if r.ParseError? {
        return;
      }
      var expr := r.value;
      ghost var c := ReadMember(tokens, start).value;
      while true
        invariant Valid() && start < current && expr == Strip(c) && Calling(tokens, start, c, current)
        decreases |tokens| - current
      {
        CallTurns(tokens, start, c, current);
        var open := Match(LParen);
        if !open {
          break;
        }
        if !expr.Ident? {
          return ParseError;
        }
        ghost var at := current;
        var args := ParseItems(RParen);
        if args.ParseError? {
          return ParseError;
        }
        var closed := Match(RParen);
        if !closed {
          return ParseError;
        }
        expr := Call(expr.name, args.value);
        StripCall(c, ReadOpenList(tokens, at, RParen).value);
        c := CCall(c, ReadOpenList(tokens, at, RParen).value);
      }
      r := Ok(expr);
    }

    // parseArgumentList, and the same loop in an array literal: the items up to the
    // closing token, which the caller consumes.
    method ParseItems(close: Token) returns (r: Result<seq<Expr>>)
      requires Valid() && (close == RParen || close == RBracket)
      modifies this
      ensures Valid() && AgreesAll(r, current, ReadOpenList(tokens, old(current), close))
      ensures r.Ok? ==> old(current) <= current
      decreases |tokens| - current, 14
    {
      hide Flatten, FlattenAll, WellFormed, Good;
      var items: seq<Expr> := [];
      if tokens[current] == close {
        return Ok(items);
      }
      ghost var start := current;
      ghost var done: seq<Cst> := [];
      AfterNone(ReadItems(tokens, start));
      while true
        invariant Valid() && start <= current && items == StripAll(done)
        invariant ReadItems(tokens, start) == After(done, ReadItems(tokens, current))
        decreases |tokens| - current
      {
        ghost var at := current;
        var e := ParseExpression();
        if e.ParseError? {
          return ParseError;
        }
        items := items + [e.value];
        ghost var c := ReadExpr(tokens, at).value;
        StripAllConcat(done, [c]);
        assert StripAll([c]) == [e.value];
        var more := Match(Comma);
        if !more {
          return Ok(items);
        }
        AfterOne(done, c, ReadItems(tokens, current));
        done := done + [c];
      }
    }

    method ParseMember() returns (r: Result<Expr>)
      requires Valid()
      modifies this
      ensures Valid() && Agrees(r, current, ReadMember(tokens, old(current)))
      ensures r.Ok? ==> old(current) < current
      decreases |tokens| - current, 1
    {
      hide Accessing, Good, ReadAccess, ReadPrimary, Strip;
      ghost var start := current;
      AccessStarts(tokens, start);
      r := ParsePrimary();
      if r.ParseError? {
        return;
      }
      var expr := r.value;
      ghost var c := ReadPrimary(tokens, start).value;
      while true
        invariant Valid() && expr == Strip(c) && Accessing(tokens, start, c, current)
        decreases |tokens| - current
      {
        AccessTurns(tokens, start, c, current);
        var dot := Match(Dot);
        if dot {
          if !tokens[current].TIdent? {
            return ParseError;
          }
          expr := Member(expr, tokens[current].name, false);
          c := CDot(c, tokens[current].name);
          current := current + 1;
        } else {
          var open := Match(LBracket);
          if !open {
            break;
          }
          ghost var at := current;
          var property := ParseExpression();
          if property.ParseError? {
            return ParseError;
          }
          var closed := Match(RBracket);
          if !closed {
            return ParseError;
          }
          expr := Member(expr, PropertyName(property.value), true);
          c := CIndex(c, ReadExpr(tokens, at).value);
        }
      }
      r := Ok(expr);
    }

    method ParsePrimary() returns (r: Result<Expr>)
      requires Valid()
      modifies this
      ensures Valid() && Agrees(r, current, ReadPrimary(tokens, old(current)))
      ensures r.Ok? ==> old(current) < current
      decreases |tokens| - current, 0, 1
    {
      hide Flatten, Good, WellFormed, Stops;
      var t := tokens[current];
      if t.EOF? || t.Other? {
        return ParseError;
      }
      current := current + 1;
      match t
      case TString(s) => r := Ok(Lit(LString(s)));
      case TNumber(text) => r := Ok(Lit(LNumber(text)));
      case TBoolean(b) => r := Ok(Lit(LBool(b)));
      case TNull => r := Ok(Lit(LNull));
      case LBracket =>
        ListIsOpenList(tokens, current, RBracket);
        var elements := ParseItems(RBracket);
        if elements.ParseError? {
          return ParseError;
        }
        var closed := Match(RBracket);
        r := if closed then Ok(Array(elements.value)) else ParseError;
      case LBrace =>
        r := ParseObjectLiteral();
      case LParen =>
        var inner := ParseExpression();
        if inner.ParseError? {
          return ParseError;
        }
        var closed := Match(RParen);
        r := if closed then inner else ParseError;
      case TIdent(name) => r := Ok(Ident(name));
      case _ => r := ParseError;
    }

    method ParseProperty() returns (r: Result<Property>)
      requires Valid()
      modifies this
      ensures Valid()
      ensures var p := ReadProperty(tokens, old(current));
        if p.None? then r.ParseError?
        else r == Ok(Property(p.value.key, Strip(p.value.value))) && current == p.next
      decreases |tokens| - current, 13
    {
      hide Flatten, WellFormed;
      if !tokens[current].TIdent? {
        return ParseError;
      }
      var key := tokens[current].name;
      current := current + 1;
      var colon := Match(Colon);
      if !colon {
        return ParseError;
      }
      var e := ParseExpression();
      if e.ParseError? {
        return ParseError;
      }
      r := Ok(Property(key, e.value));
    }

    // The opening brace has been consumed.
    method ParseObjectLiteral() returns (r: Result<Expr>)
      requires Valid() && current > 0 && tokens[current - 1] == LBrace
      modifies this
      ensures Valid() && Agrees(r, current, ReadObject(tokens, old(current) - 1))
      ensures r.Ok? ==> old(current) < current
      decreases |tokens| - current, 15
    {
      hide Flatten, FlattenProps, WellFormed, PropsWellFormed, Good, ReadPropItems, StripProps;
      PropsOrNone(tokens, current);
      var properties: seq<Property> := [];
      var empty := Match(RBrace);
      if empty {
        return Ok(Object(properties));
      }
      ghost var start := current;
      ghost var done: seq<CProperty> := [];
      AfterPropsNone(ReadPropItems(tokens, start));
      while true
        invariant Valid() && start <= current && properties == StripProps(done)
        invariant ReadPropItems(tokens, start) == AfterProps(done, ReadPropItems(tokens, current))
        decreases |tokens| - current
      {
        ghost var at := current;
        PropTurns(tokens, at);
        var p := ParseProperty();
        if p.ParseError? {
          return ParseError;
        }
        properties := properties + [p.value];
        ghost var c := ReadProperty(tokens, at).value;
        StripPropsAppend(done, c);
        var more := Match(Comma);
        if !more {
          var closed := Match(RBrace);
          return if closed then Ok(Object(properties)) else ParseError;
        }
        AfterPropsOne(done, c, ReadPropItems(tokens, current));
        done := done + [c];
      }
    }
  }

  // One key with its value.
  function ReadProperty(ts: seq<Token>, i: nat): (r: Read<CProperty>)
    requires Stream(ts) && i < |ts|
    ensures r.Read? ==> i < r.next < |ts|
  {
    if ts[i].TIdent? && ts[i + 1] == Colon then
      var e := ReadExpr(ts, i + 2);
      if e.None? then None else Read(CProperty(ts[i].name, e.value), e.next)
    else None
  }

  // A list whose closing token is left in place.
  function ReadOpenList(ts: seq<Token>, i: nat, close: Token): Read<seq<Cst>>
    requires Stream(ts) && i < |ts|
    ensures ReadOpenList(ts, i, close).Read? ==> i <= ReadOpenList(ts, i, close).next < |ts|
  {
    if ts[i] == close then Read([], i) else ReadItems(ts, i)
  }

  lemma ListIsOpenList(ts: seq<Token>, i: nat, close: Token)
    requires Stream(ts) && i < |ts| && (close == RParen || close == RBracket)
    ensures var r := ReadOpenList(ts, i, close);
      ReadList(ts, i, close) == if r.Read? && ts[r.next] == close then r else None
  {
  }

  lemma AfterNone(rest: Read<seq<Cst>>)
    ensures After([], rest) == rest
  {
    if rest.Read? { assert [] + rest.value == rest.value; }
  }

  lemma AfterOne(done: seq<Cst>, c: Cst, rest: Read<seq<Cst>>)
    ensures After(done + [c], rest) == After(done, After([c], rest))
  {
    if rest.Read? { assert done + [c] + rest.value == done + ([c] + rest.value); }
  }

  lemma AfterPropsNone(rest: Read<seq<CProperty>>)
    ensures AfterProps([], rest) == rest
  {
    if rest.Read? { assert [] + rest.value == rest.value; }
  }

  lemma AfterPropsOne(done: seq<CProperty>, c: CProperty, rest: Read<seq<CProperty>>)
    ensures AfterProps(done + [c], rest) == AfterProps(done, AfterProps([c], rest))
  {
    if rest.Read? { assert done + [c] + rest.value == done + ([c] + rest.value); }
  }

  lemma StripPropsAppend(done: seq<CProperty>, c: CProperty)
    ensures StripProps(done + [c]) == StripProps(done) + [Property(c.key, Strip(c.value))]
  {
    StripPropsConcat(done, [c]);
    assert StripProps([c]) == [Property(c.key, Strip(c.value))];
  }

  lemma PropsOrNone(ts: seq<Token>, i: nat)
    requires Stream(ts) && i < |ts|
    ensures StripProps([]) == []
    ensures var items := ReadPropItems(ts, i);
      ReadProps(ts, i) ==
        if ts[i] == RBrace then Read([], i)
        else if items.Read? && ts[items.next] == RBrace then items
        else None
  {
    hide Flatten, FlattenProps, WellFormed, PropsWellFormed, ReadPropItems;
  }

  // One property read at i: the literal goes on behind a comma.
  lemma PropTurns(ts: seq<Token>, i: nat)
    requires Stream(ts) && i < |ts|
    ensures var p := ReadProperty(ts, i);
      if p.None? then ReadPropItems(ts, i).None?
      else if ts[p.next] == Comma then
        p.next + 1 < |ts| && ReadPropItems(ts, i) == AfterProps([p.value], ReadPropItems(ts, p.next + 1))
      else ReadPropItems(ts, i) == Read([p.value], p.next)
  {
    hide Flatten, FlattenProps, WellFormed, PropsWellFormed;
  }

  // ---------------------------------------------------------------- the loop of a binary level

  // c has been read from i to j and the loop of `level` goes on from there.
  ghost predicate Looping(ts: seq<Token>, i: nat, level: nat, c: Cst, j: nat) {
    && Stream(ts) && level < UNARY && i < j < |ts|
    && WellFormed(c) && LevelOf(c) >= level && Flatten(c) == ts[i..j] && Stops(level + 1, c, ts[j])
    && ReadLevel(ts, i, level) == ReadRest(ts, i, level, c, j)
  }

  lemma LevelIsUnary(ts: seq<Token>, i: nat)
    requires Stream(ts) && i < |ts|
    ensures ReadLevel(ts, i, UNARY) == ReadUnary(ts, i)
  {
  }

  lemma LoopStarts(ts: seq<Token>, i: nat, level: nat)
    requires Stream(ts) && i < |ts| && level < UNARY
    ensures var r := ReadLevel(ts, i, level + 1);
      if r.None? then ReadLevel(ts, i, level).None? else Looping(ts, i, level, r.value, r.next)
  {
  }

  lemma LoopTurns(ts: seq<Token>, i: nat, level: nat, left: Cst, j: nat)
    requires Looping(ts, i, level, left, j) && ts[j].TOp? && Level(ts[j].op) == level
    ensures j + 1 < |ts|
    ensures var r := ReadLevel(ts, j + 1, level + 1);
      if r.None? then ReadLevel(ts, i, level).None?
      else
        && Looping(ts, i, level, CBinary(ts[j].op, left, r.value), r.next)
        && Strip(CBinary(ts[j].op, left, r.value)) == Binary(ts[j].op, Strip(left), Strip(r.value))
  {
    var r := ReadLevel(ts, j + 1, level + 1);
    if r.Read? { Split(ts, i, j, r.next); }
  }

  lemma LoopEnds(ts: seq<Token>, i: nat, level: nat, c: Cst, j: nat)
    requires Looping(ts, i, level, c, j) && !(ts[j].TOp? && Level(ts[j].op) == level)
    ensures ReadLevel(ts, i, level) == Read(c, j) && i < j
  {
  }

  // ---------------------------------------------------------------- the loop of calls

  ghost predicate Calling(ts: seq<Token>, i: nat, c: Cst, j: nat) {
    && Stream(ts) && i < j < |ts|
    && WellFormed(c) && LevelOf(c) >= CALL && Flatten(c) == ts[i..j]
    && (!EndsInCall(c) ==> ts[j] != Dot && ts[j] != LBracket)
    && ReadCall(ts, i) == ReadCalls(ts, i, c, j)
  }

  lemma StripCall(c: Cst, args: seq<Cst>)
    requires Strip(c).Ident?
    ensures Strip(CCall(c, args)) == Call(Strip(c).name, StripAll(args))
  {
  }

  lemma IdentIsNoCall(c: Cst)
    requires Strip(c).Ident? && LevelOf(c) >= CALL
    ensures LevelOf(c) >= MEMBER
  {
  }

  lemma CallStarts(ts: seq<Token>, i: nat)
    requires Stream(ts) && i < |ts|
    ensures var r := ReadMember(ts, i);
      if r.None? then ReadCall(ts, i).None? else Calling(ts, i, r.value, r.next)
  {
  }

  lemma CallTurns(ts: seq<Token>, i: nat, c: Cst, j: nat)
    requires Calling(ts, i, c, j)
    ensures ts[j] != LParen ==> ReadCall(ts, i) == Read(c, j)
    ensures ts[j] == LParen && !Strip(c).Ident? ==> ReadCall(ts, i).None?
    ensures ts[j] == LParen ==> j + 1 < |ts|
    ensures ts[j] == LParen && Strip(c).Ident? ==> (
      var r := ReadOpenList(ts, j + 1, RParen);
      if r.Read? && ts[r.next] == RParen then
        && Calling(ts, i, CCall(c, r.value), r.next + 1)
      else ReadCall(ts, i).None?)
  {
    hide Strip, ReadOpenList, ReadMember, Flatten, FlattenAll, WellFormed, AllWellFormed;
    if ts[j] == LParen && Strip(c).Ident? {
      ListIsOpenList(ts, j + 1, RParen);
      CallApplies(ts, i, c, j);
    }
  }

  lemma CallApplies(ts: seq<Token>, i: nat, c: Cst, j: nat)
    requires Calling(ts, i, c, j) && ts[j] == LParen && Strip(c).Ident?
    ensures var r := ReadList(ts, j + 1, RParen);
      if r.Read? then Calling(ts, i, CCall(c, r.value), r.next + 1) else ReadCall(ts, i).None?
  {
    hide AllWellFormed, FlattenAll, StripAll, Strip, ReadMember, Flatten, WellFormed, ReadList, ReadCall;
    var r := ReadList(ts, j + 1, RParen);
    if r.Read? {
      Split(ts, i, j, r.next);
      Last(ts, i, r.next);
      IdentIsNoCall(c);
      CallForm(c, r.value);
    }
  }

  lemma CallForm(c: Cst, args: seq<Cst>)
    requires WellFormed(c) && LevelOf(c) >= MEMBER && Strip(c).Ident? && AllWellFormed(args)
    ensures WellFormed(CCall(c, args))
    ensures Flatten(CCall(c, args)) == Flatten(c) + [LParen] + FlattenAll(args) + [RParen]
  {
  }

  // ---------------------------------------------------------------- the loop of member accesses

  ghost predicate Accessing(ts: seq<Token>, i: nat, c: Cst, j: nat) {
    && Stream(ts) && i < j < |ts|
    && WellFormed(c) && LevelOf(c) >= MEMBER && Flatten(c) == ts[i..j]
    && ReadMember(ts, i) == ReadAccess(ts, i, c, j)
  }

  lemma AccessStarts(ts: seq<Token>, i: nat)
    requires Stream(ts) && i < |ts|
    ensures var r := ReadPrimary(ts, i);
      if r.None? then ReadMember(ts, i).None? else Accessing(ts, i, r.value, r.next)
  {
  }

  lemma AccessTurns(ts: seq<Token>, i: nat, c: Cst, j: nat)
    requires Accessing(ts, i, c, j)
    ensures ts[j] != Dot && ts[j] != LBracket ==> ReadMember(ts, i) == Read(c, j)
    ensures ts[j] == Dot || ts[j] == LBracket ==> j + 1 < |ts|
    ensures ts[j] == Dot ==> (
      if ts[j + 1].TIdent? then
        && Accessing(ts, i, CDot(c, ts[j + 1].name), j + 2)
        && Strip(CDot(c, ts[j + 1].name)) == Member(Strip(c), ts[j + 1].name, false)
      else ReadMember(ts, i).None?)
    ensures ts[j] == LBracket ==> (
      var r := ReadExpr(ts, j + 1);
      if r.Read? && ts[r.next] == RBracket then
        && Accessing(ts, i, CIndex(c, r.value), r.next + 1)
        && Strip(CIndex(c, r.value)) == Member(Strip(c), PropertyName(Strip(r.value)), true)
      else ReadMember(ts, i).None?)
  {
    hide ReadMember, Accessing, Flatten, WellFormed;
    AccessEnds(ts, i, c, j);
    DotTurns(ts, i, c, j);
    IndexTurns(ts, i, c, j);
  }

  lemma AccessEnds(ts: seq<Token>, i: nat, c: Cst, j: nat)
    requires Accessing(ts, i, c, j)
    ensures j < |ts|
    ensures ts[j] != Dot && ts[j] != LBracket ==> ReadMember(ts, i) == Read(c, j)
    ensures ts[j] == Dot || ts[j] == LBracket ==> j + 1 < |ts|
  {
    hide ReadMember, Flatten, WellFormed;
  }

  lemma DotTurns(ts: seq<Token>, i: nat, c: Cst, j: nat)
    requires Accessing(ts, i, c, j)
    ensures ts[j] == Dot ==> (
      if ts[j + 1].TIdent? then Accessing(ts, i, CDot(c, ts[j + 1].name), j + 2) else ReadMember(ts, i).None?)
  {
    hide ReadMember;
    if ts[j] == Dot && ts[j + 1].TIdent? {
      assert ts[i..j + 2] == ts[i..j] + [ts[j], ts[j + 1]];
    }
  }

  lemma IndexTurns(ts: seq<Token>, i: nat, c: Cst, j: nat)
    requires Accessing(ts, i, c, j)
    ensures ts[j] == LBracket ==> (
      var r := ReadExpr(ts, j + 1);
      if r.Read? && ts[r.next] == RBracket then
        Accessing(ts, i, CIndex(c, r.value), r.next + 1)
      else ReadMember(ts, i).None?)
  {
    hide ReadMember;
    if ts[j] == LBracket {
      var r := ReadExpr(ts, j + 1);
      if r.Read? && ts[r.next] == RBracket {
        Split(ts, i, j, r.next);
        Last(ts, i, r.next);
      }
    }
  }
}
