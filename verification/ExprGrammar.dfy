// The parser as a function from a token stream and a position to the concrete
// syntax read and the position after it, proved to recognise exactly the grammar.
module ExprGrammar {
  import opened ExprSyntax

  // None is the parse error.
  datatype Read<+T> = None | Read(value: T, next: nat) {
    predicate IsFailure() { None? }
    function PropagateFailure<U>(): Read<U>
      requires None?
    { None }
    function Extract(): (T, nat)
      requires Read?
    { (value, next) }
  }

  predicate Stream(ts: seq<Token>) {
    ts != [] && ts[|ts| - 1] == EOF
  }

  // What was read from i on: well-formed text of the given strength that stops there.
  ghost predicate Good(ts: seq<Token>, i: nat, level: nat, r: Read<Cst>) {
    r.Read? ==>
      && i < r.next < |ts|
      && WellFormed(r.value) && LevelOf(r.value) >= level
      && Flatten(r.value) == ts[i..r.next]
      && Stops(level, r.value, ts[r.next])
  }

  lemma Split(ts: seq<Token>, i: nat, j: nat, k: nat)
    requires i <= j < k <= |ts|
    ensures ts[i..k] == ts[i..j] + [ts[j]] + ts[j + 1..k]
    ensures ts[i..j] == [] ==> ts[i..k] == [ts[j]] + ts[j + 1..k]
  {
  }

  lemma Last(ts: seq<Token>, i: nat, k: nat)
    requires i <= k < |ts|
    ensures ts[i..k + 1] == ts[i..k] + [ts[k]]
  {
  }

  lemma OneItem(first: Cst)
    requires WellFormed(first)
    ensures AllWellFormed([first]) && FlattenAll([first]) == Flatten(first)
  {
  }

  lemma MoreItems(ts: seq<Token>, i: nat, first: Cst, j: nat, rest: seq<Cst>, k: nat)
    requires i < j < k <= |ts| && ts[j] == Comma && rest != [] && WellFormed(first) && AllWellFormed(rest)
    requires Flatten(first) == ts[i..j] && FlattenAll(rest) == ts[j + 1..k]
    ensures AllWellFormed([first] + rest) && FlattenAll([first] + rest) == ts[i..k]
  {
    assert ([first] + rest)[1..] == rest;
    Split(ts, i, j, k);
  }

  lemma OneProp(ts: seq<Token>, i: nat, first: CProperty, j: nat)
    requires i + 2 <= j <= |ts| && ts[i] == TIdent(first.key) && ts[i + 1] == Colon
    requires WellFormed(first.value) && Flatten(first.value) == ts[i + 2..j]
    ensures PropsWellFormed([first]) && FlattenProps([first]) == ts[i..j]
  {
    assert ts[i..j] == [ts[i], ts[i + 1]] + ts[i + 2..j];
  }

  lemma MoreProps(ts: seq<Token>, i: nat, first: CProperty, j: nat, rest: seq<CProperty>, k: nat)
    requires i + 2 <= j < k <= |ts| && ts[i] == TIdent(first.key) && ts[i + 1] == Colon
    requires ts[j] == Comma && rest != [] && WellFormed(first.value) && PropsWellFormed(rest)
    requires Flatten(first.value) == ts[i + 2..j] && FlattenProps(rest) == ts[j + 1..k]
    ensures PropsWellFormed([first] + rest) && FlattenProps([first] + rest) == ts[i..k]
  {
    hide Flatten, WellFormed;
    assert ([first] + rest)[1..] == rest;
    assert ts[i..j] == [ts[i], ts[i + 1]] + ts[i + 2..j];
    Split(ts, i, j, k);
  }

  function ReadExpr(ts: seq<Token>, i: nat): (r: Read<Cst>)
    requires Stream(ts) && i < |ts|
    ensures Good(ts, i, 0, r)
    decreases |ts| - i, 12
  {
    ReadLevel(ts, i, 0)
  }

  function ReadLevel(ts: seq<Token>, i: nat, level: nat): (r: Read<Cst>)
    requires Stream(ts) && i < |ts| && level <= UNARY
    ensures Good(ts, i, level, r)
    decreases |ts| - i, 11 - level
  {
    if level == UNARY then ReadUnary(ts, i)
    else
      var (left, j) :- ReadLevel(ts, i, level + 1);
      ReadRest(ts, i, level, left, j)
  }

  // The loop of one binary level: `left` has been read from i to j.
  function ReadRest(ts: seq<Token>, i: nat, level: nat, left: Cst, j: nat): (r: Read<Cst>)
    requires Stream(ts) && level < UNARY && i < j < |ts|
    requires WellFormed(left) && LevelOf(left) >= level && Flatten(left) == ts[i..j] && Stops(level + 1, left, ts[j])
    ensures Good(ts, i, level, r)
    decreases |ts| - j, 0
  {
    if ts[j].TOp? && Level(ts[j].op) == level then
      var (right, k) :- ReadLevel(ts, j + 1, level + 1);
      Split(ts, i, j, k);
      ReadRest(ts, i, level, CBinary(ts[j].op, left, right), k)
    else Read(left, j)
  }

  function ReadUnary(ts: seq<Token>, i: nat): (r: Read<Cst>)
    requires Stream(ts) && i < |ts|
    ensures Good(ts, i, UNARY, r)
    decreases |ts| - i, 3
  {
    if ts[i] == TNot || ts[i] == TOp(Minus) then
      var (operand, j) :- ReadUnary(ts, i + 1);
      Split(ts, i, i, j);
      Read(CUnary(if ts[i] == TNot then Not else Neg, operand), j)
    else ReadCall(ts, i)
  }

  function ReadCall(ts: seq<Token>, i: nat): (r: Read<Cst>)
    requires Stream(ts) && i < |ts|
    ensures Good(ts, i, CALL, r)
    decreases |ts| - i, 2
  {
    var (callee, j) :- ReadMember(ts, i);
    ReadCalls(ts, i, callee, j)
  }

  // The loop of calls: only an identifier can be called, so it turns at most once.
  function ReadCalls(ts: seq<Token>, i: nat, callee: Cst, j: nat): (r: Read<Cst>)
    requires Stream(ts) && i < j < |ts|
    requires WellFormed(callee) && LevelOf(callee) >= CALL && Flatten(callee) == ts[i..j]
    requires !EndsInCall(callee) ==> ts[j] != Dot && ts[j] != LBracket
    ensures Good(ts, i, CALL, r)
    decreases |ts| - j, 0
  {
    if ts[j] != LParen then Read(callee, j)
    else if !Strip(callee).Ident? then None
    else
      var (args, k) :- ReadList(ts, j + 1, RParen);
      Split(ts, i, j, k);
      Last(ts, i, k);
      ReadCalls(ts, i, CCall(callee, args), k + 1)
  }

  function ReadMember(ts: seq<Token>, i: nat): (r: Read<Cst>)
    requires Stream(ts) && i < |ts|
    ensures Good(ts, i, MEMBER, r)
    decreases |ts| - i, 1
  {
    var (base, j) :- ReadPrimary(ts, i);
    ReadAccess(ts, i, base, j)
  }

  function ReadAccess(ts: seq<Token>, i: nat, base: Cst, j: nat): (r: Read<Cst>)
    requires Stream(ts) && i < j < |ts|
    requires WellFormed(base) && LevelOf(base) >= MEMBER && Flatten(base) == ts[i..j]
    ensures Good(ts, i, MEMBER, r)
    decreases |ts| - j, 0
  {
    if ts[j] == Dot then
      if ts[j + 1].TIdent? then
        assert ts[i..j + 2] == ts[i..j] + [ts[j], ts[j + 1]];
        ReadAccess(ts, i, CDot(base, ts[j + 1].name), j + 2)
      else None
    else if ts[j] == LBracket then
      var (index, k) :- ReadExpr(ts, j + 1);
      if ts[k] == RBracket then
        Split(ts, i, j, k);
        Last(ts, i, k);
        ReadAccess(ts, i, CIndex(base, index), k + 1)
      else None
    else Read(base, j)
  }

  function ReadPrimary(ts: seq<Token>, i: nat): (r: Read<Cst>)
    requires Stream(ts) && i < |ts|
    ensures Good(ts, i, PRIMARY, r)
    decreases |ts| - i, 0, 1
  {
    match ts[i]
    case TString(s) => Read(CLit(LString(s)), i + 1)
    case TNumber(text) => Read(CLit(LNumber(text)), i + 1)
    case TBoolean(b) => Read(CLit(LBool(b)), i + 1)
    case TNull => Read(CLit(LNull), i + 1)
    case LBracket => ReadArray(ts, i)
    case LBrace => ReadObject(ts, i)
    case LParen => ReadParenthesized(ts, i)
    case TIdent(name) => Read(CIdent(name), i + 1)
    case _ => None
  }

  function ReadArray(ts: seq<Token>, i: nat): (r: Read<Cst>)
    requires Stream(ts) && i < |ts| && ts[i] == LBracket
    ensures Good(ts, i, PRIMARY, r)
    decreases |ts| - i, 0, 0
  {
    var (elements, j) :- ReadList(ts, i + 1, RBracket);
    Split(ts, i, i, j);
    Last(ts, i, j);
    Read(CArray(elements), j + 1)
  }

  function ReadObject(ts: seq<Token>, i: nat): (r: Read<Cst>)
    requires Stream(ts) && i < |ts| && ts[i] == LBrace
    ensures Good(ts, i, PRIMARY, r)
    decreases |ts| - i, 0, 0
  {
    var (properties, j) :- ReadProps(ts, i + 1);
    Split(ts, i, i, j);
    Last(ts, i, j);
    Read(CObject(properties), j + 1)
  }

  function ReadParenthesized(ts: seq<Token>, i: nat): (r: Read<Cst>)
    requires Stream(ts) && i < |ts| && ts[i] == LParen
    ensures Good(ts, i, PRIMARY, r)
    decreases |ts| - i, 0, 0
  {
    var (inner, j) :- ReadExpr(ts, i + 1);
    Split(ts, i, i, j);
    Last(ts, i, j);
    if ts[j] == RParen then Read(CParen(inner), j + 1) else None
  }

  // A comma-separated list up to, but not including, the closing token.
  function ReadList(ts: seq<Token>, i: nat, close: Token): (r: Read<seq<Cst>>)
    requires Stream(ts) && i < |ts| && (close == RParen || close == RBracket)
    ensures r.Read? ==>
      && i <= r.next < |ts| - 1 && ts[r.next] == close
      && AllWellFormed(r.value) && FlattenAll(r.value) == ts[i..r.next]
    decreases |ts| - i, 14
  {
    if ts[i] == close then Read([], i)
    else
      var (items, j) :- ReadItems(ts, i);
      if ts[j] == close then Read(items, j) else None
  }

  function ReadItems(ts: seq<Token>, i: nat): (r: Read<seq<Cst>>)
    requires Stream(ts) && i < |ts|
    ensures r.Read? ==>
      && i < r.next < |ts| && r.value != []
      && AllWellFormed(r.value) && FlattenAll(r.value) == ts[i..r.next]
    decreases |ts| - i, 13
  {
    var (first, j) :- ReadExpr(ts, i);
    if ts[j] == Comma then
      var (rest, k) :- ReadItems(ts, j + 1);
      MoreItems(ts, i, first, j, rest, k);
      Read([first] + rest, k)
    else
      OneItem(first);
      Read([first], j)
  }

  function ReadProps(ts: seq<Token>, i: nat): (r: Read<seq<CProperty>>)
    requires Stream(ts) && i < |ts|
    ensures r.Read? ==>
      && i <= r.next < |ts| - 1 && ts[r.next] == RBrace
      && PropsWellFormed(r.value) && FlattenProps(r.value) == ts[i..r.next]
    decreases |ts| - i, 14
  {
    if ts[i] == RBrace then Read([], i)
    else
      var (properties, j) :- ReadPropItems(ts, i);
      if ts[j] == RBrace then Read(properties, j) else None
  }

  function ReadPropItems(ts: seq<Token>, i: nat): (r: Read<seq<CProperty>>)
    requires Stream(ts) && i < |ts|
    ensures r.Read? ==>
      && i < r.next < |ts| && r.value != []
      && PropsWellFormed(r.value) && FlattenProps(r.value) == ts[i..r.next]
    decreases |ts| - i, 13
  {
    if !(ts[i].TIdent? && ts[i + 1] == Colon) then None
    else
      var (value, j) :- ReadExpr(ts, i + 2);
      var first := CProperty(ts[i].name, value);
      if ts[j] == Comma then
        var (rest, k) :- ReadPropItems(ts, j + 1);
        MoreProps(ts, i, first, j, rest, k);
        Read([first] + rest, k)
      else
        OneProp(ts, i, first, j);
        Read([first], j)
  }
}
