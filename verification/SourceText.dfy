// Writing tokens and expressions as source text, and reading them back through the
// lexer and the parser.
module SourceText {
  import opened Seqs
  import opened Strings
  import opened LexSpec
  import E = ExprSyntax
  import ExprComplete
  import ExprPrinter
  import L = Lexer
  import P = Parser

  // ---------------------------------------------------------------- escaping

  // s.replace(/c/g, text).
  function Replace(s: string, c: char, text: string): string {
    if s == "" then "" else (if s[0] == c then text else [s[0]]) + Replace(s[1..], c, text)
  }

  predicate IsQuote(quote: char) {
    quote == '"' || quote == '\''
  }

  // escapeString (utils/string-utils.ts): one replacement after the other.
  function EscapeString(s: string, quote: char): string {
    var s1 := Replace(s, '\\', "\\\\");
    var s2 := Replace(s1, '\n', "\\n");
    var s3 := Replace(s2, '\r', "\\r");
    var s4 := Replace(s3, '\t', "\\t");
    var s5 := Replace(s4, '\U{C}', "\\f");
    var s6 := Replace(s5, '\U{B}', "\\v");
    var s7 := Replace(s6, '\0', "\\0");
    Replace(s7, quote, ['\\', quote])
  }

  // What becomes of a single character.
  function EscapeChar(c: char, quote: char): string {
    if c == '\\' then "\\\\"
    else if c == '\n' then "\\n"
    else if c == '\r' then "\\r"
    else if c == '\t' then "\\t"
    else if c == '\U{C}' then "\\f"
    else if c == '\U{B}' then "\\v"
    else if c == '\0' then "\\0"
    else if c == quote then ['\\', quote]
    else [c]
  }

  lemma {:induction false} ReplaceConcat(a: string, b: string, c: char, text: string)
    ensures Replace(a + b, c, text) == Replace(a, c, text) + Replace(b, c, text)
  {
    if a == "" {
      assert a + b == b;
    } else {
      assert (a + b)[1..] == a[1..] + b;
      ReplaceConcat(a[1..], b, c, text);
    }
  }

  lemma ReplaceOne(d: char, c: char, text: string)
    ensures Replace([d], c, text) == if d == c then text else [d]
  {
    assert [d][1..] == "";
  }

  lemma ReplacePair(d: char, e: char, c: char, text: string)
    requires d != c && e != c
    ensures Replace([d, e], c, text) == [d, e]
  {
    ReplaceOne(d, c, text);
    ReplaceOne(e, c, text);
    ReplaceConcat([d], [e], c, text);
    assert [d, e] == [d] + [e];
  }

  // The replacements do not get in each other's way.
  lemma EscapeOne(c: char, quote: char)
    requires IsQuote(quote)
    ensures EscapeString([c], quote) == EscapeChar(c, quote)
  {
    hide Replace;
    forall d: char, text: string
      ensures Replace([c], d, text) == if c == d then text else [c]
    {
      ReplaceOne(c, d, text);
    }
    forall a: char, b: char, d: char, text: string | a != d && b != d
      ensures Replace([a, b], d, text) == [a, b]
    {
      ReplacePair(a, b, d, text);
    }
  }

  lemma EscapeConcat(a: string, b: string, quote: char)
    ensures EscapeString(a + b, quote) == EscapeString(a, quote) + EscapeString(b, quote)
  {
    hide Replace;
    forall x: string, y: string, d: char, text: string
      ensures Replace(x + y, d, text) == Replace(x, d, text) + Replace(y, d, text)
    {
      ReplaceConcat(x, y, d, text);
    }
  }

  lemma EscapeStep(s: string, quote: char)
    requires IsQuote(quote) && s != ""
    ensures EscapeString(s, quote) == EscapeChar(s[0], quote) + EscapeString(s[1..], quote)
  {
    hide EscapeString, EscapeChar;
    assert s == [s[0]] + s[1..];
    EscapeConcat([s[0]], s[1..], quote);
    EscapeOne(s[0], quote);
  }

  function Quoted(s: string, quote: char): string {
    [quote] + EscapeString(s, quote) + [quote]
  }

  lemma EscapedChar(c: char, quote: char, rest: string)
    requires IsQuote(quote)
    ensures var t := EscapeChar(c, quote); StringBody(t + rest, quote) == Prefixed(c, |t|, StringBody(rest, quote))
  {
    var t := EscapeChar(c, quote);
    var s := t + rest;
    if t == [c] {
      StringStep(s, quote);
      assert s[1..] == rest;
    } else {
      StringEscapeStep(s, quote);
      assert |t| == 2 && s[1..][0] == t[1];
      var e := Escape(s[1..]);
      assert e == Some((c, 1));
      assert s[1 + e.value.1..] == rest;
    }
  }

  // The body of a written literal is scanned up to its closing quote.
  lemma {:induction false} ScansEscaped(s: string, quote: char, rest: string)
    requires IsQuote(quote)
    ensures StringBody(EscapeString(s, quote) + [quote] + rest, quote) == Some((s, |EscapeString(s, quote)| + 1))
  {
    hide EscapeString, StringBody, EscapeChar;
    if s == "" {
      EscapeNothing(quote);
      StringEnd(EscapeString(s, quote) + [quote] + rest, quote);
    } else {
      EscapeStep(s, quote);
      var tail := EscapeString(s[1..], quote) + [quote] + rest;
      ScansEscaped(s[1..], quote, rest);
      EscapedChar(s[0], quote, tail);
      assert EscapeString(s, quote) + [quote] + rest == EscapeChar(s[0], quote) + tail;
      assert [s[0]] + s[1..] == s;
    }
  }

  lemma EscapeNothing(quote: char)
    ensures EscapeString("", quote) == ""
  {
  }

  lemma ScansQuoted(s: string, quote: char, rest: string)
    requires IsQuote(quote)
    ensures Token(Quoted(s, quote) + rest) == Some((Lexeme(STRING, s), |Quoted(s, quote)|))
  {
    hide EscapeString, StringBody;
    var body := EscapeString(s, quote) + [quote] + rest;
    ScansEscaped(s, quote, rest);
    assert (Quoted(s, quote) + rest)[1..] == body;
  }

  // Lexing an escaped and quoted string gives one STRING token with its value.
  lemma StringRoundTrip(s: string, quote: char)
    requires IsQuote(quote)
    ensures Tokens(Quoted(s, quote)) == Some([Lexeme(STRING, s), Lexeme(EOF, "")])
  {
    hide EscapeString, Token, NextToken, Tokens;
    var text := Quoted(s, quote);
    ScansQuoted(s, quote, "");
    assert text + "" == text;
    assert text[|text|..] == "";
    NextIsToken(text);
    TokensStep(text);
    TokensEnd();
    assert [Lexeme(STRING, s)] + [Lexeme(EOF, "")] == [Lexeme(STRING, s), Lexeme(EOF, "")];
  }

  // ---------------------------------------------------------------- the parser's view of a token

  // numeral gives the decimal text of the value parseFloat reads.
  function ReadLexeme(l: Lexeme, numeral: string -> string): E.Token {
    match l.kind
    case STRING => E.TString(l.value)
    case NUMBER => E.TNumber(numeral(l.value))
    case BOOLEAN => E.TBoolean(Upper(l.value) == "TRUE")
    case IDENTIFIER => E.TIdent(l.value)
    case Keyword(upper) => KeywordToken(upper)
    case Punctuation(text) => PunctuationToken(text)
    case EOF => E.EOF
    case _ => E.Other(l.value)
  }

  function KeywordToken(upper: string): E.Token {
    if upper == "NULL" then E.TNull
    else if upper == "NOT" then E.TNot
    else if upper == "AND" then E.TOp(E.And)
    else if upper == "OR" then E.TOp(E.Or)
    else if upper == "IN" then E.TOp(E.In)
    else if upper == "LIKE" then E.TOp(E.Like)
    else if upper == "MATCHES" then E.TOp(E.Matches)
    else if upper == "CONTAINS" then E.TOp(E.Contains)
    else E.Other(upper)
  }

  function PunctuationToken(text: string): E.Token {
    if text == "(" then E.LParen
    else if text == ")" then E.RParen
    else if text == "[" then E.LBracket
    else if text == "]" then E.RBracket
    else if text == "{" then E.LBrace
    else if text == "}" then E.RBrace
    else if text == "," then E.Comma
    else if text == "." then E.Dot
    else if text == ":" then E.Colon
    else if text == "=" then E.TOp(E.Eq)
    else if text == "!=" then E.TOp(E.Ne)
    else if text == ">" then E.TOp(E.Gt)
    else if text == ">=" then E.TOp(E.Ge)
    else if text == "<" then E.TOp(E.Lt)
    else if text == "<=" then E.TOp(E.Le)
    else if text == "||" then E.TOp(E.Concat)
    else if text == "+" then E.TOp(E.Plus)
    else if text == "-" then E.TOp(E.Minus)
    else if text == "*" then E.TOp(E.Star)
    else if text == "/" then E.TOp(E.Slash)
    else if text == "%" then E.TOp(E.Percent)
    else E.Other(text)
  }

  function ReadAll(ls: seq<Lexeme>, numeral: string -> string): (ts: seq<E.Token>)
    ensures |ts| == |ls|
  {
    if ls == [] then [] else [ReadLexeme(ls[0], numeral)] + ReadAll(ls[1..], numeral)
  }

  // ---------------------------------------------------------------- spelling a token

  // A numeral the lexer takes for a number as it stands.
  ghost predicate NumberText(text: string) {
    text != "" && IsDigit(text[0]) && Number(text) == (NUMBER, |text|)
  }

  ghost predicate IdentifierText(name: string) {
    && name != ""
    && !IsDigit(name[0])
    && (forall i :: 0 <= i < |name| ==> IsWord(name[i]))
    && Upper(name) !in KEYWORDS
  }

  // What source text can say: names that are identifiers, numerals in decimal form.
  ghost predicate Spellable(t: E.Token, numeral: string -> string) {
    match t
    case TNumber(text) => NumberText(text) && numeral(text) == text
    case TIdent(name) => IdentifierText(name)
    case Other(_) => false
    case EOF => false
    case _ => true
  }

  function OperatorText(op: E.BinOp): string {
    match op
    case Or => "OR"
    case And => "AND"
    case Eq => "="
    case Ne => "!="
    case In => "IN"
    case Like => "LIKE"
    case Matches => "MATCHES"
    case Contains => "CONTAINS"
    case Gt => ">"
    case Ge => ">="
    case Lt => "<"
    case Le => "<="
    case Concat => "||"
    case Plus => "+"
    case Minus => "-"
    case Star => "*"
    case Slash => "/"
    case Percent => "%"
  }

  function Spell(t: E.Token): string {
    match t
    case TString(s) => Quoted(s, '"')
    case TNumber(text) => text
    case TBoolean(b) => if b then "TRUE" else "FALSE"
    case TNull => "NULL"
    case TIdent(name) => name
    case TOp(op) => OperatorText(op)
    case TNot => "NOT"
    case LParen => "("
    case RParen => ")"
    case LBracket => "["
    case RBracket => "]"
    case LBrace => "{"
    case RBrace => "}"
    case Comma => ","
    case Dot => "."
    case Colon => ":"
    case Other(name) => name
    case EOF => ""
  }

  // Tokens with one space between them.
  function Write(ts: seq<E.Token>): string {
    if ts == [] then ""
    else if |ts| == 1 then Spell(ts[0])
    else Spell(ts[0]) + [' '] + Write(ts[1..])
  }

  // ---------------------------------------------------------------- scanning a spelled token

  ghost predicate Blank(rest: string) {
    rest == "" || rest[0] == ' '
  }

  // The text scans as the token t, whatever follows the blank behind it.
  ghost predicate ScansAs(text: string, t: E.Token, rest: string, numeral: string -> string) {
    && text != "" && !IsWhitespace(text[0])
    && Token(text + rest).Some?
    && var (l, n) := Token(text + rest).value;
       n == |text| && l.kind != COMMENT && ReadLexeme(l, numeral) == t
  }

  lemma {:induction false} RunOver(s: string, rest: string, p: char -> bool)
    requires rest == "" || !p(rest[0])
    ensures Run(s + rest, p) == Run(s, p)
  {
    if s == "" {
      assert s + rest == rest;
    } else {
      assert (s + rest)[1..] == s[1..] + rest;
      RunOver(s[1..], rest, p);
    }
  }

  lemma {:induction false} RunAll(s: string, p: char -> bool)
    requires forall i :: 0 <= i < |s| ==> p(s[i])
    ensures Run(s, p) == s
  {
    if s != "" {
      RunAll(s[1..], p);
    }
  }

  lemma ScansWord(word: string, rest: string)
    requires word != "" && !IsDigit(word[0]) && forall i :: 0 <= i < |word| ==> IsWord(word[i])
    requires Blank(rest)
    ensures Token(word + rest) == Some((Lexeme(KeywordKind(word), word), |word|))
  {
    hide Run, Number, StringBody, BlockText, KeywordKind;
    assert IsWord(word[0]);
    RunOver(word, rest, IsWord);
    RunAll(word, IsWord);
  }

  // An upper-case word is its own upper case.
  lemma {:induction false} UpperUpper(word: string)
    requires forall i :: 0 <= i < |word| ==> 'A' <= word[i] <= 'Z'
    ensures Upper(word) == word
  {
    if word != "" {
      UpperUpper(word[1..]);
    }
  }

  lemma ScansKeyword(word: string, rest: string, t: E.Token, numeral: string -> string)
    requires word != "" && forall i :: 0 <= i < |word| ==> 'A' <= word[i] <= 'Z'
    requires word in KEYWORDS && Blank(rest)
    requires t == if word == "TRUE" || word == "FALSE" then E.TBoolean(word == "TRUE") else KeywordToken(word)
    ensures ScansAs(word, t, rest, numeral)
  {
    hide Token, KeywordToken, KEYWORDS, Upper;
    assert 'A' <= word[0] <= 'Z';
    ScansWord(word, rest);
    UpperUpper(word);
  }

  lemma ScansIdentifier(name: string, rest: string, numeral: string -> string)
    requires IdentifierText(name) && Blank(rest)
    ensures ScansAs(name, E.TIdent(name), rest, numeral)
  {
    hide Token, Upper;
    assert IsWord(name[0]);
    ScansWord(name, rest);
  }

  // What cannot continue a numeral.
  ghost predicate EndsNumeral(rest: string) {
    rest == "" || (!IsDigit(rest[0]) && rest[0] !in {'.', 'e', 'E', '+', '-'})
  }

  lemma PeekOver(s: string, rest: string, i: nat)
    requires i <= |s| && EndsNumeral(rest)
    ensures i < |s| ==> Peek(s + rest, i) == Peek(s, i)
    ensures i == |s| ==> Peek(s, i) == NUL && Peek(s + rest, i) == Peek(rest, 0)
    ensures !IsDigit(Peek(rest, 0)) && Peek(rest, 0) !in {'.', 'e', 'E', '+', '-'}
  {
  }

  lemma ScansNumber(text: string, rest: string, numeral: string -> string)
    requires NumberText(text) && numeral(text) == text && Blank(rest)
    ensures ScansAs(text, E.TNumber(text), rest, numeral)
  {
    hide NumberLength;
    LengthOver(text, rest);
    var n := NumberLength(text);
    assert n == |text|;
    PeekOver(text, rest, n);
  }

  lemma LengthOver(text: string, rest: string)
    requires EndsNumeral(rest)
    ensures NumberLength(text + rest) == NumberLength(text)
  {
    hide DecimalLength, ExponentLength;
    DecimalOver(text, rest);
    var d := DecimalLength(text);
    ExponentOver(text[d..], rest);
    assert (text + rest)[d..] == text[d..] + rest;
  }

  lemma DecimalOver(s: string, rest: string)
    requires EndsNumeral(rest)
    ensures DecimalLength(s + rest) == DecimalLength(s)
  {
    hide Run;
    RunOver(s, rest, IsDigit);
    var whole := |Run(s, IsDigit)|;
    PeekOver(s, rest, whole);
    if whole + 1 <= |s| {
      PeekOver(s, rest, whole + 1);
      RunOver(s[whole + 1..], rest, IsDigit);
      assert (s + rest)[whole + 1..] == s[whole + 1..] + rest;
    }
  }

  lemma DropOver(s: string, rest: string, i: nat)
    requires i <= |s|
    ensures (s + rest)[i..] == s[i..] + rest
  {
  }

  lemma ExponentOver(s: string, rest: string)
    requires EndsNumeral(rest)
    ensures ExponentLength(s + rest) == ExponentLength(s)
  {
    hide Run;
    PeekOver(s, rest, 0);
    if s != "" {
      PeekOver(s, rest, 1);
      RunOver(s[1..], rest, IsDigit);
      DropOver(s, rest, 1);
      if |s| > 1 {
        RunOver(s[2..], rest, IsDigit);
        DropOver(s, rest, 2);
      }
    }
  }

  lemma ScansMark(c: char, rest: string)
    requires c in {'(', ')', '{', '}', '[', ']', ',', '.', ':', '+', '*', '/', '%', '=', '>', '<', '-'}
    requires Blank(rest)
    ensures Token([c] + rest) == Some((Lexeme(OperatorKind([c]), [c]), 1))
  {
    hide OperatorKind, Run, StringBody, BlockText, Number;
    var s := [c] + rest;
    assert s[..1] == [c];
    assert |s| > 1 ==> s[..2] == [c, ' '];
  }

  lemma ScansDoubleMark(c: char, d: char, rest: string)
    requires [c, d] in {">=", "<=", "!=", "||"}
    requires Blank(rest)
    ensures Token([c, d] + rest) == Some((Lexeme(OperatorKind([c, d]), [c, d]), 2))
  {
    hide OperatorKind, Run, StringBody, BlockText, Number;
    assert ">=" == ['>', '='] && "<=" == ['<', '='] && "!=" == ['!', '='] && "||" == ['|', '|'];
    var s := [c, d] + rest;
    assert s[..2] == [c, d];
  }

  lemma ScansPunctuation(text: string, t: E.Token, rest: string, numeral: string -> string)
    requires |text| == 1 &&
      text[0] in {'(', ')', '{', '}', '[', ']', ',', '.', ':', '+', '*', '/', '%', '=', '>', '<', '-'}
    requires Blank(rest)
    requires OperatorKind(text) == Punctuation(text) && PunctuationToken(text) == t
    ensures ScansAs(text, t, rest, numeral)
  {
    hide PunctuationToken, Token, OperatorKind;
    ScansMark(text[0], rest);
    assert text == [text[0]];
  }

  lemma ScansDouble(text: string, t: E.Token, rest: string, numeral: string -> string)
    requires text in {">=", "<=", "!=", "||"}
    requires Blank(rest)
    requires OperatorKind(text) == Punctuation(text) && PunctuationToken(text) == t
    ensures ScansAs(text, t, rest, numeral)
  {
    hide PunctuationToken, Token, OperatorKind;
    assert |text| == 2 && text == [text[0], text[1]] && text[0] in {'>', '<', '!', '|'};
    ScansDoubleMark(text[0], text[1], rest);
  }

  lemma ScansSpelled(t: E.Token, rest: string, numeral: string -> string)
    requires Spellable(t, numeral) && Blank(rest)
    ensures ScansAs(Spell(t), t, rest, numeral)
  {
    hide ScansAs, Token, NumberText, IdentifierText, Blank;
    match t
    case TString(s) => ScansString(s, rest, numeral);
    case TNumber(text) => ScansNumber(text, rest, numeral);
    case TIdent(name) => ScansIdentifier(name, rest, numeral);
    case TBoolean(b) => ScansKeyword(Spell(t), rest, t, numeral);
    case TNull => ScansKeyword("NULL", rest, t, numeral);
    case TNot => ScansKeyword("NOT", rest, t, numeral);
    case TOp(op) => ScansOperator(op, rest, numeral);
    case _ => ScansPunctuation(Spell(t), t, rest, numeral);
  }

  lemma ScansOperator(op: E.BinOp, rest: string, numeral: string -> string)
    requires Blank(rest)
    ensures ScansAs(OperatorText(op), E.TOp(op), rest, numeral)
  {
    hide ScansAs, Blank, Token, KEYWORDS, KeywordToken, PunctuationToken, OperatorKind;
    match op
    case Or => ScansWordOperator(op, rest, numeral);
    case And => ScansWordOperator(op, rest, numeral);
    case In => ScansWordOperator(op, rest, numeral);
    case Like => ScansWordOperator(op, rest, numeral);
    case Matches => ScansWordOperator(op, rest, numeral);
    case Contains => ScansWordOperator(op, rest, numeral);
    case Ne => ScansDoubleOperator(op, rest, numeral);
    case Ge => ScansDoubleOperator(op, rest, numeral);
    case Le => ScansDoubleOperator(op, rest, numeral);
    case Concat => ScansDoubleOperator(op, rest, numeral);
    case _ => ScansSingleOperator(op, rest, numeral);
  }

  lemma ScansWordOperator(op: E.BinOp, rest: string, numeral: string -> string)
    requires Blank(rest)
    requires op in {E.Or, E.And, E.In, E.Like, E.Matches, E.Contains}
    ensures ScansAs(OperatorText(op), E.TOp(op), rest, numeral)
  {
    hide ScansAs, Blank, Token;
    ScansKeyword(OperatorText(op), rest, E.TOp(op), numeral);
  }

  lemma ScansDoubleOperator(op: E.BinOp, rest: string, numeral: string -> string)
    requires Blank(rest)
    requires op in {E.Ne, E.Ge, E.Le, E.Concat}
    ensures ScansAs(OperatorText(op), E.TOp(op), rest, numeral)
  {
    hide ScansAs, Blank, Token, KEYWORDS;
    ScansDouble(OperatorText(op), E.TOp(op), rest, numeral);
  }

  lemma ScansSingleOperator(op: E.BinOp, rest: string, numeral: string -> string)
    requires Blank(rest)
    requires op in {E.Eq, E.Gt, E.Lt, E.Plus, E.Minus, E.Star, E.Slash, E.Percent}
    ensures ScansAs(OperatorText(op), E.TOp(op), rest, numeral)
  {
    hide ScansAs, Blank, Token, KEYWORDS;
    ScansPunctuation(OperatorText(op), E.TOp(op), rest, numeral);
  }

  lemma ScansString(s: string, rest: string, numeral: string -> string)
    ensures ScansAs(Quoted(s, '"'), E.TString(s), rest, numeral)
  {
    hide Token, EscapeString;
    ScansQuoted(s, '"', rest);
  }

  // ---------------------------------------------------------------- token streams

  lemma {:induction false} WriteThenLex(ts: seq<E.Token>, numeral: string -> string)
    requires ts != [] && forall i :: 0 <= i < |ts| ==> Spellable(ts[i], numeral)
    ensures Write(ts) != "" && !IsWhitespace(Write(ts)[0])
    ensures Tokens(Write(ts)).Some? && ReadAll(Tokens(Write(ts)).value, numeral) == ts + [E.EOF]
    ensures Tokens([' '] + Write(ts)) == Tokens(Write(ts))
  {
    hide Spell, Spellable, Token, NextToken, Tokens, ReadLexeme;
    var text := Write(ts);
    if |ts| == 1 {
      ScansSpelled(ts[0], "", numeral);
      assert text + "" == text;
      TokensEnd();
      StepOver(text, "", ts[0], numeral);
      EofAlone(numeral);
    } else {
      var rest := [' '] + Write(ts[1..]);
      assert text == Spell(ts[0]) + rest;
      ScansSpelled(ts[0], rest, numeral);
      WriteThenLex(ts[1..], numeral);
      StepOver(Spell(ts[0]), rest, ts[0], numeral);
      assert ts + [E.EOF] == [ts[0]] + (ts[1..] + [E.EOF]);
    }
  }

  lemma EofAlone(numeral: string -> string)
    ensures ReadAll([Lexeme(EOF, "")], numeral) == [E.EOF]
  {
    var ls := [Lexeme(EOF, "")];
    assert ls[1..] == [];
  }

  // One token off the front of a text.
  lemma StepOver(text: string, rest: string, t: E.Token, numeral: string -> string)
    requires ScansAs(text, t, rest, numeral) && Tokens(rest).Some?
    ensures var s := text + rest;
      && s != "" && !IsWhitespace(s[0])
      && Tokens(s).Some?
      && ReadAll(Tokens(s).value, numeral) == [t] + ReadAll(Tokens(rest).value, numeral)
      && Tokens([' '] + s) == Tokens(s)
  {
    hide Token, NextToken, Tokens, ReadLexeme;
    var s := text + rest;
    assert s[0] == text[0];
    NextIsToken(s);
    TokensStep(s);
    TokensStep([' '] + s);
    assert s[|text|..] == rest;
    assert ([' '] + s)[1 + |text|..] == rest;
    var l := Token(s).value.0;
    assert ([l] + Tokens(rest).value)[1..] == Tokens(rest).value;
  }

  // ---------------------------------------------------------------- from source text to tree

  // Writing an expression with the fewest parentheses, one space between its tokens,
  // lexing that text and parsing the tokens gives the expression back.
  method SourceRoundTrip(e: E.Expr, numeral: string -> string) returns (r: P.Result<E.Expr>)
    requires forall i :: 0 <= i < |E.Flatten(ExprPrinter.Minimal(e))| ==>
      Spellable(E.Flatten(ExprPrinter.Minimal(e))[i], numeral)
    ensures r == P.Ok(e)
  {
    hide Spellable, Tokens, Write;
    var ts := E.Flatten(ExprPrinter.Minimal(e));
    WriteThenLex(ts, numeral);
    var lexer := new L.Lexer(Write(ts));
    assert lexer.Ahead() == Write(ts);
    var lexemes := lexer.Tokenize();
    assert [] + Tokens(Write(ts)).value == Tokens(Write(ts)).value;
    var stream := ReadAll(lexemes.value, numeral);
    assert stream == ts + [E.EOF] && stream[..|ts|] == ts;
    ExprPrinter.MinimalIsRight(e);
    ExprComplete.ReadsExactlyTheGrammar(stream, 0, ExprPrinter.Minimal(e), |ts|);
    var parser := new P.Parser(stream);
    r := parser.ParseExpression();
  }
}
