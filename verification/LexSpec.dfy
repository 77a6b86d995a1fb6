// The tokens of the query language (lexer/token.ts) and what the lexer scans from the
// front of a text (lexer/tokenizer.ts).
module LexSpec {
  import opened Seqs
  import opened Strings

  datatype Kind =
    | STRING | NUMBER | DURATION | BYTES | BOOLEAN | IDENTIFIER
    | Keyword(upper: string)
    | Punctuation(text: string)
    | COMMENT | UNKNOWN | EOF

  datatype Lexeme = Lexeme(kind: Kind, value: string)

  const KEYWORDS: set<string> := {
    "SELECT", "FROM", "WHERE", "ORDER", "BY", "LIMIT", "OFFSET", "NAVIGATE", "TO", "WITH", "CAPTURE", "SET",
    "SHOW", "FOR", "EACH", "IN", "IF", "THEN", "ELSE", "INSERT", "INTO", "UPDATE", "DELETE", "AS", "AND", "OR",
    "NOT", "LIKE", "MATCHES", "CONTAINS", "NULL", "TRUE", "FALSE", "PARALLEL", "BATCH", "STREAM", "RETRY",
    "CLICK", "TYPE", "WAIT", "SCREENSHOT", "PDF", "EVALUATE", "CACHE", "CACHED", "INVALIDATE", "COOKIES",
    "HEADERS", "CONNECTIONS", "METRICS", "STATE"
  }

  // ---------------------------------------------------------------- characters

  const NUL: char := '\0'

  function Peek(s: string, i: nat): char {
    if i < |s| then s[i] else NUL
  }

  predicate IsAlpha(c: char) {
    'a' <= c <= 'z' || 'A' <= c <= 'Z'
  }

  predicate IsWord(c: char) {
    IsAlpha(c) || IsDigit(c) || c == '_'
  }

  predicate IsWhitespace(c: char) {
    c == ' ' || c == '\t' || c == '\n' || c == '\r'
  }

  predicate InLine(c: char) {
    c != '\n'
  }

  // The longest prefix of characters with property p.
  function Run(s: string, p: char -> bool): (r: string)
    ensures |r| <= |s| && s[..|r|] == r
    ensures |r| < |s| ==> !p(s[|r|])
    ensures s != "" && p(s[0]) ==> r != ""
  {
    if s != "" && p(s[0]) then [s[0]] + Run(s[1..], p) else ""
  }

  lemma Shift(a: string, c: char, b: string)
    ensures a + ([c] + b) == (a + [c]) + b
  {
  }

  lemma RunStep(s: string, p: char -> bool)
    ensures Run(s, p) == if s != "" && p(s[0]) then [s[0]] + Run(s[1..], p) else ""
  {
  }

  function Upper(s: string): string {
    if s == "" then ""
    else [if 'a' <= s[0] <= 'z' then 'A' + (s[0] - 'a') else s[0]] + Upper(s[1..])
  }

  // ---------------------------------------------------------------- what is scanned

  function KeywordKind(word: string): Kind {
    var upper := Upper(word);
    if upper !in KEYWORDS then IDENTIFIER
    else if upper == "TRUE" || upper == "FALSE" then BOOLEAN
    else Keyword(upper)
  }

  function Unicode(s: string): char
    requires |s| >= 4 && IsHexDigit(s[0]) && IsHexDigit(s[1]) && IsHexDigit(s[2]) && IsHexDigit(s[3])
  {
    CodeUnit(HexDigit(s[0]) * 4096 + HexDigit(s[1]) * 256 + HexDigit(s[2]) * 16 + HexDigit(s[3]))
  }

  function Escaped(c: char): char {
    match c
    case 'n' => '\n'
    case 't' => '\t'
    case 'r' => '\r'
    case '0' => '\0'
    case 'b' => '\U{8}'
    case 'f' => '\U{C}'
    case 'v' => '\U{B}'
    case _ => c
  }

  // An escape sequence behind its backslash: the character and how many were read.
  function Escape(s: string): (r: Option<(char, nat)>)
    ensures r.Some? ==> 0 < r.value.1 <= |s|
  {
    if s == "" then None
    else if s[0] != 'u' then Some((Escaped(s[0]), 1))
    else if |s| >= 5 && IsHexDigit(s[1]) && IsHexDigit(s[2]) && IsHexDigit(s[3]) && IsHexDigit(s[4]) then
      Some((Unicode(s[1..]), 5))
    else None
  }

  // The rest of a string literal: its value and how many characters were read.
  function StringBody(s: string, quote: char): (r: Option<(string, nat)>)
    ensures r.Some? ==> 0 < r.value.1 <= |s|
    decreases |s|
  {
    if s == "" then None
    else if s[0] == quote then Some(("", 1))
    else if s[0] == '\\' then
      var e := Escape(s[1..]);
      if e.None? then None else Prefixed(e.value.0, 1 + e.value.1, StringBody(s[1 + e.value.1..], quote))
    else Prefixed(s[0], 1, StringBody(s[1..], quote))
  }

  lemma StringEnd(s: string, quote: char)
    ensures s == "" ==> StringBody(s, quote) == None
    ensures s != "" && s[0] == quote ==> StringBody(s, quote) == Some(("", 1))
  {
  }

  lemma StringStep(s: string, quote: char)
    requires s != "" && s[0] != quote && s[0] != '\\'
    ensures StringBody(s, quote) == Prefixed(s[0], 1, StringBody(s[1..], quote))
  {
  }

  lemma StringEscapeStep(s: string, quote: char)
    requires s != "" && s[0] != quote && s[0] == '\\'
    ensures var e := Escape(s[1..]);
      StringBody(s, quote) ==
        if e.None? then None else Prefixed(e.value.0, 1 + e.value.1, StringBody(s[1 + e.value.1..], quote))
  {
  }

  function Prefixed(c: char, n: nat, r: Option<(string, nat)>): Option<(string, nat)> {
    if r.None? then None else Some(([c] + r.value.0, n + r.value.1))
  }

  function DecimalLength(s: string): (n: nat)
    ensures n <= |s|
    ensures s != "" && IsDigit(s[0]) ==> n > 0
  {
    var whole := |Run(s, IsDigit)|;
    if Peek(s, whole) == '.' && IsDigit(Peek(s, whole + 1)) then whole + 1 + |Run(s[whole + 1..], IsDigit)| else whole
  }

  function ExponentLength(s: string): (n: nat)
    ensures n <= |s|
  {
    if Peek(s, 0) == 'e' || Peek(s, 0) == 'E' then
      var digits := if Peek(s, 1) == '+' || Peek(s, 1) == '-' then 2 else 1;
      digits + |Run(s[digits..], IsDigit)|
    else 0
  }

  function NumberLength(s: string): (n: nat)
    ensures n <= |s|
    ensures s != "" && IsDigit(s[0]) ==> n > 0
  {
    var decimal := DecimalLength(s);
    decimal + ExponentLength(s[decimal..])
  }

  function Number(s: string): (r: (Kind, nat))
    ensures r.1 <= |s|
    ensures s != "" && IsDigit(s[0]) ==> r.1 > 0
  {
    var n := NumberLength(s);
    var suffix, next := Peek(s, n), Peek(s, n + 1);
    if suffix == 'm' && next == 's' then (DURATION, n + 2)
    else if (suffix == 's' || suffix == 'm' || suffix == 'h') && !(IsAlpha(next) || IsDigit(next)) then
      (DURATION, n + 1)
    else if (suffix == 'K' || suffix == 'M' || suffix == 'G') && next == 'B' then (BYTES, n + 2)
    else (NUMBER, n)
  }

  // Whether an end mark of a block comment stands at i.
  predicate EndsBlock(s: string, i: nat) {
    i + 1 < |s| && s[i] == '*' && s[i + 1] == '/'
  }

  // The text of a block comment: up to its first end mark, or all of s without one.
  function BlockText(s: string): (text: string)
    ensures |text| <= |s| && s[..|text|] == text
    ensures |text| < |s| ==> EndsBlock(s, |text|)
    ensures forall i :: 0 <= i < |text| ==> !EndsBlock(s, i)
  {
    if s == "" || (s[0] == '*' && Peek(s, 1) == '/') then ""
    else
      var rest := BlockText(s[1..]);
      assert forall i :: 0 < i < |s| ==> EndsBlock(s, i) == EndsBlock(s[1..], i - 1);
      [s[0]] + rest
  }

  lemma BlockStep(s: string)
    ensures BlockText(s) == if s == "" || (s[0] == '*' && Peek(s, 1) == '/') then "" else [s[0]] + BlockText(s[1..])
  {
  }

  function OperatorLength(s: string): (n: nat)
    requires s != ""
    ensures 0 < n <= |s|
  {
    if |s| > 1 && s[..2] in {">=", "<=", "!=", "->", "||"} then 2 else 1
  }

  function OperatorKind(text: string): Kind {
    if text in {"(", ")", "{", "}", "[", "]", ",", ".", ":", ";", "+", "*", "/", "%", "=", ">", "<", "-",
                ">=", "<=", "!=", "->", "||"}
    then Punctuation(text)
    else UNKNOWN
  }

  // The token at the front of s and how many characters it takes.
  function Token(s: string): (r: Option<(Lexeme, nat)>)
    requires s != ""
    ensures r.Some? ==> 0 < r.value.1 <= |s|
  {
    var c, next := s[0], Peek(s, 1);
    if (c == '-' && next == '-') || (c == '/' && next == '/') then
      var text := Run(s[2..], InLine);
      Some((Lexeme(COMMENT, text), 2 + |text|))
    else if c == '/' && next == '*' then
      var text := BlockText(s[2..]);
      Some((Lexeme(COMMENT, text), 2 + |text| + if 2 + |text| < |s| then 2 else 0))
    else if c == '"' || c == '\'' then
      var body := StringBody(s[1..], c);
      if body.None? then None else Some((Lexeme(STRING, body.value.0), 1 + body.value.1))
    else if IsDigit(c) then
      var (kind, n) := Number(s);
      Some((Lexeme(kind, s[..n]), n))
    else if IsAlpha(c) || c == '_' then
      var word := Run(s, IsWord);
      Some((Lexeme(KeywordKind(word), word), |word|))
    else
      var n := OperatorLength(s);
      Some((Lexeme(OperatorKind(s[..n]), s[..n]), n))
  }

  // Whitespace in front of a token is skipped; at the end of the text there is EOF.
  function NextToken(s: string): (r: Option<(Lexeme, nat)>)
    ensures r.Some? ==> r.value.1 <= |s|
    ensures r.Some? && s != "" ==> r.value.1 > 0
  {
    var w := |Run(s, IsWhitespace)|;
    if w == |s| then Some((Lexeme(EOF, ""), w))
    else
      var t := Token(s[w..]);
      if t.None? then None else Some((t.value.0, w + t.value.1))
  }

  // The whole token stream; None is a thrown error.
  function Tokens(s: string): Option<seq<Lexeme>>
    decreases |s|
  {
    if s == "" then Some([Lexeme(EOF, "")])
    else
      var t := NextToken(s);
      if t.None? then None
      else
        var rest := Tokens(s[t.value.1..]);
        if rest.None? then None
        else Some((if t.value.0.kind == COMMENT then [] else [t.value.0]) + rest.value)
  }

  // No whitespace in front, or one space.
  lemma NextIsToken(s: string)
    requires s != "" && !IsWhitespace(s[0])
    ensures NextToken(s) == Token(s)
    ensures Token(s).Some? ==>
      NextToken([' '] + s) == Some((Token(s).value.0, 1 + Token(s).value.1))
  {
    hide Token;
    RunStep(s, IsWhitespace);
    RunStep([' '] + s, IsWhitespace);
    assert ([' '] + s)[1..] == s && s[0..] == s;
  }

  lemma TokensStep(s: string)
    requires s != "" && NextToken(s).Some?
    ensures var t := NextToken(s).value; var rest := Tokens(s[t.1..]);
      Tokens(s) == if rest.None? then None else Some((if t.0.kind == COMMENT then [] else [t.0]) + rest.value)
  {
  }

  lemma TokensEnd()
    ensures Tokens("") == Some([Lexeme(EOF, "")])
  {
  }

  // Only a string literal can make the lexer fail.
  lemma {:induction false} OnlyStringsFail(s: string)
    requires '"' !in s && '\'' !in s
    ensures Tokens(s).Some?
    decreases |s|
  {
    hide Run, Number, StringBody, BlockText, KeywordKind, OperatorKind;
    if s != "" {
      var w := |Run(s, IsWhitespace)|;
      assert w < |s| ==> s[w..][0] == s[w];
      OnlyStringsFail(s[NextToken(s).value.1..]);
    }
  }
}
