// How tokens are spelled, independently of the tables of the lexer: numerals with
// units, words in any case, symbols, and the escapes in string literals.
module Spellings {
  import opened Seqs
  import opened Strings
  import opened LexSpec
  import opened SourceText
  import E = ExprSyntax

  // ---------------------------------------------------------------- numerals with units

  const DURATIONS: set<string> := {"ms", "s", "m", "h"}
  const SIZES: set<string> := {"KB", "MB", "GB"}

  // A numeral with a unit directly behind it is one token of the kind of that unit.
  lemma ScansUnit(text: string, unit: string, rest: string)
    requires NumberText(text) && unit in DURATIONS + SIZES && Blank(rest)
    ensures Token(text + unit + rest) ==
      Some((Lexeme(if unit in DURATIONS then DURATION else BYTES, text + unit), |text + unit|))
  {
    hide NumberLength;
    var s, tail := text + unit + rest, unit + rest;
    assert s == text + tail && EndsNumeral(tail);
    LengthOver(text, tail);
    PeekOver(text, tail, |text|);
    assert NumberLength(text) == |text|;
    assert Peek(s, |text|) == unit[0] && Peek(s, |text| + 1) == Peek(tail, 1);
    assert s[..|text + unit|] == text + unit;
    assert Number(s) == (if unit in DURATIONS then DURATION else BYTES, |text + unit|);
  }

  // ---------------------------------------------------------------- words and symbols

  const WORDS: map<string, E.Token> := map[
    "OR" := E.TOp(E.Or), "AND" := E.TOp(E.And), "IN" := E.TOp(E.In), "LIKE" := E.TOp(E.Like),
    "MATCHES" := E.TOp(E.Matches), "CONTAINS" := E.TOp(E.Contains), "NOT" := E.TNot, "NULL" := E.TNull,
    "TRUE" := E.TBoolean(true), "FALSE" := E.TBoolean(false)
  ]

  // These words are read in any mixture of cases.
  lemma ScansAnyCase(word: string, rest: string, numeral: string -> string)
    requires word != "" && (forall i :: 0 <= i < |word| ==> IsAlpha(word[i])) && Blank(rest)
    requires Upper(word) in WORDS
    ensures ScansAs(word, WORDS[Upper(word)], rest, numeral)
  {
    hide Token, Upper, KeywordToken, WORDS, KEYWORDS;
    assert IsAlpha(word[0]);
    ScansWord(word, rest);
    WordToken(Upper(word));
  }

  lemma WordToken(upper: string)
    requires upper in WORDS
    ensures upper in KEYWORDS
    ensures upper != "TRUE" && upper != "FALSE" ==> WORDS[upper] == KeywordToken(upper)
    ensures upper == "TRUE" || upper == "FALSE" ==> WORDS[upper] == E.TBoolean(upper == "TRUE")
  {
  }

  const OPERATORS: map<string, E.Token> := map[
    "=" := E.TOp(E.Eq), "!=" := E.TOp(E.Ne), ">" := E.TOp(E.Gt), ">=" := E.TOp(E.Ge), "<" := E.TOp(E.Lt),
    "<=" := E.TOp(E.Le), "||" := E.TOp(E.Concat), "+" := E.TOp(E.Plus), "-" := E.TOp(E.Minus),
    "*" := E.TOp(E.Star), "/" := E.TOp(E.Slash), "%" := E.TOp(E.Percent)
  ]

  const MARKS: map<string, E.Token> := map[
    "(" := E.LParen, ")" := E.RParen, "[" := E.LBracket, "]" := E.RBracket, "{" := E.LBrace, "}" := E.RBrace,
    "," := E.Comma, "." := E.Dot, ":" := E.Colon
  ]

  lemma ScansOperatorSign(text: string, rest: string, numeral: string -> string)
    requires text in OPERATORS && Blank(rest)
    ensures ScansAs(text, OPERATORS[text], rest, numeral)
  {
    hide ScansAs, Blank, Spell, OPERATORS;
    OperatorIsSpelled(text, numeral);
    ScansSpelled(OPERATORS[text], rest, numeral);
  }

  lemma OperatorIsSpelled(text: string, numeral: string -> string)
    requires text in OPERATORS
    ensures Spellable(OPERATORS[text], numeral) && Spell(OPERATORS[text]) == text
  {
  }

  lemma ScansMarkSign(text: string, rest: string, numeral: string -> string)
    requires text in MARKS && Blank(rest)
    ensures ScansAs(text, MARKS[text], rest, numeral)
  {
    hide ScansAs, Blank, Spell, MARKS;
    MarkIsSpelled(text, numeral);
    ScansSpelled(MARKS[text], rest, numeral);
  }

  lemma MarkIsSpelled(text: string, numeral: string -> string)
    requires text in MARKS
    ensures Spellable(MARKS[text], numeral) && Spell(MARKS[text]) == text
  {
  }

  // ---------------------------------------------------------------- escapes

  // The letter behind the backslash for each character that is escaped.
  lemma EscapeLetters(quote: char)
    requires IsQuote(quote)
    ensures EscapeString("\n", quote) == ['\\', 'n'] && EscapeString("\r", quote) == ['\\', 'r']
    ensures EscapeString("\t", quote) == ['\\', 't'] && EscapeString("\U{C}", quote) == ['\\', 'f']
    ensures EscapeString("\U{B}", quote) == ['\\', 'v'] && EscapeString("\0", quote) == ['\\', '0']
    ensures EscapeString("\\", quote) == ['\\', '\\'] && EscapeString([quote], quote) == ['\\', quote]
  {
    hide EscapeString;
    EscapeOne('\n', quote);
    EscapeOne('\r', quote);
    EscapeOne('\t', quote);
    EscapeOne('\U{C}', quote);
    EscapeOne('\U{B}', quote);
    EscapeOne('\0', quote);
    EscapeOne('\\', quote);
    EscapeOne(quote, quote);
  }

  predicate NeedsEscape(c: char, quote: char) {
    c in {'\n', '\r', '\t', '\U{C}', '\U{B}', '\0', '\\', quote}
  }

  // Escaping leaves a text alone exactly when nothing in it needs an escape.
  lemma {:induction false} EscapesWhatNeedsIt(s: string, quote: char)
    requires IsQuote(quote)
    ensures EscapeString(s, quote) == s <==> forall c :: c in s ==> !NeedsEscape(c, quote)
    ensures |EscapeString(s, quote)| >= |s|
    ensures |EscapeString(s, quote)| == |s| ==> EscapeString(s, quote) == s
  {
    hide EscapeString, NeedsEscape;
    if s == "" {
      EscapeNothing(quote);
    } else {
      EscapeStep(s, quote);
      EscapesWhatNeedsIt(s[1..], quote);
      EscapedLength(s[0], quote);
      assert s == [s[0]] + s[1..];
    }
  }

  lemma EscapedLength(c: char, quote: char)
    requires IsQuote(quote)
    ensures EscapeChar(c, quote) == if NeedsEscape(c, quote) then ['\\', EscapeChar(c, quote)[1]] else [c]
  {
  }

  // An escaped text holds no control character of these, and no quote but behind a
  // backslash.
  lemma {:induction false} EscapedIsPlain(s: string, quote: char)
    requires IsQuote(quote)
    ensures forall c :: c in EscapeString(s, quote) ==> c !in {'\n', '\r', '\t', '\U{C}', '\U{B}', '\0'}
    ensures forall i :: 0 <= i < |EscapeString(s, quote)| && EscapeString(s, quote)[i] == quote ==>
      i > 0 && EscapeString(s, quote)[i - 1] == '\\'
  {
    hide EscapeString;
    if s == "" {
      EscapeNothing(quote);
    } else {
      EscapeStep(s, quote);
      EscapedIsPlain(s[1..], quote);
    }
  }

  // ---------------------------------------------------------------- escapes that are read

  const LOWER: string := "0123456789abcdef"
  const UPPER: string := "0123456789ABCDEF"

  lemma HexDigits(d: nat)
    requires d < 16
    ensures IsHexDigit(LOWER[d]) && HexDigit(LOWER[d]) == d
    ensures IsHexDigit(UPPER[d]) && HexDigit(UPPER[d]) == d
  {
  }

  // \u and four hexadecimal digits, in either case, read as the code unit they spell.
  lemma ReadsCodeUnit(digits: string, a: nat, b: nat, c: nat, d: nat, rest: string)
    requires digits == LOWER || digits == UPPER
    requires a < 16 && b < 16 && c < 16 && d < 16
    ensures Escape("u" + [digits[a], digits[b], digits[c], digits[d]] + rest) ==
      Some((CodeUnit(a * 4096 + b * 256 + c * 16 + d), 5))
  {
    HexDigits(a);
    HexDigits(b);
    HexDigits(c);
    HexDigits(d);
    hide HexDigit, IsHexDigit, CodeUnit;
    var s := "u" + [digits[a], digits[b], digits[c], digits[d]] + rest;
    assert s[1..] == [digits[a], digits[b], digits[c], digits[d]] + rest;
  }

  // A backslash before anything but these letters stands for what follows it.
  lemma ReadsLetter(c: char, rest: string)
    requires c != 'u'
    ensures c !in {'n', 't', 'r', '0', 'b', 'f', 'v'} ==> Escape([c] + rest) == Some((c, 1))
    ensures Escape("b" + rest) == Some(('\U{8}', 1))
  {
  }

  // ---------------------------------------------------------------- comments

  // A comment to the end of the line, or between its marks, is as if it were not there.
  lemma LineCommentIsSkipped(text: string, rest: string)
    requires '\n' !in text && Tokens("\n" + rest).Some?
    ensures Tokens("--" + text + "\n" + rest) == Tokens("\n" + rest)
    ensures Tokens("//" + text + "\n" + rest) == Tokens("\n" + rest)
  {
    SkipsLine('-', text, rest);
    SkipsLine('/', text, rest);
    assert "--" == ['-', '-'] && "//" == ['/', '/'];
  }

  lemma SkipsLine(c: char, text: string, rest: string)
    requires c in {'-', '/'} && '\n' !in text && Tokens("\n" + rest).Some?
    ensures Tokens([c, c] + text + "\n" + rest) == Tokens("\n" + rest)
  {
    hide Run, Tokens, NextToken, StringBody, BlockText, Number, KeywordKind, OperatorKind;
    var tail := "\n" + rest;
    var s := [c, c] + text + "\n" + rest;
    assert s[2..] == text + tail && s == [c, c] + text + tail;
    RunOver(text, tail, InLine);
    RunAll(text, InLine);
    assert Token(s) == Some((Lexeme(COMMENT, text), 2 + |text|));
    NextIsToken(s);
    TokensStep(s);
    assert s[2 + |text|..] == tail;
    assert [] + Tokens(tail).value == Tokens(tail).value;
  }

  lemma BlockCommentIsSkipped(text: string, rest: string)
    requires (forall i :: 0 <= i < |text| ==> !EndsBlock(text + "*/", i)) && Tokens(rest).Some?
    ensures Tokens("/*" + text + "*/" + rest) == Tokens(rest)
  {
    hide Run, Tokens, NextToken, Token, BlockText;
    var s := "/*" + text + "*/" + rest;
    ScansBlockComment(text, rest);
    NextIsToken(s);
    TokensStep(s);
    assert s[4 + |text|..] == rest;
    assert [] + Tokens(rest).value == Tokens(rest).value;
  }

  lemma ScansBlockComment(text: string, rest: string)
    requires forall i :: 0 <= i < |text| ==> !EndsBlock(text + "*/", i)
    ensures Token("/*" + text + "*/" + rest) == Some((Lexeme(COMMENT, text), 4 + |text|))
  {
    hide Run, StringBody, BlockText, Number, KeywordKind, OperatorKind;
    var s := "/*" + text + "*/" + rest;
    assert s[2..] == text + "*/" + rest;
    BlockTextIs(text, rest);
  }

  lemma BlockTextIs(text: string, rest: string)
    requires forall i :: 0 <= i < |text| ==> !EndsBlock(text + "*/", i)
    ensures BlockText(text + "*/" + rest) == text
  {
    var body := text + "*/" + rest;
    var found := BlockText(body);
    hide BlockText;
    assert EndsBlock(body, |text|);
    forall i | 0 <= i < |text|
      ensures !EndsBlock(body, i)
    {
      assert EndsBlock(body, i) == EndsBlock(text + "*/", i);
    }
    assert |found| == |text|;
    assert body[..|text|] == text;
  }
}
