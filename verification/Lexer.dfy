// The lexer over its moving position (lexer/tokenizer.ts).
module Lexer {
  import opened Seqs
  import opened Strings
  import opened LexSpec
  import S = LexSpec

  class Lexer {
    const input: string
    var position: nat
    var tokens: seq<Lexeme>

    ghost predicate Valid()
      reads this
    {
      position <= |input|
    }

    // The text not yet scanned.
    ghost function Ahead(): string
      requires Valid()
      reads this
    {
      input[position..]
    }

    constructor (input: string)
      ensures Valid() && this.input == input && position == 0 && tokens == []
    {
      this.input := input;
      position := 0;
      tokens := [];
    }

    method Tokenize() returns (r: Option<seq<Lexeme>>)
      requires Valid()
      modifies this
      ensures Valid()
      ensures r.None? <==> Tokens(old(Ahead())).None?
      ensures r.Some? ==> r.value == tokens == old(tokens) + Tokens(old(Ahead())).value
    {
      hide S.NextToken;
      ghost var all := Tokens(Ahead());
      while position < |input|
        invariant Valid()
        invariant all.None? <==> Tokens(Ahead()).None?
        invariant all.Some? ==> old(tokens) + all.value == tokens + Tokens(Ahead()).value
        decreases |input| - position
      {
        ghost var s := Ahead();
        var token := NextToken();
        if token.None? {
          return None;
        }
        assert Ahead() == s[S.NextToken(s).value.1..];
        if token.value.kind != COMMENT {
          tokens := tokens + [token.value];
        }
      }
      tokens := tokens + [Lexeme(EOF, "")];
      return Some(tokens);
    }

    // r and the distance moved are what the specification says.
    ghost predicate Scanned(r: Option<Lexeme>, from: nat, spec: Option<(Lexeme, nat)>)
      reads this
    {
      && (r.None? <==> spec.None?)
      && (r.Some? ==> r.value == spec.value.0 && position == from + spec.value.1)
    }

    method NextToken() returns (r: Option<Lexeme>)
      requires Valid()
      modifies this`position
      ensures Valid()
      ensures Scanned(r, old(position), S.NextToken(old(Ahead())))
    {
      hide Token;
      var blank := TakeWhile(IsWhitespace);
      if position == |input| {
        return Some(Lexeme(EOF, ""));
      }
      assert Ahead() == old(Ahead())[|blank|..];
      r := ScanToken();
    }

    method ScanToken() returns (r: Option<Lexeme>)
      requires Valid() && position < |input|
      modifies this`position
      ensures Valid()
      ensures Scanned(r, old(position), Token(old(Ahead())))
    {
      hide Run, StringBody, Number, KeywordKind, BlockText, OperatorKind;
      ghost var s := Ahead();
      var c, next := Peek(input, position), Peek(input, position + 1);
      assert c == s[0] && next == Peek(s, 1);
      if (c == '-' && next == '-') || (c == '/' && next == '/') {
        var comment := ScanComment();
        return Some(comment);
      }
      if c == '/' && next == '*' {
        var comment := ScanMultiLineComment();
        return Some(comment);
      }
      if c == '"' || c == '\'' {
        r := ScanString();
        return;
      }
      if IsDigit(c) {
        var number := ScanNumber();
        return Some(number);
      }
      if IsAlpha(c) || c == '_' {
        var word := ScanIdentifier();
        return Some(word);
      }
      var operator := ScanOperator();
      return Some(operator);
    }

    // The loop "while not at the end and p(peek), take a character".
    method TakeWhile(p: char -> bool) returns (value: string)
      requires Valid()
      modifies this`position
      ensures Valid()
      ensures value == Run(old(Ahead()), p) && position == old(position) + |value|
    {
      hide Run;
      ghost var all := Run(Ahead(), p);
      value := "";
      while position < |input| && p(input[position])
        invariant Valid() && position == old(position) + |value|
        invariant all == value + Run(Ahead(), p)
        decreases |input| - position
      {
        ghost var s := Ahead();
        RunStep(s, p);
        Shift(value, s[0], Run(s[1..], p));
        assert s[1..] == input[position + 1..];
        value := value + [input[position]];
        position := position + 1;
      }
      RunStep(Ahead(), p);
    }

    method ScanString() returns (r: Option<Lexeme>)
      requires Valid() && position < |input|
      modifies this`position
      ensures Valid()
      ensures var s := old(Ahead()); var body := StringBody(s[1..], s[0]);
        && (r.None? <==> body.None?)
        && (r.Some? ==> r.value == Lexeme(STRING, body.value.0) && position == old(position) + 1 + body.value.1)
    {
      hide Escape, StringBody;
      var quote := input[position];
      position := position + 1;
      assert Ahead() == old(Ahead())[1..];
      ghost var all := StringBody(Ahead(), quote);
      var value := "";
      while position < |input| && input[position] != quote
        invariant Valid() && position > old(position)
        invariant all.None? <==> StringBody(Ahead(), quote).None?
        invariant all.Some? ==>
          && all.value.0 == value + StringBody(Ahead(), quote).value.0
          && all.value.1 == position - old(position) - 1 + StringBody(Ahead(), quote).value.1
        decreases |input| - position
      {
        ghost var s := Ahead();
        if input[position] == '\\' {
          StringEscapeStep(s, quote);
          position := position + 1;
          assert Ahead() == s[1..];
          var c := ScanEscapeSequence();
          if c.None? {
            return None;
          }
          assert Ahead() == s[1 + Escape(s[1..]).value.1..];
          value := value + [c.value];
        } else {
          StringStep(s, quote);
          value := value + [input[position]];
          position := position + 1;
          assert Ahead() == s[1..];
        }
      }
      StringEnd(Ahead(), quote);
      if position == |input| {
        return None;
      }
      position := position + 1;
      return Some(Lexeme(STRING, value));
    }

    method ScanEscapeSequence() returns (r: Option<char>)
      requires Valid()
      modifies this`position
      ensures Valid()
      ensures var spec := Escape(old(Ahead()));
        && (r.None? <==> spec.None?)
        && (r.Some? ==> r.value == spec.value.0 && position == old(position) + spec.value.1)
    {
      if position == |input| {
        return None;
      }
      ghost var s := Ahead();
      var c := input[position];
      position := position + 1;
      if c != 'u' {
        return Some(Escaped(c));
      }
      var code := "";
      while |code| < 4
        invariant Valid() && |code| <= 4 && position == old(position) + 1 + |code|
        invariant code == s[1..1 + |code|] && forall k :: 0 <= k < |code| ==> IsHexDigit(code[k])
        decreases 4 - |code|
      {
        var digit := Peek(input, position);
        if !IsHexDigit(digit) {
          assert position < |input| ==> digit == s[1 + |code|];
          return None;
        }
        assert digit == s[1 + |code|];
        code := code + [digit];
        position := position + 1;
      }
      assert forall k :: 0 <= k < 4 ==> code[k] == s[1..][k];
      return Some(Unicode(code));
    }

    method ScanNumber() returns (r: Lexeme)
      requires Valid() && position < |input| && IsDigit(input[position])
      modifies this`position
      ensures Valid()
      ensures var s := old(Ahead()); var (kind, n) := Number(s);
        r == Lexeme(kind, s[..n]) && position == old(position) + n
    {
      hide NumberLength;
      ghost var s := Ahead();
      var value := ScanDigits();
      var n := |value|;
      var suffix, next := Peek(input, position), Peek(input, position + 1);
      assert suffix == Peek(s, n) && next == Peek(s, n + 1);
      if suffix == 'm' && next == 's' {
        position := position + 2;
        assert value + [suffix, next] == s[..n + 2];
        return Lexeme(DURATION, value + [suffix, next]);
      }
      if suffix == 's' || suffix == 'm' || suffix == 'h' {
        position := position + 1;
        var following := Peek(input, position);
        if !(IsAlpha(following) || IsDigit(following)) {
          assert value + [suffix] == s[..n + 1];
          return Lexeme(DURATION, value + [suffix]);
        }
        position := position - 1;
      }
      if suffix == 'K' || suffix == 'M' || suffix == 'G' {
        if next == 'B' {
          position := position + 2;
          assert value + [suffix, next] == s[..n + 2];
          return Lexeme(BYTES, value + [suffix, next]);
        }
      }
      return Lexeme(NUMBER, value);
    }

    // Integer part, decimal part and exponent.
    method ScanDigits() returns (value: string)
      requires Valid()
      modifies this`position
      ensures Valid()
      ensures value == old(Ahead())[..NumberLength(old(Ahead()))] && position == old(position) + |value|
    {
      hide DecimalLength, ExponentLength;
      ghost var s := Ahead();
      value := ScanDecimal();
      assert Ahead() == s[|value|..];
      var exponent := ScanExponent();
      assert value + exponent == s[..|value| + |exponent|];
      value := value + exponent;
    }

    method ScanDecimal() returns (value: string)
      requires Valid()
      modifies this`position
      ensures Valid()
      ensures value == old(Ahead())[..DecimalLength(old(Ahead()))] && position == old(position) + |value|
    {
      hide Run;
      ghost var s := Ahead();
      value := TakeWhile(IsDigit);
      assert Peek(input, position) == Peek(s, |value|) && Peek(input, position + 1) == Peek(s, |value| + 1);
      if Peek(input, position) == '.' && IsDigit(Peek(input, position + 1)) {
        value := value + [input[position]];
        position := position + 1;
        assert Ahead() == s[|value|..];
        var fraction := TakeWhile(IsDigit);
        assert value + fraction == s[..|value| + |fraction|];
        value := value + fraction;
      }
    }

    method ScanExponent() returns (value: string)
      requires Valid()
      modifies this`position
      ensures Valid()
      ensures value == old(Ahead())[..ExponentLength(old(Ahead()))] && position == old(position) + |value|
    {
      hide Run;
      ghost var s := Ahead();
      value := "";
      assert Peek(input, position) == Peek(s, 0) && Peek(input, position + 1) == Peek(s, 1);
      if Peek(input, position) == 'e' || Peek(input, position) == 'E' {
        value := [input[position]];
        position := position + 1;
        if Peek(input, position) == '+' || Peek(input, position) == '-' {
          value := value + [input[position]];
          position := position + 1;
        }
        assert Ahead() == s[|value|..] && value == s[..|value|];
        var exponent := TakeWhile(IsDigit);
        assert value + exponent == s[..|value| + |exponent|];
        value := value + exponent;
      }
    }

    method ScanIdentifier() returns (r: Lexeme)
      requires Valid() && position < |input|
      modifies this`position
      ensures Valid()
      ensures var word := Run(old(Ahead()), IsWord);
        r == Lexeme(KeywordKind(word), word) && position == old(position) + |word|
    {
      var value := TakeWhile(IsWord);
      return Lexeme(KeywordKind(value), value);
    }

    method ScanOperator() returns (r: Lexeme)
      requires Valid() && position < |input|
      modifies this`position
      ensures Valid()
      ensures var s := old(Ahead()); var n := OperatorLength(s);
        r == Lexeme(OperatorKind(s[..n]), s[..n]) && position == old(position) + n
    {
      ghost var s := Ahead();
      var c := input[position];
      position := position + 1;
      var next := Peek(input, position);
      assert |s| > 1 ==> s[..2] == [c, next];
      assert s[..1] == [c];
      if (next == '=' && (c == '>' || c == '<' || c == '!')) || (c == '-' && next == '>') || (c == '|' && next == '|') {
        position := position + 1;
        return Lexeme(Punctuation([c, next]), [c, next]);
      }
      return Lexeme(OperatorKind([c]), [c]);
    }

    method ScanComment() returns (r: Lexeme)
      requires Valid() && position + 1 < |input|
      modifies this`position
      ensures Valid()
      ensures var text := Run(old(Ahead())[2..], InLine);
        r == Lexeme(COMMENT, text) && position == old(position) + 2 + |text|
    {
      position := position + 2;
      assert Ahead() == old(Ahead())[2..];
      var value := TakeWhile(InLine);
      return Lexeme(COMMENT, value);
    }

    method ScanMultiLineComment() returns (r: Lexeme)
      requires Valid() && position + 1 < |input|
      modifies this`position
      ensures Valid()
      ensures var s := old(Ahead()); var text := BlockText(s[2..]);
        r == Lexeme(COMMENT, text) && position == old(position) + 2 + |text| + if 2 + |text| < |s| then 2 else 0
    {
      hide BlockText;
      position := position + 2;
      assert Ahead() == old(Ahead())[2..];
      ghost var all := BlockText(Ahead());
      var value := "";
      while position < |input|
        invariant Valid() && position == old(position) + 2 + |value|
        invariant all == value + BlockText(Ahead())
        decreases |input| - position
      {
        ghost var s := Ahead();
        assert Peek(input, position + 1) == Peek(s, 1);
        BlockStep(s);
        if input[position] == '*' && Peek(input, position + 1) == '/' {
          position := position + 2;
          return Lexeme(COMMENT, value);
        }
        Shift(value, s[0], BlockText(s[1..]));
        value := value + [input[position]];
        position := position + 1;
        assert Ahead() == s[1..];
      }
      BlockStep(Ahead());
      return Lexeme(COMMENT, value);
    }
  }
}
