// Writing and reading one CSV record (formatter/formatter.ts, utils/data-conversion.ts),
// against section 2 of RFC 4180.
module Csv {
  import opened Strings

  const QUOTE: char := '"'

  // ---------------------------------------------------------------- writing

  // value.replace(/"/g, '""').
  function DoubleQuotes(s: string): string {
    if s == "" then "" else (if s[0] == QUOTE then [QUOTE, QUOTE] else [s[0]]) + DoubleQuotes(s[1..])
  }

  function EscapeCsvValue(value: string, delimiter: char): string {
    if delimiter in value || QUOTE in value || '\n' in value || '\r' in value then
      [QUOTE] + DoubleQuotes(value) + [QUOTE]
    else value
  }

  function EscapeAll(fields: seq<string>, delimiter: char): (texts: seq<string>)
    ensures |texts| == |fields|
  {
    seq(|fields|, i requires 0 <= i < |fields| => EscapeCsvValue(fields[i], delimiter))
  }

  // One line of the output: the escaped values joined by the delimiter.
  function Row(fields: seq<string>, delimiter: char): string {
    Join(EscapeAll(fields, delimiter), delimiter)
  }

  // ---------------------------------------------------------------- reading

  // What the scan of s yields when `current` has been collected of the open field.
  function Fields(s: string, delimiter: char, current: string, inQuotes: bool): seq<string> {
    if s == "" then [current]
    else if s[0] == QUOTE then
      if inQuotes && |s| > 1 && s[1] == QUOTE then Fields(s[2..], delimiter, current + [QUOTE], true)
      else Fields(s[1..], delimiter, current, !inQuotes)
    else if s[0] == delimiter && !inQuotes then [current] + Fields(s[1..], delimiter, "", false)
    else Fields(s[1..], delimiter, current + [s[0]], inQuotes)
  }

  method ParseCSVLine(line: string, delimiter: char) returns (result: seq<string>)
    ensures result == Fields(line, delimiter, "", false)
  {
    result := [];
    var current := "";
    var inQuotes := false;
    var i := 0;
    while i < |line|
      invariant 0 <= i <= |line|
      invariant Fields(line, delimiter, "", false) == result + Fields(line[i..], delimiter, current, inQuotes)
    {
      var c := line[i];
      ghost var rest := line[i..];
      assert rest[1..] == line[i + 1..];
      if c == QUOTE {
        if inQuotes && i + 1 < |line| && line[i + 1] == QUOTE {
          assert rest[2..] == line[i + 2..];
          current := current + [QUOTE];
          i := i + 1;
        } else {
          inQuotes := !inQuotes;
        }
      } else if c == delimiter && !inQuotes {
        result := result + [current];
        current := "";
      } else {
        current := current + [c];
      }
      i := i + 1;
    }
    result := result + [current];
  }

  // ---------------------------------------------------------------- the texts a field may have

  // RFC 4180: any field may be enclosed in quotes, inner quotes doubled; one without
  // quotes or delimiters may also stand bare.
  ghost predicate TextOf(text: string, field: string, delimiter: char) {
    || text == [QUOTE] + DoubleQuotes(field) + [QUOTE]
    || (text == field && QUOTE !in field && delimiter !in field)
  }

  ghost predicate TextsOf(texts: seq<string>, fields: seq<string>, delimiter: char) {
    |texts| == |fields| && forall i :: 0 <= i < |texts| ==> TextOf(texts[i], fields[i], delimiter)
  }

  // A field ends at the delimiter or with the line.
  ghost predicate Ends(rest: string, delimiter: char) {
    rest == "" || (rest[0] == delimiter && delimiter != QUOTE)
  }

  lemma {:induction false} ReadBare(field: string, rest: string, delimiter: char, current: string)
    requires QUOTE !in field && delimiter !in field
    ensures Fields(field + rest, delimiter, current, false) == Fields(rest, delimiter, current + field, false)
  {
    if field == "" {
      assert field + rest == rest && current + field == current;
    } else {
      assert (field + rest)[1..] == field[1..] + rest;
      ReadBare(field[1..], rest, delimiter, current + [field[0]]);
      assert current + [field[0]] + field[1..] == current + field;
    }
  }

  lemma {:induction false} ReadQuoted(field: string, rest: string, delimiter: char, current: string)
    requires Ends(rest, delimiter)
    ensures Fields(DoubleQuotes(field) + [QUOTE] + rest, delimiter, current, true)
         == Fields(rest, delimiter, current + field, false)
  {
    var s := DoubleQuotes(field) + [QUOTE] + rest;
    if field == "" {
      assert s[1..] == rest && current + field == current;
    } else {
      ReadQuoted(field[1..], rest, delimiter, current + [field[0]]);
      assert current + [field[0]] + field[1..] == current + field;
      var tail := DoubleQuotes(field[1..]) + [QUOTE] + rest;
      if field[0] == QUOTE {
        assert s[2..] == tail;
      } else {
        assert s[1..] == tail;
      }
    }
  }

  lemma ReadText(text: string, field: string, rest: string, delimiter: char)
    requires TextOf(text, field, delimiter) && Ends(rest, delimiter)
    ensures Fields(text + rest, delimiter, "", false) == Fields(rest, delimiter, field, false)
  {
    assert "" + field == field;
    if text == [QUOTE] + DoubleQuotes(field) + [QUOTE] {
      assert (text + rest)[1..] == DoubleQuotes(field) + [QUOTE] + rest;
      ReadQuoted(field, rest, delimiter, "");
    } else {
      ReadBare(field, rest, delimiter, "");
    }
  }

  // ---------------------------------------------------------------- main results

  // Every record of RFC 4180 is read back field by field, however its writer quoted it.
  lemma {:induction false} ReadsEveryRecord(texts: seq<string>, fields: seq<string>, delimiter: char)
    requires texts != [] && TextsOf(texts, fields, delimiter) && delimiter != QUOTE
    ensures Fields(Join(texts, delimiter), delimiter, "", false) == fields
  {
    hide Fields, TextOf;
    if |texts| == 1 {
      ReadText(texts[0], fields[0], "", delimiter);
      EndOfLine(delimiter, fields[0]);
      assert texts[0] + "" == texts[0];
    } else {
      var rest := [delimiter] + Join(texts[1..], delimiter);
      ReadText(texts[0], fields[0], rest, delimiter);
      ReadsEveryRecord(texts[1..], fields[1..], delimiter);
      AtDelimiter(rest, delimiter, fields[0]);
      assert Join(texts, delimiter) == texts[0] + rest;
      assert rest[1..] == Join(texts[1..], delimiter);
    }
  }

  lemma EndOfLine(delimiter: char, current: string)
    ensures Fields("", delimiter, current, false) == [current]
  {
  }

  lemma AtDelimiter(rest: string, delimiter: char, current: string)
    requires rest != "" && rest[0] == delimiter && delimiter != QUOTE
    ensures Fields(rest, delimiter, current, false) == [current] + Fields(rest[1..], delimiter, "", false)
  {
  }

  lemma EscapeIsText(field: string, delimiter: char)
    ensures TextOf(EscapeCsvValue(field, delimiter), field, delimiter)
  {
  }

  // A quote is never taken for a delimiter: such a line is one field.
  lemma {:induction false} QuoteNeverDelimits(s: string, current: string, inQuotes: bool)
    ensures |Fields(s, QUOTE, current, inQuotes)| == 1
    decreases |s|
  {
    if s != "" {
      if s[0] == QUOTE && inQuotes && |s| > 1 && s[1] == QUOTE {
        QuoteNeverDelimits(s[2..], current + [QUOTE], true);
      } else if s[0] == QUOTE {
        QuoteNeverDelimits(s[1..], current, !inQuotes);
      } else {
        QuoteNeverDelimits(s[1..], current + [s[0]], inQuotes);
      }
    }
  }

  lemma {:induction false} DoubleQuotesLength(s: string)
    ensures |DoubleQuotes(s)| >= |s|
  {
    if s != "" {
      DoubleQuotesLength(s[1..]);
    }
  }

  // A field is written as it is exactly when it holds no delimiter, quote or line break;
  // any other is enclosed in quotes.
  lemma QuotedWhenNeeded(value: string, delimiter: char)
    ensures var text := EscapeCsvValue(value, delimiter);
      && (text == value <==> forall c :: c in value ==> c !in {delimiter, QUOTE, '\n', '\r'})
      && (text != value ==> |text| >= |value| + 2 && text[0] == QUOTE && text[|text| - 1] == QUOTE)
  {
    DoubleQuotesLength(value);
  }

  // Writing a row and reading it gives the fields back, whatever they contain. It
  // fails for no fields (read as one empty field), and for several fields delimited
  // by quotes.
  lemma RowRoundTrip(fields: seq<string>, delimiter: char)
    ensures Fields(Row(fields, delimiter), delimiter, "", false) == fields
      <==> fields != [] && (delimiter != QUOTE || |fields| == 1)
  {
    hide Fields, EscapeCsvValue, TextOf;
    var texts := EscapeAll(fields, delimiter);
    forall i | 0 <= i < |fields|
      ensures TextOf(texts[i], fields[i], delimiter)
    {
      EscapeIsText(fields[i], delimiter);
    }
    if fields == [] {
      EndOfLine(delimiter, "");
    } else if delimiter != QUOTE {
      ReadsEveryRecord(texts, fields, delimiter);
    } else {
      QuoteNeverDelimits(Row(fields, delimiter), "", false);
      if |fields| == 1 {
        ReadText(texts[0], fields[0], "", delimiter);
        EndOfLine(delimiter, fields[0]);
        assert texts[0] + "" == texts[0];
      }
    }
  }
}
