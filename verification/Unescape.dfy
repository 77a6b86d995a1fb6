// Undoing string escapes, as utils/string-utils.ts does it: one replacement after the
// other, the escaped backslash last. What that makes of an escaped string.
module Unescape {
  import opened SourceText

  // s.replace(/\\c/g, r): every backslash with c behind it becomes r.
  function ReplaceEscape(s: string, c: char, r: char): string {
    if |s| < 2 then s
    else if s[0] == '\\' && s[1] == c then [r] + ReplaceEscape(s[2..], c, r)
    else [s[0]] + ReplaceEscape(s[1..], c, r)
  }

  function UnescapeString(s: string): string {
    var s1 := ReplaceEscape(s, 'n', '\n');
    var s2 := ReplaceEscape(s1, 'r', '\r');
    var s3 := ReplaceEscape(s2, 't', '\t');
    var s4 := ReplaceEscape(s3, 'f', '\U{C}');
    var s5 := ReplaceEscape(s4, 'v', '\U{B}');
    var s6 := ReplaceEscape(s5, '0', '\0');
    var s7 := ReplaceEscape(s6, '\'', '\'');
    var s8 := ReplaceEscape(s7, '"', '"');
    ReplaceEscape(s8, '\\', '\\')
  }

  // ---------------------------------------------------------------- one pass for all letters

  const MEANING: map<char, char> := map[
    'n' := '\n', 'r' := '\r', 't' := '\t', 'f' := '\U{C}', 'v' := '\U{B}', '0' := '\0', '\'' := '\'', '"' := '"'
  ]

  function ReplaceAll(s: string, m: map<char, char>): string {
    if |s| < 2 then s
    else if s[0] == '\\' && s[1] in m then [m[s[1]]] + ReplaceAll(s[2..], m)
    else [s[0]] + ReplaceAll(s[1..], m)
  }

  lemma {:induction false} ReplaceNothing(s: string)
    ensures ReplaceAll(s, map[]) == s
  {
    if |s| >= 2 {
      ReplaceNothing(s[1..]);
      assert [s[0]] + s[1..] == s;
    }
  }

  ghost predicate Avoids(m: map<char, char>, c: char) {
    c !in m && c !in m.Values
  }

  // A pass for one more letter finds neither letters nor backslashes made by the others.
  lemma {:induction false} OneMoreLetter(s: string, m: map<char, char>, c: char, r: char)
    requires c != '\\' && Avoids(m, c) && Avoids(m, '\\')
    ensures ReplaceEscape(ReplaceAll(s, m), c, r) == ReplaceAll(s, m[c := r])
  {
    if |s| >= 2 {
      var rest := ReplaceAll(s[1..], m);
      OneMoreLetter(s[1..], m, c, r);
      if s[0] == '\\' && s[1] in m {
        var after := ReplaceAll(s[2..], m);
        OneMoreLetter(s[2..], m, c, r);
        assert m[s[1]] in m.Values;
        PairStep([m[s[1]]] + after, c, r);
        assert ([m[s[1]]] + after)[1..] == after;
      } else if s[0] == '\\' && s[1] == c {
        OneMoreLetter(s[2..], m, c, r);
        LetterStays(s[1..], m);
        assert ([s[0]] + rest)[2..] == ReplaceAll(s[2..], m);
      } else {
        if s[0] == '\\' { OtherHead(s[1..], m, c); }
        assert ([s[0]] + rest)[1..] == rest;
      }
    }
  }

  lemma PairStep(s: string, c: char, r: char)
    requires s != "" && s[0] != '\\'
    ensures ReplaceEscape(s, c, r) == [s[0]] + ReplaceEscape(s[1..], c, r)
  {
    if |s| == 1 { assert s == [s[0]] + s[1..]; }
  }

  lemma LetterStays(s: string, m: map<char, char>)
    requires s != "" && s[0] != '\\'
    ensures ReplaceAll(s, m) == [s[0]] + ReplaceAll(s[1..], m)
  {
    if |s| == 1 { assert s == [s[0]] + s[1..]; }
  }

  lemma OtherHead(s: string, m: map<char, char>, c: char)
    requires s != "" && s[0] != c && Avoids(m, c)
    ensures ReplaceAll(s, m) != "" && ReplaceAll(s, m)[0] != c
  {
  }

  lemma AllAtOnce(s: string)
    ensures UnescapeString(s) == ReplaceEscape(ReplaceAll(s, MEANING), '\\', '\\')
  {
    hide ReplaceEscape, ReplaceAll;
    ReplaceNothing(s);
    var m1: map<char, char> := map['n' := '\n'];
    var m2 := m1['r' := '\r'];
    var m3 := m2['t' := '\t'];
    var m4 := m3['f' := '\U{C}'];
    var m5 := m4['v' := '\U{B}'];
    var m6 := m5['0' := '\0'];
    var m7 := m6['\'' := '\''];
    OneMoreLetter(s, map[], 'n', '\n');
    OneMoreLetter(s, m1, 'r', '\r');
    OneMoreLetter(s, m2, 't', '\t');
    OneMoreLetter(s, m3, 'f', '\U{C}');
    OneMoreLetter(s, m4, 'v', '\U{B}');
    OneMoreLetter(s, m5, '0', '\0');
    OneMoreLetter(s, m6, '\'', '\'');
    OneMoreLetter(s, m7, '"', '"');
    assert m7['"' := '"'] == MEANING;
  }

  // ---------------------------------------------------------------- undoing an escape

  // The letters that EscapeString leaves alone and UnescapeString takes for an escape.
  predicate Mistaken(s: string, i: nat)
    requires i < |s|
  {
    i > 0 && s[i - 1] == '\\' && s[i] in "nrtfv0"
  }

  // The backslash stays and the letter behind it becomes a control character.
  function Garbled(s: string): (t: string)
    ensures |t| == |s|
    ensures t == s <==> forall i :: 0 <= i < |s| ==> !Mistaken(s, i)
  {
    var t := seq(|s|, i requires 0 <= i < |s| => if Mistaken(s, i) then MEANING[s[i]] else s[i]);
    assert forall i :: 0 <= i < |s| && Mistaken(s, i) ==> t[i] != s[i];
    t
  }

  // Without a letter mistaken behind it, the first character stands for itself.
  lemma GarbledStep(s: string)
    requires s != ""
    ensures |s| > 1 && Mistaken(s, 1) ==> Garbled(s) == [s[0], MEANING[s[1]]] + Garbled(s[2..])
    ensures !(|s| > 1 && Mistaken(s, 1)) ==> Garbled(s) == [s[0]] + Garbled(s[1..])
  {
    var rest := s[1..];
    assert forall i :: 1 <= i < |rest| ==> Mistaken(rest, i) == Mistaken(s, i + 1);
    if |s| > 1 && Mistaken(s, 1) {
      var after := s[2..];
      assert forall i :: 1 <= i < |after| ==> Mistaken(after, i) == Mistaken(s, i + 2);
      assert Garbled(s) == [s[0], MEANING[s[1]]] + Garbled(after);
    } else {
      assert Garbled(s) == [s[0]] + Garbled(rest);
    }
  }

  function Undone(t: string): string {
    ReplaceEscape(ReplaceAll(t, MEANING), '\\', '\\')
  }

  // A character other than the backslash, escaped or not.
  lemma UndoneStep(c: char, quote: char, rest: string)
    requires IsQuote(quote) && c != '\\'
    ensures Undone(EscapeChar(c, quote) + rest) == [c] + Undone(rest)
  {
    var t := EscapeChar(c, quote) + rest;
    var after := ReplaceAll(rest, MEANING);
    if t[0] == '\\' {
      assert t[2..] == rest;
    } else {
      assert t[1..] == rest;
      LetterStays(t, MEANING);
    }
    assert ReplaceAll(t, MEANING) == [c] + after;
    PairStep([c] + after, '\\', '\\');
    assert ([c] + after)[1..] == after;
  }

  // An escaped backslash with no letter to mistake behind it.
  lemma UndoneBackslash(rest: string)
    requires rest != "" ==> rest[0] !in MEANING
    ensures Undone("\\\\" + rest) == "\\" + Undone(rest)
  {
    var t := "\\\\" + rest;
    var after := ReplaceAll(rest, MEANING);
    assert t[1..] == "\\" + rest && t[1..][1..] == rest;
    assert "\\" + "" == "\\";
    assert ReplaceAll(t, MEANING) == "\\\\" + after;
    assert ("\\\\" + after)[2..] == after;
  }

  // An escaped backslash with such a letter or a quote behind it.
  lemma UndoneLetter(c: char, rest: string)
    requires c in MEANING
    ensures Undone("\\\\" + [c] + rest) == ['\\', MEANING[c]] + Undone(rest)
  {
    var t := "\\\\" + [c] + rest;
    var after := ReplaceAll(rest, MEANING);
    assert t[1..] == ['\\', c] + rest && t[1..][2..] == rest;
    var u := ['\\', MEANING[c]] + after;
    assert ReplaceAll(t, MEANING) == u;
    assert u[1..] == [MEANING[c]] + after && u[1..][1..] == after;
    PairStep(u[1..], '\\', '\\');
  }

  lemma UndoneNothing()
    ensures Undone("") == Garbled("")
  {
  }

  lemma {:induction false} UndoneEscape(s: string, quote: char)
    requires IsQuote(quote)
    ensures Undone(EscapeString(s, quote)) == Garbled(s)
  {
    hide EscapeString, Garbled, Undone;
    if s == "" {
      EscapeNothing(quote);
      UndoneNothing();
    } else {
      GarbledStep(s);
      EscapeStep(s, quote);
      var rest := s[1..];
      UndoneEscape(rest, quote);
      if s[0] != '\\' {
        UndoneStep(s[0], quote, EscapeString(rest, quote));
      } else if rest != "" && EscapeChar(rest[0], quote) == [rest[0]] && rest[0] in MEANING {
        var after := s[2..];
        assert rest[1..] == after;
        UndoneEscape(after, quote);
        EscapeStep(rest, quote);
        GarbledStep(rest);
        var tail := EscapeString(after, quote);
        UndoneLetter(rest[0], tail);
        assert EscapeString(s, quote) == "\\\\" + [rest[0]] + tail;
        assert Garbled(s) == ['\\', MEANING[rest[0]]] + Garbled(after);
      } else {
        if rest != "" { EscapeStep(rest, quote); }
        EscapeNothing(quote);
        UndoneBackslash(EscapeString(rest, quote));
      }
    }
  }

  // Unescaping gives an escaped string back exactly when no n, r, t, f, v or 0 of it
  // stands directly behind a backslash.
  lemma UnescapeEscaped(s: string, quote: char)
    requires IsQuote(quote)
    ensures UnescapeString(EscapeString(s, quote)) == Garbled(s)
    ensures UnescapeString(EscapeString(s, quote)) == s <==> forall i :: 0 <= i < |s| ==> !Mistaken(s, i)
  {
    AllAtOnce(EscapeString(s, quote));
    UndoneEscape(s, quote);
  }

  // A folder separator and a letter n come back as a separator and a line feed.
  lemma UnescapeInput(quote: char)
    requires IsQuote(quote)
    ensures UnescapeString(EscapeString("\\n", quote)) == "\\\n"
  {
    hide UnescapeString, EscapeString;
    var s := "\\n";
    UnescapeEscaped(s, quote);
    assert Mistaken(s, 1) && !Mistaken(s, 0);
    assert Garbled(s) == "\\\n";
  }
}
