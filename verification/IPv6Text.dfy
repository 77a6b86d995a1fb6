// The textual forms of section 2.2 of RFC 4291 and what ParseIPv6 makes of them.
module IPv6Text {
  import opened Seqs
  import opened Strings
  import opened Bits
  import opened IPv6

  // ---------------------------------------------------------------- the legal texts

  ghost predicate HexText(t: string) {
    1 <= |t| <= 4 && forall i :: 0 <= i < |t| ==> IsHexDigit(t[i])
  }

  ghost predicate HexTexts(ts: seq<string>) {
    forall i :: 0 <= i < |ts| ==> HexText(ts[i])
  }

  ghost predicate OctetText(t: string) {
    1 <= |t| <= 3 && (forall i :: 0 <= i < |t| ==> IsDigit(t[i])) && DecimalValue(t) <= 255
  }

  ghost predicate Octets(q: seq<string>) {
    |q| == 4 && forall i :: 0 <= i < 4 ==> OctetText(q[i])
  }

  // The segments a list of hexadecimal texts spells.
  ghost function Values(ts: seq<string>): (s: Segments)
    requires HexTexts(ts)
    ensures |s| == |ts|
  {
    seq(|ts|, i requires 0 <= i < |ts| => HexValue(ts[i]))
  }

  ghost function QuadValues(q: seq<string>): Segments
    requires Octets(q)
  {
    [DecimalValue(q[0]) * 256 + DecimalValue(q[1]), DecimalValue(q[2]) * 256 + DecimalValue(q[3])]
  }

  ghost function Compressed(before: seq<string>, after: seq<string>): string {
    Join(before, ':') + "::" + Join(after, ':')
  }

  // ---------------------------------------------------------------- one segment text

  lemma {:induction false} AllHexPrefix(t: string)
    requires forall i :: 0 <= i < |t| ==> IsHexDigit(t[i])
    ensures HexPrefix(t) == t
  {
    if t != "" {
      AllHexPrefix(t[1..]);
    }
  }

  lemma {:induction false} HexBounds(t: string)
    requires forall i :: 0 <= i < |t| ==> IsHexDigit(t[i])
    ensures HexValue(t) < Pow2(4 * |t|)
  {
    if t != "" {
      HexBounds(t[..|t| - 1]);
      Pow2Add(4 * (|t| - 1), 4);
      assert Pow2(4) == 16;
    }
  }

  lemma SegmentOfHexText(t: string)
    requires HexText(t)
    ensures Segment(t) == Some(HexValue(t))
  {
    hide HexPrefix, HexValue;
    AllHexPrefix(t);
    HexBounds(t);
    Pow2Monotone(4 * |t|, 16);
    Powers();
    assert IsHexDigit(t[0]);
    assert |t| >= 2 ==> IsHexDigit(t[1]);
    assert ParseHex(t) == Some(HexValue(t));
  }

  lemma {:induction false} ParseHexTexts(ts: seq<string>)
    requires HexTexts(ts)
    ensures ParseAll(ts) == Some(Values(ts))
  {
    hide Segment;
    if ts != [] {
      SegmentOfHexText(ts[0]);
      ParseHexTexts(ts[1..]);
      assert Values(ts) == [HexValue(ts[0])] + Values(ts[1..]);
    } else {
      assert Values(ts) == [];
    }
  }

  // ---------------------------------------------------------------- joined segment texts

  ghost predicate Plain(s: string) {
    forall i :: 0 <= i < |s| ==> IsHexDigit(s[i]) || s[i] == ':'
  }

  // No "::" begins before position k.
  ghost predicate SingleColons(s: string, k: int) {
    forall i {:trigger s[i]} :: 0 <= i < k && i + 1 < |s| && s[i] == ':' ==> s[i + 1] != ':'
  }

  lemma {:induction false} JoinShape(ts: seq<string>)
    requires HexTexts(ts)
    ensures var s := Join(ts, ':');
      && Plain(s)
      && SingleColons(s, |s|)
      && (s == "" <==> ts == [])
      && (ts != [] ==> IsHexDigit(s[0]) && IsHexDigit(s[|s| - 1]))
  {
    if |ts| == 1 {
      assert HexText(ts[0]);
    } else if ts != [] {
      JoinShape(ts[1..]);
      assert HexText(ts[0]);
      Chain(ts[0], Join(ts[1..], ':'));
    }
  }

  lemma Chain(t: string, rest: string)
    requires HexText(t) && Plain(rest) && SingleColons(rest, |rest|) && rest != "" && IsHexDigit(rest[0])
    ensures var s := t + [':'] + rest;
      Plain(s) && SingleColons(s, |s|) && s[0] == t[0] && s[|s| - 1] == rest[|rest| - 1]
  {
    var s := t + [':'] + rest;
    forall i {:trigger s[i]} | 0 <= i < |s|
      ensures IsHexDigit(s[i]) || s[i] == ':'
      ensures s[i] == ':' && i + 1 < |s| ==> s[i + 1] != ':'
    {
      if i < |t| {
        assert s[i] == t[i];
      } else if i > |t| {
        assert s[i] == rest[i - |t| - 1];
        if i + 1 < |s| {
          assert s[i + 1] == rest[i - |t|];
        }
      } else {
        assert s[i + 1] == rest[0];
      }
    }
  }

  lemma {:induction false} FirstDoubleColon(s: string, k: nat)
    requires SingleColons(s, k) && k + 1 < |s| && s[k] == ':' && s[k + 1] == ':'
    ensures DoubleColon(s) == Some(k)
  {
    if k > 0 {
      var t := s[1..];
      assert forall i {:trigger t[i]} :: 0 <= i < |t| ==> t[i] == s[i + 1];
      FirstDoubleColon(t, k - 1);
    }
  }

  lemma {:induction false} NoDoubleColon(s: string)
    requires SingleColons(s, |s|)
    ensures DoubleColon(s) == None
  {
    if |s| >= 2 {
      var t := s[1..];
      assert forall i {:trigger t[i]} :: 0 <= i < |t| ==> t[i] == s[i + 1];
      NoDoubleColon(t);
    }
  }

  lemma SideOfJoin(ts: seq<string>)
    requires HexTexts(ts)
    ensures Side(Join(ts, ':')) == Some(Values(ts))
  {
    hide Join, Split, ParseAll, HexText;
    JoinShape(ts);
    if ts == [] {
      assert Values(ts) == [];
    } else {
      NoEmptyText(ts);
      SplitTexts(ts);
      ParseHexTexts(ts);
    }
  }

  lemma NoEmptyText(ts: seq<string>)
    requires HexTexts(ts)
    ensures "" !in ts && Free(ts, ':')
  {
  }

  lemma SplitTexts(ts: seq<string>)
    requires HexTexts(ts) && ts != []
    ensures Split(Join(ts, ':'), ':') == ts
  {
    NoEmptyText(ts);
    SplitJoin(ts, ':');
  }

  // ---------------------------------------------------------------- the two sides of the parser

  lemma FullPart(ts: seq<string>)
    requires HexTexts(ts) && ts != []
    ensures ParsePart(Join(ts, ':'), |ts|) == Some(Values(ts))
  {
    hide Join, Split, ParseAll, DoubleColon, SingleColons;
    JoinShape(ts);
    NoDoubleColon(Join(ts, ':'));
    SplitTexts(ts);
    ParseHexTexts(ts);
  }

  lemma CompressedPart(before: seq<string>, after: seq<string>, expected: nat)
    requires HexTexts(before) && HexTexts(after) && |before| + |after| < expected
    ensures ParsePart(Compressed(before, after), expected)
         == Some(Values(before) + Zeros(expected - |before| - |after|) + Values(after))
  {
    hide Join, Side, HexTexts, DoubleColon, Values;
    var a, b := Join(before, ':'), Join(after, ':');
    var s := Compressed(before, after);
    CompressedSplit(before, after);
    assert s[..|a|] == a && s[|a| + 2..] == b;
    SideOfJoin(before);
    SideOfJoin(after);
  }

  lemma CompressedSplit(before: seq<string>, after: seq<string>)
    requires HexTexts(before) && HexTexts(after)
    ensures DoubleColon(Compressed(before, after)) == Some(|Join(before, ':')|)
    ensures Plain(Compressed(before, after))
  {
    hide Join, HexTexts, DoubleColon;
    var a, b := Join(before, ':'), Join(after, ':');
    var s := Compressed(before, after);
    JoinShape(before);
    JoinShape(after);
    assert SingleColons(s, |a|) by {
      assert s[..|a|] == a;
      forall i {:trigger s[i]} | 0 <= i < |a| && s[i] == ':'
        ensures s[i + 1] != ':'
      {
        assert s[i] == a[i];
        assert i + 1 < |a|;
        assert s[i + 1] == a[i + 1];
      }
    }
    FirstDoubleColon(s, |a|);
  }

  // Without a dot there is no dotted quad at the end, and nothing to strip.
  lemma PlainParse(s: string)
    requires Plain(s)
    ensures ParseIPv6(s) == ParsePart(s, 8)
  {
    hide ParsePart, QuadSegments;
    assert StripBrackets(s) == s;
    var k := BeforeLastColon(s);
    if k.Some? {
      var tail := s[k.value + 1..];
      assert '.' !in tail by {
        forall i | 0 <= i < |tail|
          ensures tail[i] != '.'
        {
          assert tail[i] == s[k.value + 1 + i];
        }
      }
      assert Split(tail, '.') == [tail];
    }
  }

  // ---------------------------------------------------------------- main results

  // Eight hexadecimal texts joined by colons.
  lemma FullForm(ts: seq<string>)
    requires HexTexts(ts) && |ts| == 8
    ensures ParseIPv6(Join(ts, ':')) == Some(Values(ts))
  {
    hide Join, ParsePart, ParseIPv6, Plain, SingleColons;
    JoinShape(ts);
    FullPart(ts);
    PlainParse(Join(ts, ':'));
  }

  // A run of zero segments written "::".
  lemma CompressedForm(before: seq<string>, after: seq<string>)
    requires HexTexts(before) && HexTexts(after) && |before| + |after| < 8
    ensures ParseIPv6(Compressed(before, after))
         == Some(Values(before) + Zeros(8 - |before| - |after|) + Values(after))
  {
    hide Compressed, ParsePart, ParseIPv6, Plain, HexTexts;
    CompressedSplit(before, after);
    CompressedPart(before, after, 8);
    PlainParse(Compressed(before, after));
  }

  // A "::" that stands for no segment is refused.
  lemma OverfullForm(before: seq<string>, after: seq<string>)
    requires HexTexts(before) && HexTexts(after) && |before| + |after| >= 8
    ensures ParseIPv6(Compressed(before, after)) == None
  {
    hide Join, Side, HexTexts, DoubleColon, Values, ParseIPv6, Plain;
    var a, b := Join(before, ':'), Join(after, ':');
    var s := Compressed(before, after);
    CompressedSplit(before, after);
    PlainParse(s);
    assert s[..|a|] == a && s[|a| + 2..] == b;
    SideOfJoin(before);
    SideOfJoin(after);
  }

  // Enclosing brackets are dropped.
  lemma Bracketed(s: string)
    requires Plain(s)
    ensures ParseIPv6("[" + s + "]") == ParseIPv6(s)
  {
    assert StripBrackets("[" + s + "]") == s by {
      assert ("[" + s + "]")[1..] == s + "]";
      assert (s + "]")[..|s|] == s;
    }
    assert StripBrackets(s) == s;
  }

  // ---------------------------------------------------------------- a dotted quad at the end

  lemma {:induction false} LastColonAt(s: string, k: nat)
    requires k < |s| && s[k] == ':' && ':' !in s[k + 1..]
    ensures BeforeLastColon(s) == Some(k)
    decreases |s|
  {
    if k < |s| - 1 {
      assert s[|s| - 1] == s[k + 1..][|s| - k - 2];
      var t := s[..|s| - 1];
      assert t[k + 1..] == s[k + 1..][..|s| - k - 2];
      LastColonAt(t, k);
    }
  }

  lemma QuadText(q: seq<string>)
    requires Octets(q)
    ensures var s := Join(q, '.');
      && IsQuad(s)
      && QuadSegments(s) == Some(QuadValues(q))
      && ':' !in s
      && s != "" && IsDigit(s[|s| - 1])
  {
    hide DecimalValue, Join, Split;
    QuadSplit(q);
    QuadCharacters(q);
    assert forall i :: 0 <= i < 4 ==> OctetText(q[i]);
  }

  lemma QuadSplit(q: seq<string>)
    requires Octets(q)
    ensures Split(Join(q, '.'), '.') == q
  {
    hide DecimalValue, Join, Split;
    assert forall i :: 0 <= i < 4 ==> OctetText(q[i]);
    SplitJoin(q, '.');
  }

  lemma QuadCharacters(q: seq<string>)
    requires Octets(q)
    ensures var s := Join(q, '.'); ':' !in s && s != "" && IsDigit(s[|s| - 1])
  {
    hide DecimalValue;
    assert forall i :: 0 <= i < 4 ==> OctetText(q[i]);
    OctetsJoined(q);
  }

  // Octet texts joined by dots: digits and dots, ending in a digit.
  lemma {:induction false} OctetsJoined(q: seq<string>)
    requires q != [] && forall i :: 0 <= i < |q| ==> OctetText(q[i])
    ensures var s := Join(q, '.'); s != "" && IsDigit(s[|s| - 1]) && ':' !in s
  {
    hide DecimalValue;
    assert OctetText(q[0]);
    if |q| > 1 {
      OctetsJoined(q[1..]);
    }
  }

  lemma MixedParse(head: string, q: seq<string>)
    requires Plain(head) && Octets(q)
    ensures ParseIPv6(head + [':'] + Join(q, '.'))
         == (var h := ParsePart(head, 6); if h.None? then None else Some(h.value + QuadValues(q)))
  {
    hide ParsePart, QuadSegments, IsQuad, Join, Octets, QuadValues, Plain, HasLineBreak, StripBrackets, BeforeLastColon;
    var tail := Join(q, '.');
    var s := head + [':'] + tail;
    QuadText(q);
    NothingToStrip(head, tail);
    assert s[|head| + 1..] == tail && s[..|head|] == head;
    LastColonAt(s, |head|);
  }

  lemma NothingToStrip(head: string, tail: string)
    requires Plain(head) && tail != "" && IsDigit(tail[|tail| - 1])
    ensures StripBrackets(head + [':'] + tail) == head + [':'] + tail
    ensures !HasLineBreak(head)
  {
    var s := head + [':'] + tail;
    assert s[|s| - 1] == tail[|tail| - 1];
    assert head != "" ==> s[0] == head[0];
  }

  lemma MixedFullForm(ts: seq<string>, q: seq<string>)
    requires HexTexts(ts) && |ts| == 6 && Octets(q)
    ensures ParseIPv6(Join(ts, ':') + [':'] + Join(q, '.')) == Some(Values(ts) + QuadValues(q))
  {
    hide Join, ParsePart, ParseIPv6, Plain, SingleColons, Octets, HexTexts, QuadValues;
    JoinShape(ts);
    FullPart(ts);
    MixedParse(Join(ts, ':'), q);
  }

  // A compressed address that ends in a dotted quad.
  ghost function MixedCompressed(before: seq<string>, after: seq<string>, q: seq<string>): string {
    Compressed(before, after) + (if after == [] then "" else ":") + Join(q, '.')
  }

  // RFC 4291 allows the "::" anywhere; directly before the quad it is never understood.
  lemma MixedCompressedForm(before: seq<string>, after: seq<string>, q: seq<string>)
    requires HexTexts(before) && HexTexts(after) && |before| + |after| < 6 && Octets(q)
    ensures ParseIPv6(MixedCompressed(before, after, q)).Some? <==> after != []
    ensures after != [] ==>
      ParseIPv6(MixedCompressed(before, after, q))
        == Some(Values(before) + Zeros(6 - |before| - |after|) + Values(after) + QuadValues(q))
  {
    hide Join, ParsePart, ParseIPv6, Plain, SingleColons, Octets, HexTexts, QuadValues;
    if after == [] {
      QuadAfterDoubleColon(before, q);
    } else {
      CompressedSplit(before, after);
      CompressedPart(before, after, 6);
      MixedParse(Compressed(before, after), q);
      assert MixedCompressed(before, after, q) == Compressed(before, after) + [':'] + Join(q, '.');
    }
  }

  lemma QuadAfterDoubleColon(before: seq<string>, q: seq<string>)
    requires HexTexts(before) && |before| < 6 && Octets(q)
    ensures ParseIPv6(MixedCompressed(before, [], q)) == None
  {
    hide Join, ParsePart, ParseIPv6, SingleColons, Octets, HexTexts, QuadValues;
    var head := Join(before, ':') + [':'];
    assert Join([], ':') == "" by {
      JoinShape([]);
    }
    JoinShape(before);
    assert MixedCompressed(before, [], q) == head + [':'] + Join(q, '.');
    MixedParse(head, q);
    TrailingColon(before);
  }

  lemma TrailingColon(before: seq<string>)
    requires HexTexts(before) && |before| < 6
    ensures ParsePart(Join(before, ':') + [':'], 6) == None
  {
    hide Join, DoubleColon, HexTexts, ParseAll;
    var a := Join(before, ':');
    var s := a + [':'];
    JoinShape(before);
    NoDoubleColon(s) by {
      assert forall i {:trigger s[i]} :: 0 <= i < |a| ==> s[i] == a[i];
    }
    TrailingEmpty(before);
    EmptyIsRefused(before);
  }

  lemma TrailingEmpty(before: seq<string>)
    requires HexTexts(before)
    ensures before == [] ==> |Split(Join(before, ':') + [':'], ':')| == 2
    ensures before != [] ==> Split(Join(before, ':') + [':'], ':') == before + [""]
  {
    NoEmptyText(before);
    if before == [] {
      SplitFirst("", "", ':');
      assert Join(before, ':') + [':'] == "" + [':'] + "";
    } else {
      JoinAppend(before, [""], ':');
      assert Join(before, ':') + [':'] + "" == Join(before, ':') + [':'];
      SplitJoin(before + [""], ':');
    }
  }

  lemma {:induction false} EmptyIsRefused(before: seq<string>)
    ensures ParseAll(before + [""]) == None
  {
    hide Segment;
    if before == [] {
      EmptySegment();
      assert before + [""] == [""];
    } else {
      EmptyIsRefused(before[1..]);
      assert (before + [""])[1..] == before[1..] + [""];
    }
  }

  lemma EmptySegment()
    ensures Segment("") == None
  {
  }

  // ---------------------------------------------------------------- printing and parsing

  function HexChar(d: nat): char
    requires d < 16
  {
    if d < 10 then '0' + d as char else 'a' + (d - 10) as char
  }

  function ToHex(n: nat): string {
    if n < 16 then [HexChar(n)] else ToHex(n / 16) + [HexChar(n % 16)]
  }

  lemma {:induction false} ToHexValue(n: nat, width: nat)
    requires width > 0 && n < Pow2(4 * width)
    ensures var t := ToHex(n); 1 <= |t| <= width && (forall i :: 0 <= i < |t| ==> IsHexDigit(t[i])) && HexValue(t) == n
    decreases n
  {
    if n < 16 {
      assert HexValue([]) == 0;
      assert [HexChar(n)][..0] == [];
    } else {
      Pow2Add(4 * (width - 1), 4);
      assert Pow2(4) == 16;
      assert width > 1 by {
        assert Pow2(4 * 0) == 1;
      }
      ToHexValue(n / 16, width - 1);
      var t := ToHex(n / 16);
      assert (t + [HexChar(n % 16)])[..|t|] == t;
    }
  }

  function Print(s: Segments): string
    requires forall i :: 0 <= i < |s| ==> 0 <= s[i] <= 0xFFFF
  {
    Join(seq(|s|, i requires 0 <= i < |s| => ToHex(s[i])), ':')
  }

  // Every address has a full text, and reading it gives the address back.
  lemma PrintThenParse(s: Segments)
    requires |s| == 8 && InRange(s)
    ensures ParseIPv6(Print(s)) == Some(s)
  {
    hide Join, ParseIPv6, ToHex, HexValue, Pow2;
    var ts := seq(|s|, i requires 0 <= i < |s| => ToHex(s[i]));
    Powers();
    forall i | 0 <= i < 8
      ensures HexText(ts[i]) && HexValue(ts[i]) == s[i]
    {
      ToHexValue(s[i], 4);
    }
    FullForm(ts);
    assert Values(ts) == s;
  }
}
