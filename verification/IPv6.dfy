// IPv6 text and prefix arithmetic (utils/validation.ts), read against sections 2.2,
// 2.5.3 and 2.5.6 of RFC 4291 and section 3.1 of RFC 4193.
module IPv6 {
  import opened Seqs
  import opened Strings
  import opened Bits

  type Segments = seq<int>

  const SEGMENT: nat := 0x1_0000

  // ---------------------------------------------------------------- one segment

  function HexValue(s: string): nat
    requires forall i :: 0 <= i < |s| ==> IsHexDigit(s[i])
  {
    if s == "" then 0 else 16 * HexValue(s[..|s| - 1]) + HexDigit(s[|s| - 1])
  }

  predicate IsSpace(c: char) {
    || c in {' ', '\t', '\n', '\r', '\U{B}', '\U{C}', '\U{A0}', '\U{1680}'}
    || '\U{2000}' <= c <= '\U{200A}'
    || c in {'\U{2028}', '\U{2029}', '\U{202F}', '\U{205F}', '\U{3000}', '\U{FEFF}'}
  }

  function TrimStart(s: string): string {
    if s != "" && IsSpace(s[0]) then TrimStart(s[1..]) else s
  }

  function HexPrefix(s: string): (p: string)
    ensures forall i :: 0 <= i < |p| ==> IsHexDigit(p[i])
  {
    if s != "" && IsHexDigit(s[0]) then [s[0]] + HexPrefix(s[1..]) else ""
  }

  // parseInt(s, 16); None is NaN.
  function ParseHex(s: string): Option<int> {
    var t := TrimStart(s);
    var negative := t != "" && t[0] == '-';
    var u := if t != "" && (t[0] == '-' || t[0] == '+') then t[1..] else t;
    var v := if |u| >= 2 && u[0] == '0' && (u[1] == 'x' || u[1] == 'X') then u[2..] else u;
    var digits := HexPrefix(v);
    if digits == "" then None
    else
      var value: int := HexValue(digits);
      Some(if negative then -value else value)
  }

  function Segment(s: string): Option<int> {
    var v := ParseHex(s);
    if v.None? || v.value > 0xFFFF then None else v
  }

  // All segments, or None as soon as one is not valid.
  function ParseAll(parts: seq<string>): (r: Option<Segments>)
    ensures r.Some? ==> |r.value| == |parts| && forall i :: 0 <= i < |parts| ==> r.value[i] <= 0xFFFF
  {
    if parts == [] then Some([])
    else
      var first := Segment(parts[0]);
      var rest := ParseAll(parts[1..]);
      if first.None? || rest.None? then None else Some([first.value] + rest.value)
  }

  // ---------------------------------------------------------------- whole addresses

  // indexOf("::").
  function DoubleColon(s: string): (k: Option<nat>)
    ensures k.Some? ==> k.value + 1 < |s| && s[k.value] == ':' && s[k.value + 1] == ':'
  {
    if |s| < 2 then None
    else if s[0] == ':' && s[1] == ':' then Some(0)
    else
      var k := DoubleColon(s[1..]);
      if k.None? then None else Some(k.value + 1)
  }

  // One side of the "::"; an empty segment text is rejected here.
  function Side(s: string): Option<Segments> {
    if s == "" then Some([])
    else
      var parts := Split(s, ':');
      if "" in parts then None else ParseAll(parts)
  }

  function Zeros(n: nat): (z: Segments)
    ensures |z| == n && forall i :: 0 <= i < n ==> z[i] == 0
  {
    seq(n, i => 0)
  }

  function ParsePart(addr: string, expected: nat): (r: Option<Segments>)
    ensures r.Some? ==> |r.value| == expected
  {
    var k := DoubleColon(addr);
    if k.Some? then
      var before := Side(addr[..k.value]);
      var after := Side(addr[k.value + 2..]);
      if before.None? || after.None? || |before.value| + |after.value| >= expected then None
      else Some(before.value + Zeros(expected - |before.value| - |after.value|) + after.value)
    else
      var parts := Split(addr, ':');
      if |parts| != expected then None else ParseAll(parts)
  }

  function StripBrackets(s: string): string {
    var t := if s != "" && s[0] == '[' then s[1..] else s;
    if t != "" && t[|t| - 1] == ']' then t[..|t| - 1] else t
  }

  predicate AllDigits(s: string) {
    s != "" && forall i :: 0 <= i < |s| ==> IsDigit(s[i])
  }

  predicate IsQuad(s: string) {
    var parts := Split(s, '.');
    |parts| == 4 && forall i :: 0 <= i < 4 ==> AllDigits(parts[i])
  }

  predicate HasLineBreak(s: string) {
    '\n' in s || '\r' in s || '\U{2028}' in s || '\U{2029}' in s
  }

  function DecimalValue(s: string): nat
    requires forall i :: 0 <= i < |s| ==> IsDigit(s[i])
  {
    if s == "" then 0
    else
      var last := s[|s| - 1];
      assert IsDigit(last);
      10 * DecimalValue(s[..|s| - 1]) + (last - '0') as nat
  }

  // The two segments of a dotted quad.
  function QuadSegments(s: string): (r: Option<Segments>)
    requires IsQuad(s)
    ensures r.Some? ==> |r.value| == 2 && 0 <= r.value[0] <= 0xFFFF && 0 <= r.value[1] <= 0xFFFF
  {
    var p := Split(s, '.');
    if exists i :: 0 <= i < 4 && |p[i]| > 3 then None
    else
      var a, b, c, d := DecimalValue(p[0]), DecimalValue(p[1]), DecimalValue(p[2]), DecimalValue(p[3]);
      if a > 255 || b > 255 || c > 255 || d > 255 then None
      else Some([a * 256 + b, c * 256 + d])
  }

  // The part before the last colon, when there is one.
  function BeforeLastColon(s: string): (k: Option<nat>)
    ensures k.Some? <==> ':' in s
    ensures k.Some? ==> k.value < |s| && s[k.value] == ':' && ':' !in s[k.value + 1..]
  {
    if s == "" then None
    else if s[|s| - 1] == ':' then Some(|s| - 1)
    else
      assert s == s[..|s| - 1] + [s[|s| - 1]];
      var k := BeforeLastColon(s[..|s| - 1]);
      assert k.Some? ==> s[k.value + 1..] == s[..|s| - 1][k.value + 1..] + [s[|s| - 1]];
      k
  }

  function ParseIPv6(address: string): (r: Option<Segments>)
    ensures r.Some? ==> |r.value| == 8
  {
    var addr := StripBrackets(address);
    var k := BeforeLastColon(addr);
    if k.Some? && IsQuad(addr[k.value + 1..]) && !HasLineBreak(addr[..k.value]) then
      var tail := QuadSegments(addr[k.value + 1..]);
      var head := ParsePart(addr[..k.value], 6);
      if tail.None? || head.None? then None else Some(head.value + tail.value)
    else ParsePart(addr, 8)
  }

  // ---------------------------------------------------------------- prefixes

  ghost predicate InRange(s: Segments) {
    forall i :: 0 <= i < |s| ==> 0 <= s[i] <= 0xFFFF
  }

  // The number the segments spell, 16 bits each.
  ghost function Value(s: Segments): int {
    if s == [] then 0 else Value(s[..|s| - 1]) * SEGMENT + s[|s| - 1]
  }

  // The top `length` bits of the 128-bit address.
  ghost function Top(s: Segments, length: nat): int
    requires length <= 128
  {
    Value(s) / Pow2(128 - length)
  }

  method IsIPv6InPrefix(address: string, prefixSegments: Segments, prefixLength: int) returns (r: bool)
    ensures ParseIPv6(address).None? || |prefixSegments| != 8 || !(0 <= prefixLength <= 128) ==> !r
    ensures ParseIPv6(address).Some? && |prefixSegments| == 8 && 0 <= prefixLength <= 128 ==>
      var segments := ParseIPv6(address).value;
      InRange(segments) && InRange(prefixSegments) ==>
        (r <==> Top(segments, prefixLength) == Top(prefixSegments, prefixLength))
  {
    hide ParseIPv6, Top, InRange, Pow2, And32, Shl32;
    var addrSegments := ParseIPv6(address);
    if addrSegments.None? || |addrSegments.value| != 8 {
      return false;
    }
    if |prefixSegments| != 8 {
      return false;
    }
    if prefixLength < 0 || prefixLength > 128 {
      return false;
    }
    var a := addrSegments.value;
    var fullSegments := prefixLength / 16;
    var remainingBits := prefixLength % 16;
    ghost var judged := InRange(a) && InRange(prefixSegments);
    if judged {
      PrefixMatch(a, prefixSegments, prefixLength);
    }
    for i := 0 to fullSegments
      invariant a[..i] == prefixSegments[..i]
    {
      assert a[..i + 1] == a[..i] + [a[i]] && prefixSegments[..i + 1] == prefixSegments[..i] + [prefixSegments[i]];
      if a[i] != prefixSegments[i] {
        assert a[..fullSegments] != prefixSegments[..fullSegments] by {
          assert a[..fullSegments][i] != prefixSegments[..fullSegments][i];
        }
        return false;
      }
    }
    if remainingBits > 0 {
      var mask := Shl32(0xFFFF, 16 - remainingBits);
      if judged {
        InRangeAt(a, fullSegments);
        InRangeAt(prefixSegments, fullSegments);
        MaskedSegment(a[fullSegments], remainingBits);
        MaskedSegment(prefixSegments[fullSegments], remainingBits);
      }
      if And32(a[fullSegments], mask) != And32(prefixSegments[fullSegments], mask) {
        return false;
      }
    }
    return true;
  }

  lemma InRangeAt(s: Segments, i: nat)
    requires InRange(s) && i < |s|
    ensures 0 <= s[i] <= 0xFFFF
  {
  }

  // The masks used keep the top bits of a segment.
  lemma MaskedSegment(s: int, bits: nat)
    requires 0 <= s <= 0xFFFF && 0 < bits < 16
    ensures And32(s, Shl32(0xFFFF, 16 - bits)) == s / Pow2(16 - bits) * Pow2(16 - bits)
  {
    hide BitAnd, Pow2, ToInt32;
    var k := 16 - bits;
    var p := Pow2(k);
    MaskIsSmall(k);
    SmallWord(0xFFFF * p);
    assert Shl32(0xFFFF, k) == 0xFFFF * p;
    AndMask(s, 16, k);
    assert BitAnd(s, 0xFFFF * p) == s / p * p by {
      Powers();
    }
    Shrinks(s, p);
    SmallWord(s / p * p);
  }

  lemma MaskIsSmall(k: nat)
    requires 0 < k < 16
    ensures 2 <= Pow2(k) <= Pow2(15) == 0x8000
    ensures Pow2(16) <= Pow2(16 + k)
    ensures Pow2(16) == SEGMENT
  {
    Powers();
    Pow2Monotone(k, 15);
    Pow2Monotone(16, 16 + k);
  }

  lemma SmallWord(x: nat)
    requires x < 0x8000_0000
    ensures ToInt32(x) == x && ToUint32(x) == x
  {
  }

  lemma Shrinks(s: nat, p: nat)
    requires p > 0
    ensures 0 <= s / p * p <= s
  {
  }

  lemma Powers()
    ensures Pow2(15) == 0x8000 && Pow2(16) == 0x1_0000 && Pow2(9) == 512 && Pow2(6) == 64 && Pow2(7) == 128 &&
      Pow2(10) == 1024
  {
    assert Pow2(3) == 8 && Pow2(6) == 64 && Pow2(9) == 512 && Pow2(12) == 4096 && Pow2(15) == 0x8000;
  }

  lemma {:induction false} Pow2Monotone(a: nat, b: nat)
    requires a <= b
    ensures Pow2(a) <= Pow2(b)
    decreases b
  {
    if a < b {
      Pow2Monotone(a, b - 1);
    }
  }

  // ---------------------------------------------------------------- segments against 128-bit numbers

  lemma {:induction false} ValueBounds(s: Segments)
    requires InRange(s)
    ensures 0 <= Value(s)
  {
    if s != [] {
      assert InRange(s[..|s| - 1]);
      ValueBounds(s[..|s| - 1]);
    }
  }

  // In-range segment lists of one length are told apart by their value.
  lemma {:induction false} ValueInjective(a: Segments, b: Segments)
    requires InRange(a) && InRange(b) && |a| == |b|
    ensures Value(a) == Value(b) <==> a == b
  {
    if a != [] {
      var n := |a| - 1;
      ValueInjective(a[..n], b[..n]);
      Digits(Value(a[..n]), a[n], Value(b[..n]), b[n], SEGMENT);
      assert a == a[..n] + [a[n]] && b == b[..n] + [b[n]];
    }
  }

  lemma Digits(x: int, r: int, y: int, s: int, d: int)
    requires d > 0 && 0 <= r < d && 0 <= s < d
    ensures x * d + r == y * d + s <==> x == y && r == s
  {
    if x * d + r == y * d + s {
      assert (x - y) * d == s - r;
      Small(x - y, d);
    }
  }

  lemma Small(e: int, d: int)
    requires d > 0 && -d < e * d < d
    ensures e == 0
  {
    Times(e, d);
    Times(-e, d);
    assert (-e) * d == -(e * d);
  }

  lemma Times(e: int, d: int)
    requires d > 0
    ensures e >= 1 ==> e * d >= d
  {
    assert e * d == d + (e - 1) * d;
  }

  // Dividing by a power of 2^16 drops segments.
  lemma {:induction false} DropSegments(s: Segments, n: nat)
    requires InRange(s) && n <= |s|
    ensures Value(s) / Pow2(16 * (|s| - n)) == Value(s[..n])
    decreases |s|
  {
    if n == |s| {
      assert s[..n] == s;
    } else {
      var m := |s| - 1;
      var front := s[..m];
      ValueBounds(s);
      ValueBounds(front);
      DropSegments(front, n);
      assert front[..n] == s[..n];
      Powers();
      Pow2Add(16, 16 * (m - n));
      assert 16 * (|s| - n) == 16 + 16 * (m - n);
      DivMul(Value(s), SEGMENT, Pow2(16 * (m - n)));
      Quotient(Value(s), SEGMENT, Value(front), s[m]);
    }
  }

  // The top bits of an address: whole segments, then the top bits of the next one.
  lemma TopBits(s: Segments, length: nat)
    requires InRange(s) && |s| == 8 && length <= 128
    ensures var q, r := length / 16, length % 16;
      Top(s, length) == if r == 0 then Value(s[..q]) else Value(s[..q]) * Pow2(r) + s[q] / Pow2(16 - r)
  {
    hide Pow2, Value;
    var q, r := length / 16, length % 16;
    if r == 0 {
      DropSegments(s, q);
      assert 128 - length == 16 * (8 - q);
    } else {
      var t := s[..q + 1];
      assert t[..q] == s[..q] && t[q] == s[q];
      DropWithin(s, q, r);
      LastSegment(t);
      ValueBounds(s[..q]);
      SplitSegment(Value(s[..q]), s[q], r);
    }
  }

  lemma LastSegment(t: Segments)
    requires t != []
    ensures Value(t) == Value(t[..|t| - 1]) * SEGMENT + t[|t| - 1]
  {
  }

  lemma DropWithin(s: Segments, q: nat, r: nat)
    requires InRange(s) && |s| == 8 && q < 8 && 0 < r < 16
    ensures Top(s, 16 * q + r) == Value(s[..q + 1]) / Pow2(16 - r)
  {
    hide Pow2, Value;
    DropSegments(s, q + 1);
    ValueBounds(s);
    Pow2Add(16 * (7 - q), 16 - r);
    assert 128 - (16 * q + r) == 16 * (7 - q) + (16 - r);
    DivMul(Value(s), Pow2(16 * (7 - q)), Pow2(16 - r));
  }

  lemma SplitSegment(v: nat, s: int, r: nat)
    requires 0 <= s <= 0xFFFF && 0 < r < 16
    ensures (v * SEGMENT + s) / Pow2(16 - r) == v * Pow2(r) + s / Pow2(16 - r)
    ensures 0 <= s / Pow2(16 - r) < Pow2(r)
  {
    hide Pow2;
    var p, o := Pow2(16 - r), Pow2(r);
    assert o * p == SEGMENT by {
      Powers();
      Pow2Add(r, 16 - r);
    }
    SplitQuotient(v, s, o, p);
  }

  lemma SplitQuotient(v: nat, s: nat, o: nat, p: nat)
    requires o > 0 && p > 0 && s < o * p
    ensures (v * (o * p) + s) / p == v * o + s / p
    ensures s / p < o
  {
    var q, m := s / p, s % p;
    assert s == p * q + m;
    assert p * (v * o + q) == v * (o * p) + p * q;
    Quotient(v * (o * p) + s, p, v * o + q, m);
    Above(p, o - 1, q);
    assert p * (o - 1) == o * p - p;
  }

  // Two addresses share their top bits exactly when the whole segments agree and the
  // remaining bits of the next one do.
  lemma PrefixMatch(a: Segments, b: Segments, length: nat)
    requires InRange(a) && InRange(b) && |a| == 8 && |b| == 8 && length <= 128
    ensures var q, r := length / 16, length % 16;
      Top(a, length) == Top(b, length) <==>
        a[..q] == b[..q] && (r > 0 ==> a[q] / Pow2(16 - r) * Pow2(16 - r) == b[q] / Pow2(16 - r) * Pow2(16 - r))
  {
    var q, r := length / 16, length % 16;
    TopBits(a, length);
    TopBits(b, length);
    ValueInjective(a[..q], b[..q]);
    if r > 0 {
      SplitSegment(0, a[q], r);
      SplitSegment(0, b[q], r);
      var x, y, p := a[q] / Pow2(16 - r), b[q] / Pow2(16 - r), Pow2(16 - r);
      Digits(Value(a[..q]), x, Value(b[..q]), y, Pow2(r));
      Digits(x, 0, y, 0, p);
    }
  }

  // ---------------------------------------------------------------- private addresses

  const LOOPBACK: Segments := [0, 0, 0, 0, 0, 0, 0, 1]
  const UNIQUE_LOCAL: Segments := [0xFC00, 0, 0, 0, 0, 0, 0, 0]
  const LINK_LOCAL: Segments := [0xFE80, 0, 0, 0, 0, 0, 0, 0]

  function IsPrivateIPv6(hostname: string): bool {
    var segments := ParseIPv6(hostname);
    if segments.None? then false
    else
      var s := segments.value;
      if s[0] == 0 && s[1] == 0 && s[2] == 0 && s[3] == 0 && s[4] == 0 && s[5] == 0 && s[6] == 0 && s[7] == 1 then true
      else if And32(s[0], 0xFE00) == 0xFC00 then true
      else if And32(s[0], 0xFFC0) == 0xFE80 then true
      else false
  }

  // Membership in an address block, as 128-bit numbers.
  ghost predicate InBlock(s: Segments, prefix: Segments, length: nat)
    requires length <= 128
  {
    Top(s, length) == Top(prefix, length)
  }

  // The private addresses are ::1/128, fc00::/7 and fe80::/10 and no others.
  lemma PrivateBlocks(hostname: string)
    ensures ParseIPv6(hostname).None? ==> !IsPrivateIPv6(hostname)
    ensures ParseIPv6(hostname).Some? && InRange(ParseIPv6(hostname).value) ==>
      var s := ParseIPv6(hostname).value;
      (IsPrivateIPv6(hostname) <==>
        InBlock(s, LOOPBACK, 128) || InBlock(s, UNIQUE_LOCAL, 7) || InBlock(s, LINK_LOCAL, 10))
  {
    hide ParseIPv6, Pow2, And32, Top, InRange;
    var parsed := ParseIPv6(hostname);
    if parsed.Some? && InRange(parsed.value) {
      var s := parsed.value;
      InLoopback(s);
      InLeadingBlock(s, UNIQUE_LOCAL, 7);
      InLeadingBlock(s, LINK_LOCAL, 10);
      Powers();
      LeadingMask(s, 7, 0xFE00);
      LeadingMask(s, 10, 0xFFC0);
    }
  }

  lemma InLoopback(s: Segments)
    requires InRange(s) && |s| == 8
    ensures InBlock(s, LOOPBACK, 128) <==> s == LOOPBACK
  {
    PrefixMatch(s, LOOPBACK, 128);
    assert s[..8] == s && LOOPBACK[..8] == LOOPBACK;
  }

  lemma InLeadingBlock(s: Segments, prefix: Segments, bits: nat)
    requires InRange(s) && |s| == 8 && 0 < bits < 16
    requires prefix == UNIQUE_LOCAL || prefix == LINK_LOCAL
    ensures InBlock(s, prefix, bits) <==>
      s[0] / Pow2(16 - bits) * Pow2(16 - bits) == prefix[0] / Pow2(16 - bits) * Pow2(16 - bits)
  {
    hide Pow2;
    PrefixMatch(s, prefix, bits);
  }

  lemma LeadingMask(s: Segments, bits: nat, mask: nat)
    requires InRange(s) && |s| == 8 && 0 < bits < 16 && mask < SEGMENT
    requires mask == Mask(bits, 16 - bits)
    ensures And32(s[0], mask) == s[0] / Pow2(16 - bits) * Pow2(16 - bits)
  {
    hide Pow2, BitAnd;
    assert Pow2(bits + (16 - bits)) == SEGMENT by {
      Powers();
    }
    AndMask(s[0], bits, 16 - bits);
    Shrinks(s[0], Pow2(16 - bits));
  }

  // ---------------------------------------------------------------- segments stay in range

  // Only a minus sign, which parseInt accepts, takes a segment below zero.
  lemma UnsignedIsInRange(address: string)
    requires '-' !in address
    ensures ParseIPv6(address).Some? ==> InRange(ParseIPv6(address).value)
  {
    hide ParsePart, QuadSegments, IsQuad;
    var addr := StripBrackets(address);
    UnsignedPart(addr, 8);
    var k := BeforeLastColon(addr);
    if k.Some? {
      UnsignedPart(addr[..k.value], 6);
    }
  }

  lemma UnsignedPart(addr: string, expected: nat)
    requires '-' !in addr
    ensures ParsePart(addr, expected).Some? ==> InRange(ParsePart(addr, expected).value)
  {
    hide ParseAll, Split;
    var k := DoubleColon(addr);
    if k.Some? {
      UnsignedParts(addr[..k.value]);
      UnsignedParts(addr[k.value + 2..]);
    } else {
      UnsignedParts(addr);
    }
  }

  lemma UnsignedParts(s: string)
    requires '-' !in s
    ensures ParseAll(Split(s, ':')).Some? ==> InRange(ParseAll(Split(s, ':')).value)
  {
    SplitKeepsOut(s, ':', '-');
    UnsignedAll(Split(s, ':'));
  }

  lemma {:induction false} SplitKeepsOut(s: string, sep: char, c: char)
    requires c !in s
    ensures Free(Split(s, sep), c)
    decreases |s|
  {
    if sep in s {
      SplitKeepsOut(s[IndexOf(s, sep) + 1..], sep, c);
    }
  }

  lemma {:induction false} UnsignedAll(parts: seq<string>)
    requires Free(parts, '-')
    ensures ParseAll(parts).Some? ==> InRange(ParseAll(parts).value)
  {
    if parts != [] {
      TrimKeepsOut(parts[0], '-');
      UnsignedAll(parts[1..]);
    }
  }

  lemma {:induction false} TrimKeepsOut(s: string, c: char)
    requires c !in s
    ensures c !in TrimStart(s)
  {
    if s != "" {
      TrimKeepsOut(s[1..], c);
    }
  }
}
