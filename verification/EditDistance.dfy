// levenshteinDistance and stringSimilarity (utils/string-utils.ts) against edit
// scripts. Texts are sequences of UTF-16 code units, as the source counts them.
module EditDistance {

  // A script is read from left to right over the source text.
  datatype Edit = Keep(c: char) | Substitute(was: char, now: char) | Insert(c: char) | Delete(c: char)

  type Script = seq<Edit>

  // What an edit consumes and what it produces.
  function Consumed(e: Edit): string {
    match e
    case Keep(c) => [c]
    case Substitute(was, _) => [was]
    case Insert(_) => ""
    case Delete(c) => [c]
  }

  function Produced(e: Edit): string {
    match e
    case Keep(c) => [c]
    case Substitute(_, now) => [now]
    case Insert(c) => [c]
    case Delete(_) => ""
  }

  function Source(s: Script): string {
    if s == [] then "" else Consumed(s[0]) + Source(s[1..])
  }

  function Target(s: Script): string {
    if s == [] then "" else Produced(s[0]) + Target(s[1..])
  }

  // The number of edits that are not mere copying.
  function Cost(s: Script): nat {
    if s == [] then 0 else (if s[0].Keep? then 0 else 1) + Cost(s[1..])
  }

  ghost predicate Rewrites(s: Script, a: string, b: string) {
    Source(s) == a && Target(s) == b
  }

  ghost predicate IsDistance(a: string, b: string, d: nat) {
    && (exists s :: Rewrites(s, a, b) && Cost(s) == d)
    && (forall s :: Rewrites(s, a, b) ==> d <= Cost(s))
  }

  function Min(x: nat, y: nat): nat {
    if x <= y then x else y
  }

  function Max(x: nat, y: nat): nat {
    if x >= y then x else y
  }

  // The recurrence the matrix follows, on prefixes. Equal last characters cost
  // nothing and the alternatives are not even looked at.
  function Distance(a: string, b: string): nat
    decreases |a| + |b|
  {
    if a == "" then |b|
    else if b == "" then |a|
    else
      var a', b' := a[..|a| - 1], b[..|b| - 1];
      if a[|a| - 1] == b[|b| - 1] then Distance(a', b')
      else 1 + Min(Distance(a', b'), Min(Distance(a', b), Distance(a, b')))
  }

  // ---------------------------------------------------------------- the matrix

  // Cell (y, x) belongs to the first x characters of a and the first y of b.
  function Cell(a: string, b: string, y: nat, x: nat): nat
    requires y <= |b| && x <= |a|
  {
    Distance(a[..x], b[..y])
  }

  lemma Border(a: string, b: string, k: nat)
    ensures k <= |b| ==> Cell(a, b, k, 0) == k
    ensures k <= |a| ==> Cell(a, b, 0, k) == k
  {
  }

  lemma Recurrence(a: string, b: string, y: nat, x: nat)
    requires 0 < y <= |b| && 0 < x <= |a|
    ensures Cell(a, b, y, x) ==
      if b[y - 1] == a[x - 1] then Cell(a, b, y - 1, x - 1)
      else Min(Cell(a, b, y - 1, x - 1) + 1, Min(Cell(a, b, y, x - 1) + 1, Cell(a, b, y - 1, x) + 1))
  {
    assert a[..x][..x - 1] == a[..x - 1] && b[..y][..y - 1] == b[..y - 1];
  }

  method LevenshteinDistance(a: string, b: string) returns (d: nat)
    ensures IsDistance(a, b, d)
    ensures d == Distance(a, b)
  {
    hide Cell, IsDistance;
    var matrix := new nat[|b| + 1, |a| + 1];
    for i := 0 to |b| + 1
      invariant forall k :: 0 <= k < i ==> matrix[k, 0] == Cell(a, b, k, 0)
    {
      Border(a, b, i);
      matrix[i, 0] := i;
    }
    for j := 0 to |a| + 1
      invariant forall k :: 0 <= k <= |b| ==> matrix[k, 0] == Cell(a, b, k, 0)
      invariant forall k :: 0 <= k < j ==> matrix[0, k] == Cell(a, b, 0, k)
    {
      Border(a, b, j);
      matrix[0, j] := j;
    }
    for i := 1 to |b| + 1
      invariant forall k :: 0 <= k <= |b| ==> matrix[k, 0] == Cell(a, b, k, 0)
      invariant forall y, x :: 0 <= y < i && 0 <= x <= |a| ==> matrix[y, x] == Cell(a, b, y, x)
    {
      for j := 1 to |a| + 1
        invariant forall k :: 0 <= k <= |b| ==> matrix[k, 0] == Cell(a, b, k, 0)
        invariant forall y, x :: 0 <= y < i && 0 <= x <= |a| ==> matrix[y, x] == Cell(a, b, y, x)
        invariant forall x :: 0 <= x < j ==> matrix[i, x] == Cell(a, b, i, x)
      {
        Recurrence(a, b, i, j);
        if b[i - 1] == a[j - 1] {
          matrix[i, j] := matrix[i - 1, j - 1];
        } else {
          matrix[i, j] := Min(matrix[i - 1, j - 1] + 1, Min(matrix[i, j - 1] + 1, matrix[i - 1, j] + 1));
        }
      }
    }
    d := matrix[|b|, |a|];
    LastCell(a, b);
    DistanceIsLeast(a, b);
  }

  lemma LastCell(a: string, b: string)
    ensures Cell(a, b, |b|, |a|) == Distance(a, b)
  {
    assert a[..|a|] == a && b[..|b|] == b;
  }

  // ---------------------------------------------------------------- scripts

  lemma {:induction false} Append(s: Script, e: Edit)
    ensures Source(s + [e]) == Source(s) + Consumed(e)
    ensures Target(s + [e]) == Target(s) + Produced(e)
    ensures Cost(s + [e]) == Cost(s) + Cost([e])
  {
    hide Consumed, Produced;
    if s == [] {
      assert s + [e] == [e];
      assert Source([e]) == Consumed(e) + "" && Target([e]) == Produced(e) + "";
    } else {
      assert (s + [e])[1..] == s[1..] + [e];
      Append(s[1..], e);
      assert Source(s + [e]) == Consumed(s[0]) + (Source(s[1..]) + Consumed(e));
      assert Target(s + [e]) == Produced(s[0]) + (Target(s[1..]) + Produced(e));
    }
  }

  lemma Prepend(e: Edit, s: Script)
    ensures Source([e] + s) == Consumed(e) + Source(s)
    ensures Target([e] + s) == Produced(e) + Target(s)
    ensures Cost([e] + s) == (if e.Keep? then 0 else 1) + Cost(s)
  {
    assert ([e] + s)[1..] == s;
  }

  lemma DistanceCases(a: string, b: string)
    ensures a == "" ==> Distance(a, b) == |b|
    ensures b == "" ==> Distance(a, b) == |a|
    ensures a != "" && b != "" ==> (
      var a', b' := a[..|a| - 1], b[..|b| - 1];
      Distance(a, b) == if a[|a| - 1] == b[|b| - 1] then Distance(a', b')
                        else 1 + Min(Distance(a', b'), Min(Distance(a', b), Distance(a, b'))))
  {
  }

  // A script of exactly the computed cost.
  lemma {:induction false} BestScript(a: string, b: string) returns (s: Script)
    ensures Rewrites(s, a, b) && Cost(s) == Distance(a, b)
    decreases |a| + |b|
  {
    hide Distance;
    DistanceCases(a, b);
    if a == "" {
      s := Inserts(b);
    } else if b == "" {
      s := Deletes(a);
    } else {
      var x, y := a[|a| - 1], b[|b| - 1];
      var a', b' := a[..|a| - 1], b[..|b| - 1];
      assert a == a' + [x] && b == b' + [y];
      var front: Script;
      var e: Edit;
      if x == y {
        front := BestScript(a', b');
        e := Keep(x);
      } else if Distance(a', b') <= Distance(a', b) && Distance(a', b') <= Distance(a, b') {
        front := BestScript(a', b');
        e := Substitute(x, y);
      } else if Distance(a', b) <= Distance(a, b') {
        front := BestScript(a', b);
        e := Delete(x);
      } else {
        front := BestScript(a, b');
        e := Insert(y);
      }
      Append(front, e);
      s := front + [e];
    }
  }

  lemma {:induction false} Inserts(b: string) returns (s: Script)
    ensures Rewrites(s, "", b) && Cost(s) == |b|
  {
    if b == "" {
      s := [];
    } else {
      var t := Inserts(b[1..]);
      Prepend(Insert(b[0]), t);
      s := [Insert(b[0])] + t;
    }
  }

  lemma {:induction false} Deletes(a: string) returns (s: Script)
    ensures Rewrites(s, a, "") && Cost(s) == |a|
  {
    if a == "" {
      s := [];
    } else {
      var t := Deletes(a[1..]);
      Prepend(Delete(a[0]), t);
      s := [Delete(a[0])] + t;
    }
  }

  // Dropping or adding one last character moves the distance by at most one, which
  // is why the matrix need not look further when the characters match.
  lemma {:induction false} DistanceStep(a: string, b: string)
    ensures a != "" ==> Distance(a[..|a| - 1], b) <= Distance(a, b) + 1
    ensures b != "" ==> Distance(a, b[..|b| - 1]) <= Distance(a, b) + 1
    ensures a != "" ==> Distance(a, b) <= Distance(a[..|a| - 1], b) + 1
    ensures b != "" ==> Distance(a, b) <= Distance(a, b[..|b| - 1]) + 1
    decreases |a| + |b|
  {
    if a != "" && b != "" {
      var a', b' := a[..|a| - 1], b[..|b| - 1];
      DistanceStep(a', b);
      DistanceStep(a, b');
    }
  }

  // No script is cheaper than the computed distance.
  lemma {:induction false} NoCheaperScript(s: Script)
    ensures Distance(Source(s), Target(s)) <= Cost(s)
    decreases |s|
  {
    if s != [] {
      var n := |s| - 1;
      var front, e := s[..n], s[n];
      assert s == front + [e];
      Append(front, e);
      NoCheaperScript(front);
      var a, b := Source(front), Target(front);
      match e
      case Keep(c) =>
        assert (a + [c])[..|a|] == a && (b + [c])[..|b|] == b;
      case Substitute(was, now) =>
        assert (a + [was])[..|a|] == a && (b + [now])[..|b|] == b;
      case Insert(c) =>
        assert (b + [c])[..|b|] == b;
        assert a + "" == a;
        DistanceStep(a, b + [c]);
      case Delete(c) =>
        assert (a + [c])[..|a|] == a;
        assert b + "" == b;
        DistanceStep(a + [c], b);
    }
  }

  lemma DistanceIsLeast(a: string, b: string)
    ensures IsDistance(a, b, Distance(a, b))
  {
    var best := BestScript(a, b);
    forall s | Rewrites(s, a, b)
      ensures Distance(a, b) <= Cost(s)
    {
      NoCheaperScript(s);
    }
  }

  // ---------------------------------------------------------------- the metric

  lemma {:induction false} Symmetric(a: string, b: string)
    ensures Distance(a, b) == Distance(b, a)
    decreases |a| + |b|
  {
    if a != "" && b != "" {
      var a', b' := a[..|a| - 1], b[..|b| - 1];
      Symmetric(a', b');
      Symmetric(a', b);
      Symmetric(a, b');
    }
  }

  lemma {:induction false} ZeroOnlyWhenEqual(a: string, b: string)
    ensures Distance(a, b) == 0 <==> a == b
    decreases |a| + |b|
  {
    if a != "" && b != "" {
      var a', b' := a[..|a| - 1], b[..|b| - 1];
      assert a == a' + [a[|a| - 1]] && b == b' + [b[|b| - 1]];
      ZeroOnlyWhenEqual(a', b');
    }
  }

  lemma {:induction false} Bounds(a: string, b: string)
    ensures |a| - |b| <= Distance(a, b) && |b| - |a| <= Distance(a, b)
    ensures Distance(a, b) <= Max(|a|, |b|)
    decreases |a| + |b|
  {
    if a != "" && b != "" {
      var a', b' := a[..|a| - 1], b[..|b| - 1];
      Bounds(a', b');
      Bounds(a', b);
      Bounds(a, b');
    }
  }

  // Two edits that meet in one character, as at most one edit.
  function Merge(x: Edit, y: Edit): (u: Script)
    requires !x.Delete? && !y.Insert? && Produced(x) == Consumed(y)
    ensures |u| <= 1
    ensures Source(u) == Consumed(x) && Target(u) == Produced(y)
    ensures Cost(u) <= Cost([x]) + Cost([y])
  {
    match (x, y)
    case (Keep(_), _) => [y]
    case (_, Keep(_)) => [x]
    case (Substitute(was, _), Substitute(_, now)) => [Substitute(was, now)]
    case (Substitute(was, _), Delete(_)) => [Delete(was)]
    case (Insert(_), Substitute(_, now)) => [Insert(now)]
    case (Insert(_), Delete(_)) => []
  }

  // Running one script after another, character by character.
  lemma {:induction false} Compose(s: Script, t: Script) returns (u: Script)
    requires Target(s) == Source(t)
    ensures Rewrites(u, Source(s), Target(t)) && Cost(u) <= Cost(s) + Cost(t)
    decreases |s| + |t|
  {
    if s != [] && s[0].Delete? {
      var v := Compose(s[1..], t);
      Prepend(s[0], v);
      u := [s[0]] + v;
    } else if t != [] && t[0].Insert? {
      var v := Compose(s, t[1..]);
      Prepend(t[0], v);
      u := [t[0]] + v;
    } else if s == [] || t == [] {
      u := [];
    } else {
      u := ComposeHeads(s, t);
    }
  }

  lemma {:induction false} ComposeHeads(s: Script, t: Script) returns (u: Script)
    requires Target(s) == Source(t) && s != [] && t != [] && !s[0].Delete? && !t[0].Insert?
    ensures Rewrites(u, Source(s), Target(t)) && Cost(u) <= Cost(s) + Cost(t)
    decreases |s| + |t|, 0
  {
    SameHead(s, t);
    hide Consumed, Produced;
    var m := Merge(s[0], t[0]);
    var v := Compose(s[1..], t[1..]);
    u := m + v;
    if m == [] {
      assert u == v;
      assert "" + Source(v) == Source(v) && "" + Target(v) == Target(v);
    } else {
      assert m == [m[0]];
      Prepend(m[0], v);
      Prepend(m[0], []);
      assert m[..] + [] == m;
      assert Consumed(m[0]) + "" == Consumed(m[0]) && Produced(m[0]) + "" == Produced(m[0]);
    }
  }

  lemma SameHead(s: Script, t: Script)
    requires Target(s) == Source(t) && s != [] && t != [] && !s[0].Delete? && !t[0].Insert?
    ensures Produced(s[0]) == Consumed(t[0]) && Target(s[1..]) == Source(t[1..])
  {
    assert Target(s)[0] == Source(t)[0];
    assert Target(s)[1..] == Target(s[1..]) && Source(t)[1..] == Source(t[1..]);
  }

  lemma TriangleInequality(a: string, b: string, c: string)
    ensures Distance(a, c) <= Distance(a, b) + Distance(b, c)
  {
    var s := BestScript(a, b);
    var t := BestScript(b, c);
    var u := Compose(s, t);
    NoCheaperScript(u);
  }

  // ---------------------------------------------------------------- similarity

  // 1 - part / whole.
  function Rest(part: nat, whole: nat): (r: real)
    requires part <= whole && whole > 0
    ensures 0.0 <= r <= 1.0
    ensures r == 1.0 <==> part == 0
    ensures r * whole as real == (whole - part) as real
  {
    ShareBounds(part as real, whole as real);
    1.0 - part as real / whole as real
  }

  lemma ShareBounds(part: real, whole: real)
    requires 0.0 <= part <= whole && whole > 0.0
    ensures 0.0 <= part / whole <= 1.0 && (part / whole == 0.0 <==> part == 0.0)
    ensures (1.0 - part / whole) * whole == whole - part
  {
    var q := part / whole;
    assert q * whole == part;
    assert (1.0 - q) * whole == whole - q * whole;
    assert q > 1.0 ==> q * whole > whole;
    assert q < 0.0 ==> q * whole < 0.0;
  }

  method StringSimilarity(a: string, b: string) returns (r: real)
    ensures 0.0 <= r <= 1.0
    ensures r == 1.0 <==> a == b
    ensures r * Max(|a|, |b|) as real == (Max(|a|, |b|) - Distance(a, b)) as real
  {
    hide Distance, IsDistance;
    Bounds(a, b);
    ZeroOnlyWhenEqual(a, b);
    var maxLen := Max(|a|, |b|);
    if maxLen == 0 {
      return 1.0;
    }
    var distance := LevenshteinDistance(a, b);
    r := Rest(distance, maxLen);
  }
}
