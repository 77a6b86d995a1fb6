// The JavaScript Map: a finite map that remembers the order in which its keys
// were first inserted. Overwriting keeps a key's place, deleting gives it up.
module JsMaps {
  import opened Seqs

  datatype JsMap<K(==,!new), V> = JsMap(keys: seq<K>, at: map<K, V>) {

    ghost predicate Valid() {
      && Distinct(keys)
      && ToSet(keys) == at.Keys
    }

    predicate Has(k: K) {
      k in at
    }

    function Put(k: K, v: V): (m: JsMap<K, V>)
      ensures m.at == at[k := v]
      ensures Valid() ==> m.Valid()
    {
      assert Valid() && k !in at ==> k !in keys;
      JsMap(if k in at then keys else keys + [k], at[k := v])
    }

    function Remove(k: K): (m: JsMap<K, V>)
      ensures m.at == at - {k}
      ensures Valid() ==> m.Valid()
    {
      RemoveKeysDistinct(keys, k);
      WithoutMembers(keys, k);
      JsMap(Without(keys, k), at - {k})
    }
  }

  function Empty<K(==,!new), V>(): (m: JsMap<K, V>)
    ensures m.Valid()
  {
    JsMap([], map[])
  }

  function Without<K(==,!new)>(s: seq<K>, k: K): seq<K> {
    if s == [] then []
    else Without(s[..|s| - 1], k) + if s[|s| - 1] == k then [] else [s[|s| - 1]]
  }

  lemma KeysAgree<K(!new), V>(m: JsMap<K, V>, k: K)
    requires m.Valid()
    ensures k in m.at <==> k in m.keys
  {
    Member(m.keys, k);
  }

  lemma {:induction false} WithoutMembers<K(!new)>(s: seq<K>, k: K)
    ensures forall x :: x in Without(s, k) <==> x in s && x != k
    ensures ToSet(Without(s, k)) == ToSet(s) - {k}
  {
    if s != [] {
      assert s == s[..|s| - 1] + [s[|s| - 1]];
      WithoutMembers(s[..|s| - 1], k);
    }
  }

  lemma {:induction false} RemoveKeysDistinct<K(!new)>(s: seq<K>, k: K)
    ensures Distinct(s) ==> Distinct(Without(s, k))
  {
    if s != [] && Distinct(s) {
      var n := |s| - 1;
      assert forall i :: 0 <= i < n ==> s[..n][i] == s[i];
      RemoveKeysDistinct(s[..n], k);
      WithoutMembers(s[..n], k);
      assert s[n] !in Without(s[..n], k);
    }
  }

  lemma {:induction false} WithoutAt<K(!new)>(s: seq<K>, i: nat)
    requires Distinct(s) && i < |s|
    ensures Without(s, s[i]) == s[..i] + s[i + 1..]
  {
    var n := |s| - 1;
    assert s == s[..n] + [s[n]];
    if i < n {
      WithoutAt(s[..n], i);
      assert s[..n][..i] == s[..i] && s[..n][i + 1..] + [s[n]] == s[i + 1..];
    } else {
      WithoutNone(s[..n], s[n]);
    }
  }

  lemma {:induction false} WithoutNone<K(!new)>(s: seq<K>, k: K)
    requires k !in s
    ensures Without(s, k) == s
  {
    if s != [] {
      WithoutNone(s[..|s| - 1], k);
    }
  }

  // Visiting the keys in order: the i-th key is bound and not met before.
  lemma KeyAt<K(!new), V>(m: JsMap<K, V>, i: nat)
    requires m.Valid() && i < |m.keys|
    ensures m.keys[i] in m.at
    ensures m.keys[i] !in ToSet(m.keys[..i])
    ensures ToSet(m.keys[..i + 1]) == ToSet(m.keys[..i]) + {m.keys[i]}
  {
    assert m.keys[i] in ToSet(m.keys);
    assert m.keys[..i + 1] == m.keys[..i] + [m.keys[i]];
  }

  lemma AllKeys<K(!new), V>(m: JsMap<K, V>)
    requires m.Valid()
    ensures ToSet(m.keys[..0]) == {}
    ensures ToSet(m.keys[..|m.keys|]) == m.at.Keys
  {
    assert m.keys[..|m.keys|] == m.keys;
  }

  lemma RemoveCard<K(!new), V>(m: JsMap<K, V>)
    requires m.Valid()
    ensures |m.keys| == |m.at|
  {
    DistinctCard(m.keys);
  }
}
