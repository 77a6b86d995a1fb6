// What executeJoin (executor/executor.ts) yields, as a nested loop and a tail of groups.
module JoinSpec {
  type Row = map<string, string>

  datatype JoinType = InnerJoin | LeftJoin | RightJoin | FullJoin

  // ---------------------------------------------------------------- the nested loop

  // The right rows with key k, in order.
  function Matches<K(==)>(right: seq<Row>, rightKey: Row -> K, k: K): seq<Row> {
    if right == [] then []
    else
      var n := |right| - 1;
      Matches(right[..n], rightKey, k) + if rightKey(right[n]) == k then [right[n]] else []
  }

  // One left row against its matches; the right row wins on shared columns.
  function Merged(l: Row, matches: seq<Row>): seq<Row> {
    if matches == [] then [] else Merged(l, matches[..|matches| - 1]) + [l + matches[|matches| - 1]]
  }

  function JoinOne(l: Row, matches: seq<Row>, keepUnmatched: bool): seq<Row> {
    if matches != [] then Merged(l, matches) else if keepUnmatched then [l] else []
  }

  function NestedLoop<K(==)>(left: seq<Row>, right: seq<Row>, leftKey: Row -> K, rightKey: Row -> K,
                             keepUnmatched: bool): seq<Row>
  {
    if left == [] then []
    else
      var n := |left| - 1;
      NestedLoop(left[..n], right, leftKey, rightKey, keepUnmatched) +
      JoinOne(left[n], Matches(right, rightKey, leftKey(left[n])), keepUnmatched)
  }

  function KeysOf<K(==)>(rows: seq<Row>, key: Row -> K): set<K> {
    if rows == [] then {} else KeysOf(rows[..|rows| - 1], key) + {key(rows[|rows| - 1])}
  }

  // The groups of right rows whose key is not excluded, by first appearance of the key.
  function Groups<K(==)>(keys: seq<K>, right: seq<Row>, rightKey: Row -> K, excluded: set<K>): seq<Row> {
    if keys == [] then []
    else
      var k := keys[|keys| - 1];
      Groups(keys[..|keys| - 1], right, rightKey, excluded) + if k in excluded then [] else Matches(right, rightKey, k)
  }

  function FirstSeen<K(==)>(rows: seq<Row>, key: Row -> K): seq<K> {
    if rows == [] then []
    else
      var n := |rows| - 1;
      var before := FirstSeen(rows[..n], key);
      before + if key(rows[n]) in before then [] else [key(rows[n])]
  }

  // The right rows that no left row matches, in order.
  function Unmatched<K(==)>(right: seq<Row>, rightKey: Row -> K, leftKeys: set<K>): seq<Row> {
    if right == [] then []
    else
      var n := |right| - 1;
      Unmatched(right[..n], rightKey, leftKeys) + if rightKey(right[n]) in leftKeys then [] else [right[n]]
  }

  // Right joins look left keys up by an unresolved promise: nothing is ever found,
  // so nothing counts as matched.
  ghost function Expected<K>(left: seq<Row>, right: seq<Row>, leftKey: Row -> K, rightKey: Row -> K,
                             t: JoinType): seq<Row> {
    NestedLoop(left, right, leftKey, rightKey, t == LeftJoin || t == FullJoin) +
    (if t == FullJoin then Groups(FirstSeen(right, rightKey), right, rightKey, KeysOf(left, leftKey))
     else if t == RightJoin then Groups(FirstSeen(right, rightKey), right, rightKey, {})
     else [])
  }
}
