/** First-match lookup in an ordered list of key/value entries (a Python dict in insertion order). */
module Lookup {
  import opened Wrappers

  /** The value of the first entry, in order, whose key satisfies `p`. */
  function FirstWhere<K, V>(p: K -> bool, entries: seq<(K, V)>): Option<V> {
    if entries == [] then None
    else if p(entries[0].0) then Some(entries[0].1)
    else FirstWhere(p, entries[1..])
  }

  lemma {:induction false} FirstWhereIsFirst<K, V>(p: K -> bool, entries: seq<(K, V)>)
    ensures FirstWhere(p, entries).None? <==> forall i :: 0 <= i < |entries| ==> !p(entries[i].0)
    ensures FirstWhere(p, entries).Some? ==>
      exists i ::
        && 0 <= i < |entries|
        && p(entries[i].0)
        && FirstWhere(p, entries).value == entries[i].1
        && forall j :: 0 <= j < i ==> !p(entries[j].0)
  {
    if entries != [] && !p(entries[0].0) {
      var rest := entries[1..];
      FirstWhereIsFirst(p, rest);
      assert forall i :: 1 <= i < |entries| ==> entries[i] == rest[i - 1];
      if FirstWhere(p, rest).Some? {
        var i :| 0 <= i < |rest| && p(rest[i].0)
          && FirstWhere(p, rest).value == rest[i].1
          && forall j :: 0 <= j < i ==> !p(rest[j].0);
        assert entries[i + 1] == rest[i];
        assert forall j :: 0 <= j < i + 1 ==> !p(entries[j].0) by {
          forall j | 0 <= j < i + 1 ensures !p(entries[j].0) {
            if j > 0 { assert entries[j] == rest[j - 1]; }
          }
        }
      }
    }
  }

  /** The loop a first-match lookup runs: stops at the first entry whose key satisfies `p`. */
  method FindFirst<K, V>(p: K -> bool, entries: seq<(K, V)>) returns (r: Option<V>)
    ensures r == FirstWhere(p, entries)
  {
    for i := 0 to |entries|
      invariant FirstWhere(p, entries) == FirstWhere(p, entries[i..])
    {
      assert entries[i..][0] == entries[i] && entries[i..][1..] == entries[i + 1..];
      if p(entries[i].0) {
        return Some(entries[i].1);
      }
    }
    return None;
  }
}
