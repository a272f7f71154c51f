/**
 * Label dictionaries keyed by topic id, and the key-wise override that both
 * the service's label merge and the label persistence perform: a sequence of
 * assignments `d[k] = v`, applied in order.
 */
module LabelMaps {
  import opened Wrappers

  /** The keys that a sequence of assignments writes. */
  function KeysOf(pairs: seq<(int, string)>): (ks: set<int>)
    ensures forall i :: 0 <= i < |pairs| ==> pairs[i].0 in ks
    ensures forall k :: k in ks ==> exists i :: 0 <= i < |pairs| && pairs[i].0 == k
  {
    if pairs == [] then {} else KeysOf(pairs[..|pairs| - 1]) + {pairs[|pairs| - 1].0}
  }

  /** `for k, v in pairs: d[k] = v` on a copy of `m`. */
  function Override(m: map<int, string>, pairs: seq<(int, string)>): (r: map<int, string>)
    ensures r.Keys == m.Keys + KeysOf(pairs)
  {
    if pairs == [] then m
    else
      var last := pairs[|pairs| - 1];
      Override(m, pairs[..|pairs| - 1])[last.0 := last.1]
  }

  /** One more assignment of the loop. */
  lemma OverrideStep(m: map<int, string>, pairs: seq<(int, string)>, i: nat)
    requires i < |pairs|
    ensures Override(m, pairs[..i + 1]) == Override(m, pairs[..i])[pairs[i].0 := pairs[i].1]
  {
    assert pairs[..i + 1][..i] == pairs[..i];
  }

  /** The last assignment to a key decides its value. */
  lemma {:induction false} OverrideLastWins(m: map<int, string>, pairs: seq<(int, string)>, i: nat)
    requires i < |pairs|
    requires forall j :: i < j < |pairs| ==> pairs[j].0 != pairs[i].0
    ensures Override(m, pairs)[pairs[i].0] == pairs[i].1
  {
    if i < |pairs| - 1 {
      OverrideLastWins(m, pairs[..|pairs| - 1], i);
    }
  }

  /** A key that no assignment writes keeps its value. */
  lemma {:induction false} OverrideUntouched(m: map<int, string>, pairs: seq<(int, string)>, k: int)
    requires k in m && k !in KeysOf(pairs)
    ensures Override(m, pairs)[k] == m[k]
  {
    if pairs != [] {
      OverrideUntouched(m, pairs[..|pairs| - 1], k);
    }
  }

  /** dict.get(k, default). */
  function Get(m: map<int, string>, k: int, default: string): (v: string)
    ensures k in m ==> v == m[k]
    ensures k !in m ==> v == default
  {
    if k in m then m[k] else default
  }

  /** The value of the last assignment to `k`, if there is one. */
  function LastValue(pairs: seq<(int, string)>, k: int): (v: Option<string>)
    ensures v.Some? <==> k in KeysOf(pairs)
  {
    if pairs == [] then None
    else if pairs[|pairs| - 1].0 == k then Some(pairs[|pairs| - 1].1)
    else LastValue(pairs[..|pairs| - 1], k)
  }

  /** The override, one key at a time. */
  lemma {:induction false} OverrideAt(m: map<int, string>, pairs: seq<(int, string)>, k: int)
    ensures k in Override(m, pairs) <==> k in m || LastValue(pairs, k).Some?
    ensures k in Override(m, pairs) ==>
      Override(m, pairs)[k] == if LastValue(pairs, k).Some? then LastValue(pairs, k).value else m[k]
  {
    if pairs != [] {
      OverrideAt(m, pairs[..|pairs| - 1], k);
    }
  }

  /** Applying the same overrides a second time changes nothing. */
  lemma OverrideAgain(m: map<int, string>, pairs: seq<(int, string)>)
    ensures Override(Override(m, pairs), pairs) == Override(m, pairs)
  {
    var once := Override(m, pairs);
    var twice := Override(once, pairs);
    forall k | k in twice ensures k in once && twice[k] == once[k] {
      OverrideAt(once, pairs, k);
      OverrideAt(m, pairs, k);
    }
  }
}
