/** Small value types shared by every module: an optional value, the element
    set of a sequence, and Python's insertion-ordered dictionary. */
module Containers {

  datatype Option<+T> = None | Some(value: T)

  /** No element occurs twice. */
  predicate Distinct<T(==)>(s: seq<T>) {
    forall i, j :: 0 <= i < j < |s| ==> s[i] != s[j]
  }

  /** `set(s)` in Python. */
  function Elems<T(==)>(s: seq<T>): set<T> {
    set x | x in s
  }

  /** A Python dict: its entries, and the order in which `items()` visits their keys. */
  datatype Dict<K, T> = Dict(keys: seq<K>, entries: map<K, T>)

  predicate DictWellFormed<K(==), T>(d: Dict<K, T>) {
    Distinct(d.keys) && d.entries.Keys == Elems(d.keys)
  }

  /** Every element of a sequence is counted, repeats included, so a sequence
      has at least as many entries as elements, and as many exactly when no
      element repeats. */
  lemma {:induction false} ElemsCount<T>(s: seq<T>)
    ensures |Elems(s)| <= |s|
    ensures |Elems(s)| == |s| <==> Distinct(s)
  {
    if s != [] {
      var init := s[..|s| - 1];
      var last := s[|s| - 1];
      ElemsCount(init);
      assert Elems(s) == Elems(init) + {last};
      if last in init {
        assert Elems(s) == Elems(init);
        var k :| 0 <= k < |init| && init[k] == last;
        assert s[k] == s[|s| - 1];
      } else {
        assert |Elems(s)| == |Elems(init)| + 1;
        if Distinct(init) {
          forall i, j | 0 <= i < j < |s| ensures s[i] != s[j] {
            if j < |s| - 1 {
              assert s[i] == init[i] && s[j] == init[j];
            } else {
              assert s[i] == init[i];
            }
          }
        } else {
          var i, j :| 0 <= i < j < |init| && init[i] == init[j];
          assert s[i] == s[j];
        }
      }
    }
  }

  /** `s` with every occurrence of `k` taken out, order kept. */
  function Remove<T(==)>(s: seq<T>, k: T): (r: seq<T>)
    ensures Elems(r) == Elems(s) - {k}
    ensures Distinct(s) ==> Distinct(r)
    decreases |s|
  {
    if s == [] then []
    else
      var rest := Remove(s[1..], k);
      assert Elems(s) == {s[0]} + Elems(s[1..]);
      if s[0] == k then rest
      else
        assert Distinct(s) ==> s[0] !in Elems(s[1..]);
        assert Elems([s[0]] + rest) == {s[0]} + Elems(rest);
        [s[0]] + rest
  }

  /** `del d[k]`: the entry for `k` goes, the others keep their order. */
  function Without<K(==), T>(d: Dict<K, T>, k: K): (r: Dict<K, T>)
    requires DictWellFormed(d)
    ensures DictWellFormed(r) && r.entries == d.entries - {k}
  {
    Dict(Remove(d.keys, k), d.entries - {k})
  }
}
