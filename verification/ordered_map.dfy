/** JavaScript's `Map` with string keys: entries keep the order in which their keys were
    first set, and setting an existing key replaces its value in place. */
module OrderedMap {
  import opened Wrappers

  type OMap<V> = seq<(string, V)>

  /** No key occurs twice. */
  predicate Distinct<V>(m: OMap<V>)
  {
    forall i, j :: 0 <= i < j < |m| ==> m[i].0 != m[j].0
  }

  /** The keys, in entry order: an object's member names in document order, or a `Map`'s
      keys in insertion order. */
  function Keys<V>(m: OMap<V>): (ks: seq<string>)
    ensures |ks| == |m| && forall i :: 0 <= i < |m| ==> ks[i] == m[i].0
  {
    seq(|m|, i requires 0 <= i < |m| => m[i].0)
  }

  predicate HasKey<V>(m: OMap<V>, k: string)
  {
    exists i :: 0 <= i < |m| && m[i].0 == k
  }

  /** `m.get(k)`, with `None` for `undefined`. */
  function Lookup<V>(m: OMap<V>, k: string): (r: Option<V>)
    ensures r.Some? <==> HasKey(m, k)
    ensures r.Some? ==> exists i :: 0 <= i < |m| && m[i] == (k, r.value)
    ensures Distinct(m) ==> forall i :: 0 <= i < |m| && m[i].0 == k ==> r == Some(m[i].1)
  {
    if |m| == 0 then None
    else if m[0].0 == k then Some(m[0].1)
    else
      var r := Lookup(m[1..], k);
      assert forall i :: 1 <= i < |m| ==> m[i] == m[1..][i - 1];
      r
  }

  /** `m.set(k, v)`. */
  function Set<V>(m: OMap<V>, k: string, v: V): (r: OMap<V>)
    requires Distinct(m)
    ensures Distinct(r)
    ensures Lookup(r, k) == Some(v)
    ensures forall k' :: k' != k ==> Lookup(r, k') == Lookup(m, k')
    ensures HasKey(m, k) ==> |r| == |m| && forall i :: 0 <= i < |m| ==> r[i].0 == m[i].0
    ensures !HasKey(m, k) ==> r == m + [(k, v)]
  {
    if HasKey(m, k) then
      var i :| 0 <= i < |m| && m[i].0 == k;
      var r := m[i := (k, v)];
      assert r[i] == (k, v);
      assert Distinct(r);
      forall k' | k' != k
        ensures Lookup(r, k') == Lookup(m, k')
      {
        if HasKey(m, k') {
          var j :| 0 <= j < |m| && m[j].0 == k';
          assert r[j] == m[j];
        }
      }
      r
    else
      var r := m + [(k, v)];
      assert r[|m|] == (k, v);
      assert Distinct(r);
      forall k' | k' != k
        ensures Lookup(r, k') == Lookup(m, k')
      {
        if HasKey(m, k') {
          var j :| 0 <= j < |m| && m[j].0 == k';
          assert r[j] == m[j];
        } else {
          forall j | 0 <= j < |r|
            ensures r[j].0 != k'
          {
            if j < |m| {
              assert r[j] == m[j];
            }
          }
        }
      }
      r
  }
}
