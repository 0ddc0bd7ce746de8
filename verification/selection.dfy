/** Order-keeping selection from a sequence: the reference against which the filtered
    querysets and comprehensions of the views are stated. */
module Selection {

  /** The positions of the elements of `s` that satisfy `keep`, in ascending order. That
      every such position is listed is `IndicesComplete`. */
  function IndicesWhere<T>(s: seq<T>, keep: T -> bool): (ix: seq<nat>)
    ensures |ix| <= |s|
    ensures forall a :: 0 <= a < |ix| ==> ix[a] < |s| && keep(s[ix[a]])
    ensures forall a, b :: 0 <= a < b < |ix| ==> ix[a] < ix[b]
    decreases |s|
  {
    if s == [] then []
    else
      var init := s[..|s| - 1];
      var ix := IndicesWhere(init, keep);
      assert forall i :: 0 <= i < |init| ==> init[i] == s[i];
      if keep(s[|s| - 1]) then ix + [|s| - 1] else ix
  }

  /** Every position whose element satisfies `keep` is listed. */
  lemma {:induction false} IndicesComplete<T>(s: seq<T>, keep: T -> bool)
    ensures forall i :: 0 <= i < |s| && keep(s[i]) ==> i in IndicesWhere(s, keep)
    decreases |s|
  {
    if s != [] {
      var init := s[..|s| - 1];
      IndicesComplete(init, keep);
      assert forall i :: 0 <= i < |init| ==> init[i] == s[i];
    }
  }

  /** The elements of `s` that satisfy `keep`, in their order in `s`: exactly the elements
      at the positions `IndicesWhere` lists. */
  function KeepWhere<T>(s: seq<T>, keep: T -> bool): (r: seq<T>)
    ensures |r| == |IndicesWhere(s, keep)|
    ensures forall a {:trigger IndicesWhere(s, keep)[a]} :: 0 <= a < |r| ==> r[a] == s[IndicesWhere(s, keep)[a]]
    decreases |s|
  {
    if s == [] then []
    else
      var init := s[..|s| - 1];
      var r := KeepWhere(init, keep);
      assert forall i :: 0 <= i < |init| ==> init[i] == s[i];
      if keep(s[|s| - 1]) then r + [s[|s| - 1]] else r
  }

  /** An element is kept exactly when it occurs in `s` and satisfies `keep`. */
  lemma KeepMembers<T>(s: seq<T>, keep: T -> bool)
    ensures forall x :: x in KeepWhere(s, keep) <==> x in s && keep(x)
    ensures forall k :: 0 <= k < |KeepWhere(s, keep)| ==> keep(KeepWhere(s, keep)[k])
  {
    var r := KeepWhere(s, keep);
    var ix := IndicesWhere(s, keep);
    IndicesComplete(s, keep);
    forall x | x in s && keep(x)
      ensures x in r
    {
      var i :| 0 <= i < |s| && s[i] == x;
      assert i in ix;
      var a :| 0 <= a < |ix| && ix[a] == i;
      assert r[a] == x;
    }
  }

  /** Selection from a non-empty sequence: the selection from all but the last element,
      then the last one if it is kept. */
  lemma KeepLast<T>(s: seq<T>, keep: T -> bool)
    requires s != []
    ensures KeepWhere(s, keep) == KeepWhere(s[..|s| - 1], keep) + (if keep(s[|s| - 1]) then [s[|s| - 1]] else [])
  {
  }

  /** When every element satisfies `keep`, nothing is dropped. */
  lemma {:induction false} KeepAll<T>(s: seq<T>, keep: T -> bool)
    requires forall i :: 0 <= i < |s| ==> keep(s[i])
    ensures KeepWhere(s, keep) == s
    decreases |s|
  {
    if s != [] {
      var init := s[..|s| - 1];
      assert forall i :: 0 <= i < |init| ==> keep(init[i]) by {
        assert forall i :: 0 <= i < |init| ==> init[i] == s[i];
      }
      KeepAll(init, keep);
      KeepLast(s, keep);
      assert init + [s[|s| - 1]] == s;
    }
  }

  /** Nothing is kept exactly when no element satisfies `keep`. */
  lemma KeepNone<T>(s: seq<T>, keep: T -> bool)
    ensures KeepWhere(s, keep) == [] <==> forall i :: 0 <= i < |s| ==> !keep(s[i])
  {
    var ix := IndicesWhere(s, keep);
    IndicesComplete(s, keep);
    if i :| 0 <= i < |s| && keep(s[i]) {
      assert i in ix;
    }
  }
}
