/** The "first occurrence wins" loop shared by the two project loaders
    (`scripts/importa_proyectos.py` and `scripts/railway_start.py`): walk the decoded items in
    order, skip those without a name, skip those whose lower-cased name was already seen, and
    build one row for each of the others. */
module Dedup {
  import opened Wrappers
  import opened Text

  /** What the loader's name expression gives for one item: a crash (`Unreadable`), a blank
      name that makes the loop `continue` (`Unnamed`), or a usable name. */
  datatype NameOf = Unreadable | Unnamed | Named(name: string)

  /** The key names are compared by: the name lower-cased. */
  function Key(n: NameOf): string
    requires n.Named?
  {
    Lower(n.name)
  }

  /** Item `i` has a name, and no earlier item has a name with the same key. */
  predicate FirstOfKey(names: seq<NameOf>, i: int)
  {
    && 0 <= i < |names|
    && names[i].Named?
    && forall j :: 0 <= j < i && names[j].Named? ==> Key(names[j]) != Key(names[i])
  }

  /** The keys of the named items among `names`. */
  function SeenKeys(names: seq<NameOf>): (keys: set<string>)
    ensures forall j :: 0 <= j < |names| && names[j].Named? ==> Key(names[j]) in keys
    ensures forall k :: k in keys ==> exists j :: 0 <= j < |names| && names[j].Named? && Key(names[j]) == k
  {
    set j | 0 <= j < |names| && names[j].Named? :: Key(names[j])
  }

  /** The positions the loop builds a row for, in input order. */
  function Kept(names: seq<NameOf>): (ks: seq<nat>)
    ensures forall a :: 0 <= a < |ks| ==> FirstOfKey(names, ks[a])
    ensures forall i :: FirstOfKey(names, i) ==> i in ks
    ensures forall a, b :: 0 <= a < b < |ks| ==> ks[a] < ks[b]
    decreases |names|
  {
    if |names| == 0 then []
    else
      var m := |names| - 1;
      var init := names[..m];
      var ks := Kept(init);
      assert forall i :: 0 <= i < m ==> (FirstOfKey(init, i) <==> FirstOfKey(names, i));
      if FirstOfKey(names, m) then ks + [m] else ks
  }

  /** Item `i` makes the loop crash: its name cannot be read, or it is kept and building its
      row fails. */
  predicate BadAt<T, R>(items: seq<T>, names: seq<NameOf>, build: (T, string) -> Option<R>, i: int)
    requires |names| == |items|
  {
    0 <= i < |items| && (names[i].Unreadable? || (FirstOfKey(names, i) && build(items[i], names[i].name).None?))
  }

  predicate Crashes<T, R>(items: seq<T>, names: seq<NameOf>, build: (T, string) -> Option<R>)
    requires |names| == |items|
  {
    exists i :: 0 <= i < |items| && BadAt(items, names, build, i)
  }

  /** `rows` are the rows built for the items at positions `ks`, in that order. */
  ghost predicate RowsFor<T, R>(items: seq<T>, names: seq<NameOf>, build: (T, string) -> Option<R>, ks: seq<nat>, rows: seq<R>)
    requires |names| == |items|
  {
    |rows| == |ks| && forall a :: 0 <= a < |ks| ==> ks[a] < |items| && names[ks[a]].Named? && Some(rows[a]) == build(items[ks[a]], names[ks[a]].name)
  }

  /** The names of all items. */
  function NamesOf<T>(items: seq<T>, nameOf: T -> NameOf): (names: seq<NameOf>)
    ensures |names| == |items| && forall i :: 0 <= i < |items| ==> names[i] == nameOf(items[i])
  {
    seq(|items|, i requires 0 <= i < |items| => nameOf(items[i]))
  }

  /** Extending the input by one item keeps the earlier decisions and adds one for the new
      item. */
  lemma KeptSnoc(names: seq<NameOf>, i: nat)
    requires i < |names|
    ensures Kept(names[..i + 1]) == Kept(names[..i]) + (if FirstOfKey(names, i) then [i] else [])
  {
    var p := names[..i + 1];
    assert p[..i] == names[..i];
    assert FirstOfKey(p, i) <==> FirstOfKey(names, i);
  }

  lemma SeenKeysSnoc(names: seq<NameOf>, i: nat)
    requires i < |names|
    ensures SeenKeys(names[..i + 1]) == SeenKeys(names[..i]) + (if names[i].Named? then {Key(names[i])} else {})
  {
    var p := names[..i + 1];
    assert forall j :: 0 <= j < i ==> p[j] == names[..i][j];
  }

  lemma RowsForSnoc<T, R>(items: seq<T>, names: seq<NameOf>, build: (T, string) -> Option<R>, ks: seq<nat>, rows: seq<R>, i: nat, row: R)
    requires |names| == |items| && i < |items| && names[i].Named?
    requires RowsFor(items, names, build, ks, rows) && build(items[i], names[i].name) == Some(row)
    ensures RowsFor(items, names, build, ks + [i], rows + [row])
  {
  }

  /** The loop: `None` when it crashes, otherwise the rows built for the kept items in input
      order. */
  method CollectFirstWins<T, R>(items: seq<T>, nameOf: T -> NameOf, build: (T, string) -> Option<R>)
    returns (rows: Option<seq<R>>)
    ensures var names := NamesOf(items, nameOf);
      rows.None? <==> Crashes(items, names, build)
    ensures var names := NamesOf(items, nameOf);
      rows.Some? ==> RowsFor(items, names, build, Kept(names), rows.value)
  {
    var names := NamesOf(items, nameOf);
    var seen: set<string> := {};
    var acc: seq<R> := [];
    ghost var ks: seq<nat> := [];
    var i := 0;
    while i < |items|
      invariant 0 <= i <= |items|
      invariant seen == SeenKeys(names[..i])
      invariant ks == Kept(names[..i])
      invariant RowsFor(items, names, build, ks, acc)
      invariant forall j :: 0 <= j < i ==> !BadAt(items, names, build, j)
    {
      var ok;
      ok, seen, acc, ks := Step(items, names, build, i, seen, acc, ks);
      if !ok {
        CrashesAt(items, names, build, i);
        return None;
      }
      i := i + 1;
    }
    LoopDone(items, names, build, ks, acc);
    rows := Some(acc);
  }

  /** The loop ran to the end: nothing crashed and the rows are those of every kept item. */
  lemma LoopDone<T, R>(items: seq<T>, names: seq<NameOf>, build: (T, string) -> Option<R>, ks: seq<nat>, acc: seq<R>)
    requires |names| == |items| && ks == Kept(names[..|items|]) && RowsFor(items, names, build, ks, acc)
    requires forall j :: 0 <= j < |items| ==> !BadAt(items, names, build, j)
    ensures !Crashes(items, names, build)
    ensures RowsFor(items, names, build, Kept(names), acc)
  {
    assert names[..|items|] == names;
  }

  /** One pass of the loop body on item `i`: `false` when the item crashes the loop,
      otherwise the seen keys, rows and kept positions extended to include it. */
  method Step<T, R>(items: seq<T>, names: seq<NameOf>, build: (T, string) -> Option<R>, i: nat,
                    seen: set<string>, acc: seq<R>, ghost ks: seq<nat>)
    returns (ok: bool, seen': set<string>, acc': seq<R>, ghost ks': seq<nat>)
    requires |names| == |items| && i < |items|
    requires seen == SeenKeys(names[..i]) && ks == Kept(names[..i]) && RowsFor(items, names, build, ks, acc)
    ensures ok <==> !BadAt(items, names, build, i)
    ensures ok ==> seen' == SeenKeys(names[..i + 1]) && ks' == Kept(names[..i + 1])
    ensures ok ==> RowsFor(items, names, build, ks', acc')
  {
    StepFacts(items, names, build, i, seen, ks);
    ok, seen', acc', ks' := true, seen, acc, ks;
    match names[i] {
      case Unreadable =>
        ok := false;
      case Unnamed =>
      case Named(n) =>
        if Lower(n) !in seen {
          seen' := seen + {Lower(n)};
          var row := build(items[i], n);
          if row.None? {
            ok := false;
          } else {
            RowsForSnoc(items, names, build, ks, acc, i, row.value);
            acc' := acc + [row.value];
            ks' := ks + [i];
          }
        }
    }
  }

  /** What the loop learns from item `i`, given the keys and positions of the items before
      it: whether the item crashes the loop, and how the seen keys and kept positions grow. */
  lemma StepFacts<T, R>(items: seq<T>, names: seq<NameOf>, build: (T, string) -> Option<R>, i: nat, seen: set<string>, ks: seq<nat>)
    requires |names| == |items| && i < |items|
    requires seen == SeenKeys(names[..i]) && ks == Kept(names[..i])
    ensures names[i].Unreadable? ==> BadAt(items, names, build, i)
    ensures names[i].Unnamed? ==>
      && !BadAt(items, names, build, i) && SeenKeys(names[..i + 1]) == seen && Kept(names[..i + 1]) == ks
    ensures names[i].Named? && Key(names[i]) in seen ==>
      && !BadAt(items, names, build, i) && SeenKeys(names[..i + 1]) == seen && Kept(names[..i + 1]) == ks
    ensures names[i].Named? && Key(names[i]) !in seen ==>
      && SeenKeys(names[..i + 1]) == seen + {Key(names[i])} && Kept(names[..i + 1]) == ks + [i]
      && (BadAt(items, names, build, i) <==> build(items[i], names[i].name).None?)
  {
    KeptSnoc(names, i);
    FirstIffUnseen(names, i);
    SeenKeysSnoc(names, i);
  }

  lemma CrashesAt<T, R>(items: seq<T>, names: seq<NameOf>, build: (T, string) -> Option<R>, i: int)
    requires |names| == |items| && BadAt(items, names, build, i)
    ensures Crashes(items, names, build)
  {
  }

  /** An item is the first of its key exactly when its key is not among the earlier ones. */
  lemma FirstIffUnseen(names: seq<NameOf>, i: nat)
    requires i < |names|
    ensures names[i].Named? ==> (FirstOfKey(names, i) <==> Key(names[i]) !in SeenKeys(names[..i]))
  {
    var p := names[..i];
    if names[i].Named? && Key(names[i]) in SeenKeys(p) {
      var j :| 0 <= j < |p| && p[j].Named? && Key(p[j]) == Key(names[i]);
      assert names[j] == p[j];
    }
  }

  /** Two kept items never share a key. */
  lemma KeptKeysDistinct(names: seq<NameOf>, a: nat, b: nat)
    requires a < b < |Kept(names)|
    ensures Key(names[Kept(names)[a]]) != Key(names[Kept(names)[b]])
  {
  }

  /** Every named item is represented: a kept item at or before it has the same key. */
  lemma {:induction false} KeptCovers(names: seq<NameOf>, i: nat)
    requires i < |names| && names[i].Named?
    ensures exists j :: j in Kept(names) && j <= i && Key(names[j]) == Key(names[i])
    decreases i
  {
    if !FirstOfKey(names, i) {
      var j :| 0 <= j < i && names[j].Named? && Key(names[j]) == Key(names[i]);
      KeptCovers(names, j);
    }
  }

  /** What the kept rows say about their names, for a row builder that stores the name it is
      given: no two rows share a key, each row's name is some item's name, and every named
      item's key is among the rows'. */
  lemma KeptRows<T, R>(items: seq<T>, nameOf: T -> NameOf, build: (T, string) -> Option<R>, rowName: R -> string, rows: seq<R>)
    requires RowsFor(items, NamesOf(items, nameOf), build, Kept(NamesOf(items, nameOf)), rows)
    requires forall t, n :: build(t, n).Some? ==> rowName(build(t, n).value) == n
    ensures forall a, b :: 0 <= a < b < |rows| ==> Lower(rowName(rows[a])) != Lower(rowName(rows[b]))
    ensures forall a :: 0 <= a < |rows| ==> exists i :: 0 <= i < |items| && nameOf(items[i]) == Named(rowName(rows[a]))
    ensures forall i :: 0 <= i < |items| && nameOf(items[i]).Named? ==>
      exists a :: 0 <= a < |rows| && Lower(rowName(rows[a])) == Lower(nameOf(items[i]).name)
  {
    var names := NamesOf(items, nameOf);
    var ks := Kept(names);
    forall a | 0 <= a < |rows|
      ensures rowName(rows[a]) == names[ks[a]].name
    {
      assert build(items[ks[a]], names[ks[a]].name) == Some(rows[a]);
    }
    forall a, b | 0 <= a < b < |rows|
      ensures Lower(rowName(rows[a])) != Lower(rowName(rows[b]))
    {
      KeptKeysDistinct(names, a, b);
    }
    forall i | 0 <= i < |items| && nameOf(items[i]).Named?
      ensures exists a :: 0 <= a < |rows| && Lower(rowName(rows[a])) == Lower(nameOf(items[i]).name)
    {
      KeptCovers(names, i);
      var j :| j in ks && j <= i && Key(names[j]) == Key(names[i]);
      var a :| 0 <= a < |ks| && ks[a] == j;
      assert Lower(rowName(rows[a])) == Key(names[j]);
    }
  }
}
