/** The category panel of `despacho_django/static/js/proyectos.js`: the map from category
    slug to a label and a map of subcategory slugs to labels, built from the normalised
    records in one pass, and the two filters the panel's buttons apply. */
module Categories {
  import opened Wrappers
  import opened Text
  import opened Json
  import opened OrderedMap
  import opened ProjectsPage
  import opened Selection

  /** `{ label, subs }` for one category. */
  datatype CategoryEntry = CategoryEntry(labelText: string, subs: OMap<string>)

  type CategoryMap = OMap<CategoryEntry>

  /** What one `forEach` step computes from a record before touching the map:
      `catSlug`, `subSlug`, `catLabel` and `subLabel`. */
  datatype Tag = Tag(cat: string, sub: string, catLabel: string, subLabel: string)

  function CatSlug(p: ClientProject): string
  {
    NormalizeString(Some(p.categoria))
  }

  function SubSlug(p: ClientProject): string
  {
    NormalizeString(Some(p.subcategoria))
  }

  /** The category button's predicate. */
  function CatIs(slug: string): ClientProject -> bool
  {
    p => CatSlug(p) == slug
  }

  /** The subcategory button's predicate. */
  function SubIs(slug: string): ClientProject -> bool
  {
    p => SubSlug(p) == slug
  }

  function TagOf(p: ClientProject): Tag
  {
    Tag(CatSlug(p), SubSlug(p), TitleCase(Some(p.categoria)), TitleCase(Some(p.subcategoria)))
  }

  function TagsOf(ps: seq<ClientProject>): (ts: seq<Tag>)
    ensures |ts| == |ps| && forall i :: 0 <= i < |ps| ==> ts[i] == TagOf(ps[i])
  {
    seq(|ps|, i requires 0 <= i < |ps| => TagOf(ps[i]))
  }

  // ---------------------------------------------------------------------------------------
  // Reference description

  /** The non-empty category slugs, each once, in the order they first occur. */
  function CatKeys(ts: seq<Tag>): (ks: seq<string>)
    ensures forall k :: k in ks <==> k != "" && exists i :: 0 <= i < |ts| && ts[i].cat == k
    ensures forall a, b :: 0 <= a < b < |ks| ==> ks[a] != ks[b]
    decreases |ts|
  {
    if ts == [] then []
    else
      var init := ts[..|ts| - 1];
      var ks := CatKeys(init);
      var c := ts[|ts| - 1].cat;
      assert forall i :: 0 <= i < |init| ==> init[i] == ts[i];
      if c == "" || c in ks then ks else ks + [c]
  }

  /** Record `i` is the first with category slug `k`. */
  ghost predicate FirstCat(ts: seq<Tag>, k: string, i: int)
  {
    0 <= i < |ts| && ts[i].cat == k && forall j :: 0 <= j < i ==> ts[j].cat != k
  }

  /** Record `i` is in category `k` with the non-empty subcategory slug `s`. */
  ghost predicate SubAt(ts: seq<Tag>, k: string, s: string, i: int)
  {
    0 <= i < |ts| && ts[i].cat == k && ts[i].sub == s && s != ""
  }

  /** Record `i` is the last in category `k` with subcategory slug `s`. */
  ghost predicate LastSub(ts: seq<Tag>, k: string, s: string, i: int)
  {
    SubAt(ts, k, s, i) && forall j :: i < j < |ts| ==> !SubAt(ts, k, s, j)
  }

  /** `subs` holds exactly the non-empty subcategory slugs of category `k`, each labelled by
      the last record that has it. */
  ghost predicate SubsFor(ts: seq<Tag>, k: string, subs: OMap<string>)
  {
    && Distinct(subs)
    && (forall s :: HasKey(subs, s) <==> exists i :: SubAt(ts, k, s, i))
    && (forall s :: Lookup(subs, s).Some? ==> exists i :: LastSub(ts, k, s, i) && Lookup(subs, s).value == ts[i].subLabel)
  }

  /** The entry of category `k`: labelled by the first record of the category, with its
      subcategories. */
  ghost predicate EntryFor(ts: seq<Tag>, k: string, e: CategoryEntry)
  {
    && k != ""
    && (exists i :: FirstCat(ts, k, i) && e.labelText == ts[i].catLabel)
    && SubsFor(ts, k, e.subs)
  }

  /** Every entry of `m` is described by `ts`. */
  ghost predicate EntriesFor(ts: seq<Tag>, m: CategoryMap)
  {
    forall k :: Lookup(m, k).Some? ==> EntryFor(ts, k, Lookup(m, k).value)
  }

  // ---------------------------------------------------------------------------------------
  // The build

  /** No key occurs twice, in the map or in any entry's subcategory map. */
  ghost predicate WellFormed(m: CategoryMap)
  {
    Distinct(m) && forall k :: Lookup(m, k).Some? ==> Distinct(Lookup(m, k).value.subs)
  }

  /** One `proyectos.forEach` step: a record with an empty category slug is ignored; a new
      slug gets an entry labelled by this record; a non-empty subcategory slug is set on the
      entry, replacing the label of one already there. */
  function AddTag(m: CategoryMap, t: Tag): (r: CategoryMap)
    requires WellFormed(m)
    ensures WellFormed(r)
  {
    if t.cat == "" then m
    else
      var e0 := if HasKey(m, t.cat) then Lookup(m, t.cat).value else CategoryEntry(t.catLabel, []);
      if t.sub == "" then Set(m, t.cat, e0)
      else Set(m, t.cat, e0.(subs := Set(e0.subs, t.sub, t.subLabel)))
  }

  /** The map after a `forEach` over records with these tags. */
  function Build(ts: seq<Tag>): (m: CategoryMap)
    ensures WellFormed(m)
    ensures Keys(m) == CatKeys(ts)
    ensures EntriesFor(ts, m)
    decreases |ts|
  {
    if ts == [] then []
    else
      var init := ts[..|ts| - 1];
      var m := Build(init);
      AddTagStep(init, ts[|ts| - 1], m);
      assert init + [ts[|ts| - 1]] == ts;
      AddTag(m, ts[|ts| - 1])
  }

  /** `categoriasMap`. */
  function CategoryMapOf(ps: seq<ClientProject>): CategoryMap
  {
    Build(TagsOf(ps))
  }

  // ---------------------------------------------------------------------------------------
  // The step proof

  lemma SubsKeep(ts: seq<Tag>, t: Tag, k: string, subs: OMap<string>)
    requires SubsFor(ts, k, subs)
    requires !(t.cat == k && t.sub != "")
    ensures SubsFor(ts + [t], k, subs)
  {
    var qs := ts + [t];
    assert forall i :: 0 <= i < |ts| ==> qs[i] == ts[i];
    forall s
      ensures HasKey(subs, s) <==> exists i :: SubAt(qs, k, s, i)
    {
      if exists i :: SubAt(qs, k, s, i) {
        var i :| SubAt(qs, k, s, i);
        assert SubAt(ts, k, s, i);
      }
      if HasKey(subs, s) {
        var i :| SubAt(ts, k, s, i);
        assert SubAt(qs, k, s, i);
      }
    }
    forall s | Lookup(subs, s).Some?
      ensures exists i :: LastSub(qs, k, s, i) && Lookup(subs, s).value == qs[i].subLabel
    {
      var i :| LastSub(ts, k, s, i) && Lookup(subs, s).value == ts[i].subLabel;
      LastSubExtend(ts, t, k, s, i);
    }
  }

  lemma SubsAdd(ts: seq<Tag>, t: Tag, k: string, subs: OMap<string>)
    requires SubsFor(ts, k, subs)
    requires t.cat == k && t.sub != ""
    ensures SubsFor(ts + [t], k, Set(subs, t.sub, t.subLabel))
  {
    var qs := ts + [t];
    var r := Set(subs, t.sub, t.subLabel);
    assert forall i :: 0 <= i < |ts| ==> qs[i] == ts[i];
    assert LastSub(qs, k, t.sub, |ts|);
    forall s
      ensures HasKey(r, s) <==> exists i :: SubAt(qs, k, s, i)
    {
      if s == t.sub {
        assert SubAt(qs, k, s, |ts|);
      } else {
        assert Lookup(r, s) == Lookup(subs, s);
        if exists i :: SubAt(qs, k, s, i) {
          var i :| SubAt(qs, k, s, i);
          assert SubAt(ts, k, s, i);
        }
        if HasKey(subs, s) {
          var i :| SubAt(ts, k, s, i);
          assert SubAt(qs, k, s, i);
        }
      }
    }
    forall s | Lookup(r, s).Some?
      ensures exists i :: LastSub(qs, k, s, i) && Lookup(r, s).value == qs[i].subLabel
    {
      if s != t.sub {
        assert Lookup(r, s) == Lookup(subs, s);
        var i :| LastSub(ts, k, s, i) && Lookup(subs, s).value == ts[i].subLabel;
        LastSubExtend(ts, t, k, s, i);
      }
    }
  }

  lemma LastSubExtend(ts: seq<Tag>, t: Tag, k: string, s: string, i: int)
    requires LastSub(ts, k, s, i) && !(t.cat == k && t.sub == s)
    ensures LastSub(ts + [t], k, s, i)
  {
    var qs := ts + [t];
    assert qs[i] == ts[i];
    forall j | i < j < |qs|
      ensures !SubAt(qs, k, s, j)
    {
      if j < |ts| {
        assert qs[j] == ts[j];
        assert !SubAt(ts, k, s, j);
      } else {
        assert qs[j] == t;
      }
    }
  }

  /** An entry other than the record's own category is still described. */
  lemma EntryKeep(ts: seq<Tag>, t: Tag, k: string, e: CategoryEntry)
    requires EntryFor(ts, k, e) && t.cat != k
    ensures EntryFor(ts + [t], k, e)
  {
    var qs := ts + [t];
    var i :| FirstCat(ts, k, i) && e.labelText == ts[i].catLabel;
    assert qs[i] == ts[i];
    assert FirstCat(qs, k, i);
    SubsKeep(ts, t, k, e.subs);
  }

  /** The record's category keeps the label of its first record, or takes this record's
      label when it is new, and gains the record's subcategory. */
  lemma EntryStep(ts: seq<Tag>, t: Tag, e0: CategoryEntry)
    requires t.cat != ""
    requires EntryFor(ts, t.cat, e0) || (e0 == CategoryEntry(t.catLabel, []) && forall j :: 0 <= j < |ts| ==> ts[j].cat != t.cat)
    ensures t.sub == "" ==> EntryFor(ts + [t], t.cat, e0)
    ensures t.sub != "" ==> Distinct(e0.subs) && EntryFor(ts + [t], t.cat, e0.(subs := Set(e0.subs, t.sub, t.subLabel)))
  {
    var k := t.cat;
    var qs := ts + [t];
    if EntryFor(ts, k, e0) {
      var i :| FirstCat(ts, k, i) && e0.labelText == ts[i].catLabel;
      assert qs[i] == ts[i];
      assert FirstCat(qs, k, i);
    } else {
      assert forall j :: 0 <= j < |ts| ==> qs[j] == ts[j];
      assert FirstCat(qs, k, |ts|);
      assert SubsFor(ts, k, e0.subs);
    }
    if t.sub == "" {
      SubsKeep(ts, t, k, e0.subs);
    } else {
      SubsAdd(ts, t, k, e0.subs);
    }
  }

  lemma {:induction false} AddTagStep(ts: seq<Tag>, t: Tag, m: CategoryMap)
    requires WellFormed(m) && Keys(m) == CatKeys(ts) && EntriesFor(ts, m)
    ensures Keys(AddTag(m, t)) == CatKeys(ts + [t])
    ensures EntriesFor(ts + [t], AddTag(m, t))
  {
    var qs := ts + [t];
    var c := t.cat;
    var r := AddTag(m, t);
    assert qs[..|qs| - 1] == ts;
    assert forall k :: HasKey(m, k) <==> k in Keys(m);
    if c == "" {
      forall k | Lookup(m, k).Some?
        ensures EntryFor(qs, k, Lookup(m, k).value)
      {
        EntryKeep(ts, t, k, Lookup(m, k).value);
      }
    } else {
      var e0 := if HasKey(m, c) then Lookup(m, c).value else CategoryEntry(t.catLabel, []);
      EntryStep(ts, t, e0);
      var e := if t.sub == "" then e0 else e0.(subs := Set(e0.subs, t.sub, t.subLabel));
      assert r == Set(m, c, e);
      if HasKey(m, c) {
        assert Keys(r) == Keys(m);
      } else {
        assert Keys(r) == Keys(m) + [c];
      }
      forall k | Lookup(r, k).Some?
        ensures EntryFor(qs, k, Lookup(r, k).value)
      {
        if k != c {
          EntryKeep(ts, t, k, Lookup(m, k).value);
        }
      }
    }
  }

  // ---------------------------------------------------------------------------------------
  // Filters and buttons

  /** `proyectos.filter(p => normalizeString(p.categoria) === slug)`. */
  function ByCategory(ps: seq<ClientProject>, slug: string): (r: seq<ClientProject>)
    ensures forall x :: multiset(r)[x] == if CatSlug(x) == slug then multiset(ps)[x] else 0
    ensures r == KeepWhere(ps, CatIs(slug))
    decreases |ps|
  {
    if ps == [] then []
    else
      var init := ps[..|ps| - 1];
      var last := ps[|ps| - 1];
      assert ps == init + [last];
      if CatSlug(last) == slug then ByCategory(init, slug) + [last] else ByCategory(init, slug)
  }

  /** `proyectos.filter(p => normalizeString(p.subcategoria) === slug)`: the subcategory
      filter looks at every project, whatever its category. */
  function BySubcategory(ps: seq<ClientProject>, slug: string): (r: seq<ClientProject>)
    ensures forall x :: multiset(r)[x] == if SubSlug(x) == slug then multiset(ps)[x] else 0
    ensures r == KeepWhere(ps, SubIs(slug))
    decreases |ps|
  {
    if ps == [] then []
    else
      var init := ps[..|ps| - 1];
      var last := ps[|ps| - 1];
      assert ps == init + [last];
      if SubSlug(last) == slug then BySubcategory(init, slug) + [last] else BySubcategory(init, slug)
  }

  /** A category button's click never lands on "no projects in this category", and a
      subcategory button's click never lands on "no projects in this subcategory": it shows at
      least the record of that category that introduced it. */
  lemma ButtonsNeverEmpty(ps: seq<ClientProject>, k: string)
    requires Lookup(CategoryMapOf(ps), k).Some?
    ensures ByCategory(ps, k) != []
    ensures forall s :: HasKey(Lookup(CategoryMapOf(ps), k).value.subs, s) ==>
      exists x :: x in BySubcategory(ps, s) && CatSlug(x) == k
  {
    var ts := TagsOf(ps);
    var e := Lookup(CategoryMapOf(ps), k).value;
    assert EntryFor(ts, k, e);
    var i :| FirstCat(ts, k, i) && e.labelText == ts[i].catLabel;
    assert ps[i] in multiset(ps);
    assert ps[i] in multiset(ByCategory(ps, k));
    forall s | HasKey(e.subs, s)
      ensures exists x :: x in BySubcategory(ps, s) && CatSlug(x) == k
    {
      var j :| SubAt(ts, k, s, j);
      assert ps[j] in multiset(ps);
      assert ps[j] in multiset(BySubcategory(ps, s));
    }
  }

  /** `normalizeString(btn.textContent)` for a button showing `label || ''`. */
  function ButtonSlug(text: string): string
  {
    NormalizeString(Some(JStr(text)))
  }

  /** The buttons carry title-cased labels, yet each normalises back to its own key, which is
      how a `?categoria=` or `?sub=` parameter finds its button. */
  lemma ButtonsMatchKeys(ps: seq<ClientProject>, k: string)
    requires Lookup(CategoryMapOf(ps), k).Some?
    ensures ButtonSlug(Lookup(CategoryMapOf(ps), k).value.labelText) == k
    ensures var subs := Lookup(CategoryMapOf(ps), k).value.subs;
      forall s :: Lookup(subs, s).Some? ==> ButtonSlug(Lookup(subs, s).value) == s
  {
    var ts := TagsOf(ps);
    var e := Lookup(Build(ts), k).value;
    assert EntryFor(ts, k, e);
    var i :| FirstCat(ts, k, i) && e.labelText == ts[i].catLabel;
    TagLabelsSlug(ps[i]);
    forall s | Lookup(e.subs, s).Some?
      ensures ButtonSlug(Lookup(e.subs, s).value) == s
    {
      SubButtonMatches(ps, k, e.subs, s);
    }
  }

  lemma SubButtonMatches(ps: seq<ClientProject>, k: string, subs: OMap<string>, s: string)
    requires SubsFor(TagsOf(ps), k, subs) && Lookup(subs, s).Some?
    ensures ButtonSlug(Lookup(subs, s).value) == s
  {
    var j := SubLabelSource(TagsOf(ps), k, subs, s);
    TagSubSlug(ps, j);
  }

  /** The record whose subcategory label an entry of `subs` carries. */
  lemma SubLabelSource(ts: seq<Tag>, k: string, subs: OMap<string>, s: string) returns (j: int)
    requires SubsFor(ts, k, subs) && Lookup(subs, s).Some?
    ensures 0 <= j < |ts| && ts[j].sub == s && Lookup(subs, s).value == ts[j].subLabel
  {
    j :| LastSub(ts, k, s, j) && Lookup(subs, s).value == ts[j].subLabel;
  }

  /** The subcategory label of record `j` normalises to its subcategory slug. */
  lemma TagSubSlug(ps: seq<ClientProject>, j: int)
    requires 0 <= j < |ps|
    ensures ButtonSlug(TagsOf(ps)[j].subLabel) == TagsOf(ps)[j].sub
  {
    TagLabelsSlug(ps[j]);
  }

  /** Both labels of a record normalise to the record's slugs. */
  lemma TagLabelsSlug(p: ClientProject)
    ensures ButtonSlug(TagOf(p).catLabel) == TagOf(p).cat
    ensures ButtonSlug(TagOf(p).subLabel) == TagOf(p).sub
  {
    LabelSlug(Some(p.categoria));
    LabelSlug(Some(p.subcategoria));
  }

  /** The label `titleCase(v)` normalises to `normalizeString(v)`. */
  lemma LabelSlug(v: Option<Json>)
    ensures ButtonSlug(TitleCase(v)) == NormalizeString(v)
  {
    var t := JsStringOrEmpty(v);
    TitleCaseKeepsSlug(t);
    TitlePointwiseEmpty(t);
  }

  /** Title-casing keeps the length, so the empty text is the only one with an empty label. */
  lemma TitlePointwiseEmpty(t: string)
    ensures TitleCaseText(t) == "" <==> t == ""
  {
    TitleCasePointwise(t);
  }
}
