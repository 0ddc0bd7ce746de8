/** The older listing endpoint `proyectos/views_api.py`: every project, newest id first, in
    the field names the original front end used. The table is an input, in any order. */
module LegacyListing {
  import opened Wrappers
  import opened Json

  /** A stored project: text columns that may be `NULL`, the image file name (`""` when
      there is none), and `fecha_creacion` when the model has that attribute. */
  datatype StoredProject = StoredProject(
    id: int,
    nombre: Option<string>,
    descripcion: Option<string>,
    categoria: Option<string>,
    subcategoria: Option<string>,
    imagen: string,
    fechaCreacion: Option<Json>)

  /** One element of the response list. `imagenes` holds the image field's file itself,
      written here as its name. */
  datatype LegacyItem = LegacyItem(
    id: int,
    titulo: string,
    descripcion: string,
    categoria: string,
    sub: string,
    imagenes: seq<string>,
    fechaCreacion: Option<Json>)

  /** `getattr(p, name, '') or ''`. */
  function TextOr(v: Option<string>): (r: string)
    ensures v.Some? ==> r == v.value
    ensures v.None? ==> r == ""
  {
    if v.Some? then v.value else ""
  }

  /** The item for one project. */
  function ItemOf(p: StoredProject): (it: LegacyItem)
    ensures it.id == p.id
    ensures it.titulo == TextOr(p.nombre) && it.sub == TextOr(p.subcategoria)
    ensures it.descripcion == TextOr(p.descripcion) && it.categoria == TextOr(p.categoria)
    ensures |it.imagenes| <= 1
    ensures it.imagenes == [] <==> p.imagen == ""
    ensures it.imagenes != [] ==> it.imagenes[0] == p.imagen
    ensures it.fechaCreacion.Some? <==> p.fechaCreacion.Some?
    ensures it.fechaCreacion == p.fechaCreacion
  {
    LegacyItem(
      p.id,
      TextOr(p.nombre),
      TextOr(p.descripcion),
      TextOr(p.categoria),
      TextOr(p.subcategoria),
      if p.imagen != "" then [p.imagen] else [],
      p.fechaCreacion)
  }

  /** Ids strictly decrease along the list. */
  predicate NewestFirst(ps: seq<StoredProject>)
  {
    forall i, j :: 0 <= i < j < |ps| ==> ps[i].id > ps[j].id
  }

  /** Primary keys: no id occurs twice. */
  predicate DistinctIds(ps: seq<StoredProject>)
  {
    forall i, j :: 0 <= i < j < |ps| ==> ps[i].id != ps[j].id
  }

  /** Puts `p` into a newest-first list whose ids all differ from `p`'s. */
  function Insert(p: StoredProject, ps: seq<StoredProject>): (r: seq<StoredProject>)
    requires NewestFirst(ps) && forall i :: 0 <= i < |ps| ==> ps[i].id != p.id
    ensures NewestFirst(r)
    ensures multiset(r) == multiset(ps) + multiset{p}
    ensures |r| == |ps| + 1
  {
    if ps == [] || p.id > ps[0].id then
      [p] + ps
    else
      var rest := Insert(p, ps[1..]);
      assert ps == [ps[0]] + ps[1..];
      assert forall x :: x in multiset(rest) ==> x == p || x in multiset(ps[1..]);
      InsertHead(ps[0], rest, p, ps[1..]);
      [ps[0]] + rest
  }

  /** The head stays in front: everything after it is `p` or came after it. */
  lemma InsertHead(h: StoredProject, rest: seq<StoredProject>, p: StoredProject, tail: seq<StoredProject>)
    requires NewestFirst(rest) && h.id > p.id
    requires forall x :: x in tail ==> h.id > x.id
    requires forall x :: x in multiset(rest) ==> x == p || x in multiset(tail)
    ensures NewestFirst([h] + rest)
  {
    var r := [h] + rest;
    forall i, j | 0 <= i < j < |r|
      ensures r[i].id > r[j].id
    {
      if i == 0 {
        assert r[j] == rest[j - 1];
        assert r[j] in multiset(rest);
      } else {
        assert r[i] == rest[i - 1] && r[j] == rest[j - 1];
      }
    }
  }

  /** `order_by('-id')`. */
  function NewestFirstOrder(ps: seq<StoredProject>): (r: seq<StoredProject>)
    requires DistinctIds(ps)
    ensures NewestFirst(r)
    ensures multiset(r) == multiset(ps)
    ensures |r| == |ps|
  {
    if ps == [] then []
    else
      var init := ps[..|ps| - 1];
      var last := ps[|ps| - 1];
      assert ps == init + [last];
      var sorted := NewestFirstOrder(init);
      forall i | 0 <= i < |sorted|
        ensures sorted[i].id != last.id
      {
        assert sorted[i] in multiset(init);
        var j :| 0 <= j < |init| && init[j] == sorted[i];
      }
      Insert(last, sorted)
  }

  /** The items of a list of projects, in the same order. */
  function ItemsOf(ps: seq<StoredProject>): (r: seq<LegacyItem>)
    ensures |r| == |ps| && forall i :: 0 <= i < |ps| ==> r[i] == ItemOf(ps[i])
  {
    seq(|ps|, i requires 0 <= i < |ps| => ItemOf(ps[i]))
  }

  /** The list `result` the loop of `proyectos_list` builds: one item per stored project,
      newest id first, nothing filtered. */
  function ResultList(table: seq<StoredProject>): (r: seq<LegacyItem>)
    requires DistinctIds(table)
    ensures |r| == |table|
    ensures forall i, j :: 0 <= i < j < |r| ==> r[i].id > r[j].id
  {
    ItemsOf(NewestFirstOrder(table))
  }

  /** What `DjangoJSONEncoder` can write: ids, texts and the creation date, but not an
      image field's file, which makes it raise `TypeError`. */
  predicate Encodable(it: LegacyItem)
  {
    it.imagenes == []
  }

  /** `JsonResponse(result, safe=False)`: the list when every item can be encoded; `None`
      is the `TypeError` of the encoder, answered with a server error. Since the file goes
      into `imagenes` unconverted, one project with an image makes the whole endpoint
      fail. */
  function ProjectsList(table: seq<StoredProject>): (r: Option<seq<LegacyItem>>)
    requires DistinctIds(table)
    ensures r.None? <==> exists i :: 0 <= i < |table| && table[i].imagen != ""
    ensures r.Some? ==> r.value == ResultList(table)
    ensures r.Some? ==> |r.value| == |table| && forall i, j :: 0 <= i < j < |r.value| ==> r.value[i].id > r.value[j].id
  {
    var items := ResultList(table);
    ImagesListed(table);
    if forall i :: 0 <= i < |items| ==> Encodable(items[i]) then Some(items) else None
  }

  /** Some item carries a file exactly when some stored project has an image. */
  lemma ImagesListed(table: seq<StoredProject>)
    requires DistinctIds(table)
    ensures (exists i :: 0 <= i < |ResultList(table)| && !Encodable(ResultList(table)[i]))
        <==> exists i :: 0 <= i < |table| && table[i].imagen != ""
  {
    var sorted := NewestFirstOrder(table);
    var r := ResultList(table);
    SameElements(table, sorted);
    ItemsCover(table, sorted);
    if i :| 0 <= i < |r| && !Encodable(r[i]) {
      assert sorted[i] in table;
      var j :| 0 <= j < |table| && table[j] == sorted[i];
      assert table[j].imagen != "";
    }
    if j :| 0 <= j < |table| && table[j].imagen != "" {
      assert ItemOf(table[j]) in r;
      var i :| 0 <= i < |r| && r[i] == ItemOf(table[j]);
      assert !Encodable(r[i]);
    }
  }

  /** Every stored project appears in the list built, and nothing else does. */
  lemma ListingContents(table: seq<StoredProject>)
    requires DistinctIds(table)
    ensures forall p :: p in table ==> ItemOf(p) in ResultList(table)
    ensures forall x :: x in ResultList(table) ==> x in ItemsOf(table)
  {
    var sorted := NewestFirstOrder(table);
    var r := ResultList(table);
    assert r == ItemsOf(sorted);
    ItemsCover(table, sorted);
    SameElements(table, sorted);
    forall x | x in r
      ensures x in ItemsOf(table)
    {
      var i :| 0 <= i < |r| && r[i] == x;
      assert sorted[i] in table;
      var j :| 0 <= j < |table| && table[j] == sorted[i];
      assert ItemsOf(table)[j] == x;
    }
  }

  /** Listing a permutation of `src` shows the item of every project of `src`. */
  lemma ItemsCover(src: seq<StoredProject>, sorted: seq<StoredProject>)
    requires multiset(sorted) == multiset(src)
    ensures forall p :: p in src ==> ItemOf(p) in ItemsOf(sorted)
  {
    var r := ItemsOf(sorted);
    forall p | p in src
      ensures ItemOf(p) in r
    {
      assert p in multiset(sorted);
      var i :| 0 <= i < |sorted| && sorted[i] == p;
      assert r[i] == ItemOf(p);
    }
  }

  /** A permutation holds only elements of the original. */
  lemma SameElements(src: seq<StoredProject>, sorted: seq<StoredProject>)
    requires multiset(sorted) == multiset(src)
    ensures |sorted| == |src|
    ensures forall i :: 0 <= i < |sorted| ==> sorted[i] in src
  {
    assert |sorted| == |multiset(sorted)| == |src|;
    forall i | 0 <= i < |sorted|
      ensures sorted[i] in src
    {
      assert sorted[i] in multiset(src);
    }
  }

  /** The order is fixed by the ids alone: any two listings of the same table agree. */
  lemma {:induction false} NewestFirstUnique(a: seq<StoredProject>, b: seq<StoredProject>)
    requires NewestFirst(a) && NewestFirst(b) && multiset(a) == multiset(b)
    ensures a == b
    decreases |a|
  {
    if a != [] {
      SameHead(a, b);
      SameTail(a, b);
      NewestFirstUnique(a[1..], b[1..]);
    }
  }

  /** Two newest-first orders of the same projects start with the same project. */
  lemma SameHead(a: seq<StoredProject>, b: seq<StoredProject>)
    requires NewestFirst(a) && NewestFirst(b) && multiset(a) == multiset(b) && a != []
    ensures b != [] && a[0] == b[0]
  {
    assert |b| == |multiset(b)| == |a|;
    assert b[0] in multiset(a);
    assert a[0] in multiset(b);
    var i :| 0 <= i < |a| && a[i] == b[0];
    var j :| 0 <= j < |b| && b[j] == a[0];
  }

  /** Removing the same first element from two permutations leaves permutations. */
  lemma SameTail(a: seq<StoredProject>, b: seq<StoredProject>)
    requires a != [] && b != [] && a[0] == b[0] && multiset(a) == multiset(b)
    ensures multiset(a[1..]) == multiset(b[1..])
  {
    assert a == [a[0]] + a[1..];
    assert b == [b[0]] + b[1..];
    assert multiset(a) == multiset{a[0]} + multiset(a[1..]);
    assert multiset(b) == multiset{b[0]} + multiset(b[1..]);
    assert multiset(a[1..]) == multiset(a) - multiset{a[0]};
    assert multiset(b[1..]) == multiset(b) - multiset{b[0]};
  }
}
