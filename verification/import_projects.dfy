/** The bulk importer `scripts/importa_proyectos.py`: it reads the decoded project list,
    deletes every existing project, normalises each entry and keeps the first entry of every
    case-insensitive title. Locating and reading the file and the database writes are inputs
    and outputs of the model. */
module ImportProjects {
  import opened Wrappers
  import opened Text
  import opened Json
  import opened Dedup

  // ---------------------------------------------------------------------------------------
  // Field normalisers

  /** `normalize_category`: blank gives "", otherwise whitespace runs become single spaces,
      the ends are trimmed and the text is lower-cased. */
  function NormalizeCategory(value: string): (r: string)
    ensures r == "" <==> AllSpace(Py, value)
    ensures IsLower(r) && IsCollapsed(Py, r)
  {
    var s := Strip(Py, value);
    if s == "" then ""
    else
      CollapseOfLowerCollapse(Py, s);
      LowerIdempotent(Collapse(Py, s));
      Lower(Collapse(Py, s))
  }

  /** The category keeps exactly the input's words, each lower-cased. */
  lemma NormalizeCategoryWords(value: string)
    ensures Words(Py, NormalizeCategory(value)) == LowerAll(Words(Py, Strip(Py, value)))
  {
    var s := Strip(Py, value);
    var ws := Words(Py, s);
    if s == "" {
      WordsEmpty(Py, s);
      assert Words(Py, "") == [];
    } else {
      LowerJoin(" ", ws);
      LowerAllWords(Py, ws);
      WordsOfJoin(Py, LowerAll(ws));
    }
  }

  /** Normalising a normalised category changes nothing. */
  lemma NormalizeCategoryIdempotent(value: string)
    ensures NormalizeCategory(NormalizeCategory(value)) == NormalizeCategory(value)
  {
    var r := NormalizeCategory(value);
    if r != "" {
      StripStripped(Py, r);
      var s := Strip(Py, value);
      CollapseOfLowerCollapse(Py, s);
      LowerIdempotent(Collapse(Py, s));
    }
  }

  /** `normalize_subcategory`: trimmed and lower-cased; whitespace inside is kept as it is. */
  function NormalizeSubcategory(value: string): (r: string)
    ensures |r| == |Strip(Py, value)| && IsLower(r) && IsStripped(Py, r)
    ensures forall i :: 0 <= i < |r| ==> (IsSpace(Py, r[i]) <==> IsSpace(Py, Strip(Py, value)[i]))
    ensures Lower(Strip(Py, value)) == r
  {
    var s := Strip(Py, value);
    LowerKeepsSpace(Py, s);
    LowerIdempotent(s);
    Lower(s)
  }

  /** Normalising a normalised subcategory changes nothing. */
  lemma NormalizeSubcategoryIdempotent(value: string)
    ensures NormalizeSubcategory(NormalizeSubcategory(value)) == NormalizeSubcategory(value)
  {
    var r := NormalizeSubcategory(value);
    StripStripped(Py, r);
    LowerOfLower(r);
  }

  // ---------------------------------------------------------------------------------------
  // Image selection

  /** A candidate qualifies when it is a string that is not blank. */
  predicate Qualifies(c: Option<string>)
  {
    c.Some? && !AllSpace(Py, c.value)
  }

  /** The trimmed first qualifying candidate, if any. */
  function FirstQualifying(cands: seq<Option<string>>): (r: Option<string>)
    ensures r.Some? <==> exists i :: 0 <= i < |cands| && Qualifies(cands[i])
    ensures r.Some? ==>
      exists i :: 0 <= i < |cands| && Qualifies(cands[i]) && r.value == Strip(Py, cands[i].value) && forall j :: 0 <= j < i ==> !Qualifies(cands[j])
    ensures r.Some? ==> r.value != "" && IsStripped(Py, r.value)
  {
    if |cands| == 0 then None
    else if Qualifies(cands[0]) then Some(Strip(Py, cands[0].value))
    else
      var r := FirstQualifying(cands[1..]);
      assert forall i :: 1 <= i < |cands| ==> cands[i] == cands[1..][i - 1];
      r
  }

  /** What `for img in images` visits, each as a string or `None` for a non-string: the
      characters of a string, the elements of an array, the member names of an object.
      `None` means iterating raises (a number or `true`). */
  function Iterated(v: Json): (r: Option<seq<Option<string>>>)
    ensures r.None? <==> v.JNum? || v.JBool? || v.JNull?
    ensures v.JStr? ==> |r.value| == |v.s| && forall i :: 0 <= i < |v.s| ==> r.value[i] == Some([v.s[i]])
    ensures v.JArr? ==> |r.value| == |v.items|
    ensures v.JArr? ==>
      forall i :: 0 <= i < |v.items| ==> (Qualifies(r.value[i]) <==> v.items[i].JStr? && !AllSpace(Py, v.items[i].s))
    ensures v.JArr? ==>
      forall i :: 0 <= i < |v.items| && v.items[i].JStr? ==> r.value[i] == Some(v.items[i].s)
  {
    match v
    case JStr(s) => Some(seq(|s|, i requires 0 <= i < |s| => Some([s[i]])))
    case JArr(a) => Some(seq(|a|, i requires 0 <= i < |a| => if a[i].JStr? then Some(a[i].s) else None))
    case JObj(m) => Some(seq(|m|, i requires 0 <= i < |m| => Some(m[i].0)))
    case _ => None
  }

  /** `pick_first_valid_image(images)`: the outer `None` is the `TypeError` a truthy
      non-iterable raises; otherwise the trimmed first non-blank string visited, or `None`. */
  function PickFirstValidImage(images: Option<Json>): (r: Option<Option<string>>)
    ensures !PyTruthyOpt(images) ==> r == Some(None)
    ensures r.None? <==> PyTruthyOpt(images) && (images.value.JNum? || images.value.JBool?)
    ensures r.Some? && r.value.Some? ==> r.value.value != "" && IsStripped(Py, r.value.value)
    ensures PyTruthyOpt(images) && images.value.JArr? ==> var a := images.value.items;
      && (r == Some(None) <==> forall i :: 0 <= i < |a| ==> !(a[i].JStr? && !AllSpace(Py, a[i].s)))
      && (r.value.Some? ==>
            exists i :: 0 <= i < |a| && a[i].JStr? && !AllSpace(Py, a[i].s) && r.value.value == Strip(Py, a[i].s)
              && forall j :: 0 <= j < i ==> !(a[j].JStr? && !AllSpace(Py, a[j].s)))
  {
    if !PyTruthyOpt(images) then Some(None)
    else
      match Iterated(images.value)
      case None => None
      case Some(cands) => Some(FirstQualifying(cands))
  }

  /** A text is picked from its first non-whitespace character alone: iterating a string
      visits single characters. */
  lemma PickFromString(s: string, i: nat)
    requires i < |s| && !IsSpace(Py, s[i]) && forall j :: 0 <= j < i ==> IsSpace(Py, s[j])
    ensures PickFirstValidImage(Some(JStr(s))) == Some(Some([s[i]]))
  {
    var cands := Iterated(JStr(s)).value;
    assert [s[i]][0] == s[i];
    assert Qualifies(cands[i]);
    forall j | 0 <= j < i
      ensures !Qualifies(cands[j])
    {
      assert cands[j].value == [s[j]];
    }
    StripStripped(Py, [s[i]]);
  }

  // ---------------------------------------------------------------------------------------
  // The import loop

  /** A project as `bulk_create` stores it. */
  datatype ImportRow = ImportRow(
    nombre: string,
    descripcion: string,
    categoria: string,
    subcategoria: string,
    imagen: Option<string>)

  /** The title of one entry: reading it crashes for a non-object (no `get`) or a truthy
      non-string (no `strip`); a blank title skips the entry. */
  function ImportName(item: Json): (n: NameOf)
    ensures n.Named? ==> n.name != "" && IsStripped(Py, n.name)
    ensures n.Unreadable? <==> !item.JObj? || PyTextOrEmpty(Get(item.fields, "titulo")).None?
    ensures n.Named? ==> n.name == Strip(Py, PyTextOrEmpty(Get(item.fields, "titulo")).value)
  {
    if !item.JObj? then Unreadable
    else
      match PyTextOrEmpty(Get(item.fields, "titulo"))
      case None => Unreadable
      case Some(t) => if Strip(Py, t) == "" then Unnamed else Named(Strip(Py, t))
  }

  /** The row for an entry whose title was kept, or `None` when reading one of its other
      fields raises. */
  function BuildImportRow(item: Json, nombre: string): (r: Option<ImportRow>)
    ensures r.Some? ==> r.value.nombre == nombre
    ensures r.Some? ==> IsLower(r.value.categoria) && IsCollapsed(Py, r.value.categoria)
    ensures r.Some? ==> IsLower(r.value.subcategoria) && IsStripped(Py, r.value.descripcion)
    ensures r.Some? && r.value.imagen.Some? ==> r.value.imagen.value != ""
    ensures item.JObj? ==> var f := item.fields;
      (r.Some? <==>
        && PyTextOrEmpty(Get(f, "descripcion")).Some?
        && PyTextOrEmpty(Get(f, "categoria")).Some?
        && PyTextOrEmpty(Get(f, "sub")).Some?
        && PickFirstValidImage(Get(f, "imagenes")).Some?)
  {
    if !item.JObj? then None
    else
      var f := item.fields;
      var descripcion := PyTextOrEmpty(Get(f, "descripcion"));
      var categoria := PyTextOrEmpty(Get(f, "categoria"));
      var sub := PyTextOrEmpty(Get(f, "sub"));
      var imagen := PickFirstValidImage(Get(f, "imagenes"));
      if descripcion.None? || categoria.None? || sub.None? || imagen.None? then None
      else
        Some(ImportRow(
          nombre,
          Strip(Py, descripcion.value),
          NormalizeCategory(categoria.value),
          NormalizeSubcategory(sub.value),
          imagen.value))
  }

  /** How a run of `main` ends. `deleted` says whether the existing projects were removed;
      a crash after that leaves the table empty. */
  datatype ImportOutcome =
    | NotAList
    | Crashed(deleted: bool)
    | Imported(deleted: bool, rows: seq<ImportRow>)

  /** `main()`: `raw` is the decoded file (`None` when it is missing or not valid JSON) and
      `prevCount` the number of projects already stored. */
  method RunImport(raw: Option<Json>, prevCount: nat) returns (r: ImportOutcome)
    ensures raw.None? ==> r == Crashed(false)
    ensures raw.Some? && !raw.value.JArr? ==> r == NotAList
    ensures raw.Some? && raw.value.JArr? ==> !r.NotAList? && r.deleted == (prevCount > 0)
    ensures raw.Some? && raw.value.JArr? ==> var items := raw.value.items;
      var names := NamesOf(items, ImportName);
      && (r.Crashed? <==> Crashes(items, names, BuildImportRow))
      && (r.Imported? ==> RowsFor(items, names, BuildImportRow, Kept(names), r.rows))
    ensures r.Imported? ==> forall a, b :: 0 <= a < b < |r.rows| ==> Lower(r.rows[a].nombre) != Lower(r.rows[b].nombre)
    ensures r.Imported? ==> forall a :: 0 <= a < |r.rows| ==> r.rows[a].nombre != "" && IsStripped(Py, r.rows[a].nombre)
    ensures r.Imported? ==> var items := raw.value.items;
      forall i :: 0 <= i < |items| && ImportName(items[i]).Named? ==>
        exists a :: 0 <= a < |r.rows| && Lower(r.rows[a].nombre) == Lower(ImportName(items[i]).name)
  {
    if raw.None? {
      return Crashed(false);
    }
    if !raw.value.JArr? {
      return NotAList;
    }
    var items := raw.value.items;
    var deleted := prevCount > 0;
    var rows := CollectFirstWins(items, ImportName, BuildImportRow);
    if rows.None? {
      return Crashed(deleted);
    }
    KeptRows(items, ImportName, BuildImportRow, (row: ImportRow) => row.nombre, rows.value);
    r := Imported(deleted, rows.value);
  }
}
