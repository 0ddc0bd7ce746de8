/** The projects page script `despacho_django/static/js/proyectos.js`: it extracts the list
    from the API response, normalises each record, builds URL slugs and title-cased labels,
    and steps through a project's gallery. Fetching, the DOM and animation are left to the
    browser; the page origin is an input. */
module ProjectsPage {
  import opened Wrappers
  import opened Text
  import opened Json

  // ---------------------------------------------------------------------------------------
  // Response shape

  /** `Array.isArray(v)` on a possibly `undefined` value. */
  predicate IsArray(v: Option<Json>)
  {
    v.Some? && v.value.JArr?
  }

  /** The list of raw records in a response: the response itself when it is an array, else
      its `results` array, else its `proyectos` array, else nothing. `None` is the
      `TypeError` a `null` response raises. */
  function ExtractProjects(data: Json): (r: Option<seq<Json>>)
    ensures r.None? <==> data.JNull?
    ensures data.JArr? ==> r == Some(data.items)
    ensures !data.JArr? && IsArray(Prop(data, "results")) ==> r == Some(Prop(data, "results").value.items)
    ensures !data.JArr? && !IsArray(Prop(data, "results")) && IsArray(Prop(data, "proyectos")) ==>
      r == Some(Prop(data, "proyectos").value.items)
    ensures !data.JNull? && !data.JArr? && !IsArray(Prop(data, "results")) && !IsArray(Prop(data, "proyectos")) ==>
      r == Some([])
  {
    if data.JNull? then None
    else if data.JArr? then Some(data.items)
    else if IsArray(Prop(data, "results")) then Some(Prop(data, "results").value.items)
    else if IsArray(Prop(data, "proyectos")) then Some(Prop(data, "proyectos").value.items)
    else Some([])
  }

  /** Each of the three response shapes carries the list through unchanged, and a paginated
      response is read from `results` even when it also has `proyectos`. */
  lemma ExtractShapes(xs: seq<Json>, other: seq<Json>)
    ensures ExtractProjects(JArr(xs)) == Some(xs)
    ensures ExtractProjects(JObj([("count", JNum(|xs|)), ("results", JArr(xs))])) == Some(xs)
    ensures ExtractProjects(JObj([("proyectos", JArr(xs))])) == Some(xs)
    ensures ExtractProjects(JObj([("results", JArr(xs)), ("proyectos", JArr(other))])) == Some(xs)
    ensures ExtractProjects(JObj([("results", JNull)])) == Some([])
  {
    var paged := [("count", JNum(|xs|)), ("results", JArr(xs))];
    assert Get(paged, "results") == Some(JArr(xs));
    var wrapped := [("proyectos", JArr(xs))];
    assert Get(wrapped, "results") == Get(wrapped[..0], "results");
    var both := [("results", JArr(xs)), ("proyectos", JArr(other))];
    assert Get(both, "results") == Get(both[..1], "results");
  }

  // ---------------------------------------------------------------------------------------
  // Image URLs

  /** The inline "no image" picture. */
  const PLACEHOLDER := "data:image/svg+xml;utf8,<svg xmlns=\"http://www.w3.org/2000/svg\" width=\"800\" height=\"600\"><rect width=\"100%\" height=\"100%\" fill=\"%23e5e7eb\"/><text x=\"50%\" y=\"50%\" dominant-baseline=\"middle\" text-anchor=\"middle\" fill=\"%239ca3af\" font-family=\"Arial, Helvetica, sans-serif\" font-size=\"24\">Sin imagen</text></svg>"

  /** `/^https?:\/\//i`: the text starts with `http://` or `https://` in any letter case. */
  predicate IsHttpUrl(s: string)
  {
    StartsWith(Lower(s), "http://") || StartsWith(Lower(s), "https://")
  }

  /** `resolveImageUrl(u)` with `API_ORIGIN` as `origin`. */
  function ResolveImageUrl(origin: string, u: Option<Json>): (r: string)
    ensures !JsTruthyOpt(u) ==> r == ""
    ensures JsTruthyOpt(u) ==> var s := JsString(u.value);
      && (IsHttpUrl(s) ==> r == s)
      && (!IsHttpUrl(s) && StartsWith(s, "/") ==> r == origin + s)
      && (!IsHttpUrl(s) && !StartsWith(s, "/") ==> r == s)
  {
    if !JsTruthyOpt(u) then ""
    else
      var s := JsString(u.value);
      if IsHttpUrl(s) then s
      else if StartsWith(s, "/") then origin + s
      else s
  }

  lemma LowerPrefix(s: string, t: string, n: nat)
    requires n <= |s| && n <= |t| && s[..n] == t[..n]
    ensures Lower(s)[..n] == Lower(t)[..n]
  {
    assert forall i :: 0 <= i < n ==> s[i] == s[..n][i] == t[..n][i] == t[i];
  }

  /** Resolving a resolved URL again changes nothing, as long as the origin is itself an
      `http(s)` origin or empty (same-origin). */
  lemma ResolveIdempotent(origin: string, u: Option<Json>)
    requires origin == "" || IsHttpUrl(origin)
    ensures var r := ResolveImageUrl(origin, u);
      r != "" ==> ResolveImageUrl(origin, Some(JStr(r))) == r
  {
    var r := ResolveImageUrl(origin, u);
    if r != "" && JsTruthyOpt(u) {
      var s := JsString(u.value);
      if !IsHttpUrl(s) && StartsWith(s, "/") && origin != "" {
        var pre := if StartsWith(Lower(origin), "http://") then "http://" else "https://";
        assert StartsWith(Lower(origin), pre);
        assert r[..|pre|] == origin[..|pre|];
        LowerPrefix(r, origin, |pre|);
        assert StartsWith(Lower(r), pre);
      }
    }
  }

  // ---------------------------------------------------------------------------------------
  // Records

  /** A record as the page keeps it. The text fields stay whatever JSON value the API sent. */
  datatype ClientProject = ClientProject(
    id: Option<Json>,
    nombre: Json,
    descripcion: Json,
    categoria: Json,
    subcategoria: Json,
    imagenes: seq<string>,
    preview: string)

  /** `v != null` on a possibly `undefined` value. */
  predicate Present(v: Option<Json>)
  {
    v.Some? && !v.value.JNull?
  }

  /** `a != null ? a : (b != null ? b : '')`. */
  function FirstPresent(a: Option<Json>, b: Option<Json>): (r: Json)
    ensures Present(a) ==> r == a.value
    ensures !Present(a) && Present(b) ==> r == b.value
    ensures !Present(a) && !Present(b) ==> r == JStr("")
  {
    if Present(a) then a.value else if Present(b) then b.value else JStr("")
  }

  /** `i.imagen ? resolveImageUrl(i.imagen) : ''` for one gallery entry; `None` is the
      `TypeError` reading `imagen` of `null` raises. */
  function EntryUrl(origin: string, entry: Json): (r: Option<string>)
    ensures r.None? <==> entry.JNull?
    ensures r.Some? ==> r.value == ResolveImageUrl(origin, Prop(entry, "imagen"))
  {
    if entry.JNull? then None else Some(ResolveImageUrl(origin, Prop(entry, "imagen")))
  }

  /** The URLs of a gallery, empty ones included, or `None` when an entry is `null`. */
  function EntryUrls(origin: string, entries: seq<Json>): (r: Option<seq<string>>)
    ensures r.None? <==> exists i :: 0 <= i < |entries| && entries[i].JNull?
    ensures r.Some? ==> |r.value| == |entries|
    ensures r.Some? ==> forall i :: 0 <= i < |entries| ==> Some(r.value[i]) == EntryUrl(origin, entries[i])
  {
    if |entries| == 0 then Some([])
    else
      match EntryUrl(origin, entries[0])
      case None => None
      case Some(u) =>
        match EntryUrls(origin, entries[1..])
        case None => None
        case Some(us) => Some([u] + us)
  }

  /** The raw gallery of a record: `p.imagenes` when it is an array, else none. */
  function RawImages(p: Json): (imgs: seq<Json>)
    ensures IsArray(Prop(p, "imagenes")) ==> imgs == Prop(p, "imagenes").value.items
    ensures !IsArray(Prop(p, "imagenes")) ==> imgs == []
  {
    if IsArray(Prop(p, "imagenes")) then Prop(p, "imagenes").value.items else []
  }

  /** `firstImg || PLACEHOLDER`: the first gallery entry's URL when it is not empty, else the
      placeholder. */
  function PreviewOf(urls: seq<string>): (r: string)
    ensures r != ""
    ensures r == PLACEHOLDER || (NonEmpty(urls) != [] && r == NonEmpty(urls)[0])
    ensures NonEmpty(urls) == [] ==> r == PLACEHOLDER
    ensures urls != [] && urls[0] != "" ==> r == urls[0] && NonEmpty(urls)[0] == r
  {
    if urls != [] && urls[0] != "" then
      assert urls == [urls[0]] + urls[1..];
      urls[0]
    else
      PLACEHOLDER
  }

  /** The mapping callback of `raw.map(p => ...)`; `None` is the `TypeError` a `null`
      record or a `null` gallery entry raises. The gallery keeps the entry URLs that are not
      empty, in order, and the preview is taken from the first entry. */
  function NormalizeRecord(origin: string, p: Json): (r: Option<ClientProject>)
    ensures r.None? <==> p.JNull? || exists i :: 0 <= i < |RawImages(p)| && RawImages(p)[i].JNull?
    ensures r.Some? ==> var q := r.value;
      && q.id == Prop(p, "id")
      && q.nombre == FirstPresent(Prop(p, "nombre"), Prop(p, "titulo"))
      && q.descripcion == FirstPresent(Prop(p, "descripcion"), None)
      && q.categoria == FirstPresent(Prop(p, "categoria"), None)
      && q.subcategoria == FirstPresent(Prop(p, "subcategoria"), Prop(p, "sub"))
    ensures r.Some? ==> EntryUrls(origin, RawImages(p)).Some?
    ensures r.Some? ==> var urls := EntryUrls(origin, RawImages(p)).value;
      r.value.imagenes == NonEmpty(urls) && r.value.preview == PreviewOf(urls)
  {
    if p.JNull? then None
    else
      match EntryUrls(origin, RawImages(p))
      case None => None
      case Some(urls) =>
        Some(ClientProject(
          Prop(p, "id"),
          FirstPresent(Prop(p, "nombre"), Prop(p, "titulo")),
          FirstPresent(Prop(p, "descripcion"), None),
          FirstPresent(Prop(p, "categoria"), None),
          FirstPresent(Prop(p, "subcategoria"), Prop(p, "sub")),
          NonEmpty(urls),
          PreviewOf(urls)))
  }

  /** What a normalised record's pictures are: non-empty URLs, each drawn from one of its own
      gallery entries, and a preview that is the first of them or the placeholder. */
  lemma RecordImages(origin: string, p: Json)
    requires NormalizeRecord(origin, p).Some?
    ensures var q := NormalizeRecord(origin, p).value;
      && |q.imagenes| <= |RawImages(p)|
      && (forall k :: 0 <= k < |q.imagenes| ==> q.imagenes[k] != "")
      && (forall k :: 0 <= k < |q.imagenes| ==>
            exists i :: 0 <= i < |RawImages(p)| && EntryUrl(origin, RawImages(p)[i]) == Some(q.imagenes[k]))
    ensures var q := NormalizeRecord(origin, p).value;
      && q.preview != ""
      && (q.preview == PLACEHOLDER || (q.imagenes != [] && q.preview == q.imagenes[0]))
      && (q.imagenes == [] ==> q.preview == PLACEHOLDER)
      && (RawImages(p) != [] && EntryUrl(origin, RawImages(p)[0]) != Some("") ==> q.imagenes != [] && q.preview == q.imagenes[0])
  {
    var q := NormalizeRecord(origin, p).value;
    var imgs := RawImages(p);
    var urls := EntryUrls(origin, imgs).value;
    forall k | 0 <= k < |q.imagenes|
      ensures exists i :: 0 <= i < |imgs| && EntryUrl(origin, imgs[i]) == Some(q.imagenes[k])
    {
      assert q.imagenes[k] in urls;
      var i :| 0 <= i < |urls| && urls[i] == q.imagenes[k];
      assert EntryUrl(origin, imgs[i]) == Some(urls[i]);
    }
    if imgs != [] && EntryUrl(origin, imgs[0]) != Some("") {
      assert EntryUrl(origin, imgs[0]) == Some(urls[0]);
    }
  }

  /** `xs.map(f)` where `f` may raise: every result, or `None` as soon as one call fails. */
  function MapAll<T, U>(f: T -> Option<U>, xs: seq<T>): (r: Option<seq<U>>)
    ensures r.None? <==> exists i :: 0 <= i < |xs| && f(xs[i]).None?
    ensures r.Some? ==> |r.value| == |xs| && forall i :: 0 <= i < |xs| ==> f(xs[i]) == Some(r.value[i])
  {
    if |xs| == 0 then Some([])
    else
      var tail := xs[1..];
      assert forall i :: 0 <= i < |tail| ==> tail[i] == xs[i + 1];
      match f(xs[0])
      case None => None
      case Some(y) =>
        match MapAll(f, tail)
        case None =>
          var i :| 0 <= i < |tail| && f(tail[i]).None?;
          assert f(xs[i + 1]).None?;
          None
        case Some(ys) => Some([y] + ys)
  }

  /** `raw.map(...)` over a whole list, or `None` when one record raises. */
  function NormalizeAll(origin: string, raw: seq<Json>): (r: Option<seq<ClientProject>>)
    ensures r.None? <==> exists i :: 0 <= i < |raw| && NormalizeRecord(origin, raw[i]).None?
    ensures r.Some? ==> |r.value| == |raw|
    ensures r.Some? ==> forall i :: 0 <= i < |raw| ==> NormalizeRecord(origin, raw[i]) == Some(r.value[i])
  {
    var f := x => NormalizeRecord(origin, x);
    assert forall i :: 0 <= i < |raw| ==> f(raw[i]) == NormalizeRecord(origin, raw[i]);
    MapAll(f, raw)
  }

  /** What the fetch block ends with: the records, or the error message shown when the
      response is `null` or a record raises. */
  function LoadProjects(origin: string, data: Json): (r: Option<seq<ClientProject>>)
    ensures data.JNull? ==> r.None?
    ensures r.None? <==>
      || ExtractProjects(data).None?
      || exists i :: 0 <= i < |ExtractProjects(data).value| && NormalizeRecord(origin, ExtractProjects(data).value[i]).None?
    ensures r.Some? ==> |r.value| == |ExtractProjects(data).value|
    ensures r.Some? ==> forall i :: 0 <= i < |r.value| ==>
      NormalizeRecord(origin, ExtractProjects(data).value[i]) == Some(r.value[i])
  {
    match ExtractProjects(data)
    case None => None
    case Some(raw) => NormalizeAll(origin, raw)
  }

  // ---------------------------------------------------------------------------------------
  // Slugs and labels

  /** The combining diacritical marks `[̀-ͯ]`. */
  predicate IsMark(c: char)
  {
    '\U{300}' <= c <= '\U{36F}'
  }

  predicate NoMarks(s: string)
  {
    forall i :: 0 <= i < |s| ==> !IsMark(s[i])
  }

  /** `.replace(/[̀-ͯ]/g, '')`. */
  function StripMarks(s: string): (r: string)
    ensures NoMarks(r) && |r| <= |s|
    ensures NoMarks(s) ==> r == s
  {
    if |s| == 0 then ""
    else
      var rest := StripMarks(s[1..]);
      if IsMark(s[0]) then rest else [s[0]] + rest
  }

  /** Marks are not letters, so removing them and lower-casing can go in either order. */
  lemma {:induction false} StripMarksLower(s: string)
    ensures StripMarks(Lower(s)) == Lower(StripMarks(s))
    decreases |s|
  {
    if |s| > 0 {
      LowerSlice(s, 1, |s|);
      assert Lower(s)[1..] == Lower(s[1..]);
      StripMarksLower(s[1..]);
      if !IsMark(s[0]) {
        LowerConcat([s[0]], StripMarks(s[1..]));
      }
    }
  }

  /** `normalizeString` after `String(s || '')`: the text with the combining marks removed,
      split into whitespace-separated words, lower-cased and joined with `-`. The four
      regular-expression steps (`\s+` to one space, trim, lower-case, `\s+` to `-`) compute
      exactly this; NFD decomposition is taken to leave the text unchanged. */
  function Slug(t: string): (r: string)
    ensures NoSpace(Js, r) && IsLower(r) && NoMarks(r)
    ensures r == "" <==> AllSpace(Js, StripMarks(t))
  {
    var ws := Words(Js, StripMarks(t));
    WordsEmpty(Js, StripMarks(t));
    LowerAllWords(Js, ws);
    var lws := LowerAll(ws);
    JoinKeeps("-", lws, c => !IsSpace(Js, c));
    JoinKeeps("-", lws, c => !('A' <= c <= 'Z'));
    WordsKeep(Js, StripMarks(t), c => !IsMark(c));
    assert forall k, i :: 0 <= k < |lws| && 0 <= i < |lws[k]| ==> lws[k][i] == LowerChar(ws[k][i]);
    assert forall k :: 0 <= k < |ws| ==> AllChars(ws[k], c => !IsMark(c));
    JoinKeeps("-", lws, c => !IsMark(c));
    if ws == [] then "" else
      JoinNonEmpty("-", lws);
      Join("-", lws)
  }

  lemma JoinNonEmpty(sep: string, ws: seq<string>)
    requires |ws| > 0 && ws[0] != ""
    ensures Join(sep, ws) != ""
  {
  }

  /** `normalizeString(v)`. */
  function NormalizeString(v: Option<Json>): (r: string)
    ensures NoSpace(Js, r) && IsLower(r) && NoMarks(r)
    ensures !JsTruthyOpt(v) ==> r == ""
  {
    Slug(JsStringOrEmpty(v))
  }

  /** A slug is its own slug. */
  lemma SlugIdempotent(t: string)
    ensures Slug(Slug(t)) == Slug(t)
  {
    var r := Slug(t);
    if r != "" {
      WordsAfterWord(Js, r, "");
      assert r + "" == r;
      WordsEmpty(Js, "");
      assert LowerAll([r]) == [Lower(r)];
      LowerOfLower(r);
    } else {
      WordsEmpty(Js, "");
    }
  }

  /** Letter case does not affect the slug. */
  lemma SlugIgnoresCase(a: string, b: string)
    requires Lower(a) == Lower(b)
    ensures Slug(a) == Slug(b)
  {
    StripMarksLower(a);
    StripMarksLower(b);
    WordsLower(Js, StripMarks(a));
    WordsLower(Js, StripMarks(b));
  }

  /** Upper-casing the first character of a word. */
  function Capitalize(w: string): (r: string)
    ensures |r| == |w|
    ensures |w| > 0 ==> r[0] == UpperChar(w[0]) && r[1..] == w[1..]
  {
    if w == "" then "" else [UpperChar(w[0])] + w[1..]
  }

  function CapitalizeAll(ws: seq<string>): (r: seq<string>)
    ensures |r| == |ws| && forall k :: 0 <= k < |ws| ==> r[k] == Capitalize(ws[k])
  {
    seq(|ws|, k requires 0 <= k < |ws| => Capitalize(ws[k]))
  }

  /** `titleCase` after `String(s || '')`: lower-cased, split on single spaces, the first
      character of every non-empty piece upper-cased, joined with single spaces. */
  function TitleCaseText(t: string): string
  {
    Join(" ", CapitalizeAll(Split(Lower(t), " ")))
  }

  function TitleCase(v: Option<Json>): string
  {
    TitleCaseText(JsStringOrEmpty(v))
  }

  /** Character `i` of a title-cased `t`: upper-cased at the start and after a space,
      lower-cased elsewhere. */
  function TitleAt(t: string, i: nat): char
    requires i < |t|
  {
    if i == 0 || t[i - 1] == ' ' then UpperChar(LowerChar(t[i])) else LowerChar(t[i])
  }

  /** The independent description of `titleCase`: position by position, a character is
      upper-cased when it starts the text or follows a space, and lower-cased otherwise;
      spaces stay where they were and the length does not change. */
  lemma TitleCasePointwise(t: string)
    ensures |TitleCaseText(t)| == |t|
    ensures forall i :: 0 <= i < |t| ==> TitleCaseText(t)[i] == TitleAt(t, i)
  {
    var l := Lower(t);
    var r := TitleCaseText(t);
    CapitalizeSplit(l);
    forall i | 0 <= i < |t|
      ensures r[i] == TitleAt(t, i)
    {
      assert r[i] == CapAt(l, i);
      assert l[i] == LowerChar(t[i]);
      if i > 0 {
        assert l[i - 1] == LowerChar(t[i - 1]);
        assert (l[i - 1] == ' ') == (t[i - 1] == ' ');
      }
    }
  }

  /** `r` is `s` with the first character of every space-separated piece upper-cased. */
  predicate CapitalizedFrom(r: string, s: string)
  {
    |r| == |s| && forall i :: 0 <= i < |s| ==> r[i] == CapAt(s, i)
  }

  /** Character `i` of `s` upper-cased when it starts the text or follows a space. */
  function CapAt(s: string, i: nat): char
    requires i < |s|
  {
    if i == 0 || s[i - 1] == ' ' then UpperChar(s[i]) else s[i]
  }

  lemma CapitalizedWord(w: string)
    requires ' ' !in w
    ensures CapitalizedFrom(Capitalize(w), w)
  {
    forall i | 0 < i < |w|
      ensures Capitalize(w)[i] == w[i]
    {
      assert Capitalize(w)[i] == Capitalize(w)[1..][i - 1];
    }
  }

  /** A space-free piece, a space, and a rest whose capitalised form is already known. */
  lemma CapitalizedCons(w: string, rest: string, tail: string)
    requires ' ' !in w && CapitalizedFrom(tail, rest)
    ensures CapitalizedFrom(Capitalize(w) + " " + tail, w + " " + rest)
  {
    var s := w + " " + rest;
    var r := Capitalize(w) + " " + tail;
    var p := |w|;
    forall i | 0 <= i < |s|
      ensures r[i] == CapAt(s, i)
    {
      if i < p {
        assert s[i] == w[i] && r[i] == Capitalize(w)[i];
        if i > 0 {
          assert s[i - 1] == w[i - 1] && w[i - 1] in w;
          assert Capitalize(w)[i] == Capitalize(w)[1..][i - 1];
        }
      } else if i == p {
        assert s[p] == ' ' && r[p] == ' ' && UpperChar(' ') == ' ';
        if i > 0 {
          assert s[i - 1] == w[i - 1] && w[i - 1] in w;
        }
      } else {
        var j := i - p - 1;
        assert r[i] == tail[j];
        assert s[i] == rest[j];
        assert tail[j] == CapAt(rest, j);
        if j > 0 {
          assert s[i - 1] == rest[j - 1];
        } else {
          assert s[i - 1] == ' ';
        }
      }
    }
  }

  /** The join-of-capitalised-pieces of `s`, described position by position. */
  lemma {:induction false} CapitalizeSplit(s: string)
    ensures CapitalizedFrom(Join(" ", CapitalizeAll(Split(s, " "))), s)
    decreases |s|
  {
    match IndexOf(s, " ")
    case None =>
      ContainsChar(s, ' ');
      assert Split(s, " ") == [s];
      assert CapitalizeAll([s]) == [Capitalize(s)];
      CapitalizedWord(s);
    case Some(p) =>
      var w := s[..p];
      var rest := s[p + 1..];
      SplitAt(s, " ", p);
      PrefixBeforeFirst(s, " ", p);
      ContainsChar(w, ' ');
      CapitalizeSplit(rest);
      var parts := Split(rest, " ");
      assert CapitalizeAll([w] + parts) == [Capitalize(w)] + CapitalizeAll(parts);
      JoinCons(" ", Capitalize(w), CapitalizeAll(parts));
      CapitalizedCons(w, rest, Join(" ", CapitalizeAll(parts)));
      assert s[p..p + 1] == " ";
      assert s == w + " " + rest;
  }

  /** A title-cased label has the slug of the text it was made from, which is how the
      `?categoria=` parameter finds its category button. */
  lemma TitleCaseKeepsSlug(t: string)
    ensures Slug(TitleCaseText(t)) == Slug(t)
  {
    TitleCasePointwise(t);
    var r := TitleCaseText(t);
    forall i | 0 <= i < |t|
      ensures Lower(r)[i] == Lower(t)[i]
    {
      var c := t[i];
      assert r[i] == TitleAt(t, i);
      assert LowerChar(UpperChar(LowerChar(c))) == LowerChar(c);
      assert LowerChar(LowerChar(c)) == LowerChar(c);
    }
    assert Lower(r) == Lower(t);
    SlugIgnoresCase(r, t);
  }

  // ---------------------------------------------------------------------------------------
  // Gallery

  /** `goPrev`: one image back, wrapping around; nothing happens with fewer than two. */
  function GoPrev(idx: int, n: nat): (r: int)
    ensures n <= 1 ==> r == idx
    ensures n > 1 && 0 <= idx < n ==> 0 <= r < n && (r == idx - 1 || (idx == 0 && r == n - 1))
  {
    if n <= 1 then idx else (idx - 1 + n) % n
  }

  /** `goNext`: one image forward, wrapping around; nothing happens with fewer than two. */
  function GoNext(idx: int, n: nat): (r: int)
    ensures n <= 1 ==> r == idx
    ensures n > 1 && 0 <= idx < n ==> 0 <= r < n && (r == idx + 1 || (idx == n - 1 && r == 0))
  {
    if n <= 1 then idx else (idx + 1) % n
  }

  /** Back and forward undo each other. */
  lemma PrevNextInverse(idx: int, n: nat)
    requires 0 <= idx < n
    ensures GoPrev(GoNext(idx, n), n) == idx
    ensures GoNext(GoPrev(idx, n), n) == idx
  {
  }

  /** Position after pressing `goNext` `k` times from the first image. */
  function StepsForward(n: nat, k: nat): (r: int)
    ensures n > 1 ==> 0 <= r < n
  {
    if k == 0 then 0 else GoNext(StepsForward(n, k - 1), n)
  }

  /** Fewer than `n` steps forward from the first image land on image `k`. */
  lemma {:induction false} StepsBelow(n: nat, k: nat)
    requires 1 < n && k < n
    ensures StepsForward(n, k) == k
  {
    if k > 0 {
      StepsBelow(n, k - 1);
    }
  }

  /** `n` more steps forward come back to the same image: the gallery cycles, so `k` steps
      land on image `k mod n`. */
  lemma {:induction false} StepsPeriodic(n: nat, k: nat)
    requires 1 < n
    ensures StepsForward(n, k + n) == StepsForward(n, k)
  {
    if k == 0 {
      StepsBelow(n, n - 1);
    } else {
      StepsPeriodic(n, k - 1);
      assert StepsForward(n, k + n) == GoNext(StepsForward(n, k - 1 + n), n);
    }
  }

  /** `setImg(i)`: the image shown at position `i`, or the placeholder when there is none. */
  function ShownImage(imgs: seq<string>, i: int): (r: string)
    ensures r != "" ==> r == PLACEHOLDER || (0 <= i < |imgs| && r == imgs[i])
    ensures 0 <= i < |imgs| && imgs[i] != "" ==> r == imgs[i]
  {
    if 0 <= i < |imgs| && imgs[i] != "" then imgs[i] else PLACEHOLDER
  }

  /** Navigating a normalised record's gallery shows one of its own images at every step. */
  lemma GalleryShowsOwnImages(q: ClientProject, k: nat)
    requires |q.imagenes| > 1 && forall j :: 0 <= j < |q.imagenes| ==> q.imagenes[j] != ""
    ensures ShownImage(q.imagenes, StepsForward(|q.imagenes|, k)) in q.imagenes
  {
  }
}
