/** The public project listing of `despacho_django/proyectos/views_api.py`: the optional
    filters, the pagination parameters with their fallback, Django's paginator with the
    out-of-range page replaced by the last one, and the per-project image list. The
    database is a sequence of projects already in the query's date order; resolving a URL
    against the request is a parameter that may fail. */
module Listing {
  import opened Wrappers
  import opened Text
  import Json
  import opened Selection

  // ---------------------------------------------------------------------------------------
  // Integer parameters

  function DigitValue(c: char): nat
    requires '0' <= c <= '9'
  {
    c as int - '0' as int
  }

  predicate AllDigits(s: string)
  {
    forall i :: 0 <= i < |s| ==> '0' <= s[i] <= '9'
  }

  /** The value of a run of decimal digits. */
  function DigitsValue(s: string): nat
    requires AllDigits(s)
    decreases |s|
  {
    if s == [] then 0 else DigitsValue(s[..|s| - 1]) * 10 + DigitValue(s[|s| - 1])
  }

  /** The digit grammar of Python's `int` in base 10: digits, with single underscores
      allowed between two digits (`1_000`, but not `_1`, `1_` or `1__0`). */
  predicate DigitGroups(b: string)
  {
    && |b| > 0 && '0' <= b[0] <= '9' && '0' <= b[|b| - 1] <= '9'
    && (forall i :: 0 <= i < |b| ==> ('0' <= b[i] <= '9') || b[i] == '_')
    && forall i :: 0 <= i < |b| ==> !OccursAt(b, "__", i)
  }

  /** The text after an optional leading `+` or `-`. */
  function Unsigned(t: string): (b: string)
    ensures |t| > 0 && (t[0] == '-' || t[0] == '+') ==> b == t[1..]
    ensures !(|t| > 0 && (t[0] == '-' || t[0] == '+')) ==> b == t
  {
    if |t| > 0 && (t[0] == '-' || t[0] == '+') then t[1..] else t
  }

  predicate IsDigit(c: char)
  {
    '0' <= c <= '9'
  }

  /** The digits of `b`, in order, are digits. */
  lemma GroupsDigits(b: string)
    ensures AllDigits(KeepWhere(b, IsDigit))
  {
    var digits := KeepWhere(b, IsDigit);
    forall k | 0 <= k < |digits|
      ensures '0' <= digits[k] <= '9'
    {
      var i := IndicesWhere(b, IsDigit)[k];
      assert digits[k] == b[i] && IsDigit(b[i]);
    }
  }

  /** The decimal value of the digits of `b`: on a digit-group literal, its digits read with
      the underscores ignored. */
  function GroupsValue(b: string): (n: nat)
    ensures AllDigits(b) ==> n == DigitsValue(b)
  {
    var digits := KeepWhere(b, IsDigit);
    GroupsDigits(b);
    assert AllDigits(b) ==> digits == b by {
      if AllDigits(b) {
        KeepAll(b, IsDigit);
      }
    }
    DigitsValue(digits)
  }

  /** CPython's default limit on the digits `int` converts from a decimal string
      (`sys.get_int_max_str_digits()`, from Python 3.11 and 3.10.7): a literal with more
      digits raises `ValueError`. Underscores are not counted; leading zeros are. */
  const MAX_STR_DIGITS := 4300

  /** The number of digits in `b`, underscores and signs not counted. */
  function DigitCount(b: string): nat
  {
    |KeepWhere(b, IsDigit)|
  }

  /** A run of digits counts all its characters. */
  lemma DigitCountAll(b: string)
    ensures AllDigits(b) ==> DigitCount(b) == |b|
  {
    if AllDigits(b) {
      KeepAll(b, IsDigit);
    }
  }

  /** `int` on text already stripped of whitespace. */
  function ParseSigned(t: string): (r: Option<int>)
    ensures r.Some? <==> DigitGroups(Unsigned(t)) && DigitCount(Unsigned(t)) <= MAX_STR_DIGITS
    ensures r.Some? ==> r.value == if t[0] == '-' then 0 - GroupsValue(Unsigned(t)) else GroupsValue(Unsigned(t))
  {
    var b := Unsigned(t);
    if !DigitGroups(b) || DigitCount(b) > MAX_STR_DIGITS then None
    else if t[0] == '-' then Some(0 - GroupsValue(b))
    else Some(GroupsValue(b))
  }

  /** Python's `int(text)` on a query-string value: after stripping whitespace, an optional
      sign and a digit-group literal of at most `MAX_STR_DIGITS` digits; anything else
      raises `ValueError` (`None`). */
  function ParseInt(text: string): (r: Option<int>)
    ensures r.Some? <==> var b := Unsigned(Strip(Py, text)); DigitGroups(b) && DigitCount(b) <= MAX_STR_DIGITS
    ensures r.Some? ==> var t := Strip(Py, text);
      r.value == if t[0] == '-' then 0 - GroupsValue(Unsigned(t)) else GroupsValue(Unsigned(t))
    ensures r.Some? ==> Strip(Py, text) != ""
    ensures AllDigits(text) && text != [] ==>
      r == if |text| <= MAX_STR_DIGITS then Some(DigitsValue(text)) else None
  {
    StripDigits(text);
    DigitsNoPair(text);
    DigitCountAll(text);
    ParseSigned(Strip(Py, text))
  }

  /** Padding around the number does not matter: `int` strips it first. */
  lemma ParseIntStrips(text: string)
    ensures ParseInt(Strip(Py, text)) == ParseInt(text)
  {
    StripIdempotent(Py, text);
    assert ParseInt(Strip(Py, text)) == ParseSigned(Strip(Py, Strip(Py, text)));
  }

  /** A signed decimal numeral, as `str(n)` prints it. */
  function IntText(n: int): (s: string)
    ensures |s| > 0
  {
    if n < 0 then "-" + Json.NatToString(0 - n) else Json.NatToString(n)
  }

  /** Text with nothing to strip goes to `ParseSigned` as it is. */
  lemma ParseStripped(t: string)
    requires IsStripped(Py, t)
    ensures ParseInt(t) == ParseSigned(t)
  {
    StripStripped(Py, t);
  }

  /** Every integer printed by `str` is read back by `int`, unless it has more than
      `MAX_STR_DIGITS` digits, which `int` refuses. */
  lemma ParseIntText(n: int)
    ensures ParseInt(IntText(n)) ==
      if |Json.NatToString(if n < 0 then 0 - n else n)| <= MAX_STR_DIGITS then Some(n) else None
  {
    IntTextShape(n);
    ParseStripped(IntText(n));
    SignedText(n);
  }

  /** `str(n)` starts with `-` or a digit and ends with a digit, and after the sign holds
      the digits of the magnitude. */
  lemma IntTextShape(n: int)
    ensures IsStripped(Py, IntText(n))
    ensures Unsigned(IntText(n)) == Json.NatToString(if n < 0 then 0 - n else n)
  {
    var m: nat := if n < 0 then 0 - n else n;
    var d := Json.NatToString(m);
    DigitsOfNat(m);
    var s := IntText(n);
    assert s[|s| - 1] == d[|d| - 1];
    DigitNotSpace(d[|d| - 1]);
    if n < 0 {
      assert s[0] == '-';
    } else {
      DigitNotSpace(d[0]);
    }
  }

  lemma DigitNotSpace(c: char)
    requires '0' <= c <= '9'
    ensures !IsSpace(Py, c)
  {
  }

  lemma SignedText(n: int)
    ensures ParseSigned(IntText(n)) ==
      if |Json.NatToString(if n < 0 then 0 - n else n)| <= MAX_STR_DIGITS then Some(n) else None
  {
    var m: nat := if n < 0 then 0 - n else n;
    var d := Json.NatToString(m);
    DigitsOfNat(m);
    IntTextShape(n);
    DigitsNoPair(d);
    DigitCountAll(d);
    assert DigitGroups(d);
  }

  /** Underscores between digit groups are ignored. */
  lemma ParseIntGroups()
    ensures ParseInt("1_0") == Some(10)
  {
    StrippedExample();
    ParseStripped("1_0");
    SignedExample();
  }

  lemma StrippedExample()
    ensures IsStripped(Py, "1_0")
  {
  }

  lemma SignedExample()
    ensures ParseSigned("1_0") == Some(10)
  {
    GroupsExample();
    KeepExample();
    assert DigitsValue("10") == 10 by {
      assert "10"[..1] == "1" && "1"[..0] == "";
    }
  }

  lemma GroupsExample()
    ensures DigitGroups("1_0")
  {
    var t := "1_0";
    forall i | 0 <= i < |t|
      ensures !OccursAt(t, "__", i)
    {
      if i + 2 <= |t| {
        assert t[i..i + 2][0] == t[i] && t[i..i + 2][1] == t[i + 1];
      }
    }
  }

  lemma KeepExample()
    ensures KeepWhere("1_0", IsDigit) == "10"
  {
    var t := "1_0";
    KeepLast(t, IsDigit);
    KeepLast(t[..2], IsDigit);
    KeepLast(t[..1], IsDigit);
    assert t[..2][..1] == t[..1];
  }

  /** Two underscores in a row, or one before the digits, make the text unreadable. */
  lemma ParseIntDoubleUnderscore()
    ensures ParseInt("1__0").None?
  {
    var t := "1__0";
    StripStripped(Py, t);
    assert OccursAt(t, "__", 1);
  }

  lemma ParseIntLeadingUnderscore()
    ensures ParseInt("_1").None?
  {
    StripStripped(Py, "_1");
  }

  /** A sign cannot be separated from the digits. */
  lemma ParseIntSpacedSign()
    ensures ParseInt("- 5").None?
  {
    var t := "- 5";
    StripStripped(Py, t);
    assert Unsigned(t)[0] == ' ';
  }

  /** A digit string holds no `__`. */
  lemma DigitsNoPair(d: string)
    ensures AllDigits(d) ==> forall i :: 0 <= i < |d| ==> !OccursAt(d, "__", i)
  {
    if AllDigits(d) {
      forall i | 0 <= i < |d|
        ensures !OccursAt(d, "__", i)
      {
        if i + 2 <= |d| {
          assert d[i..i + 2][0] == d[i];
        }
      }
    }
  }

  /** A digit string has no whitespace to strip. */
  lemma StripDigits(text: string)
    ensures AllDigits(text) ==> Strip(Py, text) == text
  {
    if AllDigits(text) && text != [] {
      assert !IsSpace(Py, text[0]) && !IsSpace(Py, text[|text| - 1]);
      StripStripped(Py, text);
    }
  }

  /** Decimal digits read back as the number they spell. */
  lemma {:induction false} DigitsOfNat(n: nat)
    ensures AllDigits(Json.NatToString(n))
    ensures DigitsValue(Json.NatToString(n)) == n
    decreases n
  {
    var s := Json.NatToString(n);
    if n >= 10 {
      DigitsOfNat(n / 10);
      var p := Json.NatToString(n / 10);
      assert s == p + [Json.DigitChar(n % 10)];
      assert s[..|s| - 1] == p;
    }
  }

  /** The page parameters printed as decimal numbers are read back unchanged, up to
      `MAX_STR_DIGITS` digits. */
  lemma ParseIntNat(n: nat)
    ensures ParseInt(Json.NatToString(n)) == if |Json.NatToString(n)| <= MAX_STR_DIGITS then Some(n) else None
  {
    DigitsOfNat(n);
  }

  /** The defaults of the view. */
  const DEFAULT_PAGE := 1
  const DEFAULT_PAGE_SIZE := 12

  /** `int(request.GET.get('page', 1))` and the same for `page_size`: an absent parameter
      takes its default, and if either present one fails to parse, both fall back to
      (1, 12). */
  function ParsePaging(page: Option<string>, pageSize: Option<string>): (r: (int, int))
    ensures page.None? && pageSize.None? ==> r == (DEFAULT_PAGE, DEFAULT_PAGE_SIZE)
    ensures (page.Some? && ParseInt(page.value).None?) || (pageSize.Some? && ParseInt(pageSize.value).None?) ==>
      r == (DEFAULT_PAGE, DEFAULT_PAGE_SIZE)
    ensures page.Some? && ParseInt(page.value).Some? && pageSize.Some? && ParseInt(pageSize.value).Some? ==>
      r == (ParseInt(page.value).value, ParseInt(pageSize.value).value)
  {
    var p := if page.None? then Some(DEFAULT_PAGE) else ParseInt(page.value);
    var s := if pageSize.None? then Some(DEFAULT_PAGE_SIZE) else ParseInt(pageSize.value);
    if p.None? || s.None? then (DEFAULT_PAGE, DEFAULT_PAGE_SIZE) else (p.value, s.value)
  }

  // ---------------------------------------------------------------------------------------
  // Paginator (no orphans, empty first page allowed)

  /** `Paginator.num_pages`: enough pages of `perPage` for `count` items, and one page even
      when there are none. */
  function NumPages(count: nat, perPage: int): (n: nat)
    requires perPage >= 1
    ensures n >= 1
    ensures (n - 1) * perPage < count || n == 1
    ensures count <= n * perPage
  {
    var hits := if count < 1 then 1 else count;
    (hits + perPage - 1) / perPage
  }

  /** `paginator.page(page)` with `EmptyPage` caught and the last page served instead. */
  function ChoosePage(page: int, count: nat, perPage: int): (n: nat)
    requires perPage >= 1
    ensures 1 <= n <= NumPages(count, perPage)
    ensures 1 <= page <= NumPages(count, perPage) ==> n == page
    ensures !(1 <= page <= NumPages(count, perPage)) ==> n == NumPages(count, perPage)
  {
    if 1 <= page <= NumPages(count, perPage) then page else NumPages(count, perPage)
  }

  /** Bounds of page `n`'s slice of the item list. */
  function PageStart(n: nat, perPage: int): int
  {
    (n - 1) * perPage
  }

  function PageEnd(n: nat, count: nat, perPage: int): int
  {
    if (n - 1) * perPage + perPage >= count then count else (n - 1) * perPage + perPage
  }

  /** A valid page's slice lies within the list and holds at most `perPage` items. */
  lemma PageBounds(n: nat, count: nat, perPage: int)
    requires perPage >= 1 && 1 <= n <= NumPages(count, perPage)
    ensures 0 <= PageStart(n, perPage) <= PageEnd(n, count, perPage) <= count
    ensures PageEnd(n, count, perPage) - PageStart(n, perPage) <= perPage
    ensures n < NumPages(count, perPage) ==> PageEnd(n, count, perPage) - PageStart(n, perPage) == perPage
  {
    var N := NumPages(count, perPage);
    if count == 0 {
      assert n == 1;
    } else {
      assert (n - 1) * perPage <= (N - 1) * perPage by {
        MulMono(n - 1, N - 1, perPage);
      }
      if n < N {
        MulMono(n, N - 1, perPage);
      }
    }
  }

  lemma MulMono(a: nat, b: nat, k: nat)
    requires a <= b
    ensures a * k <= b * k
  {
  }

  /** Item `i` of the list is shown on page `i / perPage + 1`, at position `i % perPage`: the
      pages cover the list with neither gaps nor overlaps. */
  lemma ItemPage(i: nat, count: nat, perPage: int)
    requires perPage >= 1 && i < count
    ensures var n := i / perPage + 1;
      && 1 <= n <= NumPages(count, perPage)
      && PageStart(n, perPage) <= i < PageEnd(n, count, perPage)
      && i - PageStart(n, perPage) == i % perPage
  {
    var N := NumPages(count, perPage);
    assert i == (i / perPage) * perPage + i % perPage;
    MulLess(i / perPage, N, perPage);
  }

  lemma MulLess(a: nat, b: nat, k: int)
    requires k >= 1 && a * k < b * k
    ensures a < b
  {
    if b <= a {
      MulMono(b, a, k);
    }
  }

  // ---------------------------------------------------------------------------------------
  // Projects and rows

  /** An image field: the stored file name (empty when there is none) and its media URL. */
  datatype ImageFile = ImageFile(name: string, url: string)

  /** A `Proyecto` with its gallery (`ProyectoImagen` rows in `orden`, `id` order). */
  datatype Project = Project(
    id: int, nombre: string, descripcion: string, categoria: string, subcategoria: string,
    imagen: ImageFile, gallery: seq<ImageFile>, fechaCreacion: string)

  /** One element of `results`: the project's fields and its image URLs. */
  datatype Row = Row(
    id: int, nombre: string, descripcion: string, categoria: string, subcategoria: string,
    imagenes: seq<string>, fechaCreacion: string)

  /** The filtering query-string parameters. */
  datatype Filters = Filters(categoria: Option<string>, sub: Option<string>, q: Option<string>)

  /** The query-string parameters the view reads. */
  datatype Query = Query(filters: Filters, page: Option<string>, pageSize: Option<string>)

  /** The body of a served listing, or the server error an unusable page size causes. */
  datatype ListResult =
    | Page(count: nat, page: nat, pages: nat, pageSize: int, results: seq<Row>)
    | PageSizeError

  /** `request.build_absolute_uri(f.url)`, falling back to the bare URL when it raises. */
  function ImageUrl(f: ImageFile, absolute: string -> Option<string>): string
  {
    absolute(f.url).GetOr(f.url)
  }

  /** Python's truthiness of a `FieldFile`: a file is attached. */
  predicate HasFile(f: ImageFile)
  {
    f.name != ""
  }

  /** The URLs of the gallery images that have a file, in gallery order: the `a`-th URL is
      that of the `a`-th image with a file. */
  function GalleryUrls(gallery: seq<ImageFile>, absolute: string -> Option<string>): (urls: seq<string>)
    ensures |urls| == |IndicesWhere(gallery, HasFile)| && |urls| <= |gallery|
    ensures forall a {:trigger IndicesWhere(gallery, HasFile)[a]} :: 0 <= a < |urls| ==>
      urls[a] == ImageUrl(gallery[IndicesWhere(gallery, HasFile)[a]], absolute)
    ensures urls == [] <==> forall k :: 0 <= k < |gallery| ==> gallery[k].name == ""
  {
    var named := KeepWhere(gallery, HasFile);
    KeepNone(gallery, HasFile);
    seq(|named|, a requires 0 <= a < |named| => ImageUrl(named[a], absolute))
  }

  /** The `imagenes` list of one row: the gallery's URLs, or else the main image's. */
  function Images(p: Project, absolute: string -> Option<string>): (urls: seq<string>)
    ensures GalleryUrls(p.gallery, absolute) != [] ==> urls == GalleryUrls(p.gallery, absolute)
    ensures GalleryUrls(p.gallery, absolute) == [] ==>
      urls == (if p.imagen.name != "" then [ImageUrl(p.imagen, absolute)] else [])
    ensures urls == [] <==> p.imagen.name == "" && forall k :: 0 <= k < |p.gallery| ==> p.gallery[k].name == ""
  {
    var g := GalleryUrls(p.gallery, absolute);
    if g == [] && p.imagen.name != "" then [ImageUrl(p.imagen, absolute)] else g
  }

  function RowOf(p: Project, absolute: string -> Option<string>): Row
  {
    Row(p.id, p.nombre, p.descripcion, p.categoria, p.subcategoria, Images(p, absolute), p.fechaCreacion)
  }

  /** A parameter that filters: Python's truthiness of `request.GET.get(...)`. */
  predicate Given(v: Option<string>)
  {
    v.Some? && v.value != ""
  }

  /** `categoria__iexact`, `subcategoria__iexact` and `nombre__icontains` for the given
      parameters. */
  predicate Matches(p: Project, query: Filters)
  {
    && (Given(query.categoria) ==> Lower(p.categoria) == Lower(query.categoria.value))
    && (Given(query.sub) ==> Lower(p.subcategoria) == Lower(query.sub.value))
    && (Given(query.q) ==> Contains(Lower(p.nombre), Lower(query.q.value)))
  }

  /** `Matches` for one query, as a test on projects. */
  function MatchesQuery(query: Filters): Project -> bool
  {
    p => Matches(p, query)
  }

  /** The filtered queryset, order kept: the `a`-th result is the `a`-th matching project. */
  function Filter(ps: seq<Project>, query: Filters): (r: seq<Project>)
    ensures |r| == |IndicesWhere(ps, MatchesQuery(query))| && |r| <= |ps|
    ensures forall a {:trigger IndicesWhere(ps, MatchesQuery(query))[a]} :: 0 <= a < |r| ==>
      r[a] == ps[IndicesWhere(ps, MatchesQuery(query))[a]]
    ensures forall k :: 0 <= k < |r| ==> Matches(r[k], query)
    ensures forall p :: p in r <==> p in ps && Matches(p, query)
    ensures !Given(query.categoria) && !Given(query.sub) && !Given(query.q) ==> r == ps
  {
    var r := KeepWhere(ps, MatchesQuery(query));
    KeepMembers(ps, MatchesQuery(query));
    assert !Given(query.categoria) && !Given(query.sub) && !Given(query.q) ==> r == ps by {
      if !Given(query.categoria) && !Given(query.sub) && !Given(query.q) {
        KeepAll(ps, MatchesQuery(query));
      }
    }
    r
  }

  function Rows(ps: seq<Project>, absolute: string -> Option<string>): (rows: seq<Row>)
    ensures |rows| == |ps|
    ensures forall k :: 0 <= k < |ps| ==> rows[k] == RowOf(ps[k], absolute)
  {
    seq(|ps|, k requires 0 <= k < |ps| => RowOf(ps[k], absolute))
  }

  /** The items on page `n`: at most `perPage` consecutive items starting at
      `(n - 1) * perPage`, exactly `perPage` on every page but the last. */
  function PageSlice<T>(items: seq<T>, n: nat, perPage: int): (s: seq<T>)
    requires perPage >= 1 && 1 <= n <= NumPages(|items|, perPage)
    ensures |s| <= perPage && PageStart(n, perPage) + |s| <= |items|
    ensures s == items[PageStart(n, perPage)..PageStart(n, perPage) + |s|]
    ensures n < NumPages(|items|, perPage) ==> |s| == perPage
    ensures n == NumPages(|items|, perPage) ==> PageStart(n, perPage) + |s| == |items|
  {
    PageBounds(n, |items|, perPage);
    items[PageStart(n, perPage)..PageEnd(n, |items|, perPage)]
  }

  /** Django's paginator over the filtered items, with an out-of-range page number
      replaced by the last page. */
  function Paginate(items: seq<Project>, page: int, size: int, absolute: string -> Option<string>): (r: ListResult)
    requires size >= 1
    ensures r.Page? && r.count == |items| && r.pageSize == size && r.pages == NumPages(|items|, size)
    ensures 1 <= r.page <= r.pages
    ensures 1 <= page <= r.pages ==> r.page == page
    ensures !(1 <= page <= r.pages) ==> r.page == r.pages
    ensures r.Page? && 1 <= r.page <= NumPages(|items|, size) ==>
      r.results == Rows(PageSlice(items, r.page, size), absolute)
  {
    var n := ChoosePage(page, |items|, size);
    Page(|items|, n, NumPages(|items|, size), size, Rows(PageSlice(items, n, size), absolute))
  }

  /** `proyectos_list`: filter, then paginate with the parsed (or default) parameters; a
      page size below one makes the paginator raise. */
  function ProjectsList(projects: seq<Project>, query: Query, absolute: string -> Option<string>): (r: ListResult)
    ensures r.PageSizeError? <==> ParsePaging(query.page, query.pageSize).1 < 1
    ensures r.Page? ==> r.count == |Filter(projects, query.filters)|
    ensures r.Page? ==> r == Paginate(Filter(projects, query.filters), ParsePaging(query.page, query.pageSize).0,
                                      ParsePaging(query.page, query.pageSize).1, absolute)
  {
    var (page, size) := ParsePaging(query.page, query.pageSize);
    if size < 1 then PageSizeError
    else Paginate(Filter(projects, query.filters), page, size, absolute)
  }

  /** Item `i` sits on page `i / perPage + 1` at position `i % perPage`. */
  lemma ItemOnItsPage<T>(items: seq<T>, i: nat, perPage: int)
    requires perPage >= 1 && i < |items|
    ensures 1 <= i / perPage + 1 <= NumPages(|items|, perPage)
    ensures var s := PageSlice(items, i / perPage + 1, perPage);
      i % perPage < |s| && s[i % perPage] == items[i]
  {
    ItemPage(i, |items|, perPage);
    PageBounds(i / perPage + 1, |items|, perPage);
  }

  /** `page_size` as the view reads it when `page` parses: absent means 12. */
  predicate SizeParam(pageSize: Option<string>, size: int)
  {
    if pageSize.None? then size == DEFAULT_PAGE_SIZE else ParseInt(pageSize.value) == Some(size)
  }

  /** A page number written in decimal is taken as it is, and the page size as given;
      one of more than `MAX_STR_DIGITS` digits is refused, and both fall back. */
  lemma PagingOfNat(n: nat, pageSize: Option<string>, size: int)
    requires SizeParam(pageSize, size)
    ensures ParsePaging(Some(Json.NatToString(n)), pageSize) ==
      if |Json.NatToString(n)| <= MAX_STR_DIGITS then (n, size) else (DEFAULT_PAGE, DEFAULT_PAGE_SIZE)
  {
    ParseIntNat(n);
  }

  /** `?page=` followed by 4301 ones: `int` refuses it, and the listing falls back to
      page 1 of 12 whatever `page_size` says. */
  lemma LongPageFallsBack(pageSize: Option<string>)
    ensures ParsePaging(Some(seq(MAX_STR_DIGITS + 1, _ => '1')), pageSize) == (DEFAULT_PAGE, DEFAULT_PAGE_SIZE)
  {
  }

  /** Asking for an existing page by number serves that page. */
  lemma RequestedPageServed(projects: seq<Project>, query: Query, absolute: string -> Option<string>, size: int, n: nat)
    requires SizeParam(query.pageSize, size) && size >= 1
    requires |Json.NatToString(n)| <= MAX_STR_DIGITS
    requires 1 <= n <= NumPages(|Filter(projects, query.filters)|, size)
    ensures var r := ProjectsList(projects, query.(page := Some(Json.NatToString(n))), absolute);
      && r.Page? && r.page == n && r.count == |Filter(projects, query.filters)|
      && r.results == Rows(PageSlice(Filter(projects, query.filters), n, size), absolute)
  {
    var q2 := query.(page := Some(Json.NatToString(n)));
    PagingOfNat(n, query.pageSize, size);
    assert ParsePaging(q2.page, q2.pageSize) == (n, size);
  }

  /** A position within the list lies on an existing page. */
  lemma PositionOnPage(count: nat, size: int, n: nat, k: nat, i: nat)
    requires size >= 1 && n >= 1 && k < size && i == PageStart(n, size) + k && i < count
    ensures n <= NumPages(count, size)
  {
    var N := NumPages(count, size);
    assert (n - 1) * size < N * size;
    MulLess(n - 1, N, size);
  }

  /** Position `k` of an existing page is filled when item `PageStart(n, size) + k` exists. */
  lemma SliceLength<T>(items: seq<T>, size: int, n: nat, k: nat, i: nat)
    requires size >= 1 && 1 <= n <= NumPages(|items|, size) && k < size
    requires i == PageStart(n, size) + k && i < |items|
    ensures k < |PageSlice(items, n, size)|
  {
    var s := PageSlice(items, n, size);
    if n < NumPages(|items|, size) {
      assert |s| == size;
    } else {
      assert PageStart(n, size) + |s| == |items|;
    }
  }

  /** Position `k` of page `n` holds item `PageStart(n, size) + k`. */
  lemma SliceAt<T>(items: seq<T>, size: int, n: nat, k: nat, i: nat)
    requires size >= 1 && n >= 1 && k < size && i == PageStart(n, size) + k && i < |items|
    ensures n <= NumPages(|items|, size)
    ensures k < |PageSlice(items, n, size)| && PageSlice(items, n, size)[k] == items[i]
  {
    PositionOnPage(|items|, size, n, k, i);
    SliceLength(items, size, n, k, i);
    SliceIndex(items, size, n, k, i);
  }

  lemma SliceIndex<T>(items: seq<T>, size: int, n: nat, k: nat, i: nat)
    requires size >= 1 && 1 <= n <= NumPages(|items|, size) && k < |PageSlice(items, n, size)|
    requires i == PageStart(n, size) + k && i < |items|
    ensures PageSlice(items, n, size)[k] == items[i]
  {
    var s := PageSlice(items, n, size);
    assert s == items[PageStart(n, size)..PageStart(n, size) + |s|];
  }

  /** The filtered project at position `k` of page `n` is listed there when that page is
      asked for by number; with `ItemPage` (every position falls on page
      `i / perPage + 1`), every filtered project is listed, on the page its position
      determines, and the count does not depend on the page asked for. */
  lemma ListingShowsItem(projects: seq<Project>, query: Query, absolute: string -> Option<string>,
                         size: int, n: nat, k: nat, i: nat)
    requires SizeParam(query.pageSize, size) && size >= 1
    requires |Json.NatToString(n)| <= MAX_STR_DIGITS
    requires n >= 1 && k < size && i == PageStart(n, size) + k && i < |Filter(projects, query.filters)|
    ensures var r := ProjectsList(projects, query.(page := Some(Json.NatToString(n))), absolute);
      && r.Page?
      && r.count == |Filter(projects, query.filters)|
      && r.page == n
      && k < |r.results|
      && r.results[k] == RowOf(Filter(projects, query.filters)[i], absolute)
  {
    var items := Filter(projects, query.filters);
    SliceAt(items, size, n, k, i);
    RequestedPageServed(projects, query, absolute, size, n);
    var page := PageSlice(items, n, size);
    var r := ProjectsList(projects, query.(page := Some(Json.NatToString(n))), absolute);
    assert r.results[k] == RowOf(page[k], absolute);
  }
}
