# A Dafny model of the Despacho Carcon site's core logic

The site is a small Django project for an architecture studio. It has a public project catalogue, a contact form that stores each message and e-mails it through SendGrid, a YouTube video on the home page, and two scripts that fill the project table from a JSON export. This project models the deterministic logic behind those features. It proves what each piece promises, with the database, the mail provider, the environment, the browser and the clock all treated as inputs.

Modules and the source files they follow:

- `Wrappers`, `Text`, `Json`, `OrderedMap`, `Selection`: shared vocabulary.
  - `Option`.
  - Python and JavaScript whitespace, trimming and ASCII case.
  - Substring search, split and join.
  - Decoded JSON values with Python and JavaScript truthiness.
  - JavaScript's insertion-ordered `Map`.
  - Order-keeping selection of the elements that pass a test, stated through their positions.
- `ContactIntake` models `despacho_django/proyectos/views_api.py`:
  - the input cleaner, the e-mail pattern and the HTML escaper of the contact endpoint;
  - the `contact_form` pipeline (method, JSON body, honeypot, required fields, e-mail format, database write, best-effort notification).
- `Listing` models the same file's `proyectos_list`: filters, query-string parsing, Django's paginator with the last-page fallback, and the gallery-or-main-image rule.
- `YouTube` models `HomePageConfig._youtube_embed` in `despacho_django/proyectos/models.py`.
- `Dedup` is the first-wins, case-insensitive de-duplicating loop that both loaders share.
- `ImportProjects` models `scripts/importa_proyectos.py`.
- `Railway` models `scripts/railway_start.py`: `env_bool`, the `PYTHONPATH` update, the superuser step and the seeding step.
- `ProjectsPage` and `Categories` model `despacho_django/static/js/proyectos.js`:
  - extracting records from the API response, URL resolution and record normalisation;
  - `normalizeString` and `titleCase`;
  - the category map, the category and subcategory filters, and the modal gallery.
- `ContactPage` models `despacho_django/static/js/app.js`: the preloader's delay and class bookkeeping, `getCookie`, and the contact form's submit handler.
- `Csrf` models `despacho_django/proyectos/csrf.py`.
- `LegacyListing` models the root `proyectos/views_api.py`.

Behaviours of the code that a reader might not expect:

- `contact_form` sends the operator's message and then the confirmation, inside one `try`. A failed first send therefore skips the second. `ContactIntake.Notify` states this.
- `_youtube_embed` is idempotent whenever its output has no whitespace at either end, which holds for every value without whitespace (a URL field). It is not idempotent for `youtu.be/abc ?t=1`: the id keeps its trailing space, and a second pass trims it. `YouTube.EmbedNotIdempotentOnInnerSpace` exhibits this input.
- `_validate_email` uses `re.match` with a `$` anchor, and Python's `$` also matches just before a final newline. The cleaned `correo` is stripped and then cut to 254 characters, so it can still end in a newline. `ContactIntake.TruncatedCorreoKeepsNewline` gives such an input.
- `json.loads` on the raw bytes raises `UnicodeDecodeError` for bytes that are not text. The view catches only `JSONDecodeError`, so such a body is an uncaught error rather than "Invalid JSON".
- The root `proyectos_list` puts the image field itself into `imagenes`. `JsonResponse`'s encoder cannot write that file object and raises `TypeError`, so the endpoint answers with a server error whenever any project has an image. `LegacyListing.ProjectsList` states this.
- A `page` or `page_size` with more than 4300 digits is refused by `int` (CPython's default digit limit), so `proyectos_api` falls back to page 1 of 12. `Listing.LongPageFallsBack` gives such an input.

## Model

| member | source | states |
|---|---|---|
| ContactIntake.SanitizeInput | despacho_django/proyectos/views_api.py:32-41 | empty text gives ""; otherwise a prefix of the trimmed text, no longer than a limit that cuts and cut only when longer; no limit (None or 0) keeps the whole trimmed text; "" exactly when the text is all whitespace |
| ContactIntake.SanitizeField | despacho_django/proyectos/views_api.py:124-128 | a missing or falsy field reads as ""; a string field is cleaned; any other truthy value is the uncaught error; a cleaned value respects its limit |
| ContactIntake.ValidateEmail | despacho_django/proyectos/views_api.py:17-20 | accepts exactly the texts that split into local part, `@`, domain and a top-level domain of at least two letters, each part drawn from its character class, optionally followed by one final newline (Python's `$`) |
| ContactIntake.EmailAcceptsOneTrailingNewline | despacho_django/proyectos/views_api.py:17-20 | a matching address followed by one newline is accepted, followed by two it is refused |
| ContactIntake.TruncatedCorreoKeepsNewline | despacho_django/proyectos/views_api.py:32-41 | a 253-character address followed by a newline and one more character is cut at 254 to the address plus its newline, which the e-mail check accepts |
| ContactIntake.EmailSplitCanonical | despacho_django/proyectos/views_api.py:17-20 | a matching split is unique: the `@` is the first `@` and the dot is the last dot |
| ContactIntake.EmailAcceptsPlainAddress | despacho_django/proyectos/views_api.py:17-20 | `ana@example.com` is accepted |
| ContactIntake.EmailRejectsNoAt | despacho_django/proyectos/views_api.py:17-20 | an address without `@` is refused |
| ContactIntake.EmailRejectsNoDomain | despacho_django/proyectos/views_api.py:17-20 | an address with nothing after `@` is refused |
| ContactIntake.EmailRejectsNoLocalPart | despacho_django/proyectos/views_api.py:17-20 | an address with nothing before `@` is refused |
| ContactIntake.EmailRejectsSpace | despacho_django/proyectos/views_api.py:17-20 | an address containing a space is refused |
| ContactIntake.EmailRejectsDoubleAt | despacho_django/proyectos/views_api.py:17-20 | an address with `@@` is refused |
| ContactIntake.SanitizeIsEncode | despacho_django/proyectos/views_api.py:23-29 | escaping and then replacing newlines equals encoding each character on its own |
| ContactIntake.SafeEncode | despacho_django/proyectos/views_api.py:23-29 | the encoding of any text holds no newline or quote, every `<` or `>` belongs to a `<br>` and every `&` opens an entity |
| ContactIntake.UnescapeEncode | despacho_django/proyectos/views_api.py:23-29 | reading the entities and `<br>` back recovers the original text, so the escaper loses nothing |
| ContactIntake.SanitizeForHtmlSafe | despacho_django/proyectos/views_api.py:23-29 | the escaped text is safe HTML, decodes back to the input, and is "" exactly for the empty input |
| ContactIntake.CleanFields | despacho_django/proyectos/views_api.py:123-128 | each field of a decoded object is cleaned within its limit (100, 254, 5000, 100; honeypot only trimmed); a truthy non-string field is the uncaught error |
| ContactIntake.Normalize | despacho_django/proyectos/views_api.py:118-128 | text that is not JSON is "Invalid JSON"; bytes that are not text are a decoding error of their own; an empty body reads as `{}` and gives five empty fields; a decoded non-object cannot be cleaned |
| ContactIntake.DebugBody | despacho_django/proyectos/views_api.py:354-366 | the debug body is a prefix of `str(body)` ("None" when there is none): all of it when it has at most 1000 characters, exactly its first 1000 otherwise |
| ContactIntake.DebugFor | despacho_django/proyectos/views_api.py:342-400 | a delivered send has no details; an HTTP error gives the provider's status and the cut body; any other exception gives its type name, its `repr` and the TLS hint |
| ContactIntake.ProjectShown | despacho_django/proyectos/views_api.py:183 | an empty project reference shows "No especificado"; any other reference shows its escaped text, which is safe and decodes back to it |
| ContactIntake.Notify | despacho_django/proyectos/views_api.py:155-400 | once the row exists the answer is always 200 with ok; `email_sent` is true exactly when the configuration is complete and both sends returned; without configuration nothing is sent; the confirmation is attempted only after the operator's message went out; debug details appear exactly when DEBUG is on and a configured send failed, and they describe the first send that failed |
| ContactIntake.ContactForm | despacho_django/proyectos/views_api.py:110-153 | fixed check order: 405 for non-POST, 400 for bad JSON, honeypot before required fields before the e-mail format, 500 for a failed write; a row is stored exactly when every check passes and the write succeeds, and it holds the cleaned, unescaped values; no e-mail without a row; a body that is not text, or a truthy non-string field, is an uncaught error |
| ContactIntake.AdminMailContents | despacho_django/proyectos/views_api.py:180-267 | the operator's message goes from and to the configured addresses, and every interpolated value is escaped, safe and decodes back to the cleaned field |
| ContactIntake.ConfirmMailContents | despacho_django/proyectos/views_api.py:269-331 | the acknowledgement goes to the submitter's address and carries only escaped values |
| Listing.ParseInt | despacho_django/proyectos/views_api.py:60-64 | reads a number exactly when the stripped text is an optional sign and digits with single underscores only between digits, and there are at most 4300 digits (CPython's default `int_max_str_digits`; underscores not counted); the value is those digits' decimal value, negated after `-`; a plain digit string reads as its decimal value when it has at most 4300 characters and is refused otherwise |
| Listing.ParseIntText | despacho_django/proyectos/views_api.py:60-64 | every integer, negative ones included, printed in decimal reads back as itself when its magnitude has at most 4300 digits, and is refused otherwise |
| Listing.ParseIntStrips | despacho_django/proyectos/views_api.py:60-64 | whitespace around the number does not change the result |
| Listing.ParseIntGroups | despacho_django/proyectos/views_api.py:60-64 | `1_0` reads as 10 |
| Listing.ParseIntDoubleUnderscore | despacho_django/proyectos/views_api.py:60-64 | `1__0` is refused |
| Listing.ParseIntLeadingUnderscore | despacho_django/proyectos/views_api.py:60-64 | `_1` is refused |
| Listing.ParseIntSpacedSign | despacho_django/proyectos/views_api.py:60-64 | `- 5` is refused |
| Listing.ParseIntNat | despacho_django/proyectos/views_api.py:60-62 | every natural number written in decimal parses back to itself when it has at most 4300 digits, and is refused otherwise |
| Listing.ParsePaging | despacho_django/proyectos/views_api.py:59-64 | absent parameters give (1, 12); if either present parameter fails to parse, both fall back to (1, 12); otherwise both parsed values are used |
| Listing.NumPages | despacho_django/proyectos/views_api.py:66 | at least one page; enough pages for all items and not one page more |
| Listing.ChoosePage | despacho_django/proyectos/views_api.py:67-70 | an existing page number is served as asked; any other number is replaced by the last page |
| Listing.PageBounds | despacho_django/proyectos/views_api.py:66-70 | a page's slice lies inside the list and holds at most `page_size` items, exactly that many on every page but the last |
| Listing.ItemPage | despacho_django/proyectos/views_api.py:66-70 | item `i` falls on page `i / page_size + 1` at position `i % page_size` |
| Listing.GalleryUrls | despacho_django/proyectos/views_api.py:75-82 | the `a`-th URL is the resolved URL (or the bare one when resolving raises) of the `a`-th gallery image that has a file, so the gallery order is kept; empty exactly when no image has a file |
| Listing.Images | despacho_django/proyectos/views_api.py:75-90 | the main image is used only when the gallery yields no URL, and `imagenes` is empty exactly when neither gallery nor main image has a file |
| Listing.Filter | despacho_django/proyectos/views_api.py:47-57 | the `a`-th result is the `a`-th project matching every given filter (case-insensitive category and subcategory, case-insensitive name substring), so order and repetitions are kept; no filters keeps everything |
| Listing.Rows | despacho_django/proyectos/views_api.py:72-100 | one row per project on the page, in order |
| Listing.PageSlice | despacho_django/proyectos/views_api.py:66-73 | the page is a contiguous run of the list starting at its page offset, full except on the last page, which reaches the end of the list |
| Listing.Paginate | despacho_django/proyectos/views_api.py:66-108 | `count` is the full filtered count whatever the page; the served page is in range and is the one asked for when that exists, else the last |
| Listing.ProjectsList | despacho_django/proyectos/views_api.py:43-108 | a page size below 1 is a server error; otherwise the filtered projects are paginated with the parsed or default parameters |
| Listing.ItemOnItsPage | despacho_django/proyectos/views_api.py:66-73 | every item of the list is shown, on its own page at its own position |
| Listing.PagingOfNat | despacho_django/proyectos/views_api.py:60-62 | a page number written in decimal is taken as given, together with the page size; one of more than 4300 digits makes both fall back to (1, 12) |
| Listing.LongPageFallsBack | despacho_django/proyectos/views_api.py:59-64 | `?page=` followed by 4301 ones is refused by `int`, and the listing falls back to page 1 of size 12 |
| Listing.RequestedPageServed | despacho_django/proyectos/views_api.py:59-70 | asking for an existing page by number serves exactly that page |
| Listing.ListingShowsItem | despacho_django/proyectos/views_api.py:43-108 | a filtered project appears in the response of its page, at its position |
| YouTube.ShortLinkId | despacho_django/proyectos/models.py:46-47 | the id is the longest prefix of the text after the first `youtu.be/` holding neither `?` nor `&`: it contains neither, and it ends at the end of that text or just before a `?` or `&` |
| YouTube.WatchId | despacho_django/proyectos/models.py:48-49 | the id is the longest prefix of the text after the first `v=` without `&`: it has none, and it ends at the end of that text or just before a `&` |
| YouTube.VideoId | despacho_django/proyectos/models.py:45-49 | a short link takes precedence over a watch link; with neither marker the id is empty |
| YouTube.YouTubeEmbed | despacho_django/proyectos/models.py:32-53 | blank input gives ""; an embed URL comes back trimmed; an extracted non-empty id gives the embed URL for it; otherwise the trimmed input comes back |
| YouTube.CarconVideoEmbedUrl | despacho_django/proyectos/models.py:55-56 | the stored URL's embed form, "" exactly when the URL is blank |
| YouTube.EmbedPrefixHasMarker | despacho_django/proyectos/models.py:39-52 | every built embed URL contains the marker that makes the rewriter pass it through |
| YouTube.EmbedIdempotent | despacho_django/proyectos/models.py:36-53 | rewriting an output again changes nothing when that output has no whitespace at its ends |
| YouTube.EmbedStrippedWithoutSpaces | despacho_django/proyectos/models.py:36-53 | an input without whitespace gives an output without whitespace at its ends, so idempotence holds for it |
| YouTube.IdHasNoSpace | despacho_django/proyectos/models.py:45-49 | an id extracted from whitespace-free input has no whitespace |
| YouTube.EmbedNotIdempotentOnInnerSpace | despacho_django/proyectos/models.py:46-52 | `youtu.be/abc ?t=1` rewrites to an embed URL ending in a space, and rewriting that trims the space |
| Dedup.SeenKeys | scripts/importa_proyectos.py:96-99 | the set holds exactly the lower-cased names seen so far |
| Dedup.Kept | scripts/importa_proyectos.py:91-114 | the kept positions are exactly the first item of each lower-cased name, in input order |
| Dedup.FirstIffUnseen | scripts/importa_proyectos.py:96-99 | the loop's `name_key in seen` test keeps an item exactly when it is the first of its key |
| Dedup.KeptKeysDistinct | scripts/importa_proyectos.py:96-99 | no two kept items share a lower-cased name |
| Dedup.KeptCovers | scripts/importa_proyectos.py:91-99 | every named item is represented by a kept item at or before it with the same key |
| Dedup.CollectFirstWins | scripts/importa_proyectos.py:88-114 | the loop crashes exactly when some item's name or kept row cannot be read; otherwise it returns the rows of the kept items in input order |
| Dedup.Step | scripts/importa_proyectos.py:91-114 | one iteration on one item fails exactly when that item crashes the loop; otherwise the seen keys, kept positions and rows grow to cover that item |
| Dedup.KeptRows | scripts/importa_proyectos.py:88-114 | the built rows have pairwise different lower-cased names, each from some item, and every named item's key is among them |
| ImportProjects.NormalizeCategory | scripts/importa_proyectos.py:30-34 | lower case with single spaces and no padding; "" exactly for blank input |
| ImportProjects.NormalizeCategoryWords | scripts/importa_proyectos.py:30-34 | the category has exactly the input's words, in order, each lower-cased |
| ImportProjects.NormalizeCategoryIdempotent | scripts/importa_proyectos.py:30-34 | normalising twice is normalising once |
| ImportProjects.NormalizeSubcategory | scripts/importa_proyectos.py:37-39 | the trimmed input lower-cased, with its inner whitespace kept at the same positions |
| ImportProjects.NormalizeSubcategoryIdempotent | scripts/importa_proyectos.py:37-39 | normalising twice is normalising once |
| ImportProjects.FirstQualifying | scripts/importa_proyectos.py:45-48 | the trimmed first non-blank string candidate, and none exactly when no candidate qualifies |
| ImportProjects.Iterated | scripts/importa_proyectos.py:45 | what `for img in images` visits: an array's elements, a string's characters, an object's keys; a number, boolean or null cannot be iterated |
| ImportProjects.PickFirstValidImage | scripts/importa_proyectos.py:42-48 | a missing or falsy value gives None; a truthy number or boolean is the uncaught error; a pick is non-empty and trimmed, the first qualifying element of an array |
| ImportProjects.PickFromString | scripts/importa_proyectos.py:42-48 | a string value yields its first non-whitespace character, since iterating a string visits characters |
| ImportProjects.ImportName | scripts/importa_proyectos.py:92-94 | the trimmed `titulo`; reading it fails for a non-object or a truthy non-string title; a kept name is non-empty |
| ImportProjects.BuildImportRow | scripts/importa_proyectos.py:101-114 | the row keeps the name, normalises category and subcategory, trims the description and stores a non-empty image or none |
| ImportProjects.RunImport | scripts/importa_proyectos.py:64-125 | a non-list file returns before anything is deleted; for a list the old rows are deleted when there were any, and the created rows are the first-wins de-duplicated rows in JSON order, with distinct lower-cased, non-empty, trimmed names covering every named entry |
| Railway.EnvBool | scripts/railway_start.py:58-62 | an unset variable gives the default; a set one is true exactly when its trimmed, lower-cased value is 1, true, yes or on |
| Railway.EnvBoolIgnoresCaseAndPadding | scripts/railway_start.py:58-62 | values equal after trimming and lower-casing read the same |
| Railway.EnvBoolEmptyIsFalse | scripts/railway_start.py:58-62 | a set but blank variable is false even when the default is true |
| Railway.EnvBoolPaddedUpperCase | scripts/railway_start.py:58-62 | `" TRUE\n"` reads as true |
| Railway.Segments | scripts/railway_start.py:52 | the non-empty pieces of `PYTHONPATH`, none containing the separator |
| Railway.EnsureOnPythonPath | scripts/railway_start.py:47-55 | a directory already among the segments leaves the environment unchanged; otherwise it is put first and empty segments are dropped |
| Railway.PythonPathSegmentsAfter | scripts/railway_start.py:47-55 | after an insertion the segments are the directory followed by the earlier non-empty segments |
| Railway.EnsureOnPythonPathIdempotent | scripts/railway_start.py:47-55 | running the update twice is running it once |
| Railway.EnsureSuperuser | scripts/railway_start.py:84-108 | nothing unless the flag is true; nothing without a non-blank user name and a non-empty password; an existing user is left alone; otherwise the user is created with the trimmed name, the password and the trimmed e-mail or none |
| Railway.EnsureSuperuserIdempotent | scripts/railway_start.py:103-105 | booting again after the user exists creates nothing |
| Railway.Norm | scripts/railway_start.py:175-176 | single-spaced with no padding, "" exactly for blank input, and the same words as the input |
| Railway.NormIdempotent | scripts/railway_start.py:175-176 | normalising twice is normalising once |
| Railway.NormOr | scripts/railway_start.py:183-193 | `norm(a or b or "")`: the first truthy value is normalised; a truthy non-string is the uncaught error |
| Railway.SeedName | scripts/railway_start.py:180-185 | non-objects and blank names are skipped; the name falls back from `titulo` to `nombre` and is non-empty and single-spaced |
| Railway.BuildSeedRow | scripts/railway_start.py:191-202 | the row keeps the name, normalises category, subcategory and description, and never stores an image |
| Railway.SeedSubcategoryFallback | scripts/railway_start.py:192 | the subcategory comes from `sub`, and from `subcategoria` only when `sub` is missing or falsy |
| Railway.SeedProjects | scripts/railway_start.py:129-210 | nothing unless the flag is set; existing rows without the force flag skip seeding; rows are deleted only when forced and present; an empty or non-list file seeds nothing; seeded rows are the first-wins de-duplicated rows, non-empty, with distinct lower-cased names covering every named item |
| ProjectsPage.ExtractProjects | despacho_django/static/js/proyectos.js:69-73 | an array is used as it is, else a `results` array, else a `proyectos` array, else nothing; reading a property of `null` throws |
| ProjectsPage.ExtractShapes | despacho_django/static/js/proyectos.js:65-73 | the plain, paginated and wrapped response shapes all yield their list unchanged, and `results` wins over `proyectos` |
| ProjectsPage.ResolveImageUrl | despacho_django/static/js/proyectos.js:82-88 | a falsy value gives ""; an `http(s)://` URL in any letter case is kept; a leading `/` gets the origin; anything else is kept |
| ProjectsPage.ResolveIdempotent | despacho_django/static/js/proyectos.js:82-88 | resolving a resolved URL again changes nothing when the origin is empty or itself an http(s) URL |
| ProjectsPage.FirstPresent | despacho_django/static/js/proyectos.js:94-97 | the first of two values that is neither null nor undefined, else "" |
| ProjectsPage.EntryUrl | despacho_django/static/js/proyectos.js:105 | a gallery entry's resolved `imagen`; a null entry throws |
| ProjectsPage.EntryUrls | despacho_django/static/js/proyectos.js:105 | one URL per entry in order, and a throw exactly when some entry is null |
| ProjectsPage.RawImages | despacho_django/static/js/proyectos.js:91 | `imagenes` when it is an array, else no images |
| ProjectsPage.PreviewOf | despacho_django/static/js/proyectos.js:92-106 | never empty: the first entry's URL when it is not empty, else the placeholder |
| ProjectsPage.NormalizeRecord | despacho_django/static/js/proyectos.js:89-107 | throws exactly for a null record or a null gallery entry; `nombre` falls back to `titulo` then "", `subcategoria` to `sub` then ""; `imagenes` is the non-empty URLs and `preview` the first URL or the placeholder |
| ProjectsPage.RecordImages | despacho_django/static/js/proyectos.js:91-106 | a record keeps at most as many pictures as its gallery has entries, each non-empty and drawn from one of those entries, and its preview is never empty |
| ProjectsPage.NormalizeAll | despacho_django/static/js/proyectos.js:89-108 | the list maps record by record and throws exactly when one record throws |
| ProjectsPage.LoadProjects | despacho_django/static/js/proyectos.js:58-108 | the load fails exactly when the response is null or some extracted record fails to normalise; a loaded list has one project per extracted record, each the normalisation of the record at its position |
| ProjectsPage.StripMarks | despacho_django/static/js/proyectos.js:22 | the result has no combining mark, and text without marks is unchanged |
| ProjectsPage.StripMarksLower | despacho_django/static/js/proyectos.js:21-25 | removing marks and lower-casing commute |
| ProjectsPage.Slug | despacho_django/static/js/proyectos.js:20-26 | a slug has no whitespace, no upper-case letter and no mark, and is "" exactly when the unmarked text is blank |
| ProjectsPage.NormalizeString | despacho_django/static/js/proyectos.js:20-26 | the slug of `String(v or "")`: no whitespace, lower case, no mark; a falsy value gives "" |
| ProjectsPage.SlugIdempotent | despacho_django/static/js/proyectos.js:20-26 | a slug is its own slug |
| ProjectsPage.SlugIgnoresCase | despacho_django/static/js/proyectos.js:20-26 | texts differing only in letter case have the same slug |
| ProjectsPage.Capitalize | despacho_django/static/js/proyectos.js:136 | the word with its first character upper-cased and the rest untouched |
| ProjectsPage.CapitalizeAll | despacho_django/static/js/proyectos.js:135-136 | every piece capitalised, in order |
| ProjectsPage.TitleCasePointwise | despacho_django/static/js/proyectos.js:133-137 | the title keeps the length and every space; each character is the lower-cased input's, upper-cased at the start and after a space |
| ProjectsPage.CapitalizeSplit | despacho_django/static/js/proyectos.js:135-137 | splitting on spaces, capitalising each piece and joining upper-cases exactly the characters at the start or after a space |
| ProjectsPage.TitleCaseKeepsSlug | despacho_django/static/js/proyectos.js:133-137 | a title-cased label has the same slug as its text |
| ProjectsPage.GoPrev | despacho_django/static/js/proyectos.js:459-464 | fewer than two images: nothing moves; otherwise one step back, staying in range and wrapping from the first to the last |
| ProjectsPage.GoNext | despacho_django/static/js/proyectos.js:465-470 | fewer than two images: nothing moves; otherwise one step forward, staying in range and wrapping from the last to the first |
| ProjectsPage.PrevNextInverse | despacho_django/static/js/proyectos.js:459-470 | next then previous, and previous then next, return to the same image |
| ProjectsPage.StepsForward | despacho_django/static/js/proyectos.js:465-470 | any number of forward steps from the first image stays within the gallery |
| ProjectsPage.StepsBelow | despacho_django/static/js/proyectos.js:465-470 | fewer steps than images land on the image with that index |
| ProjectsPage.StepsPeriodic | despacho_django/static/js/proyectos.js:465-470 | as many steps as there are images come back to the same image |
| ProjectsPage.ShownImage | despacho_django/static/js/proyectos.js:449-455 | the image at the index when there is a non-empty one, else the placeholder |
| ProjectsPage.GalleryShowsOwnImages | despacho_django/static/js/proyectos.js:446-470 | however often "next" is pressed, the modal shows one of the record's own images |
| OrderedMap.Lookup | despacho_django/static/js/proyectos.js:149 | `map.get(k)` finds a value exactly when the key is present, and it is that key's value |
| OrderedMap.Set | despacho_django/static/js/proyectos.js:146-151 | `map.set(k, v)` keeps keys distinct, stores `v` under `k`, leaves other keys alone, keeps an existing key's position and appends a new one |
| Categories.TagsOf | despacho_django/static/js/proyectos.js:140-144 | each record's slugs and labels, computed once, in order |
| Categories.CatKeys | despacho_django/static/js/proyectos.js:139-153 | the non-empty category slugs, each once, in order of first occurrence |
| Categories.AddTag | despacho_django/static/js/proyectos.js:140-153 | one `forEach` step keeps every key unique, in the map and in each subcategory map |
| Categories.Build | despacho_django/static/js/proyectos.js:139-153 | the map's keys are the non-empty category slugs in order of first occurrence; each entry is labelled by the category's first record, and its subcategories are exactly the category's non-empty sub slugs, each labelled by its last record |
| Categories.AddTagStep | despacho_django/static/js/proyectos.js:140-153 | one step extends that description from the records seen to one more record |
| Categories.ByCategory | despacho_django/static/js/proyectos.js:222 | keeps exactly the projects whose category slug is the button's, in their order in the list (`Selection.KeepWhere` over `CatIs(slug)`), with their multiplicities |
| Categories.BySubcategory | despacho_django/static/js/proyectos.js:204 | keeps exactly the projects whose subcategory slug is the button's, in their order in the list (`Selection.KeepWhere` over `SubIs(slug)`), with their multiplicities, whatever their category |
| Categories.ButtonsNeverEmpty | despacho_django/static/js/proyectos.js:196-228 | a category button never shows "no projects in this category", and every subcategory button has a project of that category |
| Categories.ButtonsMatchKeys | despacho_django/static/js/proyectos.js:241-299 | each button's title-cased label normalises back to its own key, so the `categoria` and `sub` query parameters find the buttons built for them |
| Categories.SubButtonMatches | despacho_django/static/js/proyectos.js:196-199 | a subcategory button's label normalises to its key |
| Categories.TagLabelsSlug | despacho_django/static/js/proyectos.js:141-144 | both labels of a record normalise to the record's slugs |
| Categories.LabelSlug | despacho_django/static/js/proyectos.js:141-144 | `normalizeString(titleCase(v))` equals `normalizeString(v)` |
| Categories.TitlePointwiseEmpty | despacho_django/static/js/proyectos.js:192 | a label is empty only for the empty text |
| ContactPage.Remaining | despacho_django/static/js/app.js:49-53 | the wait lies in 0..250 for a non-negative elapsed time, and the logo starts at 250 ms or at once if that has passed |
| ContactPage.SetState | despacho_django/static/js/app.js:17-20 | no managed state other than the new one remains set, and other classes, the body and the removals are untouched |
| ContactPage.SetStateSingle | despacho_django/static/js/app.js:17-20 | after setting a managed state it is the only one set |
| ContactPage.HidePreloaderFinal | despacho_django/static/js/app.js:22-29 | a hidden preloader is left alone; otherwise it becomes hidden, the body loses `preloader-active` and one removal is scheduled |
| ContactPage.HideIdempotent | despacho_django/static/js/app.js:22-29 | hiding twice is hiding once, so the removal is scheduled at most once |
| ContactPage.SequenceEnds | despacho_django/static/js/app.js:31-47 | after the sequence only the fade-out state is set and the preloader is hidden; a second run, as the 10-second fallback does, schedules no second removal |
| ContactPage.GetCookie | despacho_django/static/js/app.js:73-78 | a value exactly when `; name=` occurs in `; cookie` and not again after that; the value is what follows, up to the first `;`, and contains no `;` |
| ContactPage.SplitTwo | despacho_django/static/js/app.js:75-76 | a split has two pieces exactly when the separator occurs and not again afterwards, and the second piece is the remainder |
| ContactPage.FirstPiece | despacho_django/static/js/app.js:76 | the first piece of a split is the text before the first separator |
| ContactPage.Field | despacho_django/static/js/app.js:94-99 | a present input is trimmed, a missing one gives "" |
| ContactPage.ErrorMessage | despacho_django/static/js/app.js:143-145 | `payload.error` when truthy, else `payload.message` when truthy, else the fixed default text |
| ContactPage.Classify | despacho_django/static/js/app.js:123-157 | no answer, a non-JSON content type or unparsable JSON shows the connection error; success exactly when the status is ok and `payload.ok` is truthy; otherwise the error message |
| ContactPage.Submit | despacho_django/static/js/app.js:94-157 | nothing is sent exactly when a required trimmed field is empty; the request carries the trimmed fields and the CSRF header exactly when the cookie gives a non-empty token; the response decides what is shown |
| ContactPage.SuccessNeedsBoth | despacho_django/static/js/app.js:135-145 | success needs both a 2xx status and a truthy `ok`; a JSON error status is shown as a rejection even when it says ok |
| Csrf.LowerHeader | despacho_django/proyectos/csrf.py:9-10 | a missing header reads as ""; a present one is lower-cased with its length kept |
| Csrf.CsrfFailure | despacho_django/proyectos/csrf.py:7-29 | a JSON 403 with ok false, the fixed error and the reason or "" exactly when the request wants JSON; otherwise the default view with the reason passed on; a `/contact` path always gets JSON |
| Csrf.HeaderCaseIgnored | despacho_django/proyectos/csrf.py:9-15 | Accept and Content-Type values equal up to letter case decide alike |
| Csrf.RequestedWithExact | despacho_django/proyectos/csrf.py:16 | `X-Requested-With` is compared case-sensitively: `xmlhttprequest` alone does not select JSON, `XMLHttpRequest` does |
| Csrf.ContactFetchGetsJson | despacho_django/proyectos/csrf.py:12-15 | a JSON content type gets the JSON answer on any path |
| LegacyListing.TextOr | proyectos/views_api.py:22-25 | a missing text column reads as "" |
| LegacyListing.ItemOf | proyectos/views_api.py:20-30 | the item keeps the id and the four texts or ""; `imagenes` is `[imagen]`, the image field itself, for a stored image and empty otherwise; the creation date is present exactly when the row has one |
| LegacyListing.Insert | proyectos/views_api.py:17 | inserting into a newest-first list keeps it newest-first and adds exactly that project |
| LegacyListing.NewestFirstOrder | proyectos/views_api.py:17 | `order_by('-id')` is a permutation of the table with ids strictly decreasing |
| LegacyListing.ResultList | proyectos/views_api.py:17-31 | the list built holds one item per stored project, ids strictly decreasing, nothing filtered or paged |
| LegacyListing.ProjectsList | proyectos/views_api.py:17-32 | the response fails (the encoder's `TypeError`, a server error) exactly when some stored project has an image; otherwise it is the list built, one item per project with ids strictly decreasing |
| LegacyListing.ImagesListed | proyectos/views_api.py:19-31 | some item of the list built carries an image exactly when some stored project has one |
| LegacyListing.ListingContents | proyectos/views_api.py:17-31 | every stored project's item appears in the list built, and every item comes from a stored project |
| LegacyListing.NewestFirstUnique | proyectos/views_api.py:17 | two newest-first orderings of the same table are identical |
| Json.PyOr | scripts/railway_start.py:183 | Python's `a or b`: `a` when truthy, else `b` |
| Json.PyTextOrEmpty | scripts/importa_proyectos.py:92 | `(v or "")` as text: "" for a falsy value, the string for a string, and an error for any other truthy value |
| Json.JsStringOrEmpty | despacho_django/static/js/proyectos.js:20 | `String(v or '')`: "" for a falsy value and the text of a string |

## Left out

- I/O and external services are inputs, not code. This covers SendGrid, the ORM and its queries, `build_absolute_uri`, `os.getenv`, `fetch`, `document.cookie`, the clock and the JSON file readers. Logging, `print` and the gunicorn launch in `railway_start.py` are not modelled, and neither is `manage_py_path`'s file probing.
- The DOM, anime.js, IntersectionObserver, the tooltip and the event wiring are not modelled, and neither are the HTML templates of the two e-mails. A mail is reduced to its sender, recipient, subject and interpolated values.
- `ContactPage.HidePreloaderFinal` reduces the 600 ms removal timer to a count of scheduled removals. The 10-second fallback timer is covered only by a second run in `SequenceEnds`. Timing itself is not modelled.
- `ContactPage.Submit` does not model the submit button's enabled state, the form reset or the text colours.
- Python's `int()` is modelled on ASCII digits with an optional sign, underscores between digits and surrounding whitespace. Non-ASCII decimal digits, which `int()` also reads, are left out. JSON numbers are integers, and floats are not modelled.
- `json.loads` picks UTF-8, UTF-16 or UTF-32 from the first bytes. The model does not decode bytes: a body is given as empty, not text, not JSON, or a decoded value.
- Each entry of `imagenes` is the object `{'imagen': url}`. `Listing.Images` and `Listing.GalleryUrls` keep the URL only.
- Case mapping is ASCII only. `normalize('NFD')` is the identity; only combining marks already present in the text are removed. Unicode decomposition and full case mapping are not modelled.
- Whitespace is a fixed character list in two flavours: the characters Python's `str.isspace` accepts, and the characters JavaScript's `\s` and `trim` accept. Neither is derived from the Unicode database.
- Reading a property of a non-object JSON value (an array, a string, a number) is modelled as `undefined` (`Json.Prop`), which is what JavaScript gives for these keys.
- `Listing.MAX_STR_DIGITS` is CPython's default of 4300. A different limit set through `PYTHONINTMAXSTRDIGITS` or `-X int_max_str_digits` is not modelled.
- `Listing.RequestedPageServed` and `Listing.ListingShowsItem` require the page number to have at most 4300 digits. A longer one is refused by `int`, and the view serves page 1 instead (`Listing.PagingOfNat`).
- `LegacyListing.ProjectsList` requires distinct ids. The table's primary key guarantees this.
- `LegacyListing.ItemOf` writes the image field as its file name and keeps the creation date as an opaque value. How the encoder writes a datetime is not modelled; only the failure on the image file is (`LegacyListing.ProjectsList`).
- `YouTube.EmbedIdempotent` requires the output to have no whitespace at its ends. The unconditional idempotence is false for `youtu.be/abc ?t=1` (see `YouTube.EmbedNotIdempotentOnInnerSpace`).
- `Railway.EnsureOnPythonPathIdempotent` requires a non-empty directory without `:`. A directory containing the separator is split into several segments and never found again; project directories never contain one.
- `Listing.ProjectsList` treats a page size below 1 as a server error outcome. Django's paginator internals beyond page counting and slicing are not modelled.
- `ImportProjects.Iterated` visits an object's keys as strings, in document order, once per occurrence. `json.loads` keeps one entry per key: the last value, at the position of the first occurrence. The model may therefore see a duplicated key more than once, but the first key whose value qualifies is the same in both, so the result does not change.
- Diagnostic scripts, the security-audit script, `views.py`, `admin.py` and the URL configurations are not part of this model.
