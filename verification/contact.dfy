/** The contact-form endpoint of `despacho_django/proyectos/views_api.py`: input clean-up,
    the simplified e-mail pattern, HTML escaping for the notification bodies, and the
    request pipeline (honeypot, required fields, e-mail format, persistence, best-effort
    notification). The database write, the mail provider and the settings are inputs. */
module ContactIntake {
  import opened Wrappers
  import opened Text
  import opened Json

  // ---------------------------------------------------------------------------------------
  // Input normaliser

  /** `_sanitize_input(text, max_length)` on a string: an empty text gives "", otherwise the
      stripped text cut to its first `maxLength` characters. A limit of `None` or `Some(0)`
      means no cut, as Python's `if max_length and ...` treats both as false. */
  function SanitizeInput(text: string, maxLength: Option<nat>): (r: string)
    ensures text == "" ==> r == ""
    ensures |r| <= |Strip(Py, text)| && r == Strip(Py, text)[..|r|]
    ensures Limits(maxLength) ==> |r| <= maxLength.value && (|r| < |Strip(Py, text)| ==> |r| == maxLength.value)
    ensures maxLength.None? || maxLength == Some(0) ==> r == Strip(Py, text)
    ensures r == "" <==> AllSpace(Py, text)
  {
    if text == "" then ""
    else
      var t := Strip(Py, text);
      if maxLength.Some? && maxLength.value > 0 && |t| > maxLength.value then t[..maxLength.value]
      else t
  }

  /** A limit that cuts: Python treats `None` and `0` as "no limit". */
  predicate Limits(maxLength: Option<nat>)
  {
    maxLength.Some? && maxLength.value > 0
  }

  /** `_sanitize_input(data.get(key, ''), max_length)` on a decoded JSON field: a missing or
      falsy value gives "", a string is cleaned, and any other truthy value gives `None`
      because its `.strip()` raises. */
  function SanitizeField(v: Option<Json>, maxLength: Option<nat>): (r: Option<string>)
    ensures !PyTruthyOpt(v) ==> r == Some("")
    ensures v.Some? && v.value.JStr? ==> r == Some(SanitizeInput(v.value.s, maxLength))
    ensures r.None? <==> PyTruthyOpt(v) && !v.value.JStr?
    ensures r.Some? && Limits(maxLength) ==> |r.value| <= maxLength.value
  {
    if !PyTruthyOpt(v) then Some("")
    else if v.value.JStr? then Some(SanitizeInput(v.value.s, maxLength))
    else None
  }

  // ---------------------------------------------------------------------------------------
  // E-mail pattern `^[a-zA-Z0-9._%+-]+@[a-zA-Z0-9.-]+\.[a-zA-Z]{2,}$`

  predicate IsAsciiLetter(c: char)
  {
    'a' <= c <= 'z' || 'A' <= c <= 'Z'
  }

  predicate IsAsciiDigit(c: char)
  {
    '0' <= c <= '9'
  }

  /** The character class `[a-zA-Z0-9._%+-]` of the local part. */
  predicate IsLocalChar(c: char)
  {
    IsAsciiLetter(c) || IsAsciiDigit(c) || c == '.' || c == '_' || c == '%' || c == '+' || c == '-'
  }

  /** The character class `[a-zA-Z0-9.-]` of the domain. */
  predicate IsDomainChar(c: char)
  {
    IsAsciiLetter(c) || IsAsciiDigit(c) || c == '.' || c == '-'
  }

  /** `s` matches the pattern with the `@` at index `at` and the dot before the top-level
      domain at index `dot`: a non-empty local part, `@`, a non-empty domain, `.`, and at
      least two ASCII letters up to the end. */
  predicate EmailSplitAt(s: string, at: int, dot: int)
  {
    && 0 < at && at + 1 < dot && dot + 2 < |s|
    && (forall i :: 0 <= i < at ==> IsLocalChar(s[i]))
    && s[at] == '@'
    && (forall i :: at < i < dot ==> IsDomainChar(s[i]))
    && s[dot] == '.'
    && (forall i :: dot < i < |s| ==> IsAsciiLetter(s[i]))
  }

  /** The regular expression matches all of `s`: some choice of `@` and dot fits. */
  ghost predicate MatchesEmailPattern(s: string)
  {
    exists at, dot :: EmailSplitAt(s, at, dot)
  }

  /** Index of the last occurrence of `c` in `s`. */
  function LastIndexOfChar(s: string, c: char): (r: Option<nat>)
    ensures r.Some? ==> r.value < |s| && s[r.value] == c
    ensures r.Some? ==> forall j :: r.value < j < |s| ==> s[j] != c
    ensures r.None? ==> c !in s
    decreases |s|
  {
    if |s| == 0 then None
    else if s[|s| - 1] == c then Some(|s| - 1)
    else LastIndexOfChar(s[..|s| - 1], c)
  }

  /** Only one split can fit: the `@` is the first `@` of `s` (no class before it admits
      `@`) and the dot is the last dot (the top-level domain has none). */
  lemma EmailSplitCanonical(s: string, at: int, dot: int)
    requires EmailSplitAt(s, at, dot)
    ensures IndexOf(s, "@") == Some(at)
    ensures LastIndexOfChar(s, '.') == Some(dot)
  {
    EmailAtIs(s, at);
  }

  /** Whether the pattern matches all of `s`: only the canonical split needs testing. */
  function MatchesWhole(s: string): (ok: bool)
    ensures ok <==> MatchesEmailPattern(s)
  {
    var at := IndexOf(s, "@");
    var dot := LastIndexOfChar(s, '.');
    assert MatchesEmailPattern(s) ==> at.Some? && dot.Some? && EmailSplitAt(s, at.value, dot.value) by {
      if MatchesEmailPattern(s) {
        var a, d :| EmailSplitAt(s, a, d);
        EmailSplitCanonical(s, a, d);
      }
    }
    at.Some? && dot.Some? && EmailSplitAt(s, at.value, dot.value)
  }

  /** `_validate_email`: `re.match` with the pattern. Python's `$` matches at the end of the
      string and also just before a final newline, so an address followed by one `\n` passes. */
  function ValidateEmail(s: string): (ok: bool)
    ensures ok <==> MatchesEmailPattern(s) || (|s| > 0 && s[|s| - 1] == '\n' && MatchesEmailPattern(s[..|s| - 1]))
  {
    MatchesWhole(s) || (|s| > 0 && s[|s| - 1] == '\n' && MatchesWhole(s[..|s| - 1]))
  }

  /** One trailing newline is tolerated, a second one is not. */
  lemma EmailAcceptsOneTrailingNewline(s: string)
    requires MatchesEmailPattern(s)
    ensures ValidateEmail(s + "\n")
    ensures !ValidateEmail(s + "\n\n")
  {
    assert (s + "\n")[..|s|] == s;
    var t := s + "\n\n";
    assert t[..|t| - 1] == s + "\n";
    EndsInLetter(t);
    EndsInLetter(s + "\n");
  }

  /** A whole match ends with a letter of the top-level domain. */
  lemma EndsInLetter(s: string)
    ensures MatchesEmailPattern(s) ==> |s| > 0 && IsAsciiLetter(s[|s| - 1])
  {
  }

  /** The stripped `correo` can still end in a newline: cutting a 255-character address
      line `s + "\nx"` to the 254-character limit leaves `s + "\n"`, which is accepted. */
  lemma TruncatedCorreoKeepsNewline(s: string)
    requires MatchesEmailPattern(s) && |s| == 253
    ensures SanitizeInput(s + "\nx", Some(254)) == s + "\n"
    ensures ValidateEmail(SanitizeInput(s + "\nx", Some(254)))
  {
    var t := s + "\nx";
    var a, d :| EmailSplitAt(s, a, d);
    assert IsLocalChar(t[0]);
    assert IsStripped(Py, t);
    StripStripped(Py, t);
    assert t[..254] == s + "\n";
    EmailAcceptsOneTrailingNewline(s);
  }

  /** A well-formed address from the site's security audit script is accepted. */
  lemma EmailAcceptsPlainAddress()
    ensures ValidateEmail("ana@example.com")
  {
    assert EmailSplitAt("ana@example.com", 3, 11);
  }

  /** The malformed addresses the site's security audit script submits are refused. */
  lemma EmailRejectsNoAt()
    ensures !ValidateEmail("no-at-sign.com")
  {
    var x := "no-at-sign.com";
    assert '@' !in x;
    ContainsChar(x, '@');
  }

  lemma EmailRejectsNoDomain()
    ensures !ValidateEmail("no-domain@")
  {
    EmailAtIs("no-domain@", 9);
  }

  lemma EmailRejectsNoLocalPart()
    ensures !ValidateEmail("@nodomain.com")
  {
    EmailAtIs("@nodomain.com", 0);
  }

  lemma EmailRejectsSpace()
    ensures !ValidateEmail("spaces in@email.com")
  {
    var x := "spaces in@email.com";
    EmailAtIs(x, 9);
    assert !IsLocalChar(x[6]);
  }

  lemma EmailRejectsDoubleAt()
    ensures !ValidateEmail("double@@at.com")
  {
    var x := "double@@at.com";
    EmailAtIs(x, 6);
    assert !IsDomainChar(x[7]);
  }

  /** The first `@` of `s` is at `i`. */
  lemma EmailAtIs(s: string, i: nat)
    requires i < |s| && s[i] == '@'
    requires forall j :: 0 <= j < i ==> s[j] != '@'
    ensures IndexOf(s, "@") == Some(i)
  {
    assert OccursAt(s, "@", i) by { assert s[i..i + 1] == [s[i]]; }
    forall j | 0 <= j < i
      ensures !OccursAt(s, "@", j)
    {
      assert s[j..j + 1][0] == s[j];
    }
  }

  // ---------------------------------------------------------------------------------------
  // HTML escaping for the notification bodies

  /** Django's `escape` on one character: `& < > " '` become entities. */
  function EscapeChar(c: char): string
  {
    if c == '&' then "&amp;"
    else if c == '<' then "&lt;"
    else if c == '>' then "&gt;"
    else if c == '"' then "&quot;"
    else if c == '\'' then "&#x27;"
    else [c]
  }

  /** Django's `escape`. */
  function Escape(s: string): string
    decreases |s|
  {
    if s == [] then [] else EscapeChar(s[0]) + Escape(s[1..])
  }

  /** Python's `s.replace('\n', '<br>')`. */
  function BreakLines(s: string): string
    decreases |s|
  {
    if s == [] then [] else (if s[0] == '\n' then "<br>" else [s[0]]) + BreakLines(s[1..])
  }

  /** `_sanitize_for_html`: "" for an empty text, otherwise escape, then turn newlines into
      `<br>`. */
  function SanitizeForHtml(text: string): string
  {
    if text == "" then "" else BreakLines(Escape(text))
  }

  /** The one-pass view of `SanitizeForHtml`: each character's own encoding. */
  function EncodeChar(c: char): string
  {
    if c == '\n' then "<br>" else EscapeChar(c)
  }

  function Encode(s: string): string
    decreases |s|
  {
    if s == [] then [] else EncodeChar(s[0]) + Encode(s[1..])
  }

  lemma {:induction false} BreakLinesAppend(a: string, b: string)
    ensures BreakLines(a + b) == BreakLines(a) + BreakLines(b)
    decreases |a|
  {
    if a != [] {
      assert (a + b)[0] == a[0];
      assert (a + b)[1..] == a[1..] + b;
      BreakLinesAppend(a[1..], b);
    } else {
      assert a + b == b;
    }
  }

  /** Escaping then breaking lines is the one-pass encoding. */
  lemma {:induction false} SanitizeIsEncode(s: string)
    ensures SanitizeForHtml(s) == Encode(s)
    decreases |s|
  {
    if s != [] {
      var c := s[0];
      SanitizeIsEncode(s[1..]);
      BreakLinesAppend(EscapeChar(c), Escape(s[1..]));
      BreakLinesChar(c);
    }
  }

  /** Breaking the lines of one escaped character gives that character's encoding. */
  lemma BreakLinesChar(c: char)
    ensures BreakLines(EscapeChar(c)) == EncodeChar(c)
  {
    var e := EscapeChar(c);
    assert BreakLines([]) == [];
    if c == '\n' {
      assert e == [c];
      assert BreakLines(e) == "<br>" + BreakLines([]);
    } else if |e| == 1 {
      assert BreakLines(e) == [c] + BreakLines([]);
    } else {
      BreakLinesNoNewline(e);
    }
  }

  lemma {:induction false} BreakLinesNoNewline(s: string)
    requires '\n' !in s
    ensures BreakLines(s) == s
    decreases |s|
  {
    if s != [] {
      BreakLinesNoNewline(s[1..]);
    }
  }

  /** One of the five entities Django's `escape` emits starts at index `i`. */
  predicate EntityAt(s: string, i: nat)
    requires i <= |s|
  {
    var t := s[i..];
    StartsWith(t, "&amp;") || StartsWith(t, "&lt;") || StartsWith(t, "&gt;")
    || StartsWith(t, "&quot;") || StartsWith(t, "&#x27;")
  }

  /** Text that cannot open markup: no raw newline or quote, every `<` begins `<br>`, every
      `>` ends `<br>`, every `&` begins an entity. */
  predicate IsSafeHtml(s: string)
  {
    NoRawBreakOrQuote(s) && LtOpensBreak(s) && GtClosesBreak(s) && AmpOpensEntity(s)
  }

  predicate NoRawBreakOrQuote(s: string)
  {
    forall i :: 0 <= i < |s| ==> s[i] != '\n' && s[i] != '"' && s[i] != '\''
  }

  predicate LtOpensBreak(s: string)
  {
    forall i :: 0 <= i < |s| && s[i] == '<' ==> StartsWith(s[i..], "<br>")
  }

  predicate GtClosesBreak(s: string)
  {
    forall i :: 0 <= i < |s| && s[i] == '>' ==> 3 <= i && s[i - 3..i + 1] == "<br>"
  }

  predicate AmpOpensEntity(s: string)
  {
    forall i :: 0 <= i < |s| && s[i] == '&' ==> EntityAt(s, i)
  }

  lemma SafeEncodeChar(c: char)
    ensures IsSafeHtml(EncodeChar(c))
  {
    if c == '\n' { SafeBreak(); }
    else if c == '&' { SafeEntity("&amp;"); }
    else if c == '<' { SafeEntity("&lt;"); }
    else if c == '>' { SafeEntity("&gt;"); }
    else if c == '"' { SafeEntity("&quot;"); }
    else if c == '\'' { SafeEntity("&#x27;"); }
  }

  lemma SafeBreak()
    ensures IsSafeHtml("<br>")
  {
    var e := "<br>";
    assert e[0..] == e;
    assert e[0..4] == e;
  }

  /** An entity is safe: its only `&` is the leading one and it holds no other special
      character. */
  lemma SafeEntity(e: string)
    requires e in ["&amp;", "&lt;", "&gt;", "&quot;", "&#x27;"]
    ensures IsSafeHtml(e)
  {
    assert e[0..] == e;
    EntitySafe(e);
  }

  lemma EntitySafe(e: string)
    requires |e| > 0 && e[0] == '&' && EntityAt(e, 0)
    requires forall i :: 1 <= i < |e| ==> e[i] !in "<>&\"'\n"
    ensures IsSafeHtml(e)
  {
    forall i | 1 <= i < |e|
      ensures e[i] != '<' && e[i] != '>' && e[i] != '&' && e[i] != '\n' && e[i] != '"' && e[i] != '\''
    {
      assert e[i] !in "<>&\"'\n";
    }
  }

  lemma SafeAppend(a: string, b: string)
    requires IsSafeHtml(a) && IsSafeHtml(b)
    ensures IsSafeHtml(a + b)
  {
    NoRawAppend(a, b);
    LtAppend(a, b);
    GtAppend(a, b);
    AmpAppend(a, b);
  }

  lemma NoRawAppend(a: string, b: string)
    requires NoRawBreakOrQuote(a) && NoRawBreakOrQuote(b)
    ensures NoRawBreakOrQuote(a + b)
  {
    var s := a + b;
    forall i | 0 <= i < |s|
      ensures s[i] != '\n' && s[i] != '"' && s[i] != '\''
    {
      if i < |a| { assert s[i] == a[i]; } else { assert s[i] == b[i - |a|]; }
    }
  }

  lemma LtAppend(a: string, b: string)
    requires LtOpensBreak(a) && LtOpensBreak(b)
    ensures LtOpensBreak(a + b)
  {
    var s := a + b;
    forall i | 0 <= i < |s| && s[i] == '<'
      ensures StartsWith(s[i..], "<br>")
    {
      if i < |a| {
        assert a[i] == '<';
        assert s[i..][..4] == a[i..][..4];
      } else {
        assert b[i - |a|] == '<';
        assert s[i..] == b[i - |a|..];
      }
    }
  }

  lemma GtAppend(a: string, b: string)
    requires GtClosesBreak(a) && GtClosesBreak(b)
    ensures GtClosesBreak(a + b)
  {
    var s := a + b;
    forall i | 0 <= i < |s| && s[i] == '>'
      ensures 3 <= i && s[i - 3..i + 1] == "<br>"
    {
      if i < |a| {
        assert a[i] == '>';
        assert s[i - 3..i + 1] == a[i - 3..i + 1];
      } else {
        var k := i - |a|;
        assert b[k] == '>';
        assert s[i - 3..i + 1] == b[k - 3..k + 1];
      }
    }
  }

  lemma AmpAppend(a: string, b: string)
    requires AmpOpensEntity(a) && AmpOpensEntity(b)
    ensures AmpOpensEntity(a + b)
  {
    var s := a + b;
    forall i | 0 <= i < |s| && s[i] == '&'
      ensures EntityAt(s, i)
    {
      if i < |a| {
        assert a[i] == '&';
        PrefixKeepsEntity(a[i..], s[i..]);
      } else {
        assert b[i - |a|] == '&';
        assert s[i..] == b[i - |a|..];
      }
    }
  }

  /** An entity at the front of `t` is still there when more text follows. */
  lemma PrefixKeepsEntity(t: string, u: string)
    requires EntityAt(t, 0) && |t| <= |u| && u[..|t|] == t
    ensures EntityAt(u, 0)
  {
    assert t[0..] == t;
    assert u[0..] == u;
  }

  lemma {:induction false} SafeEncode(s: string)
    ensures IsSafeHtml(Encode(s))
    decreases |s|
  {
    if s != [] {
      SafeEncodeChar(s[0]);
      SafeEncode(s[1..]);
      SafeAppend(EncodeChar(s[0]), Encode(s[1..]));
    }
  }

  /** Reads entities and `<br>` back: the partner of `SanitizeForHtml`. */
  function Unescape(s: string): string
    decreases |s|
  {
    if s == [] then []
    else if StartsWith(s, "<br>") then "\n" + Unescape(s[4..])
    else if StartsWith(s, "&amp;") then "&" + Unescape(s[5..])
    else if StartsWith(s, "&lt;") then "<" + Unescape(s[4..])
    else if StartsWith(s, "&gt;") then ">" + Unescape(s[4..])
    else if StartsWith(s, "&quot;") then "\"" + Unescape(s[6..])
    else if StartsWith(s, "&#x27;") then "'" + Unescape(s[6..])
    else [s[0]] + Unescape(s[1..])
  }

  /** A text whose `i`-th character differs from the pattern's does not start with it. */
  lemma DiffersAt(s: string, p: string, i: nat)
    requires i < |p| && i < |s| && s[i] != p[i]
    ensures !StartsWith(s, p)
  {
    if |p| <= |s| {
      assert s[..|p|][i] == s[i];
    }
  }

  lemma UnescapeStep(c: char, rest: string)
    ensures Unescape(EncodeChar(c) + rest) == [c] + Unescape(rest)
  {
    var e := EncodeChar(c);
    var s := e + rest;
    assert s[|e|..] == rest;
    assert s[..|e|] == e;
    assert forall k :: 0 <= k < |e| ==> s[k] == e[k];
    if c == '\n' {
    } else if c == '&' {
      DiffersAt(s, "<br>", 0);
    } else if c == '<' {
      DiffersAt(s, "<br>", 0); DiffersAt(s, "&amp;", 1);
    } else if c == '>' {
      DiffersAt(s, "<br>", 0); DiffersAt(s, "&amp;", 1); DiffersAt(s, "&lt;", 1);
    } else if c == '"' {
      DiffersAt(s, "<br>", 0); DiffersAt(s, "&amp;", 1); DiffersAt(s, "&lt;", 1); DiffersAt(s, "&gt;", 1);
    } else if c == '\'' {
      DiffersAt(s, "<br>", 0); DiffersAt(s, "&amp;", 1); DiffersAt(s, "&lt;", 1); DiffersAt(s, "&gt;", 1);
      DiffersAt(s, "&quot;", 1);
    } else {
      assert s[1..] == rest;
      DiffersAt(s, "<br>", 0); DiffersAt(s, "&amp;", 0); DiffersAt(s, "&lt;", 0); DiffersAt(s, "&gt;", 0);
      DiffersAt(s, "&quot;", 0); DiffersAt(s, "&#x27;", 0);
    }
  }

  lemma {:induction false} UnescapeEncode(s: string)
    ensures Unescape(Encode(s)) == s
    decreases |s|
  {
    if s != [] {
      UnescapeStep(s[0], Encode(s[1..]));
      UnescapeEncode(s[1..]);
      assert s == [s[0]] + s[1..];
    }
  }

  /** What `_sanitize_for_html` guarantees: nothing in the output can open markup (no raw
      newline, quote, or `<`/`>`/`&` outside `<br>` and the five entities), and the original
      text is recoverable from it, so nothing was lost or added. */
  lemma SanitizeForHtmlSafe(text: string)
    ensures IsSafeHtml(SanitizeForHtml(text))
    ensures Unescape(SanitizeForHtml(text)) == text
    ensures SanitizeForHtml(text) == "" <==> text == ""
  {
    SanitizeIsEncode(text);
    SafeEncode(text);
    UnescapeEncode(text);
    if text != "" {
      assert |EncodeChar(text[0])| > 0;
    }
  }

  // ---------------------------------------------------------------------------------------
  // The request pipeline

  /** The raw request body: empty (read as `{}`), bytes that are not text in the encoding
      `json.loads` detects (UTF-8, -16 or -32), text that is not JSON, or a decoded value. */
  datatype RequestBody = EmptyBody | NotText | Malformed | Parsed(value: Json)

  /** The cleaned fields: `nombre` ≤ 100, `correo` ≤ 254, `mensaje` ≤ 5000, `proyecto` ≤ 100
      characters, honeypot `hp` stripped only. */
  datatype Submission = Submission(nombre: string, correo: string, mensaje: string, proyecto: string, hp: string)

  /** A stored `Contacto` row: cleaned but not HTML-escaped text. */
  datatype ContactRecord = ContactRecord(nombre: string, email: string, mensaje: string, proyecto: string)

  /** The three settings the notifier reads; `None` is an unset variable. */
  datatype MailConfig = MailConfig(apiKey: Option<string>, fromEmail: Option<string>, toEmail: Option<string>)

  /** How one call to the provider's `send` went. */
  datatype SendResult =
    | Delivered
    | HttpFailure(status: Option<int>, body: Option<string>)
    | OtherFailure(typeName: string, repr: string)

  /** Everything outside the request that the endpoint depends on. `adminSend` also stands for
      a failure while building the client or the messages, which the same handlers catch. */
  datatype Environment = Environment(
    dbWriteOk: bool, config: MailConfig, adminSend: SendResult, confirmSend: SendResult, debug: bool)

  /** An outgoing message; `fields` are the values interpolated into its HTML body. */
  datatype Mail = Mail(from: string, to: string, subject: string, fields: seq<string>)

  datatype Debug =
    | NoDebug
    | ProviderDebug(status: Option<int>, body: string)
    | ExceptionDebug(typeName: string, repr: string, hint: string)

  /** A JSON response, or the framework's own error page for an exception the view does not
      catch. `text` is the `error` or `message` member. */
  datatype Response =
    | JsonResponse(status: int, ok: bool, text: string, emailSent: Option<bool>, debug: Debug)
    | UncaughtError

  /** The response with the two side effects: the row created, the messages handed to the
      provider (in order). */
  datatype Outcome = Outcome(response: Response, saved: Option<ContactRecord>, mails: seq<Mail>)

  const NOT_ALLOWED := "Method not allowed. Use POST."
  const INVALID_JSON := "Invalid JSON."
  const SPAM_REJECTED := "Solicitud inválida."
  const FIELDS_REQUIRED := "Todos los campos son obligatorios."
  const EMAIL_INVALID := "Email inválido."
  const SAVE_FAILED := "Error guardando el mensaje."
  const SAVED_NOT_SENT := "Mensaje guardado. Email podría no haber sido enviado."
  const SENT := "Mensaje enviado correctamente."
  const NO_PROJECT := "No especificado"
  const ADMIN_SUBJECT := "Nuevo mensaje de contacto: "
  const CONFIRM_SUBJECT := "Hemos recibido tu mensaje - Estudio Carcon"
  const TLS_HINT := "Si ves SSLCertVerificationError, configura SSL_CERT_FILE en .env con el CA bundle correcto (proxy/antivirus)."

  /** The first phase: a decoded object's fields cleaned, or why not. `Undecodable` is the
      `UnicodeDecodeError` that `except json.JSONDecodeError` does not catch. */
  datatype Normalized = Undecodable | BadJson | NotCleanable | Fields(sub: Submission)

  /** A field value `_sanitize_input` accepts: missing, falsy, or a string. */
  predicate Cleanable(v: Option<Json>)
  {
    !PyTruthyOpt(v) || v.value.JStr?
  }

  /** The fields of a decoded object, each through `_sanitize_input` with its limit. */
  function CleanFields(d: seq<(string, Json)>): (r: Normalized)
    ensures !r.BadJson? && !r.Undecodable?
    ensures r.Fields? ==> |r.sub.nombre| <= 100 && |r.sub.correo| <= 254 && |r.sub.mensaje| <= 5000 && |r.sub.proyecto| <= 100
    ensures r.NotCleanable? <==>
      !(Cleanable(Get(d, "nombre")) && Cleanable(Get(d, "correo")) && Cleanable(Get(d, "mensaje"))
        && Cleanable(Get(d, "proyecto")) && Cleanable(Get(d, "hp")))
    ensures r.Fields? ==> var h := Get(d, "hp");
      r.sub.hp == "" <==> !PyTruthyOpt(h) || (h.value.JStr? && AllSpace(Py, h.value.s))
  {
    var nombre := SanitizeField(Get(d, "nombre"), Some(100));
    var correo := SanitizeField(Get(d, "correo"), Some(254));
    var mensaje := SanitizeField(Get(d, "mensaje"), Some(5000));
    var proyecto := SanitizeField(Get(d, "proyecto"), Some(100));
    var hp := SanitizeField(Get(d, "hp"), None);
    if nombre.None? || correo.None? || mensaje.None? || proyecto.None? || hp.None? then NotCleanable
    else Fields(Submission(nombre.value, correo.value, mensaje.value, proyecto.value, hp.value))
  }

  /** Decoding and cleaning: an empty body reads as `{}`; bytes that are not text make the
      decoder raise; a body that decodes to something
      other than an object, or holds a truthy non-string field, makes the clean-up raise. */
  function Normalize(body: RequestBody): (r: Normalized)
    ensures r.BadJson? <==> body.Malformed?
    ensures r.Undecodable? <==> body.NotText?
    ensures r.Fields? ==> |r.sub.nombre| <= 100 && |r.sub.correo| <= 254 && |r.sub.mensaje| <= 5000 && |r.sub.proyecto| <= 100
    ensures body.EmptyBody? ==> r == Fields(Submission("", "", "", "", ""))
    ensures body.Parsed? && !body.value.JObj? ==> r.NotCleanable?
  {
    match body
    case NotText => Undecodable
    case Malformed => BadJson
    case EmptyBody => Fields(Submission("", "", "", "", ""))
    case Parsed(v) => if v.JObj? then CleanFields(v.fields) else NotCleanable
  }

  /** Whether the cleaned fields pass the three checks. */
  predicate Acceptable(sub: Submission)
  {
    sub.hp == "" && sub.nombre != "" && sub.correo != "" && sub.mensaje != "" && ValidateEmail(sub.correo)
  }

  function Saved(text: string): Response
  {
    JsonResponse(200, true, text, Some(false), NoDebug)
  }

  /** The provider's error body as the debug payload shows it: `str(body)` (so a missing body
      reads "None") cut to 1000 characters. */
  function DebugBody(body: Option<string>): (r: string)
    ensures |r| <= 1000
    ensures var t := if body.None? then "None" else body.value;
      |r| <= |t| && r == t[..|r|] && (|t| <= 1000 ==> r == t) && (|t| > 1000 ==> |r| == 1000)
  {
    Take(if body.None? then "None" else body.value, 1000)
  }

  /** What DEBUG adds to the answer for the send that ended the `try`: the provider's status
      and body for an HTTP error, the exception's type, `repr` and the TLS hint otherwise. */
  function DebugFor(s: SendResult): (d: Debug)
    ensures d == NoDebug <==> s.Delivered?
    ensures s.HttpFailure? ==> d.ProviderDebug? && d.status == s.status && |d.body| <= 1000
    ensures s.OtherFailure? ==> d.ExceptionDebug? && d.typeName == s.typeName && d.repr == s.repr && d.hint == TLS_HINT
  {
    match s
    case Delivered => NoDebug
    case HttpFailure(status, body) => ProviderDebug(status, DebugBody(body))
    case OtherFailure(typeName, repr) => ExceptionDebug(typeName, repr, TLS_HINT)
  }

  /** The configuration needed to send is present and non-empty. */
  predicate ConfigComplete(cfg: MailConfig)
  {
    && cfg.apiKey.Some? && cfg.apiKey.value != ""
    && cfg.fromEmail.Some? && cfg.fromEmail.value != ""
    && cfg.toEmail.Some? && cfg.toEmail.value != ""
  }

  /** The stored row for cleaned fields. */
  function RecordOf(sub: Submission): ContactRecord
  {
    ContactRecord(sub.nombre, sub.correo, sub.mensaje, sub.proyecto)
  }

  /** The value shown for the project reference: the escaped text, or the placeholder. */
  function ProjectShown(proyecto: string): (r: string)
    ensures proyecto == "" ==> r == NO_PROJECT
    ensures proyecto != "" ==> Unescape(r) == proyecto
    ensures IsSafeHtml(r)
  {
    SanitizeForHtmlSafe(proyecto);
    NoProjectSafe();
    if SanitizeForHtml(proyecto) == "" then NO_PROJECT else SanitizeForHtml(proyecto)
  }

  lemma NoProjectSafe()
    ensures IsSafeHtml(NO_PROJECT)
  {
    var t := NO_PROJECT;
    assert forall i :: 0 <= i < |t| ==> ('a' <= t[i] <= 'z') || ('A' <= t[i] <= 'Z') || t[i] == ' ';
    PlainIsSafe(t);
  }

  /** The message to the site's operator. */
  function AdminMail(sub: Submission, cfg: MailConfig): Mail
    requires ConfigComplete(cfg)
  {
    Mail(cfg.fromEmail.value, cfg.toEmail.value, ADMIN_SUBJECT + sub.nombre,
         [SanitizeForHtml(sub.nombre), SanitizeForHtml(sub.correo), ProjectShown(sub.proyecto), SanitizeForHtml(sub.mensaje)])
  }

  /** The acknowledgement to the submitter. */
  function ConfirmMail(sub: Submission, cfg: MailConfig): Mail
    requires ConfigComplete(cfg)
  {
    Mail(cfg.fromEmail.value, sub.correo, CONFIRM_SUBJECT, [SanitizeForHtml(sub.nombre), SanitizeForHtml(sub.mensaje)])
  }

  /** The notification phase, once the row exists: a missing setting skips sending, otherwise
      the operator's message is sent and, only if it went out, the confirmation. Any failure
      still answers 200 with the row kept. */
  function Notify(sub: Submission, env: Environment): (o: Outcome)
    ensures o.saved == Some(RecordOf(sub))
    ensures o.response.JsonResponse? && o.response.status == 200 && o.response.ok
    ensures o.response.emailSent.Some?
    ensures o.response.emailSent == Some(true) <==>
      ConfigComplete(env.config) && env.adminSend.Delivered? && env.confirmSend.Delivered?
    ensures o.response.text == (if o.response.emailSent == Some(true) then SENT else SAVED_NOT_SENT)
    ensures o.mails != [] <==> ConfigComplete(env.config)
    ensures |o.mails| <= 2 && (|o.mails| == 2 <==> ConfigComplete(env.config) && env.adminSend.Delivered?)
    ensures o.response.debug.ProviderDebug? ==> |o.response.debug.body| <= 1000
    ensures o.response.debug != NoDebug ==> env.debug
    // In DEBUG, the failed send is always reported, and it is the first that failed.
    ensures o.response.debug != NoDebug <==> env.debug && ConfigComplete(env.config) && o.response.emailSent == Some(false)
    ensures env.debug && ConfigComplete(env.config) ==>
      o.response.debug == DebugFor(if env.adminSend.Delivered? then env.confirmSend else env.adminSend)
    ensures o.mails != [] ==> o.mails[0] == AdminMail(sub, env.config)
    ensures |o.mails| == 2 ==> o.mails[1] == ConfirmMail(sub, env.config)
  {
    var cfg := env.config;
    var rec := Some(RecordOf(sub));
    if !ConfigComplete(cfg) then
      Outcome(Saved(SAVED_NOT_SENT), rec, [])
    else
      var attempted := if env.adminSend.Delivered? then [AdminMail(sub, cfg), ConfirmMail(sub, cfg)] else [AdminMail(sub, cfg)];
      var failure := if env.adminSend.Delivered? then env.confirmSend else env.adminSend;
      match failure
      case Delivered => Outcome(JsonResponse(200, true, SENT, Some(true), NoDebug), rec, attempted)
      case _ =>
        var dbg := if env.debug then DebugFor(failure) else NoDebug;
        Outcome(JsonResponse(200, true, SAVED_NOT_SENT, Some(false), dbg), rec, attempted)
  }

  /** A rejection: status, message, nothing stored or sent. */
  function Reject(status: int, text: string): Outcome
  {
    Outcome(JsonResponse(status, false, text, None, NoDebug), None, [])
  }

  /** `contact_form`. */
  function ContactForm(isPost: bool, body: RequestBody, env: Environment): (o: Outcome)
    // Only an accepted submission whose write succeeded leaves a row, holding the cleaned but
    // unescaped values; no message goes out without it, and once it exists the request
    // succeeds whatever happens to the e-mail.
    ensures o.saved.Some? <==>
      isPost && Normalize(body).Fields? && Acceptable(Normalize(body).sub) && env.dbWriteOk
    ensures o.saved.Some? ==> o.saved.value == RecordOf(Normalize(body).sub)
    ensures o.mails != [] ==> o.saved.Some?
    ensures o.response.JsonResponse? && o.response.ok <==> o.saved.Some?
    ensures o.saved.Some? ==> o.response.status == 200
    // Check order: method, JSON, honeypot, required fields, e-mail format, database.
    ensures !isPost ==> o == Reject(405, NOT_ALLOWED)
    ensures isPost && body.Malformed? ==> o == Reject(400, INVALID_JSON)
    ensures isPost && Normalize(body).Fields? ==> var sub := Normalize(body).sub;
      && (sub.hp != "" ==> o == Reject(400, SPAM_REJECTED))
      && (sub.hp == "" && (sub.nombre == "" || sub.correo == "" || sub.mensaje == "") ==> o == Reject(400, FIELDS_REQUIRED))
      && (sub.hp == "" && sub.nombre != "" && sub.correo != "" && sub.mensaje != "" && !ValidateEmail(sub.correo) ==>
            o == Reject(400, EMAIL_INVALID))
      && (Acceptable(sub) && !env.dbWriteOk ==> o == Reject(500, SAVE_FAILED))
    ensures o.response.UncaughtError? <==> isPost && (body.NotText? || Normalize(body).NotCleanable?)
    // E-mail is reported sent exactly when everything was configured and both sends returned.
    ensures o.response.JsonResponse? && o.response.emailSent == Some(true) <==>
      o.saved.Some? && ConfigComplete(env.config) && env.adminSend.Delivered? && env.confirmSend.Delivered?
  {
    if !isPost then Reject(405, NOT_ALLOWED)
    else
      match Normalize(body)
      case Undecodable => Outcome(UncaughtError, None, [])
      case BadJson => Reject(400, INVALID_JSON)
      case NotCleanable => Outcome(UncaughtError, None, [])
      case Fields(sub) =>
        if sub.hp != "" then Reject(400, SPAM_REJECTED)
        else if sub.nombre == "" || sub.correo == "" || sub.mensaje == "" then Reject(400, FIELDS_REQUIRED)
        else if !ValidateEmail(sub.correo) then Reject(400, EMAIL_INVALID)
        else if !env.dbWriteOk then Reject(500, SAVE_FAILED)
        else Notify(sub, env)
  }

  /** A text with none of the characters that escaping rewrites is safe as it is. */
  lemma PlainIsSafe(t: string)
    requires forall i :: 0 <= i < |t| ==> ('a' <= t[i] <= 'z') || ('A' <= t[i] <= 'Z') || t[i] == ' '
    ensures IsSafeHtml(t)
  {
  }


  /** Every value interpolated into the operator's message is escaped: it cannot open
      markup, and reading it back gives the stored value (or the placeholder for an empty
      project reference). The message goes from the configured sender to the configured
      recipient, with the raw name in its subject. */
  lemma AdminMailContents(sub: Submission, cfg: MailConfig)
    requires ConfigComplete(cfg)
    ensures var m := AdminMail(sub, cfg);
      && m.from == cfg.fromEmail.value && m.to == cfg.toEmail.value
      && m.subject == ADMIN_SUBJECT + sub.nombre
      && |m.fields| == 4
      && IsSafeHtml(m.fields[0]) && IsSafeHtml(m.fields[1]) && IsSafeHtml(m.fields[2]) && IsSafeHtml(m.fields[3])
      && Unescape(m.fields[0]) == sub.nombre
      && Unescape(m.fields[1]) == sub.correo
      && (sub.proyecto == "" ==> m.fields[2] == NO_PROJECT)
      && (sub.proyecto != "" ==> Unescape(m.fields[2]) == sub.proyecto)
      && Unescape(m.fields[3]) == sub.mensaje
  {
    SanitizeForHtmlSafe(sub.nombre);
    SanitizeForHtmlSafe(sub.correo);
    SanitizeForHtmlSafe(sub.mensaje);
  }

  /** The acknowledgement goes to the submitter's address and carries only the escaped name
      and message. */
  lemma ConfirmMailContents(sub: Submission, cfg: MailConfig)
    requires ConfigComplete(cfg)
    ensures var m := ConfirmMail(sub, cfg);
      && m.from == cfg.fromEmail.value && m.to == sub.correo && m.subject == CONFIRM_SUBJECT
      && |m.fields| == 2
      && IsSafeHtml(m.fields[0]) && IsSafeHtml(m.fields[1])
      && Unescape(m.fields[0]) == sub.nombre && Unescape(m.fields[1]) == sub.mensaje
  {
    SanitizeForHtmlSafe(sub.nombre);
    SanitizeForHtmlSafe(sub.mensaje);
  }
}
