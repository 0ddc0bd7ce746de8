/** The contact page script `despacho_django/static/js/app.js`: the preloader's timing and
    class bookkeeping, cookie lookup, and the submit handler's decisions. The DOM is reduced
    to the class sets the script touches, and the clock and the network are inputs. */
module ContactPage {
  import opened Wrappers
  import opened Text
  import opened Json

  // ---------------------------------------------------------------------------------------
  // Preloader

  /** `duracionMinima`: the preloader shows for at least this many milliseconds. */
  const MIN_DURATION := 250

  /** `remaining`: how long `onReadyHandler` waits before the logo sequence, given the
      milliseconds elapsed since the script started. */
  function Remaining(elapsed: int): (r: int)
    ensures elapsed >= 0 ==> 0 <= r <= MIN_DURATION
    ensures elapsed + r == if elapsed < MIN_DURATION then MIN_DURATION else elapsed
  {
    if elapsed < MIN_DURATION then MIN_DURATION - elapsed else 0
  }

  /** The four classes `setState` manages. */
  const STATES: set<string> := {"state-logo-in", "state-logo-collision", "state-logo-joined", "state-fadeout"}

  /** The preloader element's classes, the body's classes, and how many removals of the
      element have been scheduled. */
  datatype Preloader = Preloader(classes: set<string>, body: set<string>, removals: nat)

  /** `setState(state)`: every managed class is removed, then `state` is added when it is not
      empty. */
  function SetState(p: Preloader, state: string): (r: Preloader)
    ensures r.body == p.body && r.removals == p.removals
    ensures forall c :: c !in STATES && c != state ==> (c in r.classes <==> c in p.classes)
    ensures state != "" ==> state in r.classes
    ensures forall c :: c in STATES && c in r.classes ==> c == state
  {
    p.(classes := (p.classes - STATES) + (if state != "" then {state} else {}))
  }

  /** Whatever the classes were, a managed state afterwards leaves exactly that state set. */
  lemma SetStateSingle(p: Preloader, state: string)
    requires state in STATES
    ensures SetState(p, state).classes * STATES == {state}
  {
  }

  /** `hidePreloaderFinal()`: nothing when the element is already `hidden`; otherwise it
      becomes hidden, the body loses `preloader-active` and one removal is scheduled. */
  function HidePreloaderFinal(p: Preloader): (r: Preloader)
    ensures "hidden" in r.classes
    ensures "hidden" in p.classes ==> r == p
    ensures "hidden" !in p.classes ==>
      && r.classes == p.classes + {"hidden"}
      && r.body == p.body - {"preloader-active"}
      && r.removals == p.removals + 1
  {
    if "hidden" in p.classes then p
    else Preloader(p.classes + {"hidden"}, p.body - {"preloader-active"}, p.removals + 1)
  }

  /** Hiding twice is hiding once: the sequence and the 10-second fallback may both run it,
      and the element is still removed only once. */
  lemma HideIdempotent(p: Preloader)
    ensures HidePreloaderFinal(HidePreloaderFinal(p)) == HidePreloaderFinal(p)
    ensures HidePreloaderFinal(HidePreloaderFinal(p)).removals <= p.removals + 1
  {
  }

  /** `runLogoSequence()` run to its end: the four states in turn, then the final hide. */
  function RunLogoSequence(p: Preloader): (r: Preloader)
  {
    var p1 := SetState(p, "state-logo-in");
    var p2 := SetState(p1, "state-logo-collision");
    var p3 := SetState(p2, "state-logo-joined");
    var p4 := SetState(p3, "state-fadeout");
    HidePreloaderFinal(p4)
  }

  /** After a full sequence the preloader shows only the fade-out state, is hidden, and,
      however many sequences ran, has been scheduled for removal at most once more than
      before the first. */
  lemma SequenceEnds(p: Preloader)
    ensures RunLogoSequence(p).classes * STATES == {"state-fadeout"}
    ensures "hidden" in RunLogoSequence(p).classes
    ensures RunLogoSequence(p).removals <= p.removals + 1
    ensures RunLogoSequence(RunLogoSequence(p)).removals == RunLogoSequence(p).removals
  {
    var q := RunLogoSequence(p);
    assert "hidden" in q.classes;
    assert "hidden" !in STATES;
  }

  // ---------------------------------------------------------------------------------------
  // Cookies

  /** `getCookie(name)` over `document.cookie`: `value.split('; ' + name + '=')` must give
      exactly two pieces, and the answer is the second piece up to its first `;`. */
  function GetCookie(cookie: string, name: string): (r: Option<string>)
    ensures var v := "; " + cookie; var pat := "; " + name + "=";
      r.Some? <==> After(v, pat).Some? && !Contains(After(v, pat).value, pat)
    ensures var v := "; " + cookie; var pat := "; " + name + "=";
      r.Some? ==> r.value == Before(After(v, pat).value, ";") && ';' !in r.value
  {
    var v := "; " + cookie;
    var pat := "; " + name + "=";
    var parts := Split(v, pat);
    SplitTwo(v, pat);
    if |parts| == 2 then
      FirstPiece(parts[1], ";");
      ContainsChar(Before(parts[1], ";"), ';');
      Some(Split(parts[1], ";")[0])
    else None
  }

  /** A split has two pieces exactly when the separator occurs and does not occur again in
      what follows its first occurrence; the second piece is then that remainder. */
  lemma SplitTwo(s: string, sep: string)
    requires |sep| > 0
    ensures |Split(s, sep)| == 2 <==> After(s, sep).Some? && !Contains(After(s, sep).value, sep)
    ensures |Split(s, sep)| == 2 ==> Split(s, sep)[1] == After(s, sep).value
  {
    match IndexOf(s, sep)
    case None =>
    case Some(i) =>
      var rest := s[i + |sep|..];
      SplitAt(s, sep, i);
      assert After(s, sep) == Some(rest);
      if IndexOf(rest, sep).Some? {
        SplitAt(rest, sep, IndexOf(rest, sep).value);
      }
  }

  /** `.split(sep).shift()` is the text before the first separator. */
  lemma FirstPiece(s: string, sep: string)
    requires |sep| > 0
    ensures Split(s, sep)[0] == Before(s, sep)
  {
    if IndexOf(s, sep).Some? {
      SplitAt(s, sep, IndexOf(s, sep).value);
    }
  }

  // ---------------------------------------------------------------------------------------
  // Submitting the form

  /** The form's four inputs; `None` when the element is missing. */
  datatype FormInputs = FormInputs(nombre: Option<string>, correo: Option<string>, mensaje: Option<string>, hp: Option<string>)

  /** `formData`: each input's value trimmed, or `''` for a missing element. */
  datatype FormData = FormData(nombre: string, correo: string, mensaje: string, hp: string)

  function Field(v: Option<string>): (r: string)
    ensures IsStripped(Js, r)
    ensures v.None? ==> r == ""
    ensures v.Some? ==> r == Strip(Js, v.value)
  {
    if v.Some? then Strip(Js, v.value) else ""
  }

  function ReadForm(f: FormInputs): FormData
  {
    FormData(Field(f.nombre), Field(f.correo), Field(f.mensaje), Field(f.hp))
  }

  /** The POST to `/contact/`: the form data, and the `X-CSRFToken` header when the
      `csrftoken` cookie gives a non-empty value. */
  datatype ContactRequest = ContactRequest(data: FormData, csrfToken: Option<string>)

  /** What the page learns of the response: `res.ok`, the `content-type` header if any, and
      `res.json()` (`None` when the body does not parse). */
  datatype Response = Response(ok: bool, contentType: Option<string>, body: Option<Json>)

  const DEFAULT_ERROR := "Error al enviar. Intenta de nuevo más tarde."

  /** What the confirmation line shows once a request was made. */
  datatype Shown = Succeeded | Rejected(message: string) | ConnectionFailed

  datatype SubmitOutcome = Incomplete | Sent(request: ContactRequest, shown: Shown)

  /** `Content-Type` carries JSON: `(header || '').includes('application/json')`, letter case
      included. */
  predicate IsJsonResponse(res: Response)
  {
    Contains(res.contentType.GetOr(""), "application/json")
  }

  /** The error text for a failed submission: `payload.error` when truthy, else
      `payload.message` when truthy, else the fixed default. */
  function ErrorMessage(payload: Json): (msg: string)
    ensures JsTruthyOpt(Prop(payload, "error")) ==> msg == JsString(Prop(payload, "error").value)
    ensures !JsTruthyOpt(Prop(payload, "error")) && JsTruthyOpt(Prop(payload, "message")) ==>
      msg == JsString(Prop(payload, "message").value)
    ensures !JsTruthyOpt(Prop(payload, "error")) && !JsTruthyOpt(Prop(payload, "message")) ==> msg == DEFAULT_ERROR
  {
    if !JsTruthy(payload) then DEFAULT_ERROR
    else if JsTruthyOpt(Prop(payload, "error")) then JsString(Prop(payload, "error").value)
    else if JsTruthyOpt(Prop(payload, "message")) then JsString(Prop(payload, "message").value)
    else DEFAULT_ERROR
  }

  /** The page's reaction to a response: a response that is not JSON, or whose JSON does not
      parse, is thrown and caught as a connection failure; success needs both `res.ok` and a
      truthy `payload.ok`. */
  function Classify(res: Option<Response>): (s: Shown)
    ensures s == ConnectionFailed <==> res.None? || !IsJsonResponse(res.value) || res.value.body.None?
    ensures s == Succeeded <==>
      res.Some? && IsJsonResponse(res.value) && res.value.body.Some?
      && res.value.ok && JsTruthyOpt(Prop(res.value.body.value, "ok"))
    ensures s.Rejected? ==> s.message == ErrorMessage(res.value.body.value)
  {
    if res.None? || !IsJsonResponse(res.value) || res.value.body.None? then ConnectionFailed
    else
      var payload := res.value.body.value;
      if res.value.ok && JsTruthy(payload) && JsTruthyOpt(Prop(payload, "ok")) then Succeeded
      else Rejected(ErrorMessage(payload))
  }

  /** The submit handler: with a required field blank after trimming nothing is sent;
      otherwise the request carries the trimmed fields and the CSRF cookie, and the response
      decides what is shown. `respond` stands for the server and the network. */
  function Submit(f: FormInputs, cookie: string, respond: ContactRequest -> Option<Response>): (o: SubmitOutcome)
    ensures o.Incomplete? <==> Field(f.nombre) == "" || Field(f.correo) == "" || Field(f.mensaje) == ""
    ensures o.Sent? ==> o.request.data == ReadForm(f)
    ensures o.Sent? ==> o.request.data.nombre != "" && o.request.data.correo != "" && o.request.data.mensaje != ""
    ensures o.Sent? ==> (o.request.csrfToken.Some? <==> GetCookie(cookie, "csrftoken").Some? && GetCookie(cookie, "csrftoken").value != "")
    ensures o.Sent? && o.request.csrfToken.Some? ==> GetCookie(cookie, "csrftoken") == o.request.csrfToken
    ensures o.Sent? ==> o.shown == Classify(respond(o.request))
  {
    var data := ReadForm(f);
    if data.nombre == "" || data.correo == "" || data.mensaje == "" then Incomplete
    else
      var token := GetCookie(cookie, "csrftoken");
      var request := ContactRequest(data, if token.Some? && token.value != "" then token else None);
      Sent(request, Classify(respond(request)))
  }

  /** The page shows success only when the server both answered with a 2xx status and said
      `ok`; a server that says `ok` with an error status is reported as a failure. */
  lemma SuccessNeedsBoth(f: FormInputs, cookie: string, respond: ContactRequest -> Option<Response>)
    requires Submit(f, cookie, respond).Sent?
    ensures var o := Submit(f, cookie, respond); var res := respond(o.request);
      o.shown == Succeeded ==> res.Some? && res.value.ok && res.value.body.Some? && JsTruthyOpt(Prop(res.value.body.value, "ok"))
    ensures var o := Submit(f, cookie, respond); var res := respond(o.request);
      res.Some? && !res.value.ok && IsJsonResponse(res.value) && res.value.body.Some? ==> o.shown.Rejected?
  {
  }
}
