/** The CSRF failure view `despacho_django/proyectos/csrf.py`: requests that expect JSON get
    a JSON 403 body, everything else gets Django's default failure page. */
module Csrf {
  import opened Wrappers
  import opened Text

  /** What the view reads of a request: its path and three headers (`None` when absent). */
  datatype CsrfRequest = CsrfRequest(
    path: string,
    accept: Option<string>,
    contentType: Option<string>,
    requestedWith: Option<string>)

  /** The JSON 403 response, or a hand-off to Django's own failure view. */
  datatype CsrfResponse =
    | JsonForbidden(status: int, ok: bool, error: string, reason: string)
    | DefaultFailure(passedReason: Option<string>)

  const JSON_TYPE := "application/json"
  const CSRF_ERROR := "CSRF verification failed."

  /** `(header or "").lower()`. */
  function LowerHeader(h: Option<string>): (r: string)
    ensures IsLower(r) && |r| == |h.GetOr("")|
  {
    LowerIdempotent(h.GetOr(""));
    Lower(h.GetOr(""))
  }

  /** `wants_json`: a `/contact` path, a JSON `Accept` or `Content-Type` in any letter case,
      or exactly `X-Requested-With: XMLHttpRequest`. */
  predicate WantsJson(req: CsrfRequest)
  {
    || StartsWith(req.path, "/contact")
    || Contains(LowerHeader(req.accept), JSON_TYPE)
    || Contains(LowerHeader(req.contentType), JSON_TYPE)
    || req.requestedWith == Some("XMLHttpRequest")
  }

  /** `csrf_failure(request, reason)`; `reason` is `None` when the caller passes `None`. */
  function CsrfFailure(req: CsrfRequest, reason: Option<string>): (r: CsrfResponse)
    ensures r.JsonForbidden? <==> WantsJson(req)
    ensures r.JsonForbidden? ==> r.status == 403 && !r.ok && r.error == CSRF_ERROR
    ensures r.JsonForbidden? ==> r.reason == reason.GetOr("")
    ensures r.DefaultFailure? ==> r.passedReason == reason
    ensures StartsWith(req.path, "/contact") ==> r.JsonForbidden?
  {
    if WantsJson(req) then JsonForbidden(403, false, CSRF_ERROR, if reason.Some? then reason.value else "")
    else DefaultFailure(reason)
  }

  /** The header checks ignore letter case: two `Accept` (or `Content-Type`) values that
      agree once lower-cased get the same kind of answer. */
  lemma HeaderCaseIgnored(req: CsrfRequest, accept: string, contentType: string)
    requires req.accept.Some? && req.contentType.Some?
    requires Lower(accept) == Lower(req.accept.value) && Lower(contentType) == Lower(req.contentType.value)
    ensures var other := req.(accept := Some(accept), contentType := Some(contentType));
      CsrfFailure(other, None).JsonForbidden? == CsrfFailure(req, None).JsonForbidden?
  {
  }

  /** `X-Requested-With` is compared exactly: the lower-case spelling alone, on another path
      and without JSON headers, gets the default page. */
  lemma RequestedWithExact()
    ensures CsrfFailure(CsrfRequest("/admin/", None, None, Some("xmlhttprequest")), None).DefaultFailure?
    ensures CsrfFailure(CsrfRequest("/admin/", None, None, Some("XMLHttpRequest")), None).JsonForbidden?
  {
    var req := CsrfRequest("/admin/", None, None, Some("xmlhttprequest"));
    assert !StartsWith(req.path, "/contact") by {
      assert req.path[1] != "/contact"[1];
    }
    assert LowerHeader(None) == "";
    assert !Contains("", JSON_TYPE);
    assert "xmlhttprequest"[0] != "XMLHttpRequest"[0];
  }

  /** The contact page posts with `Content-Type: application/json`, so a rejected post gets
      the JSON answer whatever its path or other headers. */
  lemma ContactFetchGetsJson(path: string, accept: Option<string>, requestedWith: Option<string>, reason: Option<string>)
    ensures CsrfFailure(CsrfRequest(path, accept, Some(JSON_TYPE), requestedWith), reason).JsonForbidden?
  {
    LowerOfLower(JSON_TYPE);
    assert OccursAt(JSON_TYPE, JSON_TYPE, 0);
  }
}
