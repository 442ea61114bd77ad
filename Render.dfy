/**
 * Obtaining a document's HTML (`_get_html_and_errors`). The KumaScript
 * renderer behind `doc.get_rendered(cache_control, base_url)` is a remote
 * service; here it is an oracle passed in as a function.
 */
module Render {
  import opened Wrappers
  import opened Store
  import opened Requests

  /** What `doc.get_rendered` yields: a body and its macro errors, or DocumentRenderedContentNotAvailable. */
  datatype RenderResult = Rendered(body: string, errors: seq<string>) | NotAvailable

  /** `doc.get_rendered(cache_control, base_url)` for any document. */
  type Renderer = (Document, Option<string>, Url) -> RenderResult

  /** `(doc_html, ks_errors, render_raw_fallback)` */
  datatype HtmlAndErrors = HtmlAndErrors(html: string, errors: Option<seq<string>>, rawFallback: bool)

  /** Only a signed-in user sending `Cache-Control: no-cache` (Shift-Reload) forces a fresh render. */
  function CacheControl(req: Request): (r: Option<string>)
    ensures r == Some("no-cache") <==> req.authenticated && req.cacheControl == Some("no-cache")
    ensures r.None? || r == Some("no-cache")
  {
    if req.authenticated && req.cacheControl == Some("no-cache") then Some("no-cache") else None
  }

  /**
   * What the view ends up with. Without `useRendered` the stored HTML,
   * untouched. Otherwise the renderer's non-empty body replaces it and its
   * non-empty error list is reported; a renderer that cannot produce content
   * leaves the stored HTML in place and raises the raw-fallback flag.
   */
  function HtmlFor(req: Request, doc: Document, useRendered: bool, renderer: Renderer): (r: HtmlAndErrors)
    ensures !useRendered ==> r == HtmlAndErrors(doc.html, None, false)
    ensures r.rawFallback <==> useRendered && renderer(doc, CacheControl(req), req.baseUrl).NotAvailable?
    ensures r.rawFallback ==> r.html == doc.html && r.errors.None?
    ensures useRendered && renderer(doc, CacheControl(req), req.baseUrl).Rendered? ==>
              var out := renderer(doc, CacheControl(req), req.baseUrl);
              r.html == (if out.body != "" then out.body else doc.html)
              && r.errors == (if out.errors != [] then Some(out.errors) else None)
  {
    if !useRendered then HtmlAndErrors(doc.html, None, false)
    else match renderer(doc, CacheControl(req), req.baseUrl)
      case NotAvailable => HtmlAndErrors(doc.html, None, true)
      case Rendered(body, errors) =>
        HtmlAndErrors(if body != "" then body else doc.html, if errors != [] then Some(errors) else None, false)
  }

  /** `_get_html_and_errors`: start from the stored HTML and overwrite what the renderer supplies. */
  method GetHtmlAndErrors(req: Request, doc: Document, useRendered: bool, renderer: Renderer)
    returns (docHtml: string, ksErrors: Option<seq<string>>, renderRawFallback: bool)
    ensures HtmlAndErrors(docHtml, ksErrors, renderRawFallback) == HtmlFor(req, doc, useRendered, renderer)
  {
    docHtml, ksErrors, renderRawFallback := doc.html, None, false;
    if !useRendered {
      return;
    }
    var cacheControl: Option<string> := None;
    if req.authenticated {
      var uaCc := req.cacheControl;
      if uaCc == Some("no-cache") {
        cacheControl := Some("no-cache");
      }
    }
    var baseUrl := req.baseUrl;
    match renderer(doc, cacheControl, baseUrl)
    case Rendered(rBody, rErrors) =>
      if rBody != "" {
        docHtml := rBody;
      }
      if rErrors != [] {
        ksErrors := Some(rErrors);
      }
    case NotAvailable =>
      renderRawFallback := true;
  }
}
