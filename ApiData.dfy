/**
 * The JSON document payload (`document_api_data`), the table-of-contents
 * fragment (`toc`) and the JSON summary endpoint (`as_json`).
 */
module ApiData {
  import opened Wrappers
  import opened Store
  import opened Requests

  /**
   * The English slug recorded for analytics: the document's own slug when it
   * is in en-US, else its parent's slug when that parent is in en-US, else
   * empty.
   */
  function EnSlug(s: Store, d: Document): (r: Slug)
    ensures d.locale == "en-US" ==> r == d.slug
    ensures d.locale != "en-US" && ParentOf(s, d).Some? && ParentOf(s, d).value.locale == "en-US" ==>
              r == ParentOf(s, d).value.slug
    ensures d.locale != "en-US" && !(ParentOf(s, d).Some? && ParentOf(s, d).value.locale == "en-US") ==> r == ""
  {
    if d.locale == "en-US" then d.slug
    else if d.parent.Some? && ParentOf(s, d).Some? && ParentOf(s, d).value.locale == "en-US" then ParentOf(s, d).value.slug
    else ""
  }

  /** `doc.current_or_latest_revision()` */
  function CurrentOrLatestRevision(d: Document): Option<Revision> {
    if d.currentRevision.Some? then d.currentRevision else d.latestRevision
  }

  datatype TranslationStatus = Outdated | InProgress

  /**
   * A translation whose revision is still being localized is "outdated"
   * once it is ten or more units behind its source, "in-progress" before.
   */
  function TranslationStatusOf(d: Document): (r: Option<TranslationStatus>)
    ensures var rev := CurrentOrLatestRevision(d);
            (r == Some(Outdated) <==> d.parent.Some? && rev.Some? && rev.value.localizationInProgress && rev.value.translationAge >= 10)
            && (r == Some(InProgress) <==> d.parent.Some? && rev.Some? && rev.value.localizationInProgress && rev.value.translationAge < 10)
  {
    var revision := CurrentOrLatestRevision(d);
    if d.parent.Some? && revision.Some? && revision.value.localizationInProgress then
      Some(if revision.value.translationAge >= 10 then Outdated else InProgress)
    else None
  }

  /** The `documentData` object (the fields this model covers). */
  datatype DocumentData = DocumentData(
    locale: Locale,
    slug: Slug,
    enSlug: Slug,
    id: DocId,
    title: string,
    summary: string,
    absoluteUrl: Url,
    translationStatus: Option<TranslationStatus>,
    bodyHtml: string,
    quickLinksHtml: string,
    tocHtml: string,
    raw: string,
    lastModified: Option<string>)

  datatype ApiPayload = ApiPayload(documentData: Option<DocumentData>, redirectUrl: Option<Url>)

  /**
   * `document_api_data(doc, redirect_url)`: a non-empty redirect URL gives the
   * redirect-only payload; otherwise the document's data and no redirect.
   */
  function DocumentApiData(s: Store, doc: Option<Document>, redirectUrl: Option<Url>): (r: ApiPayload)
    requires (redirectUrl.Some? && redirectUrl.value != "") || doc.Some?
    ensures redirectUrl.Some? && redirectUrl.value != "" ==> r.documentData.None? && r.redirectUrl == redirectUrl
    ensures !(redirectUrl.Some? && redirectUrl.value != "") ==>
              r.redirectUrl.None? && r.documentData.Some?
              && var data := r.documentData.value;
                 data.locale == doc.value.locale && data.slug == doc.value.slug && data.id == doc.value.id
                 && data.enSlug == EnSlug(s, doc.value)
                 && data.translationStatus == TranslationStatusOf(doc.value)
                 && data.title == doc.value.title && data.summary == doc.value.summaryHtml
                 && data.absoluteUrl == doc.value.absoluteUrl
                 && data.bodyHtml == doc.value.bodyHtml && data.quickLinksHtml == doc.value.quickLinksHtml
                 && data.tocHtml == doc.value.tocHtml
                 && data.raw == doc.value.html
                 && (data.lastModified.Some? <==> doc.value.currentRevision.Some?)
                 && (data.lastModified.Some? ==> data.lastModified.value == doc.value.currentRevision.value.created)
  {
    if redirectUrl.Some? && redirectUrl.value != "" then ApiPayload(None, redirectUrl)
    else
      var d := doc.value;
      ApiPayload(Some(DocumentData(
        d.locale, d.slug, EnSlug(s, d), d.id, d.title, d.summaryHtml, d.absoluteUrl,
        TranslationStatusOf(d), d.bodyHtml, d.quickLinksHtml, d.tocHtml, d.html,
        if d.currentRevision.Some? then Some(d.currentRevision.value.created) else None)), None)
  }

  /** The document `toc` and `as_json` look for: by path, else by `?title=`, else by `?slug=`. */
  datatype DocQuery = DocQuery(locale: Locale, slug: Option<Slug>, title: Option<string>)

  /** None when the request names no document (HTTP 400). */
  function IdentifyingQuery(languageCode: Locale, path: Option<(Locale, Slug)>, q: Query): (r: Option<DocQuery>)
    ensures r.None? <==> path.None? && "title" !in q && "slug" !in q
    ensures path.Some? ==> r == Some(DocQuery(path.value.0, Some(path.value.1), None))
    ensures path.None? && "title" in q ==> r == Some(DocQuery(languageCode, None, Some(q["title"])))
    ensures path.None? && "title" !in q && "slug" in q ==> r == Some(DocQuery(languageCode, Some(q["slug"]), None))
  {
    if path.Some? then Some(DocQuery(path.value.0, Some(path.value.1), None))
    else if "title" in q then Some(DocQuery(languageCode, None, Some(q["title"])))
    else if "slug" in q then Some(DocQuery(languageCode, Some(q["slug"]), None))
    else None
  }

  /** A live, approved document matching the query. */
  predicate Matches(dq: DocQuery, d: Document) {
    !d.deleted && d.currentRevision.Some? && d.locale == dq.locale
    && (dq.slug.Some? ==> d.slug == dq.slug.value)
    && (dq.title.Some? ==> d.title == dq.title.value)
  }

  /** What `get_object_or_404(Document, **query)` does. */
  datatype Lookup = Missing | Ambiguous | Found(doc: Document)

  /** The rows matching the query, in primary-key order. */
  function Matching(s: Store, dq: DocQuery): (r: seq<Document>)
    ensures forall d :: d in r <==> d in s.docs && Matches(dq, d)
  {
    Where(s.docs, (d: Document) => Matches(dq, d))
  }

  function FindDocument(s: Store, dq: DocQuery): (r: Lookup)
    ensures r.Missing? <==> forall d :: d in s.docs ==> !Matches(dq, d)
    ensures r.Found? <==> |Matching(s, dq)| == 1
    ensures r.Ambiguous? <==> |Matching(s, dq)| > 1
    ensures r.Found? ==> r.doc in s.docs && Matches(dq, r.doc)
  {
    var all := Matching(s, dq);
    if all == [] then Missing
    else
      assert all[0] in all;
      if |all| > 1 then Ambiguous
      else Found(all[0])
  }

  /** `"<ol>" + toc_html + "</ol>"` for a non-empty table of contents, nothing otherwise. */
  function WrapToc(toc: string): (r: string)
    ensures r == "" <==> toc == ""
    ensures r != "" ==> |r| == |toc| + 9 && r[..4] == "<ol>" && r[4..|r| - 5] == toc && r[|r| - 5..] == "</ol>"
  {
    if toc != "" then "<ol>" + toc + "</ol>" else toc
  }

  /** The response of `toc`: 400, 404, MultipleObjectsReturned, or the wrapped fragment. */
  datatype TocResponse = TocBadRequest | TocNotFound | TocAmbiguous | TocFragment(html: string)

  function Toc(s: Store, languageCode: Locale, path: Option<(Locale, Slug)>, q: Query): (r: TocResponse)
    ensures r.TocBadRequest? <==> IdentifyingQuery(languageCode, path, q).None?
    ensures r.TocFragment? ==> exists d :: d in s.docs && Matches(IdentifyingQuery(languageCode, path, q).value, d)
                                            && r.html == WrapToc(d.tocHtml)
    ensures IdentifyingQuery(languageCode, path, q).Some? ==>
              var dq := IdentifyingQuery(languageCode, path, q).value;
              (r.TocNotFound? <==> forall d :: d in s.docs ==> !Matches(dq, d))
              && (r.TocFragment? <==> |Matching(s, dq)| == 1)
  {
    match IdentifyingQuery(languageCode, path, q)
    case None => TocBadRequest
    case Some(dq) =>
      match FindDocument(s, dq)
      case Missing => TocNotFound
      case Ambiguous => TocAmbiguous
      case Found(d) => TocFragment(WrapToc(d.tocHtml))
  }

  /** The response of `as_json`: `get_json_data(stale)` of the document found. */
  datatype JsonResponse = JsonBadRequest | JsonNotFound | JsonAmbiguous | JsonData(doc: Document, stale: bool)

  /** Only a signed-in user on the wiki domain sending `Cache-Control: no-cache` gets fresh data. */
  function AsJson(s: Store, req: Request, languageCode: Locale, path: Option<(Locale, Slug)>): (r: JsonResponse)
    ensures r.JsonBadRequest? <==> IdentifyingQuery(languageCode, path, req.query).None?
    ensures r.JsonData? ==> Matches(IdentifyingQuery(languageCode, path, req.query).value, r.doc)
                            && (!r.stale <==> req.isWiki && req.authenticated && req.cacheControl == Some("no-cache"))
    ensures IdentifyingQuery(languageCode, path, req.query).Some? ==>
              var dq := IdentifyingQuery(languageCode, path, req.query).value;
              (r.JsonNotFound? <==> forall d :: d in s.docs ==> !Matches(dq, d))
              && (r.JsonData? <==> |Matching(s, dq)| == 1)
  {
    match IdentifyingQuery(languageCode, path, req.query)
    case None => JsonBadRequest
    case Some(dq) =>
      match FindDocument(s, dq)
      case Missing => JsonNotFound
      case Ambiguous => JsonAmbiguous
      case Found(d) =>
        var stale := !(req.isWiki && req.authenticated && req.cacheControl == Some("no-cache"));
        JsonData(d, stale)
  }
}
