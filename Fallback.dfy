/**
 * Locating the document for a (locale, slug) request and explaining why a
 * document other than an approved one in the requested locale is served:
 * `_get_doc_and_fallback_reason`, `_default_locale_fallback` and
 * `_get_deleted_parent_redirect_url`.
 */
module Fallback {
  import opened Wrappers
  import opened Store
  import opened Requests

  /** The `fallback_reason` strings shown in the page banner. */
  datatype FallbackReason = TranslationNotApproved | NoContent | NoTranslation

  /** A document is approved when it has a current revision. */
  predicate Approved(d: Document) {
    d.currentRevision.Some?
  }

  /** The document has a translation parent and that parent is approved. */
  predicate ParentApproved(s: Store, d: Document) {
    var p := ParentOf(s, d);
    p.Some? && Approved(p.value)
  }

  /**
   * Look the document up in its own locale. A found document without a
   * current revision is labelled: `TranslationNotApproved` when it is the
   * translation of an approved parent, `NoContent` otherwise.
   */
  function DocAndFallbackReason(s: Store, locale: Locale, slug: Slug): (r: (Option<Document>, Option<FallbackReason>))
    ensures r.0 == Get(s, locale, slug)
    ensures r.0.None? ==> r.1.None?
    ensures r.0.Some? ==> (r.1.None? <==> Approved(r.0.value))
    ensures r.0.Some? && !Approved(r.0.value) ==>
              (r.1 == Some(TranslationNotApproved) <==> ParentApproved(s, r.0.value))
              && (r.1 == Some(NoContent) <==> !ParentApproved(s, r.0.value))
    ensures r.1 != Some(NoTranslation)
  {
    var doc := Get(s, locale, slug);
    if doc.None? then (None, None)
    else if !Approved(doc.value) && ParentApproved(s, doc.value) then (doc, Some(TranslationNotApproved))
    else if !Approved(doc.value) then (doc, Some(NoContent))
    else (doc, None)
  }

  /** `(fallback_doc, fallback_reason, redirect_url)` of `_default_locale_fallback`. */
  datatype LocaleFallback = LocaleFallback(doc: Option<Document>, reason: Option<FallbackReason>, redirect: Option<Target>)

  /**
   * The requested document is missing: look at the same slug in the default
   * locale. Redirect to its approved translation into `locale` if there is
   * one; otherwise serve the default-locale document, with a reason only when
   * that document is approved.
   */
  function DefaultLocaleFallback(s: Store, q: Query, slug: Slug, locale: Locale): (r: LocaleFallback)
    ensures r.doc == Get(s, DefaultLocale, slug)
    ensures !(r.redirect.Some? && r.reason.Some?)
    ensures r.redirect.Some? <==>
              r.doc.Some? && TranslatedTo(s, r.doc.value, locale).Some?
              && Approved(TranslatedTo(s, r.doc.value, locale).value)
    ensures r.redirect.Some? ==>
              r.redirect.value == Target(TranslatedTo(s, r.doc.value, locale).value.absoluteUrl, q)
    ensures r.reason == Some(TranslationNotApproved) <==>
              r.doc.Some? && Approved(r.doc.value) && TranslatedTo(s, r.doc.value, locale).Some?
              && !Approved(TranslatedTo(s, r.doc.value, locale).value)
    ensures r.reason == Some(NoTranslation) <==>
              r.doc.Some? && Approved(r.doc.value) && TranslatedTo(s, r.doc.value, locale).None?
    ensures r.reason != Some(NoContent)
  {
    var fallback := Get(s, DefaultLocale, slug);
    if fallback.None? then LocaleFallback(None, None, None)
    else
      var translation := TranslatedTo(s, fallback.value, locale);
      if translation.Some? && Approved(translation.value) then
        LocaleFallback(fallback, None, Some(Target(translation.value.absoluteUrl, q)))
      else if translation.Some? && Approved(fallback.value) then
        LocaleFallback(fallback, Some(TranslationNotApproved), None)
      else if Approved(fallback.value) then
        LocaleFallback(fallback, Some(NoTranslation), None)
      else
        LocaleFallback(fallback, None, None)
  }

  /** The absolute URL of the parent of the first of `deleted` whose parent row exists. */
  function FirstParentUrl(s: Store, deleted: seq<Document>): (r: Option<Url>)
    ensures r.Some? ==> exists d :: d in deleted && ParentOf(s, d).Some? && r.value == ParentOf(s, d).value.absoluteUrl
    ensures r.None? <==> forall d :: d in deleted ==> ParentOf(s, d).None?
  {
    if deleted == [] then None
    else
      var p := ParentOf(s, deleted[0]);
      if p.Some? then Some(p.value.absoluteUrl) else FirstParentUrl(s, deleted[1..])
  }

  /**
   * A soft-deleted translation at (locale, slug) whose parent still exists
   * redirects to that parent.
   */
  function DeletedParentRedirectUrl(s: Store, locale: Locale, slug: Slug): (r: Option<Url>)
    ensures r.Some? ==> exists d :: d in DeletedAt(s, locale, slug) && ParentOf(s, d).Some?
                                    && r.value == ParentOf(s, d).value.absoluteUrl
    ensures r.None? <==> forall d :: d in DeletedAt(s, locale, slug) ==> ParentOf(s, d).None?
  {
    var withParent := Where(s.docs, (d: Document) => d.deleted && d.locale == locale && d.slug == slug && d.parent.Some?);
    assert forall d :: d in withParent <==> d in DeletedAt(s, locale, slug) && d.parent.Some?;
    FirstParentUrl(s, withParent)
  }
}
