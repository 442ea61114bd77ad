/**
 * The document store the views read from: the rows of the Document table
 * (live and soft-deleted) and the DocumentDeletionLog table, as values.
 *
 * The ORM querysets used by kuma/wiki/views/document.py become searches over
 * the rows in primary-key order. The database keeps (locale, slug) and
 * (parent, locale) unique, so a search that returns the first match returns
 * the row that `.get(...)` returns.
 */
module Store {
  import opened Wrappers

  type DocId = nat
  type Locale = string
  type Slug = string
  type Url = string

  /** settings.WIKI_DEFAULT_LANGUAGE and settings.LANGUAGE_CODE. */
  const DefaultLocale: Locale := "en-US"

  /** The fields of a Revision the views read. */
  datatype Revision = Revision(
    id: nat,
    created: string,              // `created.isoformat()`
    translationAge: int,
    localizationInProgress: bool)

  /**
   * One row of the Document table. Getters of the model layer whose code is
   * not part of this model (get_absolute_url, get_redirect_url,
   * get_toc_html, show_toc, is_experiment, ...) are fields holding what they
   * return for this row.
   */
  datatype Document = Document(
    id: DocId,
    locale: Locale,
    slug: Slug,
    title: string,
    html: string,                 // stored source HTML (`doc.html`)
    summaryHtml: string,
    summaryText: string,
    tocHtml: string,
    bodyHtml: string,
    quickLinksHtml: string,
    absoluteUrl: Url,             // get_absolute_url()
    isRedirect: bool,
    redirectUrl: Option<Url>,     // get_redirect_url()
    redirectDocId: Option<DocId>, // get_redirect_document(id_only=True)
    parent: Option<DocId>,        // translation source
    parentTopic: Option<DocId>,   // hierarchical parent
    currentRevision: Option<Revision>,
    latestRevision: Option<Revision>,
    isLocalizable: bool,
    isExperiment: bool,
    hasLegacyNamespace: bool,
    hasNoindexSlug: bool,
    showToc: bool,
    deleted: bool)                // soft-deleted rows are hidden from `Document.objects`

  datatype DeletionLogEntry = DeletionLogEntry(id: nat, locale: Locale, slug: Slug, reason: string)

  datatype Store = Store(docs: seq<Document>, deletionLog: seq<DeletionLogEntry>)

  /** The rows of `docs` that satisfy `p`, in their order. */
  function Where(docs: seq<Document>, p: Document -> bool): (r: seq<Document>)
    ensures |r| <= |docs|
    ensures forall d :: d in r <==> d in docs && p(d)
  {
    if docs == [] then [] else (if p(docs[0]) then [docs[0]] else []) + Where(docs[1..], p)
  }

  /** The first row of `docs` that satisfies `p`. */
  function First(docs: seq<Document>, p: Document -> bool): (r: Option<Document>)
    ensures r.Some? ==> r.value in docs && p(r.value)
    ensures r.None? <==> forall d :: d in docs ==> !p(d)
  {
    var all := Where(docs, p);
    if all == [] then None else Some(all[0])
  }

  /** `Document.objects.get(locale=locale, slug=slug)`: live rows only. */
  function Get(s: Store, locale: Locale, slug: Slug): (r: Option<Document>)
    ensures r.Some? ==> r.value in s.docs && !r.value.deleted
                        && r.value.locale == locale && r.value.slug == slug
    ensures r.None? <==> forall d :: d in s.docs && d.locale == locale && d.slug == slug ==> d.deleted
  {
    First(s.docs, (d: Document) => !d.deleted && d.locale == locale && d.slug == slug)
  }

  /** Following a foreign key: every row, deleted or not, is reachable. */
  function ById(s: Store, id: DocId): (r: Option<Document>)
    ensures r.Some? ==> r.value in s.docs && r.value.id == id
    ensures r.None? <==> forall d :: d in s.docs ==> d.id != id
  {
    First(s.docs, (d: Document) => d.id == id)
  }

  /** `doc.parent`; None when there is no parent id or no row carries it. */
  function ParentOf(s: Store, d: Document): (r: Option<Document>)
    ensures r.Some? ==> d.parent.Some? && r.value in s.docs && r.value.id == d.parent.value
    ensures r.None? <==> d.parent.None? || forall p :: p in s.docs ==> p.id != d.parent.value
  {
    if d.parent.Some? then ById(s, d.parent.value) else None
  }

  /** `doc.translated_to(locale)`: the live row in `locale` whose parent is `d`. */
  function TranslatedTo(s: Store, d: Document, locale: Locale): (r: Option<Document>)
    ensures r.Some? ==> r.value in s.docs && !r.value.deleted
                        && r.value.locale == locale && r.value.parent == Some(d.id)
    ensures r.None? <==> forall t :: t in s.docs && t.locale == locale && t.parent == Some(d.id) ==> t.deleted
  {
    First(s.docs, (t: Document) => !t.deleted && t.locale == locale && t.parent == Some(d.id))
  }

  /** `Document.deleted_objects.filter(locale=locale, slug=slug)`. */
  function DeletedAt(s: Store, locale: Locale, slug: Slug): (r: seq<Document>)
    ensures forall d :: d in r <==> d in s.docs && d.deleted && d.locale == locale && d.slug == slug
  {
    Where(s.docs, (d: Document) => d.deleted && d.locale == locale && d.slug == slug)
  }

  /** `document.get_descendants(1)`: the live rows whose parent topic is `d`. */
  function ChildrenOf(s: Store, d: Document): (r: seq<Document>)
    ensures forall c {:trigger c in r} :: c in r <==> c in s.docs && !c.deleted && c.parentTopic == Some(d.id)
  {
    Where(s.docs, (c: Document) => !c.deleted && c.parentTopic == Some(d.id))
  }

  /** `DocumentDeletionLog.objects.filter(locale=locale, slug=slug)`, in primary-key order. */
  function LogEntries(log: seq<DeletionLogEntry>, locale: Locale, slug: Slug): (r: seq<DeletionLogEntry>)
    ensures forall e :: e in r <==> e in log && e.locale == locale && e.slug == slug
  {
    if log == [] then []
    else (if log[0].locale == locale && log[0].slug == slug then [log[0]] else [])
         + LogEntries(log[1..], locale, slug)
  }
}
