# Kuma wiki document view — a Dafny model

This project models how the MDN wiki platform Kuma answers a request for a
wiki document (`kuma/wiki/views/document.py`). Given a locale and a slug, the
view either serves a page, follows a redirect, shows a deletion notice,
sends the user to the page-creation form, or answers 404. The model covers
these parts of the view:

- the lookup of the document and the *fallback reason* shown in the page
  banner (`translation_not_approved`, `no_content`, `no_translation`);
- the fallback to the default locale (en-US), with its redirect to an
  approved translation;
- the order-sensitive miss/redirect decision tree of `wiki_document` and
  `react_document`. The order is: deletion log, then HEAD, then locale
  fallback, then create-redirect or 404. On a full miss, a signed-in user
  without `raw`, `include` or `nocreate` gets a create-redirect rather than
  a 404. The React view adds the deleted-parent redirect;
- the single-hop redirect of redirect documents and its `redirect=no`
  escape;
- content-experiment (A/B test) variant selection;
- obtaining the HTML from the KumaScript renderer, with its raw fallback;
- the ordered HTML filter pipeline (summary, raw sanitising, section
  extraction, edit links, noinclude filtering);
- the title-sorted, depth-bounded tree of the `children` endpoint;
- the JSON payload of `document_api_data`, `robots_index`, the `toc`
  fragment and the `as_json` lookup.

The database is a value (`Store.Store`). It holds the rows of the Document
table (live and soft-deleted, in primary-key order) and the rows of the
deletion log. ORM queries are first-match searches over those rows. The
database keeps `(locale, slug)` and `(parent, locale)` unique, so the first
match is the row that `.get()` returns. `Document.objects` sees live rows
only. Foreign keys (`parent`, `parent_topic`) reach every row, deleted or
not, as Django's base manager does.

The parts of the view that work step by step are modelled as methods with
loops. Each method is proved equal to a specification function, and the
properties are proved about those functions:

- `Experiments.ApplyContentExperiment` loops over experiments and variants;
- `Render.GetHtmlAndErrors` reassigns its three results;
- `ContentFilter.FilterDocHtml` mutates a parsed tree (`ContentTool`);
- `TreeBuilder.MakeDocStructure` appends subtrees in a loop;
- `TreeBuilder.Children` clamps `depth`;
- `Views.WikiDocument` assembles the wiki page.

The pure classifications are functions with contracts.

Modules: `Wrappers` (Option), `Store`, `Requests`, `Fallback`,
`Experiments`, `Render`, `ContentFilter`, `TreeBuilder`, `ApiData`, `Views`.

## Model

| member | source | states |
|---|---|---|
| Store.Get | kuma/wiki/views/document.py:301-305 | the live row at (locale, slug) when one exists, None exactly when every row there is soft-deleted |
| Store.ParentOf | kuma/wiki/views/document.py:309 | `doc.parent`: the row carrying the document's parent id; None iff there is no parent id or no row carries it |
| Store.TranslatedTo | kuma/wiki/views/document.py:219 | a live row in the locale whose parent is the document, None exactly when there is none |
| Store.DeletedAt | kuma/wiki/views/document.py:680-682 | exactly the soft-deleted rows at (locale, slug) |
| Store.LogEntries | kuma/wiki/views/document.py:676-678 | exactly the deletion-log entries for (locale, slug) |
| Store.ChildrenOf | kuma/wiki/views/document.py:105 | exactly the live rows whose parent topic is the document |
| Fallback.DocAndFallbackReason | kuma/wiki/views/document.py:248-318 | a found document without a current revision is `TranslationNotApproved` iff its parent is approved, else `NoContent`; an approved one has no reason; a miss has none |
| Fallback.DefaultLocaleFallback | kuma/wiki/views/document.py:204-237 | the en-US document is returned; redirect iff its translation is approved, to that URL with the query; `TranslationNotApproved` iff approved en-US doc and unapproved translation; `NoTranslation` iff approved en-US doc and no translation; never a redirect and a reason together |
| Fallback.FirstParentUrl | kuma/wiki/views/document.py:241-245 | the URL of the parent of a listed document whose parent exists; None iff no listed document has one |
| Fallback.DeletedParentRedirectUrl | kuma/wiki/views/document.py:240-245 | some soft-deleted document at (locale, slug) has a parent and the URL is that parent's; None iff none does |
| Experiments.VariantDoc | kuma/wiki/views/document.py:351-364 | found iff some variant with that name has a live document in the page's locale, and the result is that document |
| Experiments.Selection | kuma/wiki/views/document.py:334-366 | no selection: original doc, `selected` and `selectionIsValid` unset; a truthy selection sets `selectionIsValid` to whether the variant has a live document; a valid one is served and recorded as `selected`, an invalid one keeps the original doc and leaves `selected` unset |
| Experiments.NoExperimentIff | kuma/wiki/views/document.py:333-367 | the parameters are None iff no experiment lists the page, and then the page is unchanged |
| Experiments.FirstExperimentWins | kuma/wiki/views/document.py:333-335 | the first experiment that lists the page decides |
| Experiments.OnlyExistingVariantServed | kuma/wiki/views/document.py:352-364 | the served document is the requested one, or a live document of a declared variant in the same locale with a valid selection recorded |
| Experiments.ApplyContentExperiment | kuma/wiki/views/document.py:321-367 | the loop returns what the experiment specification returns |
| Render.CacheControl | kuma/wiki/views/document.py:64-70 | `no-cache` iff the user is signed in and sent `Cache-Control: no-cache` |
| Render.HtmlFor | kuma/wiki/views/document.py:60-85 | without `use_rendered` the stored HTML, no errors, no fallback; raw fallback iff the renderer reports no content, keeping the stored HTML; an empty rendered body keeps the stored HTML; non-empty errors are reported |
| Render.GetHtmlAndErrors | kuma/wiki/views/document.py:48-85 | the method's three results equal the specification `HtmlFor` |
| ContentFilter.TraceSteps | kuma/wiki/views/document.py:162-181 | ids and the safety filter are applied iff `raw`; extraction iff a non-empty `section`; edit links iff signed in and (`edit_links` or not `raw`) |
| ContentFilter.RanksAppend | kuma/wiki/views/document.py:158-183 | the steps of a concatenated trace are those of its parts |
| ContentFilter.TraceInOrder | kuma/wiki/views/document.py:158-183 | the applied steps are in the fixed order (ids, safety, extraction, edit links), none twice |
| ContentFilter.Filtered | kuma/wiki/views/document.py:144-192 | `summary` gives the summary HTML; no parsing parameter gives the input unchanged; otherwise the serialized trace, wrapped by noinclude filtering iff `include` |
| ContentFilter.EditLinksIff | kuma/wiki/views/document.py:178-181 | edit links appear in the output iff the user is signed in and (`edit_links` is set or `raw` is not) |
| ContentFilter.ContentTool.Parse | kuma/wiki/views/document.py:158 | a fresh tree of the HTML with no operation applied |
| ContentFilter.ContentTool.InjectSectionIdsStep | kuma/wiki/views/document.py:168 | the tree's operation log grows by section-id injection, nothing else changes |
| ContentFilter.ContentTool.FilterEditorSafetyStep | kuma/wiki/views/document.py:169 | the operation log grows by the editor-safety filter |
| ContentFilter.ContentTool.ExtractSectionStep | kuma/wiki/views/document.py:173-174 | the operation log grows by the extraction of the given section |
| ContentFilter.ContentTool.InjectSectionEditingLinksStep | kuma/wiki/views/document.py:178-181 | the operation log grows by edit-link injection for the document's slug and locale |
| ContentFilter.FilterDocHtml | kuma/wiki/views/document.py:139-192 | the method's output equals the specification `Filtered` |
| TreeBuilder.TitleLeTotal | kuma/wiki/views/document.py:106 | the title order used by the sort is total |
| TreeBuilder.TitleLeTransitive | kuma/wiki/views/document.py:106 | the title order used by the sort is transitive |
| TreeBuilder.InsertPermutes | kuma/wiki/views/document.py:106 | inserting adds exactly that document |
| TreeBuilder.InsertSorted | kuma/wiki/views/document.py:106 | inserting into a title-sorted list keeps it sorted |
| TreeBuilder.SortByTitlePermutes | kuma/wiki/views/document.py:106 | the sort is a permutation of the children |
| TreeBuilder.SortByTitleSorted | kuma/wiki/views/document.py:106 | the sort puts the children in ascending title order |
| TreeBuilder.NonRedirectsSorted | kuma/wiki/views/document.py:106-110 | dropping redirects keeps title order and keeps only non-redirect children |
| TreeBuilder.StructureShape | kuma/wiki/views/document.py:88-111 | None iff the document is a redirect; otherwise a tree rooted at it with no redirect anywhere, subpages title-ordered at every level, and no node more than `depth - level` levels down |
| TreeBuilder.SortedTrees | kuma/wiki/views/document.py:106-110 | the subtrees built from title-sorted children are in title order and each well shaped |
| TreeBuilder.SubpagesShape | kuma/wiki/views/document.py:104-110 | the subpages are the trees of the non-redirect children, in order, each well shaped |
| TreeBuilder.MakeDocStructure | kuma/wiki/views/document.py:88-111 | the recursive method with its append loop returns the specification `DocStructure` |
| TreeBuilder.Children | kuma/wiki/views/document.py:375-396 | missing document: "Document does not exist."; redirect: "Document has moved."; otherwise the tree with depth capped at 5, with no redirects, title-ordered, at most 5 levels deep |
| TreeBuilder.WellShapedWeaken | kuma/wiki/views/document.py:380-383 | a tree well shaped within a depth bound is well shaped within any larger bound |
| ApiData.EnSlug | kuma/wiki/views/document.py:985-990 | the document's slug if it is en-US, else the parent's slug if the parent is en-US, else empty |
| ApiData.TranslationStatusOf | kuma/wiki/views/document.py:997-1002 | `outdated` iff a parent exists, localization is in progress and age is at least 10; `in-progress` iff the same with age below 10 |
| ApiData.DocumentApiData | kuma/wiki/views/document.py:974-1053 | a non-empty redirect URL gives no document data and that URL; otherwise no redirect and the document's locale, slug, id, en-US slug, title, summary HTML, absolute URL, translation status, body, quick-links and TOC HTML, raw HTML and last-modified time |
| ApiData.IdentifyingQuery | kuma/wiki/views/document.py:480-492 | a bad request iff no path, no `title` and no `slug`; a path selects by its locale and slug; else `title` selects by title in the request's language; else `slug` selects by slug |
| ApiData.FindDocument | kuma/wiki/views/document.py:494 | missing iff no live approved row matches; found iff exactly one does, and it is that row; ambiguous iff several do |
| ApiData.WrapToc | kuma/wiki/views/document.py:495-497 | a non-empty fragment is wrapped in `<ol>` and `</ol>`; an empty one stays empty |
| ApiData.Toc | kuma/wiki/views/document.py:476-499 | 400 iff the request names no document; otherwise 404 iff no row matches, the wrapped table of contents iff exactly one matches |
| ApiData.AsJson | kuma/wiki/views/document.py:508-540 | 400 iff nothing names a document; otherwise 404 iff no row matches, data of the matching row iff exactly one matches; data is fresh only for a signed-in user on the wiki domain sending `no-cache` |
| Views.RedirectToCreate | kuma/wiki/views/document.py:597-617 | a single-segment slug creates at the top level; a nested slug with no live parent gives 404; with a live parent, a create target iff the parent is not a redirect or redirects to a document, whose id becomes the parent id |
| Views.RedirectFor | kuma/wiki/views/document.py:733-737 | a redirect iff `redirect` is not `no` and the redirect URL is non-empty and differs from the document's own URL; the query is carried over |
| Views.Found | kuma/wiki/views/document.py:733-751 | a permanent redirect iff `RedirectFor` gives one, else the document is displayed with its reason |
| Views.FallbackStep | kuma/wiki/views/document.py:693-700 | a result iff en-US has the slug; an approved translation gives the translation redirect; otherwise the en-US document goes through `Found` with the en-US fallback reason |
| Views.WikiMiss | kuma/wiki/views/document.py:672-726 | deleted (logged and soft-deleted) comes first; then HEAD is 404; then the fallback; a signed-in GET without truthy `raw`/`include`/`nocreate`, with nothing deleted and no en-US document, gets the create-redirect iff `RedirectToCreate` gives a target, else 404; no create-redirect otherwise |
| Views.WikiResolve | kuma/wiki/views/document.py:664-751 | a found document is followed or displayed with its reason, otherwise the miss path; the deletion outcome needs restore permission; a displayed document has no pending redirect |
| Views.WikiMissIsNotFound | kuma/wiki/views/document.py:703-712 | a miss with nothing deleted (no log entry or no soft-deleted row) and no en-US document is 404 for a signed-out user or with `raw`/`include`/`nocreate` set |
| Views.ReactResolve | kuma/wiki/views/document.py:856-903 | wiki-only query parameters send the request to the wiki domain, and only they do; otherwise a found document goes through `Found` with its reason; a HEAD miss is 404; a GET miss takes `FallbackStep` first, then outside en-US the deleted-parent redirect, else 404; never a deletion page or create-redirect |
| Views.DeletedParentRedirectIff | kuma/wiki/views/document.py:890-897 | after both lookups miss on a GET, the deleted-parent redirect is taken iff the locale is not en-US and a deleted translation's parent exists, else 404 |
| Views.RevisionHeader | kuma/wiki/views/document.py:195-200 | the header is present iff the current revision id is non-zero, and carries that id |
| Views.SeoParentTitle | kuma/wiki/views/document.py:114-136 | empty when there is no SEO root; the parent topic's title after " - " when its slug is the root; otherwise the title of the live root row in the locale after " - ", empty iff there is none |
| Views.ParamsOf | kuma/wiki/views/document.py:753-756 | `raw`, `summary`, `include` and `edit_links` are set by presence, `section` is the value |
| Views.WikiDocument | kuma/wiki/views/document.py:664-853 | terminal outcomes are returned as resolved; otherwise the raw view iff `raw`, with the experiment's document rendered and filtered; the page context holds the original document, its reason, SEO summary and parent title, the served document's TOC, quick links and body; never-cache iff render errors or a signed-in user; the revision header is the served document's |
| Views.RobotsIndex | kuma/wiki/views/document.py:937-956 | indexed iff no fallback reason, non-empty HTML, not an experiment, no legacy namespace, no noindex slug, and an allowed host |
| Views.FallbackPagesNotIndexed | kuma/wiki/views/document.py:877-939 | a page served through the en-US fallback with an approved en-US document is never indexed; a page found in the requested locale is indexed only when approved |
| Views.ReactDocument | kuma/wiki/views/document.py:856-971 | terminal outcomes as resolved; otherwise the document's API data, its SEO summary and parent title, robots meta `index, follow` iff `RobotsIndex`, else `noindex, nofollow`, and its revision header |
| Views.DocumentView | kuma/wiki/views/document.py:657-661 | the wiki view iff the request is on the wiki domain, answering as `WikiDocument` does; else the React view |

## Left out

- Django plumbing is not modelled: decorators (caching, CSRF, rate limits,
  CORS, path processing), response construction and headers,
  `messages.add_message`, and template rendering. Responses are datatypes
  that carry the decisions those calls make.
- The KumaScript renderer (`doc.get_rendered`) and
  `kumascript.should_use_rendered` are function parameters. `macro_sources`
  is not modelled.
- The HTML parser in `kuma.wiki.content` is not part of this model. Its
  operations are recorded as a trace of steps, so only their order and
  presence are modelled, not what they do to the HTML. Noinclude filtering
  (`filter_out_noinclude`) is likewise only recorded as a wrapper around the
  serialized text.
- `split_slug`, `urlparams`, `reverse`, `absolutify`, `get_hreflang`,
  `gettext` and `LOCALES` are not part of this model. The result of
  `split_slug` is an input (`Views.SlugDict`). URLs with a carried-over query
  are `Requests.Target` values. The create URL is `Views.CreateTarget`.
- The `documentData` fields `language`, `hrefLang`, `wikiURL`, `editURL`,
  `translateURL`, `parents` and `translations`, and the page-context entries
  for contributors, share text and other translations, are not modelled.
  They come from model methods and helpers whose code is not part of this
  model.
- `move`, `subscribe`, `subscribe_to_tree` and `repair_breadcrumbs` are not
  modelled. They call into the task queue, the notification store and the
  model layer.
- `TreeBuilder.Children`: `int()` parsing of `depth` is not modelled; the
  parameter arrives as an integer or absent. As in the source, a negative
  value is not clamped from below.
- The in-place `list.sort` of `_make_doc_structure` is the function
  `TreeBuilder.SortByTitle`, a stable sort over code-point order. Its result
  is proved sorted and a permutation.
- `ApiData.AsJson`: the discarded `parse(...).injectSectionIDs().serialize()`
  call is not modelled, because its result is unused. `get_json_data` is
  represented by the document and the `stale` flag.
- A parent or parent-topic id that names no row is treated as no parent. In
  the source that access would raise `DoesNotExist`.
- Experiment variants are a sequence of (name, slug) pairs. The source uses
  a dict, so names there are unique; the model looks for the first variant
  with that name that has a document.
- `ApiData.DocumentApiData` requires a document or a non-empty redirect URL.
  The source would fail on an attribute access without either.
