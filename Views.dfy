/**
 * The document view (`document`, `wiki_document`, `react_document`): the
 * order-sensitive decision tree that turns a (locale, slug) request into a
 * 404, a redirect, or a page, and the assembly of the page.
 */
module Views {
  import opened Wrappers
  import opened Store
  import opened Requests
  import opened Fallback
  import opened Experiments
  import opened Render
  import opened ContentFilter
  import opened ApiData

  /** What `split_slug(document_slug)` returns (the helper itself is not part of this model). */
  datatype SlugDict = SlugDict(parent: Slug, specific: Slug, length: nat, seoRoot: Slug)

  /** The create-page URL: `wiki.create` in `locale` with the parent id (if any) and the slug. */
  datatype CreateTarget = CreateTarget(locale: Locale, parentId: Option<DocId>, slug: Slug)

  /** The terminal outcomes of the decision tree. */
  datatype Outcome =
    | NotFound                             // Http404
    | DeletedLog(entry: DeletionLogEntry)  // 404 showing the latest deletion-log entry, never cached
    | TranslationRedirect(target: Target)  // 302 to the approved translation, query carried over
    | CreateRedirect(create: CreateTarget) // 302 to the create page, never cached
    | DeletedParentRedirect(url: Url)      // 302 to the parent of a deleted translation
    | PermanentRedirect(target: Target)    // 301 following a redirect document, query carried over
    | ToWiki                               // redirect_to_wiki(request)

  /** Either a terminal outcome, or the document to display with its fallback reason. */
  datatype Resolution = Done(outcome: Outcome) | Display(doc: Document, reason: Option<FallbackReason>)

  /**
   * `_document_redirect_to_create`: a nested slug needs its parent document
   * (followed once if it is a redirect); None stands for Http404.
   */
  function RedirectToCreate(s: Store, slug: Slug, locale: Locale, sd: SlugDict): (r: Option<CreateTarget>)
    ensures sd.length <= 1 ==> r == Some(CreateTarget(locale, None, slug))
    ensures sd.length > 1 && Get(s, locale, sd.parent).None? ==> r.None?
    ensures sd.length > 1 && r.Some? ==>
              r.value.slug == sd.specific && r.value.locale == locale && r.value.parentId.Some?
              && var parent := Get(s, locale, sd.parent);
                 parent.Some?
                 && r.value.parentId == (if parent.value.isRedirect then parent.value.redirectDocId else Some(parent.value.id))
    ensures sd.length > 1 && Get(s, locale, sd.parent).Some? ==>
              (r.Some? <==> !Get(s, locale, sd.parent).value.isRedirect || Get(s, locale, sd.parent).value.redirectDocId.Some?)
  {
    if sd.length > 1 then
      match Get(s, locale, sd.parent)
      case None => None
      case Some(parentDoc) =>
        if parentDoc.isRedirect then
          match parentDoc.redirectDocId
          case None => None
          case Some(id) => Some(CreateTarget(locale, Some(id), sd.specific))
        else Some(CreateTarget(locale, Some(parentDoc.id), sd.specific))
    else Some(CreateTarget(locale, None, slug))
  }

  /**
   * The single redirect hop for a found document: none when the request says
   * `redirect=no`, when the document has no (non-empty) redirect URL, or when
   * that URL is the document's own.
   */
  function RedirectFor(req: Request, doc: Document): (r: Option<Target>)
    ensures r.Some? <==>
              Param(req.query, "redirect") != Some("no")
              && doc.redirectUrl.Some? && doc.redirectUrl.value != "" && doc.redirectUrl.value != doc.absoluteUrl
    ensures r.Some? ==> r.value == Target(doc.redirectUrl.value, req.query)
  {
    var redirectUrl := if Param(req.query, "redirect") == Some("no") then None else doc.redirectUrl;
    if redirectUrl.Some? && redirectUrl.value != "" && redirectUrl.value != doc.absoluteUrl then
      Some(Target(redirectUrl.value, req.query))
    else None
  }

  /** A document was found: follow its redirect, or display it. */
  function Found(req: Request, doc: Document, reason: Option<FallbackReason>): (r: Resolution)
    ensures r.Done? <==> RedirectFor(req, doc).Some?
    ensures r.Done? ==> r.outcome == PermanentRedirect(RedirectFor(req, doc).value)
    ensures r.Display? ==> r.doc == doc && r.reason == reason
  {
    match RedirectFor(req, doc)
    case Some(t) => Done(PermanentRedirect(t))
    case None => Display(doc, reason)
  }

  /**
   * The default-locale step both views take on a miss: None when en-US has
   * no document at the slug; otherwise the redirect to the approved
   * translation, or the en-US document found (and its own redirect followed).
   */
  function FallbackStep(s: Store, req: Request, locale: Locale, slug: Slug): (r: Option<Resolution>)
    ensures r.Some? <==> Get(s, DefaultLocale, slug).Some?
    ensures r.Some? && r.value.Display? ==>
              r.value.doc == Get(s, DefaultLocale, slug).value
              && r.value.reason == DefaultLocaleFallback(s, req.query, slug, locale).reason
              && RedirectFor(req, r.value.doc).None?
    ensures r.Some? && r.value.Done? ==>
              (r.value.outcome.TranslationRedirect?
               && Some(r.value.outcome.target) == DefaultLocaleFallback(s, req.query, slug, locale).redirect)
              || (r.value.outcome.PermanentRedirect?
                  && Some(r.value.outcome.target) == RedirectFor(req, Get(s, DefaultLocale, slug).value))
    ensures var f := DefaultLocaleFallback(s, req.query, slug, locale);
            f.redirect.Some? ==> r == Some(Done(TranslationRedirect(f.redirect.value)))
    ensures var f := DefaultLocaleFallback(s, req.query, slug, locale);
            f.doc.Some? && f.redirect.None? ==> r == Some(Found(req, f.doc.value, f.reason))
  {
    var fallback := DefaultLocaleFallback(s, req.query, slug, locale);
    if fallback.doc.None? then None
    else if fallback.redirect.Some? then Some(Done(TranslationRedirect(fallback.redirect.value)))
    else Some(Found(req, fallback.doc.value, fallback.reason))
  }

  /** `request.GET` holds a non-empty `raw`, `include` or `nocreate`. */
  predicate BlocksCreate(q: Query) {
    Truthy(q, "raw") || Truthy(q, "include") || Truthy(q, "nocreate")
  }

  /** The slug was deleted: logged, with a soft-deleted document still there. */
  predicate WasDeleted(s: Store, locale: Locale, slug: Slug) {
    LogEntries(s.deletionLog, locale, slug) != [] && DeletedAt(s, locale, slug) != []
  }

  /**
   * The wiki view's miss path: the deletion log first, then HEAD, then the
   * default-locale fallback, then the create redirect for a signed-in user
   * whose query does not forbid it, or a 404.
   */
  function WikiMiss(s: Store, req: Request, locale: Locale, slug: Slug, sd: SlugDict): (r: Resolution)
    ensures WasDeleted(s, locale, slug) ==>
              r == Done(if req.canRestore then DeletedLog(Last(LogEntries(s.deletionLog, locale, slug))) else NotFound)
    ensures !WasDeleted(s, locale, slug) && req.verb == HeadMethod ==> r == Done(NotFound)
    ensures !WasDeleted(s, locale, slug) && req.verb.GetMethod? ==>
              FallbackStep(s, req, locale, slug).Some? ==> r == FallbackStep(s, req, locale, slug).value
    ensures r.Done? && r.outcome.CreateRedirect? ==> req.authenticated && !BlocksCreate(req.query)
    ensures r.Done? && r.outcome.CreateRedirect? ==> req.verb.GetMethod?
    ensures r.Done? && r.outcome.CreateRedirect? ==> Get(s, DefaultLocale, slug).None?
    ensures r.Done? && r.outcome.CreateRedirect? ==> !WasDeleted(s, locale, slug)
    ensures r.Done? && r.outcome.CreateRedirect? ==> Some(r.outcome.create) == RedirectToCreate(s, slug, locale, sd)
    ensures !WasDeleted(s, locale, slug) && req.verb.GetMethod? && Get(s, DefaultLocale, slug).None?
            && req.authenticated && !BlocksCreate(req.query) ==>
              r == match RedirectToCreate(s, slug, locale, sd)
                   case Some(create) => Done(CreateRedirect(create))
                   case None => Done(NotFound)
  {
    if WasDeleted(s, locale, slug) then
      Done(if req.canRestore then DeletedLog(Last(LogEntries(s.deletionLog, locale, slug))) else NotFound)
    else if req.verb == HeadMethod then Done(NotFound)
    else
      var fallback := FallbackStep(s, req, locale, slug);
      if fallback.Some? then fallback.value
      else if BlocksCreate(req.query) || !req.authenticated then Done(NotFound)
      else
        match RedirectToCreate(s, slug, locale, sd)
        case None => Done(NotFound)
        case Some(create) => Done(CreateRedirect(create))
  }

  /**
   * The decision tree of `wiki_document` up to the page itself: the
   * document in the requested locale (its redirect followed unless
   * `redirect=no`), else the miss path.
   */
  function WikiResolve(s: Store, req: Request, locale: Locale, slug: Slug, sd: SlugDict): (r: Resolution)
    ensures Get(s, locale, slug).Some? ==>
              r == Found(req, Get(s, locale, slug).value, DocAndFallbackReason(s, locale, slug).1)
    ensures Get(s, locale, slug).None? ==> r == WikiMiss(s, req, locale, slug, sd)
    ensures r.Done? && r.outcome.DeletedLog? ==> req.canRestore && WasDeleted(s, locale, slug)
    ensures r.Done? && (r.outcome.PermanentRedirect? || r.outcome.TranslationRedirect?) ==>
              Param(req.query, "redirect") != Some("no") || r.outcome.TranslationRedirect?
    ensures r.Done? ==> !r.outcome.DeletedParentRedirect? && !r.outcome.ToWiki?
    ensures r.Display? ==> RedirectFor(req, r.doc).None?
  {
    var (doc, fallbackReason) := DocAndFallbackReason(s, locale, slug);
    if doc.Some? then Found(req, doc.value, fallbackReason)
    else WikiMiss(s, req, locale, slug, sd)
  }

  /** `deletion_logs.order_by("-pk")[0]`: the log is kept in primary-key order. */
  function Last(entries: seq<DeletionLogEntry>): DeletionLogEntry
    requires entries != []
  {
    entries[|entries| - 1]
  }

  /**
   * Nothing to show, nothing deleted (no log entry, or no soft-deleted row
   * left), no default-locale document, and a
   * visitor who may not create the page (signed out, or `raw`, `include` or
   * `nocreate` set): the wiki view answers 404.
   */
  lemma WikiMissIsNotFound(s: Store, req: Request, locale: Locale, slug: Slug, sd: SlugDict)
    requires Get(s, locale, slug).None? && !WasDeleted(s, locale, slug)
    requires Get(s, DefaultLocale, slug).None?
    requires !req.authenticated || BlocksCreate(req.query)
    ensures WikiResolve(s, req, locale, slug, sd) == Done(NotFound)
  {
  }

  /**
   * The decision tree of `react_document`: wiki-only parameters go to the
   * wiki; no deletion-log view; on a miss in a locale other than en-US, a
   * deleted translation whose parent survives redirects to that parent.
   */
  function ReactResolve(s: Store, req: Request, wikiOnlyParams: set<string>, locale: Locale, slug: Slug): (r: Resolution)
    ensures (exists k :: k in req.query && k in wikiOnlyParams) <==> r == Done(ToWiki)
    ensures r != Done(ToWiki) && Get(s, locale, slug).Some? ==>
              r == Found(req, Get(s, locale, slug).value, DocAndFallbackReason(s, locale, slug).1)
    ensures r != Done(ToWiki) && Get(s, locale, slug).None? && req.verb == HeadMethod ==> r == Done(NotFound)
    ensures r != Done(ToWiki) && Get(s, locale, slug).None? && req.verb.GetMethod? ==>
              r == match FallbackStep(s, req, locale, slug)
                   case Some(fallback) => fallback
                   case None =>
                     if locale != "en-US" && DeletedParentRedirectUrl(s, locale, slug).Some?
                     then Done(DeletedParentRedirect(DeletedParentRedirectUrl(s, locale, slug).value))
                     else Done(NotFound)
    ensures r.Done? && r.outcome.DeletedParentRedirect? ==>
              locale != "en-US" && Get(s, locale, slug).None? && Get(s, DefaultLocale, slug).None?
              && Some(r.outcome.url) == DeletedParentRedirectUrl(s, locale, slug)
    ensures r.Done? ==> !r.outcome.DeletedLog? && !r.outcome.CreateRedirect?
    ensures r.Done? && r.outcome.PermanentRedirect? ==>
              Param(req.query, "redirect") != Some("no") && r.outcome.target.query == req.query
    ensures r.Display? ==> RedirectFor(req, r.doc).None?
  {
    if exists k :: k in req.query && k in wikiOnlyParams then Done(ToWiki)
    else
      var (doc, fallbackReason) := DocAndFallbackReason(s, locale, slug);
      if doc.Some? then Found(req, doc.value, fallbackReason)
      else if req.verb == HeadMethod then Done(NotFound)
      else
        var fallback := FallbackStep(s, req, locale, slug);
        if fallback.Some? then fallback.value
        else if locale != "en-US" && DeletedParentRedirectUrl(s, locale, slug).Some? then
          Done(DeletedParentRedirect(DeletedParentRedirectUrl(s, locale, slug).value))
        else Done(NotFound)
  }

  /** A request in en-US never takes the deleted-parent redirect; another locale takes it whenever it applies. */
  lemma DeletedParentRedirectIff(s: Store, req: Request, wikiOnlyParams: set<string>, locale: Locale, slug: Slug)
    requires forall k :: k in req.query ==> k !in wikiOnlyParams
    requires Get(s, locale, slug).None? && Get(s, DefaultLocale, slug).None? && req.verb.GetMethod?
    ensures var r := ReactResolve(s, req, wikiOnlyParams, locale, slug);
            r.Done? && (r.outcome.DeletedParentRedirect? <==> locale != "en-US" && DeletedParentRedirectUrl(s, locale, slug).Some?)
            && (!r.outcome.DeletedParentRedirect? ==> r.outcome == NotFound)
  {
  }

  /** `X-kuma-revision` and `analytics_page_revision`: the current revision id, when it is non-zero. */
  function RevisionHeader(d: Document): (r: Option<nat>)
    ensures r.Some? <==> d.currentRevision.Some? && d.currentRevision.value.id != 0
    ensures r.Some? ==> r.value == d.currentRevision.value.id
  {
    if d.currentRevision.Some? && d.currentRevision.value.id != 0 then Some(d.currentRevision.value.id) else None
  }

  /**
   * `_get_seo_parent_title`: " - " and the title of the SEO root document,
   * taken from the parent topic when its slug is the root's, else looked up
   * in `locale`; empty when there is no root.
   */
  function SeoParentTitle(s: Store, d: Document, seoRoot: Slug, locale: Locale): (r: string)
    ensures seoRoot == "" ==> r == ""
    ensures r != "" ==> exists root :: root in s.docs && root.slug == seoRoot && r == " - " + root.title
    ensures seoRoot != "" && d.parentTopic.Some? && ById(s, d.parentTopic.value).Some?
            && ById(s, d.parentTopic.value).value.slug == seoRoot ==>
              r == " - " + ById(s, d.parentTopic.value).value.title
    ensures seoRoot != "" && !(d.parentTopic.Some? && ById(s, d.parentTopic.value).Some?
                               && ById(s, d.parentTopic.value).value.slug == seoRoot) ==>
              (r == "" <==> Get(s, locale, seoRoot).None?)
              && (Get(s, locale, seoRoot).Some? ==> r == " - " + Get(s, locale, seoRoot).value.title)
  {
    if seoRoot == "" then ""
    else
      var topic := if d.parentTopic.Some? then ById(s, d.parentTopic.value) else None;
      var root := if topic.Some? && topic.value.slug == seoRoot then topic else Get(s, locale, seoRoot);
      if root.Some? then " - " + root.value.title else ""
  }

  /** The rendering parameters: flags by presence, `section` by value. */
  function ParamsOf(q: Query): (p: RenderingParams)
    ensures p.raw == ("raw" in q) && p.summary == ("summary" in q)
    ensures p.includeOnly == ("include" in q) && p.editLinks == ("edit_links" in q)
    ensures p.section == Param(q, "section")
  {
    RenderingParams(Present(q, "raw"), Present(q, "summary"), Present(q, "include"), Present(q, "edit_links"), Param(q, "section"))
  }

  /** The context of the wiki page template (the entries this model covers). */
  datatype PageContext = PageContext(
    document: Document,
    documentHtml: Html,
    tocHtml: Option<string>,
    quickLinksHtml: string,
    bodyHtml: string,
    fallbackReason: Option<FallbackReason>,
    kumascriptErrors: Option<seq<string>>,
    renderRawFallback: bool,
    seoSummary: string,
    seoParentTitle: string,
    analyticsPageRevision: Option<nat>,
    analyticsEnSlug: Slug,
    contentExperiment: Option<ExperimentParams>)

  /** The response of `wiki_document`: a terminal outcome, the raw HTML, or the page. */
  datatype WikiResponse =
    | Terminal(outcome: Outcome)
    | RawView(html: Html, neverCache: bool, revisionHeader: Option<nat>)
    | PageView(context: PageContext, neverCache: bool, revisionHeader: Option<nat>)

  /**
   * What `wiki_document` answers. After the decision tree: the content
   * experiment may swap the document, its HTML is obtained and filtered, and
   * either the raw HTML or the page is returned. `shouldUseRendered` stands
   * for `kumascript.should_use_rendered`, `renderer` for `doc.get_rendered`.
   */
  predicate WikiAnswer(s: Store, exps: seq<Experiment>, req: Request, locale: Locale, slug: Slug, sd: SlugDict,
                       shouldUseRendered: Document -> bool, renderer: Renderer, resp: WikiResponse)
  {
    var res := WikiResolve(s, req, locale, slug, sd);
    (res.Done? ==> resp == Terminal(res.outcome))
    && (res.Display? ==>
          var (doc, exp) := ContentExperiment(s, exps, req.query, req.path, res.doc);
          var rendered := HtmlFor(req, doc, shouldUseRendered(doc), renderer);
          var html := Filtered(doc, rendered.html, ParamsOf(req.query), req.authenticated);
          (resp.RawView? <==> "raw" in req.query)
          && (resp.RawView? ==> resp.html == html)
          && (resp.PageView? ==>
                resp.context.document == res.doc && resp.context.fallbackReason == res.reason
                && resp.context.documentHtml == html && resp.context.contentExperiment == exp
                && resp.context.kumascriptErrors == rendered.errors
                && resp.context.renderRawFallback == rendered.rawFallback
                && resp.context.tocHtml == (if doc.showToc then Some(doc.tocHtml) else None)
                && resp.context.quickLinksHtml == doc.quickLinksHtml
                && resp.context.bodyHtml == doc.bodyHtml
                && resp.context.seoSummary == doc.summaryText
                && resp.context.seoParentTitle == SeoParentTitle(s, res.doc, sd.seoRoot, locale)
                && resp.context.analyticsEnSlug == EnSlug(s, res.doc)
                && resp.context.analyticsPageRevision == RevisionHeader(doc))
          && !resp.Terminal?
          && resp.neverCache == (rendered.errors.Some? || req.authenticated)
          && resp.revisionHeader == RevisionHeader(doc))
  }

  /** `wiki_document`, step by step. */
  method WikiDocument(s: Store, exps: seq<Experiment>, req: Request, locale: Locale, slug: Slug, sd: SlugDict,
                      shouldUseRendered: Document -> bool, renderer: Renderer)
    returns (resp: WikiResponse)
    ensures WikiAnswer(s, exps, req, locale, slug, sd, shouldUseRendered, renderer, resp)
  {
    var resolution := WikiResolve(s, req, locale, slug, sd);
    if resolution.Done? {
      return Terminal(resolution.outcome);
    }
    var originalDoc := resolution.doc;
    var renderingParams := ParamsOf(req.query);

    var doc, expParams := ApplyContentExperiment(s, exps, req, originalDoc);

    var useRendered := shouldUseRendered(doc);
    var docHtml, ksErrors, renderRawFallback := GetHtmlAndErrors(req, doc, useRendered, renderer);

    var tocHtml := if doc.showToc && !renderingParams.raw then Some(doc.tocHtml) else None;
    var filtered := FilterDocHtml(req.authenticated, doc, docHtml, renderingParams);

    var neverCache := ksErrors.Some? || req.authenticated;
    if renderingParams.raw {
      resp := RawView(filtered, neverCache, RevisionHeader(doc));
    } else {
      var context := PageContext(
        originalDoc, filtered, tocHtml, doc.quickLinksHtml, doc.bodyHtml, resolution.reason,
        ksErrors, renderRawFallback, doc.summaryText, SeoParentTitle(s, originalDoc, sd.seoRoot, locale),
        RevisionHeader(doc), EnSlug(s, originalDoc), expParams);
      resp := PageView(context, neverCache, RevisionHeader(doc));
    }
  }

  /** Site configuration the React view reads. */
  datatype SiteConfig = SiteConfig(wikiOnlyParams: set<string>, allowRobotsDomains: set<string>)

  /**
   * `robots_index`: a page is indexed only when it is served without a
   * fallback, has content, is no experiment, no legacy-namespace or noindex
   * page, and is served from a host robots may index.
   */
  function RobotsIndex(reason: Option<FallbackReason>, doc: Document, host: string, allowed: set<string>): (r: bool)
    ensures r <==> reason.None? && doc.html != "" && !doc.isExperiment && !doc.hasLegacyNamespace
                   && !doc.hasNoindexSlug && host in allowed
  {
    if reason.Some? then false
    else if doc.html == "" then false
    else if doc.isExperiment then false
    else if doc.hasLegacyNamespace then false
    else if doc.hasNoindexSlug then false
    else if host !in allowed then false
    else true
  }

  /**
   * A page the React view serves through the en-US fallback is never
   * indexed when that en-US document is approved (it carries a fallback
   * reason); a page found in the requested locale is indexed only when it is
   * approved.
   */
  lemma FallbackPagesNotIndexed(s: Store, req: Request, config: SiteConfig, locale: Locale, slug: Slug)
    requires ReactResolve(s, req, config.wikiOnlyParams, locale, slug).Display?
    ensures var res := ReactResolve(s, req, config.wikiOnlyParams, locale, slug);
            Get(s, locale, slug).None? && Approved(res.doc) ==>
              res.doc.locale == DefaultLocale && !RobotsIndex(res.reason, res.doc, req.host, config.allowRobotsDomains)
    ensures var res := ReactResolve(s, req, config.wikiOnlyParams, locale, slug);
            Get(s, locale, slug).Some? && RobotsIndex(res.reason, res.doc, req.host, config.allowRobotsDomains) ==>
              Approved(res.doc) && res.doc.locale == locale
  {
  }

  /** The response of `react_document`. */
  datatype ReactResponse =
    | ReactTerminal(outcome: Outcome)
    | ReactPage(documentData: DocumentData, seoSummary: string, seoParentTitle: string,
                robotsMetaContent: string, revisionHeader: Option<nat>)

  /** `react_document`: the decision tree, then the page built from `document_api_data`. */
  function ReactDocument(s: Store, req: Request, config: SiteConfig, locale: Locale, slug: Slug, sd: SlugDict): (r: ReactResponse)
    ensures ReactResolve(s, req, config.wikiOnlyParams, locale, slug).Done? ==>
              r == ReactTerminal(ReactResolve(s, req, config.wikiOnlyParams, locale, slug).outcome)
    ensures ReactResolve(s, req, config.wikiOnlyParams, locale, slug).Display? ==>
              var res := ReactResolve(s, req, config.wikiOnlyParams, locale, slug);
              r.ReactPage? && Some(r.documentData) == DocumentApiData(s, Some(res.doc), None).documentData
              && (r.robotsMetaContent == "index, follow" <==> RobotsIndex(res.reason, res.doc, req.host, config.allowRobotsDomains))
              && (r.robotsMetaContent == "noindex, nofollow" <==> !RobotsIndex(res.reason, res.doc, req.host, config.allowRobotsDomains))
              && r.seoSummary == res.doc.summaryText
              && r.seoParentTitle == SeoParentTitle(s, res.doc, sd.seoRoot, locale)
              && r.revisionHeader == RevisionHeader(res.doc)
  {
    match ReactResolve(s, req, config.wikiOnlyParams, locale, slug)
    case Done(outcome) => ReactTerminal(outcome)
    case Display(doc, reason) =>
      var data := DocumentApiData(s, Some(doc), None).documentData.value;
      var robots := if RobotsIndex(reason, doc, req.host, config.allowRobotsDomains) then "index, follow" else "noindex, nofollow";
      ReactPage(data, doc.summaryText, SeoParentTitle(s, doc, sd.seoRoot, locale), robots, RevisionHeader(doc))
  }

  datatype DocumentResponse = Wiki(wiki: WikiResponse) | React(react: ReactResponse)

  /** `document`: the wiki domain gets the wiki view, every other domain the React view. */
  method DocumentView(s: Store, exps: seq<Experiment>, config: SiteConfig, req: Request, locale: Locale, slug: Slug,
                      sd: SlugDict, shouldUseRendered: Document -> bool, renderer: Renderer)
    returns (resp: DocumentResponse)
    ensures resp.Wiki? <==> req.isWiki
    ensures resp.Wiki? ==> WikiAnswer(s, exps, req, locale, slug, sd, shouldUseRendered, renderer, resp.wiki)
    ensures resp.React? ==> resp.react == ReactDocument(s, req, config, locale, slug, sd)
  {
    if req.isWiki {
      var wiki := WikiDocument(s, exps, req, locale, slug, sd, shouldUseRendered, renderer);
      return Wiki(wiki);
    }
    return React(ReactDocument(s, req, config, locale, slug, sd));
  }
}
