/**
 * Post-processing of a document's HTML according to the request
 * (`_filter_doc_html`). The HTML parser of kuma.wiki.content is not part of
 * this model: a parsed tree is its source text plus the trace of operations
 * applied to it, and the serialized output records that trace.
 */
module ContentFilter {
  import opened Wrappers
  import opened Store

  /** The tree operations the filter can apply. */
  datatype Step =
    | InjectSectionIds
    | FilterEditorSafety
    | ExtractSection(id: string)
    | InjectSectionEditingLinks(slug: Slug, locale: Locale)

  /** HTML text as the filter produces it. */
  datatype Html =
    | Text(text: string)                             // a string the filter passes through untouched
    | Serialized(source: string, steps: seq<Step>)   // parse(source), then `steps` in order, then serialize()
    | NoIncludeFiltered(inner: Html)                 // filter_out_noinclude(inner)

  /** The rendering parameters read from the query string. */
  datatype RenderingParams = RenderingParams(raw: bool, summary: bool, includeOnly: bool, editLinks: bool, section: Option<string>)

  /** `if rendering_params["section"]`: a non-empty section id. */
  predicate SectionRequested(p: RenderingParams) {
    p.section.Some? && p.section.value != ""
  }

  /** Some parameter asks for the HTML to be parsed. */
  predicate NeedsParsing(p: RenderingParams) {
    SectionRequested(p) || p.raw || p.editLinks || p.includeOnly
  }

  /** Section edit links go in for a signed-in user unless a raw view asked for none. */
  predicate InjectsEditLinks(p: RenderingParams, authenticated: bool) {
    (p.editLinks || !p.raw) && authenticated
  }

  /** The position of a step in the filter's fixed order. */
  function Rank(st: Step): nat {
    match st
    case InjectSectionIds => 0
    case FilterEditorSafety => 1
    case ExtractSection(_) => 2
    case InjectSectionEditingLinks(_, _) => 3
  }

  /** The steps of `t` appear in the fixed order, each at most once. */
  predicate InOrder(t: seq<Step>) {
    forall i, j :: 0 <= i < j < |t| ==> Rank(t[i]) < Rank(t[j])
  }

  /** The ranks of the steps of `t`. */
  function Ranks(t: seq<Step>): set<nat> {
    if t == [] then {} else {Rank(t[0])} + Ranks(t[1..])
  }

  /** The steps raw sanitising applies: anchor ids first, then the safety filter. */
  function SanitiseSteps(p: RenderingParams): seq<Step> {
    if p.raw then [InjectSectionIds, FilterEditorSafety] else []
  }

  function ExtractSteps(p: RenderingParams): seq<Step> {
    if SectionRequested(p) then [ExtractSection(p.section.value)] else []
  }

  function EditLinkSteps(doc: Document, p: RenderingParams, authenticated: bool): seq<Step> {
    if InjectsEditLinks(p, authenticated) then [InjectSectionEditingLinks(doc.slug, doc.locale)] else []
  }

  /** The steps applied to the parsed HTML of `doc`: sanitising, then extraction, then edit links. */
  function Trace(doc: Document, p: RenderingParams, authenticated: bool): seq<Step> {
    SanitiseSteps(p) + ExtractSteps(p) + EditLinkSteps(doc, p, authenticated)
  }

  /** Each step is applied exactly when its parameter asks for it. */
  lemma TraceSteps(doc: Document, p: RenderingParams, authenticated: bool)
    ensures var t := Trace(doc, p, authenticated);
            (0 in Ranks(t) <==> p.raw)
            && (1 in Ranks(t) <==> p.raw)
            && (2 in Ranks(t) <==> SectionRequested(p))
            && (3 in Ranks(t) <==> InjectsEditLinks(p, authenticated))
  {
    var sanitise, extract, links := SanitiseSteps(p), ExtractSteps(p), EditLinkSteps(doc, p, authenticated);
    RanksAppend(sanitise, extract);
    RanksAppend(sanitise + extract, links);
    assert Ranks(sanitise) == if p.raw then {0, 1} else {} by {
      if p.raw {
        assert sanitise[1..] == [FilterEditorSafety];
        assert sanitise[1..][1..] == [];
        assert Ranks(sanitise[1..]) == {1};
      }
    }
    assert Ranks(extract) == if SectionRequested(p) then {2} else {};
    assert Ranks(links) == if InjectsEditLinks(p, authenticated) then {3} else {};
  }

  /** The ranks of a concatenation are those of its parts. */
  lemma {:induction false} RanksAppend(a: seq<Step>, b: seq<Step>)
    ensures Ranks(a + b) == Ranks(a) + Ranks(b)
  {
    if a != [] {
      assert (a + b)[1..] == a[1..] + b;
      RanksAppend(a[1..], b);
    } else {
      assert a + b == b;
    }
  }

  /**
   * The filter's fixed order: raw sanitising (ids, then safety) precedes
   * section extraction, which precedes edit-link injection, and no step is
   * applied twice.
   */
  lemma TraceInOrder(doc: Document, p: RenderingParams, authenticated: bool)
    ensures var t := Trace(doc, p, authenticated);
            InOrder(t)
  {
  }

  /**
   * What `_filter_doc_html` returns: the summary for `summary`; the input
   * itself when no parameter needs parsing; otherwise the serialized trace,
   * with noinclude blocks stripped from the serialized text last.
   */
  function Filtered(doc: Document, html: string, p: RenderingParams, authenticated: bool): (r: Html)
    ensures p.summary ==> r == Text(doc.summaryHtml)
    ensures !p.summary && !NeedsParsing(p) ==> r == Text(html)
    ensures !p.summary && NeedsParsing(p) ==>
              (r.NoIncludeFiltered? <==> p.includeOnly)
              && (if p.includeOnly then r.inner else r) == Serialized(html, Trace(doc, p, authenticated))
  {
    if p.summary then Text(doc.summaryHtml)
    else if !NeedsParsing(p) then Text(html)
    else if p.includeOnly then NoIncludeFiltered(Serialized(html, Trace(doc, p, authenticated)))
    else Serialized(html, Trace(doc, p, authenticated))
  }

  /** Edit links are injected exactly when the user is signed in and `edit_links` is set or `raw` is not. */
  lemma EditLinksIff(doc: Document, html: string, p: RenderingParams, authenticated: bool)
    requires !p.summary && NeedsParsing(p)
    ensures var r := Filtered(doc, html, p, authenticated);
            var s := if r.NoIncludeFiltered? then r.inner else r;
            s.Serialized? && (3 in Ranks(s.steps) <==> authenticated && (p.editLinks || !p.raw))
  {
    TraceSteps(doc, p, authenticated);
  }

  /** `kuma.wiki.content.filter_out_noinclude`, applied to serialized text. */
  function FilterOutNoInclude(h: Html): (r: Html)
    ensures r.NoIncludeFiltered? && r.inner == h
  {
    NoIncludeFiltered(h)
  }

  /** The tree `kuma.wiki.content.parse` builds, modified in place by its operations. */
  class ContentTool {
    const source: string
    var steps: seq<Step>

    constructor Parse(html: string)
      ensures source == html && steps == []
    {
      source := html;
      steps := [];
    }

    method InjectSectionIdsStep()
      modifies this
      ensures steps == old(steps) + [InjectSectionIds]
    {
      steps := steps + [InjectSectionIds];
    }

    method FilterEditorSafetyStep()
      modifies this
      ensures steps == old(steps) + [FilterEditorSafety]
    {
      steps := steps + [FilterEditorSafety];
    }

    method ExtractSectionStep(id: string)
      modifies this
      ensures steps == old(steps) + [ExtractSection(id)]
    {
      steps := steps + [ExtractSection(id)];
    }

    method InjectSectionEditingLinksStep(slug: Slug, locale: Locale)
      modifies this
      ensures steps == old(steps) + [InjectSectionEditingLinks(slug, locale)]
    {
      steps := steps + [InjectSectionEditingLinks(slug, locale)];
    }

    function Serialize(): Html
      reads this
    {
      Serialized(source, steps)
    }
  }

  /** `_filter_doc_html`: parse, apply the requested operations to the tree in order, serialize. */
  method FilterDocHtml(authenticated: bool, doc: Document, docHtml: string, p: RenderingParams) returns (out: Html)
    ensures out == Filtered(doc, docHtml, p, authenticated)
  {
    if p.summary {
      return Text(doc.summaryHtml);
    }
    if !(SectionRequested(p) || p.raw || p.editLinks || p.includeOnly) {
      return Text(docHtml);
    }
    var tool := new ContentTool.Parse(docHtml);
    if p.raw {
      tool.InjectSectionIdsStep();
      tool.FilterEditorSafetyStep();
    }
    if SectionRequested(p) {
      tool.ExtractSectionStep(p.section.value);
    }
    if (p.editLinks || !p.raw) && authenticated {
      tool.InjectSectionEditingLinksStep(doc.slug, doc.locale);
    }
    out := tool.Serialize();
    if p.includeOnly {
      out := FilterOutNoInclude(out);
    }
  }
}
