/**
 * Content experiments (`_apply_content_experiment`): an A/B test swaps the
 * requested page for the document of the variant named by a query
 * parameter. The configured experiment list is read-only process-wide
 * state and is passed in.
 */
module Experiments {
  import opened Wrappers
  import opened Store
  import opened Requests

  /** One entry of an experiment's variant dict: variant name to variant slug. */
  datatype Variant = Variant(name: string, slug: Slug)

  /** One entry of settings.CONTENT_EXPERIMENTS; `pages` maps "locale:slug" to the variants of that page. */
  datatype Experiment = Experiment(id: string, gaName: string, param: string, pages: map<string, seq<Variant>>)

  /** The `exp_params` dict handed to the page template. */
  datatype ExperimentParams = ExperimentParams(
    id: string,
    gaName: string,
    param: string,
    originalPath: string,
    variants: seq<Variant>,
    selected: Option<string>,
    selectionIsValid: Option<bool>)

  /** The key an experiment's `pages` uses for a document. */
  function PageKey(d: Document): string {
    d.locale + ":" + d.slug
  }

  /** Some variant of `variants` is named `name` and has a live document in `locale`. */
  predicate HasVariantDoc(s: Store, locale: Locale, variants: seq<Variant>, name: string) {
    exists i :: 0 <= i < |variants| && variants[i].name == name && Get(s, locale, variants[i].slug).Some?
  }

  /** The live document of the first variant named `name` that has one in `locale`. */
  function VariantDoc(s: Store, locale: Locale, variants: seq<Variant>, name: string): (r: Option<Document>)
    ensures r.Some? <==> HasVariantDoc(s, locale, variants, name)
    ensures r.Some? ==> exists i :: 0 <= i < |variants| && variants[i].name == name
                                    && Get(s, locale, variants[i].slug) == r
  {
    if variants == [] then None
    else if variants[0].name == name && Get(s, locale, variants[0].slug).Some? then
      Get(s, locale, variants[0].slug)
    else
      var rest := VariantDoc(s, locale, variants[1..], name);
      assert HasVariantDoc(s, locale, variants[1..], name) ==> HasVariantDoc(s, locale, variants, name) by {
        if HasVariantDoc(s, locale, variants[1..], name) {
          var i :| 0 <= i < |variants[1..]| && variants[1..][i].name == name && Get(s, locale, variants[1..][i].slug).Some?;
          assert variants[i + 1] == variants[1..][i];
        }
      }
      assert rest.Some? ==> exists i :: 0 <= i < |variants| && variants[i].name == name
                                        && Get(s, locale, variants[i].slug) == rest by {
        if rest.Some? {
          var i :| 0 <= i < |variants[1..]| && variants[1..][i].name == name
                   && Get(s, locale, variants[1..][i].slug) == rest;
          assert variants[i + 1] == variants[1..][i];
        }
      }
      rest
  }

  /**
   * The outcome for a page under experiment `e`: no selection keeps the page
   * and leaves `selected` and `selectionIsValid` unset; a selection that
   * names no variant with a live document keeps the page and marks the
   * selection invalid; otherwise the variant's document is served.
   */
  function Selection(s: Store, e: Experiment, q: Query, path: string, doc: Document): (r: (Document, Option<ExperimentParams>))
    requires PageKey(doc) in e.pages
    ensures r.1.Some? && r.1.value.id == e.id && r.1.value.gaName == e.gaName && r.1.value.param == e.param
    ensures r.1.value.originalPath == path && r.1.value.variants == e.pages[PageKey(doc)]
    ensures !Truthy(q, e.param) ==> r.0 == doc && r.1.value.selected.None? && r.1.value.selectionIsValid.None?
    ensures Truthy(q, e.param) ==>
              r.1.value.selectionIsValid == Some(HasVariantDoc(s, doc.locale, e.pages[PageKey(doc)], q[e.param]))
    ensures r.1.value.selectionIsValid == Some(true) ==>
              r.1.value.selected == Some(q[e.param]) && r.0 == VariantDoc(s, doc.locale, e.pages[PageKey(doc)], q[e.param]).value
    ensures r.1.value.selectionIsValid != Some(true) ==> r.0 == doc && r.1.value.selected.None?
  {
    var variants := e.pages[PageKey(doc)];
    var params := ExperimentParams(e.id, e.gaName, e.param, path, variants, None, None);
    var selected := Param(q, e.param);
    if selected.None? || selected.value == "" then (doc, Some(params))
    else match VariantDoc(s, doc.locale, variants, selected.value)
      case Some(content) => (content, Some(params.(selected := selected, selectionIsValid := Some(true))))
      case None => (doc, Some(params.(selectionIsValid := Some(false))))
  }

  /** The first experiment whose pages hold the document decides; no experiment leaves it alone. */
  function ContentExperiment(s: Store, exps: seq<Experiment>, q: Query, path: string, doc: Document): (Document, Option<ExperimentParams>)
  {
    if exps == [] then (doc, None)
    else if PageKey(doc) in exps[0].pages then Selection(s, exps[0], q, path, doc)
    else ContentExperiment(s, exps[1..], q, path, doc)
  }

  /** A page is left alone, with no experiment parameters, exactly when no experiment lists it. */
  lemma {:induction false} NoExperimentIff(s: Store, exps: seq<Experiment>, q: Query, path: string, doc: Document)
    ensures ContentExperiment(s, exps, q, path, doc).1.None? <==> forall k :: 0 <= k < |exps| ==> PageKey(doc) !in exps[k].pages
    ensures ContentExperiment(s, exps, q, path, doc).1.None? ==> ContentExperiment(s, exps, q, path, doc).0 == doc
  {
    if exps != [] && PageKey(doc) !in exps[0].pages {
      NoExperimentIff(s, exps[1..], q, path, doc);
      assert forall k :: 1 <= k < |exps| ==> exps[k] == exps[1..][k - 1];
    }
  }

  /** The first experiment that lists the page is the one applied. */
  lemma {:induction false} FirstExperimentWins(s: Store, exps: seq<Experiment>, q: Query, path: string, doc: Document, i: nat)
    requires i < |exps| && PageKey(doc) in exps[i].pages
    requires forall k :: 0 <= k < i ==> PageKey(doc) !in exps[k].pages
    ensures ContentExperiment(s, exps, q, path, doc) == Selection(s, exps[i], q, path, doc)
  {
    if i > 0 {
      assert PageKey(doc) !in exps[0].pages;
      assert forall k :: 0 <= k < i - 1 ==> exps[1..][k] == exps[k + 1];
      FirstExperimentWins(s, exps[1..], q, path, doc, i - 1);
    }
  }

  /**
   * Whatever the configuration, the served document is either the requested
   * one or, with a valid selection recorded, the live document of a declared
   * variant of the same locale.
   */
  lemma {:induction false} OnlyExistingVariantServed(s: Store, exps: seq<Experiment>, q: Query, path: string, doc: Document)
    ensures var r := ContentExperiment(s, exps, q, path, doc);
            r.0 == doc
            || (r.1.Some? && r.1.value.selectionIsValid == Some(true) && r.1.value.selected.Some?
                && r.0 in s.docs && !r.0.deleted && r.0.locale == doc.locale
                && exists i :: 0 <= i < |r.1.value.variants| && r.1.value.variants[i].name == r.1.value.selected.value
                               && r.0.slug == r.1.value.variants[i].slug)
  {
    if exps != [] && PageKey(doc) !in exps[0].pages {
      OnlyExistingVariantServed(s, exps[1..], q, path, doc);
    }
  }

  /** `_apply_content_experiment`: scan the experiments, then the variants of the first match. */
  method ApplyContentExperiment(s: Store, exps: seq<Experiment>, req: Request, doc: Document)
    returns (content: Document, params: Option<ExperimentParams>)
    ensures (content, params) == ContentExperiment(s, exps, req.query, req.path, doc)
  {
    var key := doc.locale + ":" + doc.slug;
    var i := 0;
    while i < |exps|
      invariant 0 <= i <= |exps|
      invariant ContentExperiment(s, exps, req.query, req.path, doc) == ContentExperiment(s, exps[i..], req.query, req.path, doc)
    {
      var experiment := exps[i];
      if key in experiment.pages {
        var variants := experiment.pages[key];
        var expParams := ExperimentParams(experiment.id, experiment.gaName, experiment.param, req.path, variants, None, None);
        var selected := Param(req.query, experiment.param);
        if selected.Some? && selected.value != "" {
          expParams := expParams.(selectionIsValid := Some(false));
          var j := 0;
          while j < |variants|
            invariant 0 <= j <= |variants|
            invariant VariantDoc(s, doc.locale, variants, selected.value) == VariantDoc(s, doc.locale, variants[j..], selected.value)
          {
            if selected.value == variants[j].name {
              var contentDoc := Get(s, doc.locale, variants[j].slug);
              if contentDoc.Some? {
                expParams := expParams.(selected := selected, selectionIsValid := Some(true));
                return contentDoc.value, Some(expParams);
              }
            }
            assert variants[j..][1..] == variants[j + 1..];
            j := j + 1;
          }
        }
        return doc, Some(expParams);
      }
      assert exps[i..][1..] == exps[i + 1..];
      i := i + 1;
    }
    return doc, None;
  }
}
