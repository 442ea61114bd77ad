/**
 * The `children` endpoint: a JSON tree of a document's descendants, built
 * by `_make_doc_structure`, sorted by title at every level, without
 * redirects, and at most five levels deep.
 */
module TreeBuilder {
  import opened Wrappers
  import opened Store

  /** Python's `str` ordering: code point by code point, a prefix first. */
  predicate TitleLe(a: string, b: string)
    decreases |a|
  {
    a == [] || (b != [] && (a[0] < b[0] || (a[0] == b[0] && TitleLe(a[1..], b[1..]))))
  }

  lemma {:induction false} TitleLeTotal(a: string, b: string)
    decreases |a|
    ensures TitleLe(a, b) || TitleLe(b, a)
  {
    if a != [] && b != [] && a[0] == b[0] {
      TitleLeTotal(a[1..], b[1..]);
    }
  }

  lemma {:induction false} TitleLeTransitive(a: string, b: string, c: string)
    requires TitleLe(a, b) && TitleLe(b, c)
    decreases |a|
    ensures TitleLe(a, c)
  {
    if a != [] && b != [] && c != [] && a[0] == b[0] && b[0] == c[0] {
      TitleLeTransitive(a[1..], b[1..], c[1..]);
    }
  }

  predicate SortedByTitle(ds: seq<Document>) {
    forall i, j :: 0 <= i < j < |ds| ==> TitleLe(ds[i].title, ds[j].title)
  }

  /** Put `d` in front of the first element of `ds` whose title is not smaller. */
  function Insert(d: Document, ds: seq<Document>): seq<Document> {
    if ds == [] then [d]
    else if TitleLe(d.title, ds[0].title) then [d] + ds
    else [ds[0]] + Insert(d, ds[1..])
  }

  /** `descendants.sort(key=lambda item: item.title)`: a stable insertion sort by title. */
  function SortByTitle(ds: seq<Document>): seq<Document> {
    if ds == [] then [] else Insert(ds[0], SortByTitle(ds[1..]))
  }

  /** Inserting adds exactly `d`. */
  lemma {:induction false} InsertPermutes(d: Document, ds: seq<Document>)
    ensures multiset(Insert(d, ds)) == multiset(ds) + multiset{d}
  {
    if ds != [] && !TitleLe(d.title, ds[0].title) {
      InsertPermutes(d, ds[1..]);
      assert ds == [ds[0]] + ds[1..];
    }
  }

  /** A title-sorted list stays sorted with a document in front whose title is no larger than any of its. */
  lemma SortedCons(x: Document, rest: seq<Document>)
    requires SortedByTitle(rest)
    requires forall y :: y in rest ==> TitleLe(x.title, y.title)
    ensures SortedByTitle([x] + rest)
  {
    var r := [x] + rest;
    forall i, j | 0 <= i < j < |r| ensures TitleLe(r[i].title, r[j].title) {
      if i == 0 {
        assert r[j] == rest[j - 1];
      } else {
        assert r[i] == rest[i - 1] && r[j] == rest[j - 1];
      }
    }
  }

  /** Inserting into a title-sorted list keeps it sorted. */
  lemma {:induction false} InsertSorted(d: Document, ds: seq<Document>)
    requires SortedByTitle(ds)
    ensures SortedByTitle(Insert(d, ds))
  {
    if ds == [] {
    } else if TitleLe(d.title, ds[0].title) {
      forall y | y in ds ensures TitleLe(d.title, y.title) {
        var k :| 0 <= k < |ds| && ds[k] == y;
        if k > 0 {
          TitleLeTransitive(d.title, ds[0].title, y.title);
        }
      }
      SortedCons(d, ds);
    } else {
      TitleLeTotal(d.title, ds[0].title);
      var tail := ds[1..];
      assert SortedByTitle(tail) by {
        forall i, j | 0 <= i < j < |tail| ensures TitleLe(tail[i].title, tail[j].title) {
          assert tail[i] == ds[i + 1] && tail[j] == ds[j + 1];
        }
      }
      InsertSorted(d, tail);
      InsertPermutes(d, tail);
      var rest := Insert(d, tail);
      forall y | y in rest ensures TitleLe(ds[0].title, y.title) {
        assert y in multiset(rest);
        if y != d {
          assert y in multiset(tail);
          var k :| 0 <= k < |tail| && tail[k] == y;
          assert ds[k + 1] == y;
        }
      }
      SortedCons(ds[0], rest);
    }
  }

  /** The sort yields the same documents. */
  lemma {:induction false} SortByTitlePermutes(ds: seq<Document>)
    ensures multiset(SortByTitle(ds)) == multiset(ds)
  {
    if ds != [] {
      SortByTitlePermutes(ds[1..]);
      InsertPermutes(ds[0], SortByTitle(ds[1..]));
      assert ds == [ds[0]] + ds[1..];
    }
  }

  /** The sort orders the documents by title. */
  lemma {:induction false} SortByTitleSorted(ds: seq<Document>)
    ensures SortedByTitle(SortByTitle(ds))
  {
    if ds != [] {
      SortByTitleSorted(ds[1..]);
      InsertSorted(ds[0], SortByTitle(ds[1..]));
    }
  }

  /**
   * One entry of the tree. `expanded` tells which JSON object stands for
   * `source`: its full `get_json_data()` payload, or its title, slug,
   * locale and absolute URL.
   */
  datatype Node = Node(source: Document, expanded: bool, subpages: seq<Node>)

  /** The documents the nodes stand for. */
  function Sources(ns: seq<Node>): seq<Document> {
    seq(|ns|, i requires 0 <= i < |ns| => ns[i].source)
  }

  /** `ds` without its redirects, in order. */
  function NonRedirects(ds: seq<Document>): seq<Document> {
    if ds == [] then []
    else NonRedirects(ds[..|ds| - 1]) + (if ds[|ds| - 1].isRedirect then [] else [ds[|ds| - 1]])
  }

  lemma {:induction false} NonRedirectsSorted(ds: seq<Document>)
    requires SortedByTitle(ds)
    ensures forall x :: x in NonRedirects(ds) ==> x in ds && !x.isRedirect
    ensures SortedByTitle(NonRedirects(ds))
  {
    if ds != [] {
      var init := ds[..|ds| - 1];
      var last := ds[|ds| - 1];
      NonRedirectsSorted(init);
      var r := NonRedirects(ds);
      forall i, j | 0 <= i < j < |r| ensures TitleLe(r[i].title, r[j].title) {
        if j == |r| - 1 && !last.isRedirect {
          assert r[i] in init;
          var k :| 0 <= k < |init| && init[k] == r[i];
          assert ds[k] == r[i];
        } else {
          assert r[i] == NonRedirects(init)[i] && r[j] == NonRedirects(init)[j];
        }
      }
    }
  }

  /**
   * The shape `children` promises for a tree: no node stands for a redirect,
   * every node's subpages are in title order, and no node lies more than
   * `k` levels below `n`.
   */
  predicate WellShaped(n: Node, k: int) {
    !n.source.isRedirect && SortedByTitle(Sources(n.subpages)) && (n.subpages != [] ==> k >= 1)
    && forall i :: 0 <= i < |n.subpages| ==> WellShaped(n.subpages[i], k - 1)
  }

  /**
   * The tree `_make_doc_structure(document, level, expand, depth)` returns:
   * nothing for a redirect; otherwise a node whose subpages, while `level <
   * depth`, are the trees of its children in title order.
   */
  function DocStructure(s: Store, d: Document, level: int, expand: bool, depth: int): Option<Node>
    decreases depth - level, 1
  {
    if d.isRedirect then None
    else if level < depth then Some(Node(d, expand, Subpages(s, SortByTitle(ChildrenOf(s, d)), level + 1, expand, depth)))
    else Some(Node(d, expand, []))
  }

  /** The trees of `ds` at `level`, leaving out those that are None. */
  function Subpages(s: Store, ds: seq<Document>, level: int, expand: bool, depth: int): seq<Node>
    requires level <= depth
    decreases depth - level + 1, 0, |ds|
  {
    if ds == [] then []
    else
      Subpages(s, ds[..|ds| - 1], level, expand, depth)
      + match DocStructure(s, ds[|ds| - 1], level, expand, depth)
        case Some(n) => [n]
        case None => []
  }

  /**
   * A redirect gives no tree; any other document gives a tree rooted at it,
   * well shaped within `depth - level` levels.
   */
  lemma {:induction false} StructureShape(s: Store, d: Document, level: int, expand: bool, depth: int)
    decreases depth - level, 2
    ensures var r := DocStructure(s, d, level, expand, depth);
            (r.None? <==> d.isRedirect)
            && (r.Some? ==> r.value.source == d && r.value.expanded == expand
                            && WellShaped(r.value, if level < depth then depth - level else 0))
  {
    if !d.isRedirect && level < depth {
      var ds := SortByTitle(ChildrenOf(s, d));
      SortByTitleSorted(ChildrenOf(s, d));
      SortedTrees(s, ds, level + 1, expand, depth);
      var ns := Subpages(s, ds, level + 1, expand, depth);
      assert DocStructure(s, d, level, expand, depth) == Some(Node(d, expand, ns));
    }
  }

  /** The trees built from title-sorted documents are title-ordered and each well shaped. */
  lemma {:induction false} SortedTrees(s: Store, ds: seq<Document>, level: int, expand: bool, depth: int)
    requires level <= depth && SortedByTitle(ds)
    decreases depth - level + 1, 1
    ensures var ns := Subpages(s, ds, level, expand, depth);
            SortedByTitle(Sources(ns)) && forall i :: 0 <= i < |ns| ==> WellShaped(ns[i], depth - level)
  {
    NonRedirectsSorted(ds);
    SubpagesShape(s, ds, level, expand, depth);
  }

  /** The subpages built from `ds` are its non-redirects, in order, each a well-shaped tree. */
  lemma {:induction false} SubpagesShape(s: Store, ds: seq<Document>, level: int, expand: bool, depth: int)
    requires level <= depth
    decreases depth - level + 1, 0, |ds|
    ensures var ns := Subpages(s, ds, level, expand, depth);
            Sources(ns) == NonRedirects(ds)
            && forall i :: 0 <= i < |ns| ==> WellShaped(ns[i], depth - level) && ns[i].expanded == expand
  {
    if ds != [] {
      var init, last := ds[..|ds| - 1], ds[|ds| - 1];
      SubpagesShape(s, init, level, expand, depth);
      StructureShape(s, last, level, expand, depth);
      var prefix := Subpages(s, init, level, expand, depth);
      var r := DocStructure(s, last, level, expand, depth);
      if r.Some? {
        assert Subpages(s, ds, level, expand, depth) == prefix + [r.value];
        SourcesAppend(prefix, [r.value]);
      } else {
        assert Subpages(s, ds, level, expand, depth) == prefix;
      }
    }
  }

  lemma SourcesAppend(a: seq<Node>, b: seq<Node>)
    ensures Sources(a + b) == Sources(a) + Sources(b)
  {
    assert forall i :: 0 <= i < |a + b| ==> Sources(a + b)[i] == (Sources(a) + Sources(b))[i];
  }

  /** Extending the documents by one adds that document's tree, if any. */
  lemma SubpagesStep(s: Store, ds: seq<Document>, i: int, level: int, expand: bool, depth: int)
    requires 0 <= i < |ds| && level <= depth
    ensures Subpages(s, ds[..i + 1], level, expand, depth)
            == Subpages(s, ds[..i], level, expand, depth)
               + match DocStructure(s, ds[i], level, expand, depth) case Some(n) => [n] case None => []
  {
    assert ds[..i + 1][..i] == ds[..i];
  }

  /** `_make_doc_structure`: recurse into the sorted children, appending each non-redirect subtree. */
  method MakeDocStructure(s: Store, document: Document, level: int, expand: bool, depth: int) returns (r: Option<Node>)
    decreases depth - level
    ensures r == DocStructure(s, document, level, expand, depth)
  {
    if document.isRedirect {
      return None;
    }
    var subpages: seq<Node> := [];
    if level < depth {
      var descendants := SortByTitle(ChildrenOf(s, document));
      var i := 0;
      while i < |descendants|
        invariant 0 <= i <= |descendants|
        invariant subpages == Subpages(s, descendants[..i], level + 1, expand, depth)
      {
        var subpage := MakeDocStructure(s, descendants[i], level + 1, expand, depth);
        SubpagesStep(s, descendants, i, level + 1, expand, depth);
        if subpage.Some? {
          subpages := subpages + [subpage.value];
        }
        i := i + 1;
      }
      assert descendants[..|descendants|] == descendants;
    }
    return Some(Node(document, expand, subpages));
  }

  /** The JSON body of the `children` endpoint. */
  datatype ChildrenResult = Tree(root: Node) | Error(message: string)

  /** The `depth` cap of the `children` endpoint. */
  const MaxDepth := 5

  /**
   * `children`: the tree under the live document at (locale, slug), at most
   * `depth` (default and cap 5) levels deep, or an error object.
   */
  method Children(s: Store, locale: Locale, slug: Slug, expand: bool, depthParam: Option<int>) returns (r: ChildrenResult)
    ensures Get(s, locale, slug).None? ==> r == Error("Document does not exist.")
    ensures Get(s, locale, slug).Some? && Get(s, locale, slug).value.isRedirect ==> r == Error("Document has moved.")
    ensures r.Tree? ==>
              var depth := if depthParam.Some? && depthParam.value < MaxDepth then depthParam.value else MaxDepth;
              Get(s, locale, slug).Some?
              && r.root == DocStructure(s, Get(s, locale, slug).value, 0, expand, depth).value
              && r.root.source == Get(s, locale, slug).value
              && WellShaped(r.root, MaxDepth)
    ensures Get(s, locale, slug).Some? && !Get(s, locale, slug).value.isRedirect ==> r.Tree?
  {
    var maxDepth := MaxDepth;
    var depth := depthParam.GetOr(maxDepth);
    if depth > maxDepth {
      depth := maxDepth;
    }
    var doc := Get(s, locale, slug);
    if doc.None? {
      return Error("Document does not exist.");
    }
    var result := MakeDocStructure(s, doc.value, 0, expand, depth);
    StructureShape(s, doc.value, 0, expand, depth);
    if result.None? {
      return Error("Document has moved.");
    }
    WellShapedWeaken(result.value, if 0 < depth then depth else 0, MaxDepth);
    return Tree(result.value);
  }

  /** A tree well shaped within a depth bound is well shaped within any larger bound. */
  lemma {:induction false} WellShapedWeaken(n: Node, k: int, m: int)
    requires WellShaped(n, k) && k <= m
    ensures WellShaped(n, m)
  {
    forall i | 0 <= i < |n.subpages| ensures WellShaped(n.subpages[i], m - 1) {
      WellShapedWeaken(n.subpages[i], k - 1, m - 1);
    }
  }
}
