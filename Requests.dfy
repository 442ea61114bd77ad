/**
 * What the views read from an incoming request: the query string, the
 * method, the user's authentication state and a few headers. Django's
 * QueryDict is a map from a parameter to its (last) value.
 */
module Requests {
  import opened Wrappers
  import opened Store

  type Query = map<string, string>

  /** `request.GET.get(key)` */
  function Param(q: Query, key: string): (r: Option<string>)
    ensures r.Some? <==> key in q
    ensures r.Some? ==> r.value == q[key]
  {
    if key in q then Some(q[key]) else None
  }

  /** `request.GET.get(key, False) is not False`: the parameter is present, even with an empty value. */
  predicate Present(q: Query, key: string) {
    key in q
  }

  /** `bool(request.GET.get(key))`: the parameter is present with a non-empty value. */
  predicate Truthy(q: Query, key: string) {
    key in q && q[key] != ""
  }

  /** `urlparams(url, query_dict=request.GET)`: a URL with the request's query string carried over. */
  datatype Target = Target(url: Url, query: Query)

  datatype HttpMethod = GetMethod | HeadMethod

  datatype Request = Request(
    verb: HttpMethod,             // request.method
    authenticated: bool,          // request.user.is_authenticated
    canRestore: bool,             // request.user.has_perm("wiki.restore_document")
    query: Query,                 // request.GET
    cacheControl: Option<string>, // the Cache-Control request header
    path: string,                 // request.path
    host: string,                 // request.get_host()
    baseUrl: Url,                 // request.build_absolute_uri("/")
    isWiki: bool)                 // is_wiki(request)
}
