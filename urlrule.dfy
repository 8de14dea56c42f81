/**
 * The body of the route middleware in the development server configuration:
 * a request URL with no '.' that does not end in '/' gets a '/' appended, in
 * place, before `next()` is called. The configuration places the
 * `configureServer` hook among the server options rather than in a plugin,
 * so the server never installs this middleware; the model is its body alone.
 * The rest of the build configuration is left out.
 */
module UrlRule {

  predicate EndsWithSlash(url: string)
  {
    |url| > 0 && url[|url| - 1] == '/'
  }

  /** The URL after the rule. */
  function Normalized(url: string): (r: string)
    ensures '.' in url || EndsWithSlash(url) ==> r == url
    ensures !('.' in url || EndsWithSlash(url)) ==> r == url + "/"
    ensures '.' in r || EndsWithSlash(r)
  {
    if '.' !in url && !EndsWithSlash(url) then url + "/" else url
  }

  /** Applying the rule a second time changes nothing. */
  lemma NormalizedIdempotent(url: string)
    ensures Normalized(Normalized(url)) == Normalized(url)
  {
  }

  /** The part of the request the rule touches. */
  class Request {
    var url: string

    constructor (url: string)
      ensures this.url == url
    {
      this.url := url;
    }

    /** The middleware body: `req.url += '/'` under the rule's condition. */
    method ApplyRule()
      modifies this
      ensures url == Normalized(old(url))
    {
      if '.' !in url && !EndsWithSlash(url) {
        url := url + "/";
      }
    }
  }
}
