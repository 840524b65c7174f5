/** The depth-bounded crawl: fetch a page, keep the addresses found on it,
    and follow its `http` links one level deeper, until the depth bound. */
module Crawl {
  import opened Wrappers
  import opened Text

  /** An `<a>` tag: its `href` attribute, when it has one. */
  datatype Anchor = Anchor(href: Option<string>)

  /** What the crawl sees of the web. `get` is the fetch function passed in
      (it yields the page content), `findall` the first group of every match
      of the address regular expression in a content, and `anchors` the `<a>`
      tags the HTML parser finds in it, in document order. */
  datatype Web = Web(get: string -> string, findall: string -> seq<string>, anchors: string -> seq<Anchor>)

  /** `regex_email` after matching: the matches, in order, without those that
      start with `//`. */
  function RegexEmail(matches: seq<string>): (r: seq<string>)
    ensures |r| <= |matches|
    ensures forall e :: e in r <==> e in matches && !StartsWith(e, "//")
  {
    if matches == [] then []
    else
      var rest := RegexEmail(matches[1..]);
      assert forall e :: e in matches <==> e == matches[0] || e in matches[1..];
      if StartsWith(matches[0], "//") then rest else [matches[0]] + rest
  }

  /** A link is followed when it has an `href` that starts with `http`. */
  predicate Follows(a: Anchor) {
    a.href.Some? && StartsWith(a.href.value, "http")
  }

  /** What a crawl does: the addresses it appends, and the URLs it fetches,
      each in order. */
  datatype Trace = Trace(emails: seq<string>, fetched: seq<string>)

  function Then(t: Trace, u: Trace): Trace {
    Trace(t.emails + u.emails, t.fetched + u.fetched)
  }

  /** The trace of `scape_page(url, get, emails, depth, maxDepth)`. */
  function Crawled(web: Web, url: string, depth: int, maxDepth: int): Trace
    decreases maxDepth - depth, 1, 0
  {
    if depth <= maxDepth then
      var content := web.get(url);
      var links := web.anchors(content);
      Then(Trace(RegexEmail(web.findall(content)), [url]), CrawledLinks(web, links, depth, maxDepth))
    else Trace([], [])
  }

  /** The trace of following the links of a page at `depth`, in order. */
  function CrawledLinks(web: Web, links: seq<Anchor>, depth: int, maxDepth: int): Trace
    requires depth <= maxDepth
    decreases maxDepth - depth, 0, |links|
  {
    if links == [] then Trace([], [])
    else
      var init, a := links[..|links| - 1], links[|links| - 1];
      var before := CrawledLinks(web, init, depth, maxDepth);
      if Follows(a) then Then(before, Crawled(web, a.href.value, depth + 1, maxDepth)) else before
  }

  /** The list `scape_page` appends to, owned by its caller. */
  class EmailList {
    var items: seq<string>
    /** The URLs fetched while filling the list: not kept by the program,
        recorded here so the crawl's fetches can be stated. */
    ghost var fetched: seq<string>

    constructor ()
      ensures items == [] && fetched == []
    {
      items := [];
      fetched := [];
    }
  }

  /** `scape_page`: appends to `emails` the addresses of `url` and of every page
      reached through `http` links, depth first, while `depth <= maxDepth`. */
  method ScapePage(url: string, web: Web, emails: EmailList, depth: int, maxDepth: int)
    modifies emails
    ensures emails.items == old(emails.items) + Crawled(web, url, depth, maxDepth).emails
    ensures emails.fetched == old(emails.fetched) + Crawled(web, url, depth, maxDepth).fetched
    decreases maxDepth - depth, 1
  {
    if depth <= maxDepth {
      var content := web.get(url);
      emails.fetched := emails.fetched + [url];
      emails.items := emails.items + RegexEmail(web.findall(content));
      var links := web.anchors(content);
      ghost var start := Trace(emails.items, emails.fetched);
      for i := 0 to |links|
        invariant emails.items == start.emails + CrawledLinks(web, links[..i], depth, maxDepth).emails
        invariant emails.fetched == start.fetched + CrawledLinks(web, links[..i], depth, maxDepth).fetched
      {
        var link := links[i];
        assert links[..i + 1][..i] == links[..i];
        if link.href.Some? && StartsWith(link.href.value, "http") {
          ScapePage(link.href.value, web, emails, depth + 1, maxDepth);
        }
      }
      assert links[..|links|] == links;
    }
  }

  /** Past the depth bound nothing is fetched and nothing is appended. */
  lemma PastBoundDoesNothing(web: Web, url: string, depth: int, maxDepth: int)
    requires depth > maxDepth
    ensures Crawled(web, url, depth, maxDepth) == Trace([], [])
  {
  }

  /** The links of a page at the depth bound lead nowhere: every page they
      point to is past the bound. */
  lemma {:induction false} LinksAtBoundDoNothing(web: Web, links: seq<Anchor>, maxDepth: int)
    ensures CrawledLinks(web, links, maxDepth, maxDepth) == Trace([], [])
  {
    if links != [] {
      LinksAtBoundDoNothing(web, links[..|links| - 1], maxDepth);
    }
  }

  /** A crawl started at the bound, as every call with depth 1 and bound 1
      is, fetches only the seed page and keeps only its addresses. */
  lemma SeedOnly(web: Web, url: string, maxDepth: int)
    ensures Crawled(web, url, maxDepth, maxDepth).fetched == [url]
    ensures Crawled(web, url, maxDepth, maxDepth).emails == RegexEmail(web.findall(web.get(url)))
  {
    LinksAtBoundDoNothing(web, web.anchors(web.get(url)), maxDepth);
  }

  /** The `href`s a page's links are followed to, in order. */
  function FollowedHrefs(links: seq<Anchor>): (r: seq<string>)
    ensures forall k :: 0 <= k < |r| ==> StartsWith(r[k], "http")
  {
    if links == [] then []
    else
      var a := links[|links| - 1];
      FollowedHrefs(links[..|links| - 1]) + (if Follows(a) then [a.href.value] else [])
  }

  /** One level below the bound, the seed is fetched and then each followed
      link once, in document order. */
  lemma {:induction false} OneLevelFetches(web: Web, links: seq<Anchor>, maxDepth: int)
    ensures CrawledLinks(web, links, maxDepth - 1, maxDepth).fetched == FollowedHrefs(links)
  {
    if links != [] {
      OneLevelFetches(web, links[..|links| - 1], maxDepth);
      var a := links[|links| - 1];
      if Follows(a) {
        SeedOnly(web, a.href.value, maxDepth);
      }
    }
  }

  /** Every page fetched after the seed was reached through a link starting
      with `http`. */
  lemma {:induction false} FetchedAfterSeedAreHttp(web: Web, url: string, depth: int, maxDepth: int)
    ensures forall k :: 1 <= k < |Crawled(web, url, depth, maxDepth).fetched| ==>
              StartsWith(Crawled(web, url, depth, maxDepth).fetched[k], "http")
    decreases maxDepth - depth, 1, 0
  {
    if depth <= maxDepth {
      LinksFetchHttp(web, web.anchors(web.get(url)), depth, maxDepth);
    }
  }

  /** Everything the links of a page lead to fetching starts with `http`. */
  lemma {:induction false} LinksFetchHttp(web: Web, links: seq<Anchor>, depth: int, maxDepth: int)
    requires depth <= maxDepth
    ensures forall k :: 0 <= k < |CrawledLinks(web, links, depth, maxDepth).fetched| ==>
              StartsWith(CrawledLinks(web, links, depth, maxDepth).fetched[k], "http")
    decreases maxDepth - depth, 0, |links|
  {
    if links != [] {
      var init, a := links[..|links| - 1], links[|links| - 1];
      LinksFetchHttp(web, init, depth, maxDepth);
      if Follows(a) {
        var child := Crawled(web, a.href.value, depth + 1, maxDepth);
        FetchedAfterSeedAreHttp(web, a.href.value, depth + 1, maxDepth);
        if depth + 1 <= maxDepth {
          assert child.fetched[0] == a.href.value;
        }
      }
    }
  }
}
