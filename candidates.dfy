/** Brute-force candidate generation: every username pattern of a two-token
    name, at every usable domain among the hint URLs and gmail.com. */
module Candidates {
  import opened Wrappers
  import opened Text

  /** Why a name cannot be turned into candidates: the unpacking of
      `name.split(' ')` into two tokens fails, or indexing the first letter of
      an empty token does. */
  datatype NameError = NotTwoTokens(count: nat) | EmptyFirstName | EmptyLastName

  const Gmail: string := "gmail.com"

  /** The first and last name: `name.split(' ')` unpacked into two tokens,
      whose first letters the patterns then index. */
  function ParseName(name: string): (r: Result<(string, string), NameError>)
    ensures r.Success? ==> r.value.0 != [] && r.value.1 != []
    ensures r.Success? ==> r.value.0 + " " + r.value.1 == name
    ensures r.Success? ==> ' ' !in r.value.0 && ' ' !in r.value.1
    ensures multiset(name)[' '] != 1 ==> r == Failure(NotTwoTokens(multiset(name)[' '] + 1))
    ensures multiset(name)[' '] == 1 && name[0] == ' ' ==> r == Failure(EmptyFirstName)
    ensures multiset(name)[' '] == 1 && name[0] != ' ' && name[|name| - 1] == ' ' ==>
              r == Failure(EmptyLastName)
  {
    var parts := Split(name, ' ');
    SplitCount(name, ' ');
    if |parts| != 2 then
      Failure(NotTwoTokens(|parts|))
    else
      JoinSplit(name, ' ');
      assert Join(parts[1..], ' ') == parts[1];
      assert name == parts[0] + " " + parts[1];
      if parts[0] == [] then
        assert name[0] == ' ';
        Failure(EmptyFirstName)
      else if parts[1] == [] then
        assert name[0] == parts[0][0] && name[|name| - 1] == ' ';
        Failure(EmptyLastName)
      else
        assert name[0] == parts[0][0] && name[|name| - 1] == parts[1][|parts[1]| - 1];
        Success((parts[0], parts[1]))
  }

  /** A name parses exactly when it holds one space, neither at its start nor
      at its end. */
  lemma ParseNameSucceeds(name: string)
    ensures ParseName(name).Success? <==>
              multiset(name)[' '] == 1 && name[0] != ' ' && name[|name| - 1] != ' '
  {
    SplitCount(name, ' ');
    var parts := Split(name, ' ');
    if |parts| == 2 {
      JoinSplit(name, ' ');
      assert Join(parts[1..], ' ') == parts[1];
      assert name == parts[0] + " " + parts[1];
      if parts[0] != [] { assert name[0] == parts[0][0]; }
      if parts[1] != [] { assert name[|name| - 1] == parts[1][|parts[1]| - 1]; }
    }
  }

  /** The six username patterns, in the order they are built:
      first.last, f+last, first+l, l+first, firstlast and first. */
  function Usernames(first: string, last: string): (r: seq<string>)
    requires first != [] && last != []
    ensures |r| == 6
  {
    [first + "." + last, [first[0]] + last, first + [last[0]],
     [last[0]] + first, first + last, first]
  }

  /** A hint URL reduced to a bare domain by deleting `http://`, then
      `https://`, then `www`. */
  function NormaliseDomain(url: string): (d: string)
    ensures |d| <= |url|
  {
    DeleteAll(DeleteAll(DeleteAll(url, "http://"), "https://"), "www")
  }

  /** A normalised domain that still holds a `/` is a path and is skipped. */
  predicate Usable(domain: string) {
    '/' !in domain
  }

  /** The URLs to generate for: the hints as a set, plus gmail.com. */
  function Domains(urls: seq<string>): (r: set<string>)
    ensures Gmail in r
    ensures forall u :: u in urls ==> u in r
    ensures forall u :: u in r ==> u in urls || u == Gmail
  {
    (set u | u in urls) + {Gmail}
  }

  /** One stripped username at one domain. */
  function Address(username: string, domain: string): string {
    Strip(username) + "@" + domain
  }

  /** Every username, stripped, at one domain. */
  function AtDomain(usernames: seq<string>, domain: string): set<string> {
    set u | u in usernames :: Address(u, domain)
  }

  /** One more username adds its address at the domain. */
  lemma AtDomainSnoc(usernames: seq<string>, u: string, domain: string)
    ensures AtDomain(usernames + [u], domain) == AtDomain(usernames, domain) + {Address(u, domain)}
  {
    assert forall v :: v in usernames + [u] <==> v in usernames || v == u;
    assert Address(u, domain) in AtDomain(usernames + [u], domain);
  }

  /** What one URL contributes: its domain's addresses, or nothing when the
      normalised domain is a path. */
  function Contribution(usernames: seq<string>, url: string): set<string> {
    var domain := NormaliseDomain(url);
    if Usable(domain) then AtDomain(usernames, domain) else {}
  }

  /** The addresses contributed by a set of URLs. */
  function OverUrls(usernames: seq<string>, urls: set<string>): set<string> {
    set url, e | url in urls && e in Contribution(usernames, url) :: e
  }

  /** The addresses contributed by URLs taken in a given order. */
  function OverSeq(usernames: seq<string>, order: seq<string>): set<string> {
    if order == [] then {}
    else OverSeq(usernames, order[..|order| - 1]) + Contribution(usernames, order[|order| - 1])
  }

  /** The order URLs are taken in does not change what they contribute. */
  lemma {:induction false} OverSeqIsOverUrls(usernames: seq<string>, order: seq<string>)
    ensures OverSeq(usernames, order) == OverUrls(usernames, set url | url in order)
  {
    if order != [] {
      var init, last := order[..|order| - 1], order[|order| - 1];
      OverSeqIsOverUrls(usernames, init);
      assert (set url | url in order) == (set url | url in init) + {last} by {
        assert order == init + [last];
      }
      OverUrlsAdd(usernames, (set url | url in init), last);
    }
  }

  /** One more URL adds what it contributes. */
  lemma OverUrlsAdd(usernames: seq<string>, urls: set<string>, url: string)
    ensures OverUrls(usernames, urls + {url}) == OverUrls(usernames, urls) + Contribution(usernames, url)
  {
    forall e | e in OverUrls(usernames, urls + {url})
      ensures e in OverUrls(usernames, urls) + Contribution(usernames, url)
    {
      var u :| u in urls + {url} && e in Contribution(usernames, u);
      if u != url {
        InOverUrls(usernames, urls, u, e);
      }
    }
    forall e | e in Contribution(usernames, url) ensures e in OverUrls(usernames, urls + {url}) {
      InOverUrls(usernames, urls + {url}, url, e);
    }
    forall e | e in OverUrls(usernames, urls) ensures e in OverUrls(usernames, urls + {url}) {
      var u :| u in urls && e in Contribution(usernames, u);
      InOverUrls(usernames, urls + {url}, u, e);
    }
  }

  /** The address set for a parsed name: each stripped username at each
      usable normalised domain. */
  function Addresses(first: string, last: string, urls: seq<string>): set<string>
    requires first != [] && last != []
  {
    OverUrls(Usernames(first, last), Domains(urls))
  }

  /** What generation produces for a raw name: the error of a malformed name,
      or the address set. */
  function Generated(name: string, urls: seq<string>): Result<set<string>, NameError> {
    var parsed := ParseName(name);
    if parsed.Failure? then Failure(parsed.error)
    else Success(Addresses(parsed.value.0, parsed.value.1, urls))
  }

  /** The six addresses a whitespace-free name has at one domain. */
  function SixAt(first: string, last: string, d: string): set<string>
    requires first != [] && last != []
  {
    {first + "." + last + "@" + d, [first[0]] + last + "@" + d, first + [last[0]] + "@" + d,
     [last[0]] + first + "@" + d, first + last + "@" + d, first + "@" + d}
  }

  /** Every username pattern of a whitespace-free name is whitespace-free. */
  lemma UsernamesNoSpace(first: string, last: string)
    requires first != [] && last != [] && NoSpace(first) && NoSpace(last)
    ensures forall k :: 0 <= k < 6 ==> NoSpace(Usernames(first, last)[k])
  {
    var f, l := [first[0]], [last[0]];
    NoSpaceConcat(first, ".");
    NoSpaceConcat(first + ".", last);
    NoSpaceConcat(f, last);
    NoSpaceConcat(first, l);
    NoSpaceConcat(l, first);
    NoSpaceConcat(first, last);
  }

  /** The image of a six-element sequence, element by element. */
  lemma ImageOfSix<A, B>(xs: seq<A>, f: A -> B)
    requires |xs| == 6
    ensures (set x | x in xs :: f(x)) == {f(xs[0]), f(xs[1]), f(xs[2]), f(xs[3]), f(xs[4]), f(xs[5])}
  {
    var image := set x | x in xs :: f(x);
    forall y | y in image
      ensures y in {f(xs[0]), f(xs[1]), f(xs[2]), f(xs[3]), f(xs[4]), f(xs[5])}
    {
      var x :| x in xs && y == f(x);
      var k :| 0 <= k < 6 && xs[k] == x;
    }
    forall k | 0 <= k < 6 ensures f(xs[k]) in image {
      assert xs[k] in xs;
    }
  }

  /** The addresses of six usernames at a domain, one by one. */
  lemma AtDomainSix(us: seq<string>, d: string)
    requires |us| == 6
    ensures AtDomain(us, d) == {Address(us[0], d), Address(us[1], d), Address(us[2], d),
                                Address(us[3], d), Address(us[4], d), Address(us[5], d)}
  {
    var f := u => Address(u, d);
    ImageOfSix(us, f);
    assert AtDomain(us, d) == set x | x in us :: f(x);
  }

  /** For a name without whitespace inside its tokens, a domain contributes
      exactly the six patterns and nothing else. */
  lemma SixPatterns(first: string, last: string, d: string)
    requires first != [] && last != [] && NoSpace(first) && NoSpace(last)
    ensures AtDomain(Usernames(first, last), d) == SixAt(first, last, d)
  {
    var us := Usernames(first, last);
    UsernamesNoSpace(first, last);
    AtDomainSix(us, d);
    StripNoSpace(us[0]);
    StripNoSpace(us[1]);
    StripNoSpace(us[2]);
    StripNoSpace(us[3]);
    StripNoSpace(us[4]);
    StripNoSpace(us[5]);
  }

  /** Hence a candidate of such a name is one of the six patterns at a usable
      domain, and each of them is a candidate. */
  lemma SixPerUsableDomain(first: string, last: string, urls: seq<string>, e: string)
    requires first != [] && last != [] && NoSpace(first) && NoSpace(last)
    ensures e in Addresses(first, last, urls) <==>
              exists url :: url in Domains(urls) && Usable(NormaliseDomain(url))
                            && e in SixAt(first, last, NormaliseDomain(url))
  {
    var us, urlSet := Usernames(first, last), Domains(urls);
    if e in Addresses(first, last, urls) {
      var url :| url in urlSet && e in Contribution(us, url);
      SixPatterns(first, last, NormaliseDomain(url));
    }
    if exists url :: url in urlSet && Usable(NormaliseDomain(url)) && e in SixAt(first, last, NormaliseDomain(url)) {
      var url :| url in urlSet && Usable(NormaliseDomain(url)) && e in SixAt(first, last, NormaliseDomain(url));
      SixPatterns(first, last, NormaliseDomain(url));
      InOverUrls(us, urlSet, url, e);
    }
  }

  /** An address contributed by one of the URLs is among their addresses. */
  lemma InOverUrls(usernames: seq<string>, urls: set<string>, url: string, e: string)
    requires url in urls && e in Contribution(usernames, url)
    ensures e in OverUrls(usernames, urls)
  {
  }

  /** A bare host name (no scheme, no `w`) is its own normalised domain. */
  lemma {:induction false} BareDomainUnchanged(d: string)
    requires ':' !in d && 'w' !in d
    ensures NormaliseDomain(d) == d
  {
    MissingChar(d, "http://", ':');
    DeleteAbsent(d, "http://");
    MissingChar(d, "https://", ':');
    DeleteAbsent(d, "https://");
    MissingChar(d, "www", 'w');
    DeleteAbsent(d, "www");
  }

  /** gmail.com is always a usable domain, so the six gmail addresses are
      always among the candidates. */
  lemma GmailAlwaysIncluded(first: string, last: string, urls: seq<string>, u: string)
    requires first != [] && last != [] && u in Usernames(first, last)
    ensures Strip(u) + "@" + Gmail in Addresses(first, last, urls)
  {
    GmailIsUsable();
    UsableDomainContributes(first, last, urls, u, Gmail);
  }

  lemma GmailIsUsable()
    ensures NormaliseDomain(Gmail) == Gmail && Usable(Gmail)
  {
    BareDomainUnchanged(Gmail);
  }

  /** Every username, stripped, appears at every usable domain. */
  lemma UsableDomainContributes(first: string, last: string, urls: seq<string>, u: string, url: string)
    requires first != [] && last != [] && u in Usernames(first, last)
    requires url in Domains(urls) && Usable(NormaliseDomain(url))
    ensures Strip(u) + "@" + NormaliseDomain(url) in Addresses(first, last, urls)
  {
    var us, d := Usernames(first, last), NormaliseDomain(url);
    assert Strip(u) + "@" + d in AtDomain(us, d);
    InOverUrls(us, Domains(urls), url, Strip(u) + "@" + d);
  }

  /** An `http://` URL with a path keeps its `/` after normalisation and is
      skipped; `http://www.example.com/path` is one. */
  lemma {:induction false} PathIsRejected(url: string, rest: string)
    requires url == "http://" + rest && ':' !in rest && '/' in rest
    ensures !Usable(NormaliseDomain(url))
  {
    assert url[..7] == "http://" && url[7..] == rest;
    MissingChar(rest, "http://", ':');
    DeleteAbsent(rest, "http://");
    MissingChar(rest, "https://", ':');
    DeleteAbsent(rest, "https://");
    DeleteKeeps(rest, "www", '/');
  }

  /** Deleting `www` does not delete the dot after it: `www.example.com`
      leaves the domain `.example.com`. */
  lemma {:induction false} WwwLeavesLeadingDot(url: string, host: string)
    requires url == "www." + host && ':' !in host && 'w' !in host
    ensures NormaliseDomain(url) == "." + host
  {
    assert ':' !in url;
    MissingChar(url, "http://", ':');
    DeleteAbsent(url, "http://");
    MissingChar(url, "https://", ':');
    DeleteAbsent(url, "https://");
    assert url == "www" + ("." + host);
    assert url[..3] == "www" && url[3..] == "." + host;
    MissingChar("." + host, "www", 'w');
    DeleteAbsent("." + host, "www");
  }

  /** A usable domain holds no scheme prefix any more. */
  lemma UsableHasNoScheme(d: string)
    requires Usable(d)
    ensures !Contains(d, "http://") && !Contains(d, "https://")
  {
    MissingChar(d, "http://", '/');
    MissingChar(d, "https://", '/');
  }

  /** The inner loop of `get_brute_force_email`: every username, stripped,
      added at one domain. */
  method AddAtDomain(emails: set<string>, usernames: seq<string>, domain: string) returns (r: set<string>)
    ensures r == emails + AtDomain(usernames, domain)
  {
    r := emails;
    for k := 0 to |usernames|
      invariant r == emails + AtDomain(usernames[..k], domain)
    {
      var username := Strip(usernames[k]);
      assert usernames[..k + 1] == usernames[..k] + [usernames[k]];
      AtDomainSnoc(usernames[..k], usernames[k], domain);
      r := r + {username + "@" + domain};
    }
    assert usernames[..|usernames|] == usernames;
  }

  /** `get_brute_force_email`: builds the set of URLs, splits the name, then
      adds every stripped username at every usable normalised domain. */
  method GetBruteForceEmail(name: string, urls: seq<string>) returns (r: Result<set<string>, NameError>)
    ensures r == Generated(name, urls)
  {
    var emailUrls := set u | u in urls;
    emailUrls := emailUrls + {Gmail};
    var parsed := ParseName(name);
    if parsed.Failure? {
      return Failure(parsed.error);
    }
    var first, last := parsed.value.0, parsed.value.1;
    var usernames := Usernames(first, last);

    var emails: set<string> := {};
    var todo := emailUrls;
    ghost var done: seq<string> := [];
    while todo != {}
      invariant forall url :: url in emailUrls <==> url in todo || url in done
      invariant emails == OverSeq(usernames, done)
      decreases todo
    {
      var url :| url in todo;
      todo := todo - {url};
      ghost var prev := done;
      done := done + [url];
      assert done[..|done| - 1] == prev;
      var domain := NormaliseDomain(url);
      if '/' in domain {
        continue;
      }
      emails := AddAtDomain(emails, usernames, domain);
    }
    OverSeqIsOverUrls(usernames, done);
    assert (set url | url in done) == Domains(urls);
    assert emails == Addresses(first, last, urls);
    r := Success(emails);
  }
}
