# Nomen email pipeline, modelled in Dafny

Nomen guesses a person's email address from their name and a few hint URLs.
`run.py` does this in stages:

1. **Candidate generation** (`get_brute_force_email`). Every username pattern of a two-token name is paired with every usable domain: the hint URLs, plus `gmail.com`, with schemes and `www` deleted.
2. **Crawl** (`scape_page` with the `regex_email` post-filter). The crawl collects the addresses that appear on pages, down to a depth bound.
3. **Filtering** (`_filter_emails`). Strings that look like image names or hold a space are dropped, and the rest are lower-cased into a set.
4. **SMTP probe** (`mx_check`). Each mail exchanger is asked VRFY about the address. A MAIL transaction is then opened from fixed sender addresses and the candidate is asked about again.
5. **Scoring** (`levenshtein`, `validate_emails`). Each candidate that passes the probe is looked up in an identity service. The full name found is scored against the query by edit distance.

Modules, one per stage, in one file each:

| Module | File | Contents |
|---|---|---|
| `Wrappers` | `text.dfy` | `Option` and `Result` |
| `Text` | `text.dfy` | The Python 2 string operations the code uses: `in`, `startswith`, `replace(pat, '')`, `lower`, `strip`, `split(' ')` and `join`. All are on ASCII bytes. |
| `Candidates` | `candidates.dfy` | `get_brute_force_email` |
| `Crawl` | `crawl.dfy` | `regex_email` and `scape_page` |
| `Filter` | `filter.dfy` | `_filter_emails` |
| `Probe` | `probe.dfy` | `mx_check` |
| `EditDistance` | `levenshtein.dfy` | `levenshtein` |
| `Validate` | `validate.dfy` | `validate_emails` |

How the model is built:

- Every loop of the source is a Dafny method with a loop. Each such method is proved equal to a specification function:
  - `GetBruteForceEmail` equals `Generated`.
  - `FilterEmails` equals `Filtered`.
  - `Negotiate` and `TryHost` equal `SenderRound` and `HostVerdict`.
  - `MxCheck` equals `MxPasses`.
  - `Levenshtein` equals `Distance`.
  - `ValidateEmails` states its key set and its scores directly.
- The properties the program relies on are lemmas about those functions.
- `scape_page` appends to a list its caller owns. That list is the class `Crawl.EmailList`, and `ScapePage` modifies it.

Collaborators the model cannot see are parameters:

- The page fetch, the regular-expression matches and the HTML parser's `<a>` tags are functions in `Crawl.Web`.
- DNS gives the exchanger list of each address (`mx`).
- `net` gives the `Probe.Server` each host name designates. A server says whether the connection and the greeting succeed, and gives the reply code to VRFY and to MAIL for each address.
- The identity service is a lookup from address to an optional full name.

Behaviours of `run.py` worth knowing, all modelled as written:

- Generated candidates keep the case of the name. `scrape_email` appends them to the gathered list (run.py:126), and they are lowered later, when `query_name_for_email_leads` passes that list through `_filter_emails` (run.py:148).
- The edit distance lowers and strips the full name only. The query name is used as given, so a query with an upper-case letter never scores 0 (`Validate.UpperQueryNeverExact`).
- A candidate with an upper-case image extension such as `a.PNG` passes the case-sensitive test and leaves the filter as `a.png` (`Filter.UpperExtensionSurvives`).
- SMTP sessions are never closed.
- The check of the candidate after a sender is accepted is a second MAIL, not a RCPT (run.py:192). It is modelled as a MAIL.

## Model

| member | source | states |
|---|---|---|
| Text.DeleteAll | run.py:112 | `s.replace(pat, '')`: the result is never longer than the input |
| Text.DeleteAllFirst | run.py:112 | `replace` keeps everything before the first occurrence of the pattern, drops that occurrence, and goes on with the rest of the string |
| Text.DeleteAbsent | run.py:112 | deleting a pattern that does not occur leaves the string unchanged |
| Text.DeleteKeeps | run.py:112-113 | a character that is not in the pattern survives deletion exactly when it was there before (so a `/` is never deleted) |
| Text.Lower | run.py:141 | `lower()` keeps the length, maps each byte by ASCII case, and leaves no upper-case letter |
| Text.LowerKeepsSpace | run.py:139-141 | a space is in the lowered string exactly when it was in the original |
| Text.LowerOfLower | run.py:141 | a string without upper-case letters is its own lower-case form |
| Text.Strip | run.py:117 | `strip()` gives a string that neither starts nor ends with whitespace and is no longer than the input |
| Text.StripKeepsInner | run.py:117 | `strip()` keeps a slice of the string, and everything it drops before and after that slice is whitespace |
| Text.StripNoSpace | run.py:117 | a string without whitespace is unchanged by `strip()` |
| Text.Split | run.py:99 | `split(' ')` gives at least one piece, and no piece holds the separator |
| Text.JoinSplit | run.py:99 | joining the pieces of `split(' ')` with the separator gives the string back |
| Text.SplitCount | run.py:99 | `split(' ')` gives one more piece than the string has spaces |
| Candidates.ParseName | run.py:99-107 | a parsed name has two non-empty, space-free tokens that rebuild the name around one space. A name without exactly one space fails with its token count (the `ValueError` of the unpacking). Otherwise an empty first token fails before an empty last one (the `IndexError` of `firstname[0]`, then of `lastname[0]`). |
| Candidates.ParseNameSucceeds | run.py:99 | a name parses exactly when it holds one space, neither at its start nor at its end |
| Candidates.Usernames | run.py:103-109 | there are six username patterns |
| Candidates.UsernamesNoSpace | run.py:103-109 | the six patterns of a whitespace-free name are whitespace-free |
| Candidates.NormaliseDomain | run.py:112 | deleting `http://`, then `https://`, then `www` never makes the domain longer |
| Candidates.Usable | run.py:113-114 | a normalised domain is used exactly when it holds no `/` |
| Candidates.Domains | run.py:96-98 | the URLs to generate for are exactly the hint URLs and `gmail.com` |
| Candidates.AtDomainSnoc | run.py:116-118 | one more username adds exactly its stripped address at the domain |
| Candidates.OverSeqIsOverUrls | run.py:111-118 | the order the set of URLs is iterated in does not change the addresses produced |
| Candidates.SixPatterns | run.py:100-118 | for a whitespace-free name, a domain contributes exactly `first.last`, `f+last`, `first+l`, `l+first`, `firstlast` and `first` at that domain, and nothing else |
| Candidates.SixPerUsableDomain | run.py:96-120 | a candidate of such a name is one of the six patterns at some usable normalised domain of the URLs plus `gmail.com`, and every such address is a candidate |
| Candidates.UsableDomainContributes | run.py:111-118 | every stripped username appears at every usable normalised domain |
| Candidates.GmailIsUsable | run.py:98 | `gmail.com` normalises to itself and is usable |
| Candidates.GmailAlwaysIncluded | run.py:98 | every username is always a candidate at `gmail.com`, whatever the hints |
| Candidates.BareDomainUnchanged | run.py:112 | a host name with no `:` and no `w` is its own normalised domain |
| Candidates.PathIsRejected | run.py:112-114 | an `http://` URL with a path keeps its `/` and contributes nothing (for example `http://www.example.com/path`) |
| Candidates.WwwLeavesLeadingDot | run.py:112 | deleting `www` keeps the dot after it: `www.example.com` becomes `.example.com` |
| Candidates.AddAtDomain | run.py:116-118 | the inner loop adds exactly every stripped username at the one domain to the addresses gathered so far |
| Candidates.GetBruteForceEmail | run.py:94-120 | the loop over the URL set and the usernames gives the error of a malformed name, or exactly the address set `Generated` describes |
| Crawl.RegexEmail | run.py:40-41 | the matches kept are exactly those not starting with `//`, and there are no more of them than matches |
| Crawl.Follows | run.py:50-51 | a link is followed exactly when it has an `href` that starts with `http` |
| Crawl.ScapePage | run.py:43-51 | the list gets appended exactly the addresses of the crawl's trace, and the pages are fetched in its order. The old contents stay a prefix. |
| Crawl.PastBoundDoesNothing | run.py:44 | past the depth bound nothing is fetched and nothing is appended |
| Crawl.LinksAtBoundDoNothing | run.py:49-51 | the links of a page at the bound lead nowhere, since they are followed one level deeper |
| Crawl.SeedOnly | run.py:43-51 | a crawl started at the bound, as every `(1, 1)` call is, fetches only the seed and keeps only its addresses |
| Crawl.FollowedHrefs | run.py:50 | every `href` followed starts with `http` |
| Crawl.OneLevelFetches | run.py:49-51 | one level below the bound, the links fetched are exactly the followed `href`s, in document order |
| Crawl.FetchedAfterSeedAreHttp | run.py:49-51 | every page fetched after the seed starts with `http` |
| Crawl.LinksFetchHttp | run.py:49-51 | every page a page's links lead to fetching starts with `http` |
| Filter.Admissible | run.py:137-140 | a string is kept exactly when, as found and before lowering, it holds none of `.png`, `.jpg` and `.jpeg` (case-sensitively) and no space |
| Filter.FilteredSnoc | run.py:136-141 | one more input adds its lower-case form exactly when it passes the tests |
| Filter.FilterEmails | run.py:134-142 | the loop returns the set of the lower-case forms of the inputs without `.png`, `.jpg`, `.jpeg` or a space |
| Filter.FilteredOutputs | run.py:134-142 | every output is lower-case and space-free, and lowers some input that passed the case-sensitive tests |
| Filter.FilterKeepsLowerInputs | run.py:137-141 | an admissible lower-case input comes out unchanged |
| Filter.UpperExtensionSurvives | run.py:137-141 | `stem.PNG` comes out as `stem.png`, which a second pass drops, so the filter is not idempotent |
| Filter.FilterIdempotentOnLower | run.py:134-142 | on inputs without upper-case letters, refiltering the outputs gives the same set |
| Probe.StripDot | run.py:162 | a name ending in `.` loses exactly that one dot, and any other name is unchanged |
| Probe.Negotiate | run.py:185-199 | the sender loop tries the senders in order, checks the candidate after each 250 sender, and stops on a 250 or 550 reply. Its verdict and commands are `SenderRound` and `SenderLog`. |
| Probe.TryHost | run.py:165-199 | connect, greet and VRFY, then negotiate only on a VRFY code that is non-zero and not 250. Its verdict and commands are `HostVerdict` and `HostLog`. |
| Probe.TriedCount | run.py:160-177 | the host loop never tries more hosts than remain in the list |
| Probe.MxCheck | run.py:158-200 | the answer is `MxPasses` over the hosts with the fixed senders, and the number of hosts tried, connected or not, is `TriedCount` |
| Probe.DecideIsFirstVerdict | run.py:160-200 | the host loop answers `True` exactly when some host accepts and every host before it stayed undecided |
| Probe.MxPassesIsFirstVerdict | run.py:158-200 | `mx_check` is `True` exactly when the first host to reach a verdict accepts the address |
| Probe.AllUndecidedIsFalse | run.py:200 | when every host is unreachable or undecided, the answer is `False` |
| Probe.TriedUpToFirstVerdict | run.py:160-177 | the loop tries every host up to and including the first that reaches a verdict. Every host before it stayed undecided, and the loop stops before the end only at a verdict. |
| Probe.SenderRoundByReplies | run.py:185-199 | with replies that depend only on the address, a host decides by the candidate's reply once any sender is accepted, and stays undecided when none is |
| Probe.SenderLogOnlyMails | run.py:185-192 | the sender loop sends only MAIL, for one of the senders or for the candidate |
| Probe.MailOnlyAfterNegotiation | run.py:166-192 | MAIL is sent to a host only after a successful connection and greeting and a VRFY code that is non-zero and not 250 |
| EditDistance.Min3 | run.py:218 | `min` of three is at most each argument and equal to one of them |
| EditDistance.Levenshtein | run.py:202-221 | the two-row dynamic program, including its swap and its empty case, equals the recursive edit distance |
| EditDistance.NextRow | run.py:212-219 | one pass of the outer loop turns the row for `i` characters of `s1` into the row for `i + 1` |
| EditDistance.DistanceStep | run.py:215-218 | a cell is the minimum of the insertion, deletion and substitution costs of its neighbours |
| EditDistance.DistanceSymmetric | run.py:204-205 | the distance is symmetric, so swapping the arguments is sound |
| EditDistance.DistanceToEmpty | run.py:208-209 | against the empty string, the distance is the other string's length |
| EditDistance.DistanceBounds | run.py:202-221 | the distance lies between the difference of the lengths and the longer length |
| EditDistance.DistanceZeroIff | run.py:202-221 | the distance is 0 exactly between equal strings |
| Validate.ValidateEmails | run.py:223-243 | the keys are exactly the candidates that pass `mx_check` and that the lookup finds. Each value is the distance from the stripped, lowered full name to the query. |
| Validate.Score | run.py:237-238 | a score is 0 exactly when the stripped, lowered full name equals the query |
| Validate.UpperQueryNeverExact | run.py:238 | the query is not lowered, so a query with an upper-case letter never scores 0 |
| Validate.ScoreBounds | run.py:237-238 | a score lies between the difference of the name lengths and the longer length |

## Left out

- `linkedin_parser.py`: the login flow, the cookie jar and the retries are network and session I/O.
- `scrape_linkedin`, `scrape_google` and `scrape_email` (run.py:53-132) are HTTP requests and HTML parsing. The crawl receives the fetch and the parser as functions instead.
- Crawl.ScapePage: a fetch that fails raises out of `get_func` (run.py:45), and `scape_page` does not catch it, so the whole crawl fails. `Web.get` is total, and the model does not capture that failure.
- The address regular expression (run.py:30-32) is a foreign library. Its matches are the `findall` function of `Crawl.Web`.
- Crawl.ScapePage: the `content` attribute of a response object (run.py:47) is not modelled. `get` yields the content directly.
- `_get_mx_hosts` (run.py:154-156) is DNS. The domain taken from the address by `email.split('@')[1]` (run.py:159) is not modelled either: the exchanger list is `mx(email)`, a function of the whole address.
- Probe.MxCheck: `dns.resolver.query` (run.py:155) raises for a domain without MX records, and `email.split('@')[1]` (run.py:159) raises `IndexError` for an address without `@`. Such an address can reach the probe: the regular expression admits `\s` around its `at` and `dot` words, and the filter drops only spaces (run.py:139). Neither error is caught. In the model an empty `mx(email)` just answers `False`.
- Validate.ValidateEmails: the DNS and parsing errors above escape `mx_check` inside the loop at run.py:226-227, so the whole call fails. The model always returns its map.
- Probe.MxCheck: exceptions from `smtp.verify` and `smtp.mail` are not caught by the source and are not modelled. Its ghost `tried` counts the hosts tried, including those whose connection fails. Their names are not recorded.
- Probe.MxCheck: requires every exchanger name to be non-empty. `host[-1]` (run.py:162) raises on an empty name, and DNS never gives one.
- SMTP server replies depend only on the address asked about, not on earlier commands in the session. This hides one behaviour: run.py:192 sends a second MAIL inside a mail transaction that is already open. A server that answers such a nested MAIL with 503 never gives 250 or 550 there, so every host stays undecided and `mx_check` answers `False`. `Probe.SenderRoundByReplies` holds only under this abstraction.
- Sessions are never closed by the source, and the model claims nothing about closing them.
- `time.sleep` pacing (run.py:161, run.py:233) is timing only.
- `clearbit.Person.find` (run.py:235) is the `lookup` parameter. The full name it returns is given directly, without the `['name']['fullName']` access.
- `process_func`, `query_name_for_email_leads`, the `Pool` and the `__main__` driver (run.py:145-150, run.py:245-261) are composition, concurrency and command-line parsing.
- Text: `lower()` and `strip()` are the ASCII ones of Python 2 byte strings. That is right for the candidates, which are byte strings.
- Validate.Score: the full name at run.py:237 comes from the identity service's JSON, so it is a `unicode` string. Its `strip()` also removes Unicode whitespace such as U+00A0, its `lower()` also maps non-ASCII letters, and its length counts code points. The model applies the ASCII operations to it.
- The triangle inequality of the edit distance is not proved.
- Candidates.Usernames: states only the number of patterns. Their exact form is stated by `Candidates.SixPatterns`.
- Candidates.NormaliseDomain: states only that the domain does not grow. Its effect on particular URLs is stated by `BareDomainUnchanged`, `PathIsRejected`, `WwwLeavesLeadingDot` and the lemmas about `Text.DeleteAll`.
- Text.DeleteAll: its own contract states only that the result is no longer than the input. What it deletes is stated by `Text.DeleteAllFirst`, `Text.DeleteAbsent` and `Text.DeleteKeeps`.
