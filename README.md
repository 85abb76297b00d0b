# SmartTunnel routing core in Dafny

SmartTunnel is a userscript. It keeps a routing table (the `whitelist`) of
registered sites, one entry per site: a `domain` and two alternative URLs,
`ipv6Site` and `intranetSite`. On every page load it looks the current host
name up in the table. If an entry matches, it probes the intranet first and
redirects to the entry's intranet site if that probe succeeds. Otherwise it
probes IPv6 and redirects to the entry's IPv6 site if that succeeds.
Otherwise it stays on the page. Menu commands add, remove, delete and repair
entries and set the intranet test URL.

This project models that core:

- `strings.dfy` (module `Strings`): `String.prototype.includes` as a scan,
  and the case-insensitive prefix test of a regular expression with the `i`
  flag.
- `url.dfy` (module `Url`): the scheme test `/^(https?|ftp):\/\//i` as the
  matcher runs it, proved equal to "starts with one of `http://`, `https://`,
  `ftp://` ignoring case". Scheme names are case-insensitive by section 3.1 of
  RFC 3986. Also the normaliser `formatURL`.
- `routing.dfy` (module `Routing`): entries, the first-match lookup, removal
  by substring, the exact-name duplicate test, and the repair pass.
- `probes.dfy` (module `Probes`): probe responses, the requests the two
  probes issue, and the two classifiers.
- `decision.dfy` (module `Decision`): the priority decision of `main`.
- `tunnel.dfy` (module `Tunnel`): class `State`, holding `whitelist` and
  `intranetTestUrl` together with the values last written to storage. It has
  one method per menu command and `OnPageLoad` for `main`.

Prompt answers, the confirmation, the host name and the probe responses are
inputs. Navigation is the returned `Navigation` value. Saving to the userscript host's
storage is modelled by the fields `storedWhitelist` and `storedTestUrl`. The
predicate `Saved()` states that they equal the in-memory values. Every
command keeps it.

Three facts about the script shape the model:

- The IPv6 probe succeeds only with status 200, a non-empty body, and no
  "No IPv6 address detected" text in the body (SmartTunnel.js:36).
- Lookup order matters: the first matching entry in table order wins
  (SmartTunnel.js:25).
- URLs are normalised only when an entry is added and in the repair pass.
  They are not normalised at navigation time. So a table loaded from storage
  may hold URLs without a scheme. `OnPageLoad` promises a scheme on the
  redirect target only when every URL in the table has one.

## Model

| member | source | states |
|---|---|---|
| `Strings.ContainsIffOccurs` | SmartTunnel.js:25 | the `includes` scan succeeds exactly when the needle occurs at some position of the host name |
| `Url.SchemePatternTestCorrect` | SmartTunnel.js:93 | the regular expression (with `s?` backtracking and case folding) accepts exactly the strings that start with `http://`, `https://` or `ftp://` ignoring case |
| `Url.FormatUrl` | SmartTunnel.js:92-97 | the result always carries a scheme; a URL with a scheme is returned unchanged, any other gets `http://` in front |
| `Url.FormatUrlIdempotent` | SmartTunnel.js:92-97 | normalising twice gives the same as normalising once |
| `Url.FormatUrlFixedPoints` | SmartTunnel.js:92-97 | the normaliser leaves a URL as it is if and only if it already has a scheme |
| `Routing.Lookup` | SmartTunnel.js:23-26 | returns none iff no entry's domain occurs in the host; otherwise returns the entry at the first position whose domain occurs in the host, with no earlier entry matching |
| `Routing.WithoutMembers` | SmartTunnel.js:117 | an entry is kept by removal iff it was in the table and its domain does not occur in the host |
| `Routing.WithoutAppend` | SmartTunnel.js:117 | removal distributes over concatenation, so survivors keep their relative order |
| `Routing.WithoutLength` | SmartTunnel.js:114-126 | removal never grows the table; it shrinks the table exactly when the lookup for that host finds an entry, and otherwise leaves it identical |
| `Routing.LookupAfterWithout` | SmartTunnel.js:117 | after removal the lookup for that host finds nothing |
| `Routing.WithoutIdempotent` | SmartTunnel.js:117 | removing for the same host twice is the same as once |
| `Routing.ListedImpliesRouted` | SmartTunnel.js:79 | a host refused by the exact-name duplicate test is one the substring lookup already routes |
| `Routing.RoutedButNotListed` | SmartTunnel.js:79 | the converse fails: with `example.com` registered, `shop.example.com` is routed but not a duplicate |
| `Routing.LookupAfterAppend` | SmartTunnel.js:100-104 | appending an entry for the host keeps any earlier match; the new entry is found only when nothing earlier matched |
| `Routing.EmptyDomainMatchesEveryHost` | SmartTunnel.js:25 | an entry registered with an empty host name matches every host |
| `Routing.RepairAllSound` | SmartTunnel.js:184-198 | the repaired table has every URL with a scheme, the same domains in the same positions, and URLs that had a scheme untouched |
| `Routing.UnschemedCountZero` | SmartTunnel.js:188-197 | the count of URLs needing a fix is zero iff every URL has a scheme |
| `Routing.RepairAllFixedPoint` | SmartTunnel.js:184-198 | a table whose URLs all carry a scheme is unchanged by a repair pass |
| `Routing.RepairAllIdempotent` | SmartTunnel.js:184-198 | after one repair pass a second one fixes 0 URLs and changes nothing |
| `Strings.Contains` | SmartTunnel.js:25 | `hay.includes(needle)`: true iff the needle occurs at the start of the host or, recursively, somewhere after its first character |
| `Url.SchemePatternTest` | SmartTunnel.js:93 | the test `/^(https?|ftp):\/\//i` (repeated at lines 188 and 194): "http" ignoring case followed by "s://" or "://", or else "ftp://" ignoring case |
| `Routing.Listed` | SmartTunnel.js:79 | `whitelist.some(site => site.domain === currentDomain)`: some entry's domain equals the host exactly |
| `Routing.Without` | SmartTunnel.js:117 | `whitelist.filter(...)`: the table with every entry whose domain occurs in the host dropped, the rest in order |
| `Routing.Repair` | SmartTunnel.js:186-198 | one `forEach` step: the entry with each of its two URLs passed through the normaliser, the domain kept |
| `Routing.RepairAll` | SmartTunnel.js:184-198 | the whole table after `fixWhitelistURLs`: every entry repaired, same length and positions |
| `Routing.UnschemedCount` | SmartTunnel.js:185-197 | the final value of the `fixed` counter: the number of site URLs in the table that fail the scheme test |
| `Probes.IntranetReachable` | SmartTunnel.js:59 | positive iff the request loaded with status 200; an error or a timeout is negative |
| `Probes.Ipv6Detected` | SmartTunnel.js:36 | positive iff the request loaded with status 200, a non-empty body and no "No IPv6 address detected" text in it; an error or a timeout is negative |
| `Probes.ProbeVerdicts` | SmartTunnel.js:34-47 | error and timeout are negative for both probes; intranet is positive iff status is 200; IPv6 positive implies status 200; status 200 with an empty body or with the marker is not IPv6 |
| `Probes.MarkerAnywhereRejects` | SmartTunnel.js:36 | the marker text anywhere inside the body makes the IPv6 verdict negative |
| `Decision.Decide` | SmartTunnel.js:206-231 | no match: no request, no action; otherwise the requests are exactly the intranet request when the intranet probe succeeds, and exactly the intranet request then the IPv6 request when it fails, so each probe is issued at most once; a redirect happens iff a probe succeeds, to the intranet site when the intranet probe succeeds and to the IPv6 site otherwise |
| `Decision.IntranetWins` | SmartTunnel.js:212-216 | once the intranet probe succeeds, the IPv6 response has no influence and the target is the intranet site |
| `Decision.NoMatchIgnoresProbes` | SmartTunnel.js:228-230 | without a match the run does not depend on either response |
| `Decision.RedirectTargetHasScheme` | SmartTunnel.js:215-221 | if every URL in the table has a scheme, so does every redirect target |
| `Decision.ExampleScenarios` | SmartTunnel.js:206-231 | for `example.com` and host `shop.example.com`: intranet up redirects to the intranet site, only IPv6 up redirects to the IPv6 site, neither means no action |
| `Tunnel.State.Load` | SmartTunnel.js:19-20 | the table starts as the stored one or empty, the test URL as the stored one or `http://intranet-test-resource/` |
| `Tunnel.State.Add` | SmartTunnel.js:75-109 | refused iff some domain equals the host exactly; otherwise cancelled iff an answer is missing or empty; otherwise exactly one entry `(host, normalised IPv6 URL, normalised intranet URL)` is appended and the earlier entries are unchanged; the host is then routed; saved |
| `Tunnel.State.Remove` | SmartTunnel.js:112-127 | the table becomes the entries whose domain does not occur in the host; "removed" is reported iff the table got shorter iff the lookup had found an entry; afterwards the lookup finds nothing; saved |
| `Tunnel.State.DeleteAt` | SmartTunnel.js:130-171 | an empty table, a dismissed answer, a number outside 1..length or a declined confirmation leave the table unchanged (each with its own outcome); a confirmed number n removes exactly element n-1 and keeps the others in order |
| `Tunnel.State.ConfigureIntranetTest` | SmartTunnel.js:174-181 | a non-empty answer replaces the intranet test URL; otherwise nothing changes |
| `Tunnel.State.FixUrls` | SmartTunnel.js:184-203 | the table becomes its repaired form, every URL in it has a scheme, and the count returned equals the number of URLs that lacked a scheme before |
| `Tunnel.State.FixEntry` | SmartTunnel.js:186-198 | one entry's step: the repaired entry with the same domain, and a count of 0 to 2 that is 0 iff the entry is unchanged |
| `Tunnel.State.OnPageLoad` | SmartTunnel.js:206-231 | the run equals the decision for the first matching entry and the current intranet test URL, taken as one atomic step; with an all-schemed table any redirect target has a scheme |

## Left out

- The transport of the probes (`GM_xmlhttpRequest`) and the callbacks. Each
  probe is a request description with its URL and timeout (2000 ms and
  3000 ms) plus a response given as input. Enforcing the timeouts is the
  host's job.
- Storage (`GM_getValue`/`GM_setValue`) is a foreign key/value store. Only
  the value written after each command is modelled.
- `alert`, `prompt`, `confirm`, `console.log`, the text of the numbered list
  in `showWhitelist`, the default answers offered by the prompts, and menu
  registration. These are user interface. Answers are inputs.
- `window.location`. The host name is an input and navigation is the
  returned decision.
- The exact behaviour of `parseInt`. The selection arrives already parsed,
  with `None` standing for NaN.
- Entries are values, not shared objects. The in-place field updates of
  `fixWhitelistURLs` are modelled by replacing each element of the
  sequence. The one place where the script could see the difference is
  the pending decision run described next.
- A decision run is modelled as atomic. In the script, `main` keeps a
  reference to the matched entry (SmartTunnel.js:207) and reads its URLs
  only in the probe callbacks (SmartTunnel.js:215, 221), up to 2 s plus
  3 s later. Menu commands issued while a probe is pending are not
  modelled. Of these, the repair pass is the one that rewrites the matched
  entry's URLs in place (SmartTunnel.js:189, 195), so the script would then
  navigate to the repaired URL, while `OnPageLoad` uses the entry as it was
  at lookup time.
- Tunnel.State.FixUrls: the loop runs over a local copy of the table, which
  is stored into `whitelist` at the end. The script updates the table in
  place. No command runs between the loop's steps, so callers of this
  method cannot tell the two apart.
- Storage values of the wrong shape, such as entries with missing fields,
  are not modelled. Every stored entry is assumed to have three strings.
