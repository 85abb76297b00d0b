/** The decision engine of `main`: look the host up, ask the intranet probe
    first, ask the IPv6 probe only if the intranet is unreachable, and settle
    on one redirect target or none. The nested callbacks of the script run
    one after the other, so the engine is a sequential function of the two
    probe responses. */
module Decision {
  import opened Wrappers
  import opened Strings
  import opened Url
  import opened Routing
  import opened Probes

  /** What the page load ends with: a navigation, or staying on the page. */
  datatype Navigation = NoAction | Redirect(target: string)

  /** The probe requests issued, in order, and the decision reached. */
  datatype Run = Run(requests: seq<Request>, decision: Navigation)

  /** One decision run for the matched entry `site` (if any). A probe's
      response is only consulted if that probe's request is issued. */
  function Decide(site: Option<Entry>, intranetTestUrl: string,
                  intranetResponse: Response, ipv6Response: Response): (run: Run)
    // no matched entry: no probe, no action
    ensures site.None? ==> run.requests == [] && run.decision == NoAction
    // the intranet probe always goes first
    ensures site.Some? ==> |run.requests| > 0 && run.requests[0] == IntranetRequest(intranetTestUrl)
    // the IPv6 probe is issued exactly when there is a match and the intranet is unreachable
    ensures Ipv6Request in run.requests <==> site.Some? && !IntranetReachable(intranetResponse)
    // each probe is issued at most once: one request when the intranet answers, two otherwise
    ensures site.Some? && IntranetReachable(intranetResponse) ==>
      run.requests == [IntranetRequest(intranetTestUrl)]
    ensures site.Some? && !IntranetReachable(intranetResponse) ==>
      run.requests == [IntranetRequest(intranetTestUrl), Ipv6Request]
    // a redirect happens exactly when there is a match and one of the probes succeeds
    ensures run.decision.Redirect? <==>
      site.Some? && (IntranetReachable(intranetResponse) || Ipv6Detected(ipv6Response))
    // and its target is the intranet site whenever the intranet is reachable
    ensures run.decision.Redirect? ==>
      run.decision.target == (if IntranetReachable(intranetResponse) then site.value.intranetSite else site.value.ipv6Site)
  {
    match site
    case None => Run([], NoAction)
    case Some(e) =>
      if IntranetReachable(intranetResponse) then
        Run([IntranetRequest(intranetTestUrl)], Redirect(e.intranetSite))
      else
        Run([IntranetRequest(intranetTestUrl), Ipv6Request],
            if Ipv6Detected(ipv6Response) then Redirect(e.ipv6Site) else NoAction)
  }

  /** Intranet priority: once the intranet probe succeeds, the IPv6 response
      has no influence on the run at all. */
  lemma IntranetWins(site: Option<Entry>, intranetTestUrl: string, intranetResponse: Response,
                     ipv6Response1: Response, ipv6Response2: Response)
    requires site.Some? && IntranetReachable(intranetResponse)
    ensures Decide(site, intranetTestUrl, intranetResponse, ipv6Response1)
         == Decide(site, intranetTestUrl, intranetResponse, ipv6Response2)
    ensures Decide(site, intranetTestUrl, intranetResponse, ipv6Response1).decision
         == Redirect(site.value.intranetSite)
  {
  }

  /** Without a match, neither response has any influence. */
  lemma NoMatchIgnoresProbes(intranetTestUrl: string, i1: Response, v1: Response, i2: Response, v2: Response)
    ensures Decide(None, intranetTestUrl, i1, v1) == Decide(None, intranetTestUrl, i2, v2)
  {
  }

  /** Every redirect goes to a URL of the matched entry, so a table whose URLs
      all carry a scheme only ever navigates to URLs with a scheme. */
  lemma RedirectTargetHasScheme(table: seq<Entry>, host: string, intranetTestUrl: string,
                                intranetResponse: Response, ipv6Response: Response)
    requires AllSchemed(table)
    ensures var run := Decide(Lookup(table, host), intranetTestUrl, intranetResponse, ipv6Response);
      run.decision.Redirect? ==> HasScheme(run.decision.target)
  {
    var site := Lookup(table, host);
    if site.Some? {
      var i :| IsFirstMatch(table, host, i) && table[i] == site.value;
    }
  }

  /** Three scenarios for the table [example.com] and the host
      shop.example.com. */
  lemma ExampleScenarios()
    ensures var t := [Entry("example.com", "https://ipv6.example.com", "http://intranet.example.com")];
      var site := Lookup(t, "shop.example.com");
      var ok := Loaded(200, "2001:db8::1");
      Decide(site, DefaultIntranetTestUrl, ok, ok).decision == Redirect("http://intranet.example.com") &&
      Decide(site, DefaultIntranetTestUrl, Failed, ok).decision == Redirect("https://ipv6.example.com") &&
      Decide(site, DefaultIntranetTestUrl, Failed, TimedOut).decision == NoAction
  {
    RoutedButNotListed();
    var ok := Loaded(200, "2001:db8::1");
    assert !Contains(NoIpv6Marker, ok.body) by {
      ContainsIffOccurs(NoIpv6Marker, ok.body);
    }
  }
}
