/** The script's mutable state, the `whitelist` and `intranetTestUrl`
    globals, with the menu commands that change them and the page-load run
    that reads them. Prompt answers and confirmations are inputs; the values
    written to the userscript host's storage are kept in `storedWhitelist`
    and `storedTestUrl`. */
module Tunnel {
  import opened Wrappers
  import opened Url
  import opened Routing
  import opened Probes
  import opened Decision

  /** A prompt answer is usable when it is neither cancelled (`null`) nor
      empty: JavaScript treats both as false. */
  predicate Provided(answer: Option<string>)
  {
    answer.Some? && answer.value != []
  }

  datatype AddOutcome = AlreadyListed | Cancelled | Added

  /** The answer to the numbered list of `showWhitelist`: dismissed (cancelled
      or empty), or text typed, with what `parseInt` made of it (`None` for NaN). */
  datatype Selection = Dismissed | Typed(parsed: Option<int>)

  datatype DeleteOutcome = ListEmpty | SelectionDismissed | InvalidSelection | Declined | Deleted(entry: Entry)

  class State {
    var whitelist: seq<Entry>
    var intranetTestUrl: string
    var storedWhitelist: seq<Entry>
    var storedTestUrl: string

    /** What storage holds is what memory holds: every command that changes
        a value writes it back. */
    ghost predicate Saved()
      reads this
    {
      storedWhitelist == whitelist && storedTestUrl == intranetTestUrl
    }

    /** Start-up: read both values from storage, falling back to an empty
        table and to the default intranet test URL. */
    constructor Load(stored: Option<seq<Entry>>, storedUrl: Option<string>)
      ensures whitelist == (if stored.Some? then stored.value else [])
      ensures intranetTestUrl == (if storedUrl.Some? then storedUrl.value else DefaultIntranetTestUrl)
      ensures Saved()
    {
      whitelist := if stored.Some? then stored.value else [];
      intranetTestUrl := if storedUrl.Some? then storedUrl.value else DefaultIntranetTestUrl;
      storedWhitelist := whitelist;
      storedTestUrl := intranetTestUrl;
    }

    /** `addToWhitelist`: refuse a host already registered under exactly its
        own name; otherwise ask for the two URLs and, unless either answer is
        missing, append one normalised entry for the host. */
    method Add(host: string, ipv6Answer: Option<string>, intranetAnswer: Option<string>)
      returns (outcome: AddOutcome)
      requires Saved()
      modifies this
      ensures Saved() && intranetTestUrl == old(intranetTestUrl)
      ensures outcome == AlreadyListed <==> Listed(old(whitelist), host)
      ensures outcome == Cancelled <==>
        !Listed(old(whitelist), host) && !(Provided(ipv6Answer) && Provided(intranetAnswer))
      ensures outcome != Added ==> whitelist == old(whitelist)
      ensures outcome == Added ==>
        whitelist == old(whitelist) + [Entry(host, FormatUrl(ipv6Answer.value), FormatUrl(intranetAnswer.value))]
      ensures AllSchemed(old(whitelist)) ==> AllSchemed(whitelist)
      ensures outcome == Added ==> Lookup(whitelist, host).Some?
    {
      if Listed(whitelist, host) {
        return AlreadyListed;
      }
      if !Provided(ipv6Answer) {
        return Cancelled;
      }
      if !Provided(intranetAnswer) {
        return Cancelled;
      }
      var e := Entry(host, FormatUrl(ipv6Answer.value), FormatUrl(intranetAnswer.value));
      LookupAfterAppend(whitelist, e, host);
      whitelist := whitelist + [e];
      storedWhitelist := whitelist;
      outcome := Added;
    }

    /** `removeFromWhitelist`: drop every entry whose domain occurs in the
        host, save, and report whether anything was dropped. */
    method Remove(host: string) returns (removed: bool)
      requires Saved()
      modifies this
      ensures Saved() && intranetTestUrl == old(intranetTestUrl)
      ensures whitelist == Without(old(whitelist), host)
      ensures removed <==> |whitelist| < |old(whitelist)|
      ensures removed <==> Lookup(old(whitelist), host).Some?
      ensures Lookup(whitelist, host).None? && !Listed(whitelist, host)
      ensures AllSchemed(old(whitelist)) ==> AllSchemed(whitelist)
    {
      var initialLength := |whitelist|;
      WithoutLength(whitelist, host);
      LookupAfterWithout(whitelist, host);
      ghost var before := whitelist;
      whitelist := Without(whitelist, host);
      ListedImpliesRouted(whitelist, host);
      forall i | 0 <= i < |whitelist| ensures whitelist[i] in before {
        WithoutMembers(before, host, whitelist[i]);
      }
      storedWhitelist := whitelist;
      removed := initialLength > |whitelist|;
    }

    /** The deleting half of `showWhitelist`: on a non-empty table, take the
        1-based number typed by the user, check it against the table, ask for
        confirmation and remove that one entry. */
    method DeleteAt(selection: Selection, confirmed: bool) returns (outcome: DeleteOutcome)
      requires Saved()
      modifies this
      ensures Saved() && intranetTestUrl == old(intranetTestUrl)
      ensures outcome == ListEmpty <==> old(whitelist) == []
      ensures outcome == SelectionDismissed <==> old(whitelist) != [] && selection.Dismissed?
      ensures outcome == InvalidSelection <==>
        (old(whitelist) != [] && selection.Typed? &&
         !(selection.parsed.Some? && 1 <= selection.parsed.value <= |old(whitelist)|))
      ensures outcome == Declined <==>
        (old(whitelist) != [] && selection.Typed? &&
         selection.parsed.Some? && 1 <= selection.parsed.value <= |old(whitelist)| && !confirmed)
      ensures outcome.Deleted? ==> confirmed && selection.Typed? && selection.parsed.Some?
      ensures !outcome.Deleted? ==> whitelist == old(whitelist)
      ensures outcome.Deleted? ==>
        var k := selection.parsed.value - 1;
        0 <= k < |old(whitelist)| && outcome.entry == old(whitelist)[k] &&
        |whitelist| == |old(whitelist)| - 1 &&
        (forall j :: 0 <= j < k ==> whitelist[j] == old(whitelist)[j]) &&
        (forall j :: k <= j < |whitelist| ==> whitelist[j] == old(whitelist)[j + 1])
      ensures AllSchemed(old(whitelist)) ==> AllSchemed(whitelist)
    {
      if |whitelist| == 0 {
        return ListEmpty;
      }
      if selection.Dismissed? {
        return SelectionDismissed;
      }
      if selection.parsed.None? {
        return InvalidSelection;
      }
      var index := selection.parsed.value - 1;
      if index < 0 || index >= |whitelist| {
        return InvalidSelection;
      }
      var site := whitelist[index];
      if !confirmed {
        return Declined;
      }
      whitelist := whitelist[..index] + whitelist[index + 1..];
      storedWhitelist := whitelist;
      outcome := Deleted(site);
    }

    /** `configureIntranetTest`: a usable answer replaces the intranet test
        URL, as typed; anything else leaves it. */
    method ConfigureIntranetTest(answer: Option<string>) returns (updated: bool)
      requires Saved()
      modifies this
      ensures Saved() && whitelist == old(whitelist)
      ensures updated <==> Provided(answer)
      ensures intranetTestUrl == if updated then answer.value else old(intranetTestUrl)
    {
      if !Provided(answer) {
        return false;
      }
      intranetTestUrl := answer.value;
      storedTestUrl := intranetTestUrl;
      updated := true;
    }

    /** `fixWhitelistURLs`: walk the table, give every site URL without a
        scheme the "http://" prefix, count the URLs changed, save. */
    method FixUrls() returns (fixed: nat)
      requires Saved()
      modifies this
      ensures Saved() && intranetTestUrl == old(intranetTestUrl)
      ensures whitelist == RepairAll(old(whitelist))
      ensures fixed == UnschemedCount(old(whitelist))
      ensures AllSchemed(whitelist)
    {
      var table := whitelist;
      fixed := 0;
      var i := 0;
      while i < |table|
        invariant 0 <= i <= |table| == |whitelist|
        invariant forall j :: 0 <= j < i ==> table[j] == Repair(whitelist[j])
        invariant forall j :: i <= j < |table| ==> table[j] == whitelist[j]
        invariant fixed == UnschemedCount(whitelist[..i])
        invariant unchanged(this)
      {
        var site, n := FixEntry(table[i]);
        UnschemedCountStep(whitelist, i);
        fixed := fixed + n;
        table := table[i := site];
        i := i + 1;
      }
      assert whitelist[..i] == whitelist;
      RepairAllSound(whitelist);
      whitelist := table;
      storedWhitelist := table;
    }

    /** The callback `fixWhitelistURLs` runs on each entry: fix each of the
        two URLs that fails the scheme test and count it. */
    static method FixEntry(e: Entry) returns (site: Entry, n: nat)
      ensures site == Repair(e) && n == UnschemedIn(e)
      ensures site.domain == e.domain && n <= 2
      ensures n == 0 <==> site == e
    {
      RepairStep(e);
      site, n := e, 0;
      if !SchemePatternTest(site.ipv6Site) {
        site := site.(ipv6Site := "http://" + site.ipv6Site);
        n := n + 1;
      }
      if !SchemePatternTest(site.intranetSite) {
        site := site.(intranetSite := "http://" + site.intranetSite);
        n := n + 1;
      }
    }

    /** `main`: look the host up in the current table and run the decision
        with the current intranet test URL and the two probe responses. */
    method OnPageLoad(host: string, intranetResponse: Response, ipv6Response: Response)
      returns (run: Run)
      ensures run == Decide(Lookup(whitelist, host), intranetTestUrl, intranetResponse, ipv6Response)
      ensures AllSchemed(whitelist) && run.decision.Redirect? ==> HasScheme(run.decision.target)
    {
      run := Decide(Lookup(whitelist, host), intranetTestUrl, intranetResponse, ipv6Response);
      if AllSchemed(whitelist) {
        RedirectTargetHasScheme(whitelist, host, intranetTestUrl, intranetResponse, ipv6Response);
      }
    }
  }
}
