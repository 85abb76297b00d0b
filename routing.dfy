/** The routing table (`whitelist` in the script): an ordered sequence of
    entries, looked up and filtered by substring match of the domain in the
    current host name, and repaired URL by URL. */
module Routing {
  import opened Wrappers
  import opened Strings
  import opened Url

  /** One registered site: the key matched against the host name and the two
      alternative destinations. */
  datatype Entry = Entry(domain: string, ipv6Site: string, intranetSite: string)

  /** `currentDomain.includes(site.domain)`: the entry applies to the host. */
  predicate Matches(e: Entry, host: string)
  {
    Contains(e.domain, host)
  }

  /** Position `i` holds the first entry, in table order, that applies to `host`. */
  predicate IsFirstMatch(table: seq<Entry>, host: string, i: int)
  {
    0 <= i < |table| && Matches(table[i], host) &&
    forall j :: 0 <= j < i ==> !Matches(table[j], host)
  }

  /** `checkWhitelist`: `whitelist.find(...)`, the first entry that applies to
      the host, or none. */
  function Lookup(table: seq<Entry>, host: string): (r: Option<Entry>)
    ensures r.None? <==> forall i :: 0 <= i < |table| ==> !Matches(table[i], host)
    ensures r.Some? ==> exists i :: IsFirstMatch(table, host, i) && table[i] == r.value
  {
    if table == [] then None
    else if Matches(table[0], host) then
      assert IsFirstMatch(table, host, 0);
      Some(table[0])
    else
      var r := Lookup(table[1..], host);
      assert forall i :: 1 <= i < |table| ==> table[i] == table[1..][i - 1];
      if r.Some? then
        var i :| IsFirstMatch(table[1..], host, i) && table[1..][i] == r.value;
        assert IsFirstMatch(table, host, i + 1);
        r
      else
        r
  }

  /** The table with every entry that applies to `host` dropped:
      `whitelist.filter(site => !currentDomain.includes(site.domain))`. */
  function Without(table: seq<Entry>, host: string): seq<Entry>
    decreases |table|
  {
    if table == [] then []
    else (if Matches(table[0], host) then [] else [table[0]]) + Without(table[1..], host)
  }

  /** An entry survives the removal exactly when it was in the table and does
      not apply to the host. */
  lemma {:induction false} WithoutMembers(table: seq<Entry>, host: string, e: Entry)
    ensures e in Without(table, host) <==> e in table && !Matches(e, host)
    decreases |table|
  {
    if table != [] {
      WithoutMembers(table[1..], host, e);
      assert table == [table[0]] + table[1..];
    }
  }

  /** Removal keeps the relative order: it works piecewise on a split table. */
  lemma {:induction false} WithoutAppend(a: seq<Entry>, b: seq<Entry>, host: string)
    ensures Without(a + b, host) == Without(a, host) + Without(b, host)
    decreases |a|
  {
    if a != [] {
      WithoutAppend(a[1..], b, host);
      assert (a + b)[1..] == a[1..] + b;
    } else {
      assert a + b == b;
    }
  }

  /** Removal shortens the table exactly when the lookup for that host would
      have found an entry, and leaves it as it was otherwise. */
  lemma {:induction false} WithoutLength(table: seq<Entry>, host: string)
    ensures |Without(table, host)| <= |table|
    ensures Lookup(table, host).None? ==> Without(table, host) == table
    ensures Lookup(table, host).Some? ==> |Without(table, host)| < |table|
    decreases |table|
  {
    if table != [] {
      WithoutLength(table[1..], host);
      assert table == [table[0]] + table[1..];
      if !Matches(table[0], host) && Lookup(table, host).Some? {
        assert Lookup(table[1..], host).Some?;
      }
    }
  }

  /** After removal nothing in the table applies to the host any more. */
  lemma LookupAfterWithout(table: seq<Entry>, host: string)
    ensures Lookup(Without(table, host), host).None?
  {
    var w := Without(table, host);
    forall i | 0 <= i < |w| ensures !Matches(w[i], host) {
      WithoutMembers(table, host, w[i]);
    }
  }

  /** Removal for the same host a second time changes nothing. */
  lemma WithoutIdempotent(table: seq<Entry>, host: string)
    ensures Without(Without(table, host), host) == Without(table, host)
  {
    LookupAfterWithout(table, host);
    WithoutLength(Without(table, host), host);
  }

  /** The check `addToWhitelist` makes before anything else: some entry's
      domain is exactly the host (`whitelist.some(site => site.domain === currentDomain)`). */
  predicate Listed(table: seq<Entry>, host: string)
  {
    exists i :: 0 <= i < |table| && table[i].domain == host
  }

  /** Exact listing implies a substring match, so a host that `addToWhitelist`
      refuses as a duplicate is one the lookup already routes. */
  lemma ListedImpliesRouted(table: seq<Entry>, host: string)
    ensures Listed(table, host) ==> Lookup(table, host).Some?
  {
    if Listed(table, host) {
      var i :| 0 <= i < |table| && table[i].domain == host;
      ContainsItself(host);
      assert Matches(table[i], host);
    }
  }

  /** The converse fails: a host can be routed by a shorter registered domain
      and still be accepted by `addToWhitelist`. */
  lemma RoutedButNotListed()
    ensures var t := [Entry("example.com", "https://ipv6.example.com", "http://intranet.example.com")];
      Lookup(t, "shop.example.com").Some? && !Listed(t, "shop.example.com")
  {
    var t := [Entry("example.com", "https://ipv6.example.com", "http://intranet.example.com")];
    assert OccursAt("example.com", "shop.example.com", 5);
    ContainsIffOccurs("example.com", "shop.example.com");
    assert Matches(t[0], "shop.example.com");
  }

  /** Appending an entry for `host` itself: the lookup for `host` still
      returns what it returned before, and returns the new entry only when
      nothing earlier applied. */
  lemma {:induction false} LookupAfterAppend(table: seq<Entry>, e: Entry, host: string)
    requires e.domain == host
    ensures Lookup(table + [e], host) ==
      if Lookup(table, host).Some? then Lookup(table, host) else Some(e)
    decreases |table|
  {
    if table == [] {
      ContainsItself(host);
      assert Matches(e, host);
    } else {
      LookupAfterAppend(table[1..], e, host);
      assert (table + [e])[1..] == table[1..] + [e];
    }
  }

  /** A host name that is empty (as on pages without one) registers the
      domain "", which applies to every host. */
  lemma EmptyDomainMatchesEveryHost(e: Entry, host: string)
    requires e.domain == []
    ensures Matches(e, host)
  {
    ContainsItself(host);
  }

  /** Both site URLs of every entry carry a scheme. */
  predicate AllSchemed(table: seq<Entry>)
  {
    forall i :: 0 <= i < |table| ==> HasScheme(table[i].ipv6Site) && HasScheme(table[i].intranetSite)
  }

  /** The per-entry step of `fixWhitelistURLs`: prefix "http://" to each site
      URL that fails the scheme test. */
  function Repair(e: Entry): Entry
  {
    e.(ipv6Site := FormatUrl(e.ipv6Site), intranetSite := FormatUrl(e.intranetSite))
  }

  /** `fixWhitelistURLs` over the whole table. */
  function RepairAll(table: seq<Entry>): seq<Entry>
  {
    seq(|table|, i requires 0 <= i < |table| => Repair(table[i]))
  }

  /** How many of the entry's two URLs lack a scheme. */
  function UnschemedIn(e: Entry): nat
  {
    (if HasScheme(e.ipv6Site) then 0 else 1) + (if HasScheme(e.intranetSite) then 0 else 1)
  }

  /** How many site URLs of the table lack a scheme: the number a repair pass
      reports as fixed. Counted from the back so that a left-to-right pass
      extends it one entry at a time. */
  function UnschemedCount(table: seq<Entry>): nat
    decreases |table|
  {
    if table == [] then 0
    else UnschemedCount(table[..|table| - 1]) + UnschemedIn(table[|table| - 1])
  }

  /** The repair of one entry and its contribution to the count, in terms of
      the scheme test as `fixWhitelistURLs` writes it out. */
  lemma RepairStep(e: Entry)
    ensures Repair(e) == e.(ipv6Site := if SchemePatternTest(e.ipv6Site) then e.ipv6Site else "http://" + e.ipv6Site,
                            intranetSite := if SchemePatternTest(e.intranetSite) then e.intranetSite else "http://" + e.intranetSite)
    ensures UnschemedIn(e) == (if SchemePatternTest(e.ipv6Site) then 0 else 1) + (if SchemePatternTest(e.intranetSite) then 0 else 1)
  {
    SchemePatternTestCorrect(e.ipv6Site);
    SchemePatternTestCorrect(e.intranetSite);
  }

  /** Extending the counted prefix by one entry adds that entry's count. */
  lemma UnschemedCountStep(table: seq<Entry>, i: nat)
    requires i < |table|
    ensures UnschemedCount(table[..i + 1]) == UnschemedCount(table[..i]) + UnschemedIn(table[i])
  {
    assert table[..i + 1][..i] == table[..i];
  }

  /** The repaired table keeps every domain, the number of entries and their
      order, and every URL in it carries a scheme; URLs that already had one
      are untouched. */
  lemma RepairAllSound(table: seq<Entry>)
    ensures AllSchemed(RepairAll(table))
    ensures forall i :: 0 <= i < |table| ==>
      RepairAll(table)[i].domain == table[i].domain &&
      (HasScheme(table[i].ipv6Site) ==> RepairAll(table)[i].ipv6Site == table[i].ipv6Site) &&
      (HasScheme(table[i].intranetSite) ==> RepairAll(table)[i].intranetSite == table[i].intranetSite)
  {
  }

  /** The count is zero exactly when every URL already has a scheme. */
  lemma {:induction false} UnschemedCountZero(table: seq<Entry>)
    ensures UnschemedCount(table) == 0 <==> AllSchemed(table)
    decreases |table|
  {
    if table != [] {
      var n := |table| - 1;
      UnschemedCountZero(table[..n]);
      assert forall i :: 0 <= i < n ==> table[..n][i] == table[i];
    }
  }

  /** A table whose URLs all carry a scheme is left as it is by a repair pass. */
  lemma RepairAllFixedPoint(table: seq<Entry>)
    requires AllSchemed(table)
    ensures RepairAll(table) == table
  {
    assert forall i :: 0 <= i < |table| ==> Repair(table[i]) == table[i];
  }

  /** A second repair pass fixes nothing and changes nothing. */
  lemma RepairAllIdempotent(table: seq<Entry>)
    ensures UnschemedCount(RepairAll(table)) == 0
    ensures RepairAll(RepairAll(table)) == RepairAll(table)
  {
    RepairAllSound(table);
    UnschemedCountZero(RepairAll(table));
    RepairAllFixedPoint(RepairAll(table));
  }
}
