/** The two reachability probes of `checkIntranet` and `checkIPv6`. The
    request itself is made by the userscript host; what is modelled is the
    request each probe issues and how its response is classified. */
module Probes {
  import opened Strings

  /** How a probe's request ended: loaded with a status and a body, failed,
      or timed out. */
  datatype Response = Loaded(status: int, body: string) | Failed | TimedOut

  datatype ProbeKind = IntranetProbe | Ipv6Probe

  /** One GET request a probe issues. */
  datatype Request = Request(kind: ProbeKind, url: string, timeoutMs: nat)

  /** The intranet test URL used until one is configured. */
  const DefaultIntranetTestUrl: string := "http://intranet-test-resource/"
  const IntranetTimeoutMs: nat := 2000

  /** The public endpoint that reports whether the client has IPv6. */
  const Ipv6TestUrl: string := "https://ipv6.lookup.test-ipv6.com/ip/"
  const Ipv6TimeoutMs: nat := 3000

  /** The text the IPv6 endpoint returns, with status 200, when it sees no
      IPv6 address. */
  const NoIpv6Marker: string := "No IPv6 address detected"

  function IntranetRequest(testUrl: string): Request
  {
    Request(IntranetProbe, testUrl, IntranetTimeoutMs)
  }

  const Ipv6Request: Request := Request(Ipv6Probe, Ipv6TestUrl, Ipv6TimeoutMs)

  /** `checkIntranet`'s verdict: the test resource loaded with status 200. */
  predicate IntranetReachable(r: Response)
  {
    r.Loaded? && r.status == 200
  }

  /** `checkIPv6`'s verdict: status 200, a non-empty body, and no marker. */
  predicate Ipv6Detected(r: Response)
  {
    r.Loaded? && r.status == 200 && r.body != [] && !Contains(NoIpv6Marker, r.body)
  }

  /** A failed or timed-out request is never reachability, and the IPv6
      verdict is strictly stronger than a plain status check: status 200 with
      an empty body, or with the marker, is not IPv6. */
  lemma ProbeVerdicts(status: int, body: string)
    ensures !IntranetReachable(Failed) && !IntranetReachable(TimedOut)
    ensures !Ipv6Detected(Failed) && !Ipv6Detected(TimedOut)
    ensures Ipv6Detected(Loaded(status, body)) ==> IntranetReachable(Loaded(status, body))
    ensures IntranetReachable(Loaded(status, body)) <==> status == 200
    ensures !Ipv6Detected(Loaded(status, []))
    ensures !Ipv6Detected(Loaded(status, NoIpv6Marker))
  {
    ContainsItself(NoIpv6Marker);
  }

  /** The marker anywhere in the body, not only as the whole body, makes the
      verdict negative. */
  lemma {:induction false} MarkerAnywhereRejects(prefix: string, suffix: string)
    ensures !Ipv6Detected(Loaded(200, prefix + NoIpv6Marker + suffix))
  {
    var body := prefix + NoIpv6Marker + suffix;
    assert OccursAt(NoIpv6Marker, body, |prefix|) by {
      forall k | 0 <= k < |NoIpv6Marker| ensures body[|prefix| + k] == NoIpv6Marker[k] {
        assert body[|prefix| + k] == (prefix + NoIpv6Marker)[|prefix| + k];
      }
    }
    ContainsIffOccurs(NoIpv6Marker, body);
  }
}
