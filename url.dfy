/** The URL normaliser: `formatURL` in `addToWhitelist`, whose test
    `/^(https?|ftp):\/\//i` is repeated inline in `fixWhitelistURLs`. */
module Url {
  import opened Strings

  /** The schemes a stored site URL may start with. Scheme names are
      case-insensitive (section 3.1 of RFC 3986), and so is the test. */
  const Schemes: seq<string> := ["http://", "https://", "ftp://"]

  /** Reference meaning: `url` starts, ignoring case, with one of `Schemes`. */
  predicate HasScheme(url: string)
  {
    exists i :: 0 <= i < |Schemes| && StartsWithFolded(Schemes[i], url)
  }

  /** The regular expression as the matcher runs it: "http", then an optional
      "s" (given up again if "://" does not follow it), then "://"; or else
      "ftp://". */
  predicate SchemePatternTest(url: string)
  {
    if StartsWithFolded("http", url) then
      StartsWithFolded("s://", url[4..]) || StartsWithFolded("://", url[4..])
    else
      StartsWithFolded("ftp://", url)
  }

  lemma {:induction false} StartsWithFoldedAppend(p: string, q: string, s: string)
    ensures StartsWithFolded(p + q, s) <==>
      StartsWithFolded(p, s) && StartsWithFolded(q, s[|p|..])
  {
    if StartsWithFolded(p + q, s) {
      forall k | 0 <= k < |q| ensures Lower(s[|p|..][k]) == q[k] {
        assert (p + q)[|p| + k] == q[k];
      }
    }
    if StartsWithFolded(p, s) && StartsWithFolded(q, s[|p|..]) {
      forall k | 0 <= k < |p + q| ensures Lower(s[k]) == (p + q)[k] {
        if k >= |p| {
          assert s[k] == s[|p|..][k - |p|];
        }
      }
    }
  }

  /** The regular expression accepts exactly the URLs that carry one of the
      three schemes. */
  lemma SchemePatternTestCorrect(url: string)
    ensures SchemePatternTest(url) <==> HasScheme(url)
  {
    StartsWithFoldedAppend("http", "://", url);
    StartsWithFoldedAppend("http", "s://", url);
    assert Schemes[0] == "http" + "://";
    assert Schemes[1] == "http" + "s://";
    if StartsWithFolded("http", url) {
      // "ftp://" cannot match where "http" does: the first letters differ
      assert Lower(url[0]) == 'h';
      assert !StartsWithFolded(Schemes[2], url);
    } else {
      assert !StartsWithFolded(Schemes[0], url) && !StartsWithFolded(Schemes[1], url);
      assert HasScheme(url) <==> StartsWithFolded(Schemes[2], url);
    }
  }

  /** `formatURL`: keep a URL that passes the test, otherwise prefix
      "http://". */
  function FormatUrl(url: string): (r: string)
    ensures HasScheme(r)
    ensures HasScheme(url) ==> r == url
    ensures !HasScheme(url) ==> r == "http://" + url
  {
    SchemePatternTestCorrect(url);
    if SchemePatternTest(url) then url
    else
      var r := "http://" + url;
      StartsWithFoldedAppend("http://", url, r);
      assert StartsWithFolded(Schemes[0], r);
      r
  }

  /** Normalising twice is normalising once. */
  lemma FormatUrlIdempotent(url: string)
    ensures FormatUrl(FormatUrl(url)) == FormatUrl(url)
  {
  }

  /** A URL is left as it is exactly when it already has a scheme. */
  lemma FormatUrlFixedPoints(url: string)
    ensures FormatUrl(url) == url <==> HasScheme(url)
  {
  }
}
