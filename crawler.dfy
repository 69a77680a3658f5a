/** `PackageCrawler`: turns the anchors of the index root into the package
    listing, each package paired with an absolute URL. */
module Crawler {
  import opened PyStrings
  import opened Links

  /** The default `url` of `PackageCrawler` and `Package`. */
  const DefaultIndex: string := "https://pypi.org/simple/"

  /** One entry of the listing that `_get_packages` returns and saves. */
  datatype PackageEntry = PackageEntry(name: string, url: string)

  /** `_add_base_url`: `repo_url.rstrip('/simple/')` followed by `href`. The
      result ends in `href`, and what precedes it is `repoUrl` with its
      trailing run of the characters of "/simple/" cut off. */
  function AddBaseUrl(repoUrl: string, href: string): (r: string)
    ensures |href| <= |r| && r[|r| - |href|..] == href
    ensures IsRStripOf(r[..|r| - |href|], repoUrl, SimpleSuffix)
  {
    var base := RStrip(repoUrl, SimpleSuffix);
    assert (base + href)[..|base|] == base;
    base + href
  }

  /** The join `_add_base_url` evidently means: `repoUrl` with the suffix
      "/simple/" removed once, if it has it, followed by `href`. */
  function JoinBaseUrl(repoUrl: string, href: string): (r: string)
    ensures |href| <= |r| && r[|r| - |href|..] == href
    ensures EndsWith(repoUrl, SimpleSuffix) ==> r[..|r| - |href|] + SimpleSuffix == repoUrl
    ensures !EndsWith(repoUrl, SimpleSuffix) ==> r[..|r| - |href|] == repoUrl
  {
    var base := RemoveSuffix(repoUrl, SimpleSuffix);
    assert (base + href)[..|base|] == base;
    base + href
  }

  /** The comprehension of `_get_packages`: each anchor's label paired with its
      joined `href`, one entry per anchor, in document order. */
  function MapLinks(links: seq<Link>, join: string -> string): (r: seq<PackageEntry>)
    ensures |r| == |links|
    ensures forall i :: 0 <= i < |links| ==> r[i] == PackageEntry(links[i].text, join(links[i].href))
  {
    if links == [] then []
    else [PackageEntry(links[0].text, join(links[0].href))] + MapLinks(links[1..], join)
  }

  /** The listing a cold start computes from the index root's anchors, with
      the base-URL join as written. */
  function Listing(repoUrl: string, links: seq<Link>): (r: seq<PackageEntry>)
    ensures |r| == |links|
    ensures forall i :: 0 <= i < |links| ==>
      r[i].name == links[i].text && r[i].url == RStrip(repoUrl, SimpleSuffix) + links[i].href
  {
    MapLinks(links, href => AddBaseUrl(repoUrl, href))
  }

  /** The same listing with the corrected join. */
  function CorrectedListing(repoUrl: string, links: seq<Link>): (r: seq<PackageEntry>)
    ensures |r| == |links|
    ensures forall i :: 0 <= i < |links| ==>
      r[i].name == links[i].text && r[i].url == RemoveSuffix(repoUrl, SimpleSuffix) + links[i].href
  {
    MapLinks(links, href => JoinBaseUrl(repoUrl, href))
  }

  /** The strip also eats any trailing characters of the host that happen to
      occur in "/simple/". */
  lemma AddBaseUrlStripsHostTail(host: string, href: string)
    ensures AddBaseUrl(host + SimpleSuffix, href) == RStrip(host, SimpleSuffix) + href
  {
    RStripAppend(host, SimpleSuffix, SimpleSuffix);
  }

  /** The corrected join gives back the host in front of "/simple/". */
  lemma JoinBaseUrlKeepsHost(host: string, href: string)
    ensures JoinBaseUrl(host + SimpleSuffix, href) == host + href
  {
    RemoveSuffixOfAppend(host, SimpleSuffix);
  }

  /** As written and corrected joins agree exactly when the host does not end
      in one of the characters of "/simple/". */
  lemma JoinsAgreeIffCleanHost(host: string, href: string)
    ensures AddBaseUrl(host + SimpleSuffix, href) == JoinBaseUrl(host + SimpleSuffix, href)
        <==> (host == [] || host[|host| - 1] !in SimpleSuffix)
  {
    AddBaseUrlStripsHostTail(host, href);
    JoinBaseUrlKeepsHost(host, href);
    var r := RStrip(host, SimpleSuffix);
    if host == [] || host[|host| - 1] !in SimpleSuffix {
      RStripUnique(host, SimpleSuffix, host);
    } else {
      assert |r| < |host|;
      assert |r + href| < |host + href|;
    }
  }

  /** The default index root loses exactly "/simple/". */
  lemma PypiBase()
    ensures RStrip(DefaultIndex, SimpleSuffix) == "https://pypi.org"
  {
    assert DefaultIndex == "https://pypi.org" + SimpleSuffix;
    RStripAppend("https://pypi.org", SimpleSuffix, SimpleSuffix);
    RStripUnique("https://pypi.org", SimpleSuffix, "https://pypi.org");
  }

  /** An index root on ".com" loses the "m" of its host as well. */
  lemma ExampleComBase()
    ensures RStrip("https://example.com/simple/", SimpleSuffix) == "https://example.co"
  {
    var p, t := "https://example.co", "m/simple/";
    assert "https://example.com/simple/" == p + t;
    RStripAppend(p, t, SimpleSuffix);
    RStripUnique(p, SimpleSuffix, p);
  }

  /** Cold start against the default index with two anchors. */
  lemma ColdStartListing()
    ensures Listing(DefaultIndex, [Link("pkg-a", "/simple/pkg-a/"), Link("pkg-b", "/simple/pkg-b/")])
         == [PackageEntry("pkg-a", "https://pypi.org/simple/pkg-a/"),
             PackageEntry("pkg-b", "https://pypi.org/simple/pkg-b/")]
  {
    PypiBase();
    PypiUrl("/simple/pkg-a/", "https://pypi.org/simple/pkg-a/");
    PypiUrl("/simple/pkg-b/", "https://pypi.org/simple/pkg-b/");
  }

  lemma PypiUrl(href: string, url: string)
    requires "https://pypi.org" + href == url
    ensures RStrip(DefaultIndex, SimpleSuffix) + href == url
  {
    PypiBase();
  }

  /** The as-written join on a ".com" index root points at the wrong host... */
  lemma ExampleComAsWritten()
    ensures AddBaseUrl("https://example.com/simple/", "/simple/pkg-a/") == "https://example.co/simple/pkg-a/"
  {
    ExampleComBase();
    assert "https://example.co" + "/simple/pkg-a/" == "https://example.co/simple/pkg-a/";
  }

  /** ... where the corrected join keeps it. */
  lemma ExampleComCorrected()
    ensures JoinBaseUrl("https://example.com/simple/", "/simple/pkg-a/") == "https://example.com/simple/pkg-a/"
  {
    var host, href := "https://example.com", "/simple/pkg-a/";
    assert host + SimpleSuffix == "https://example.com/simple/";
    JoinBaseUrlKeepsHost(host, href);
    assert host + href == "https://example.com/simple/pkg-a/";
  }
}
