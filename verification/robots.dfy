/** `robots()`: allow every crawler everywhere and point it at the sitemap. */
module Robots {
  import opened JsPrimitives
  import opened SiteUrl

  datatype Rule = Rule(userAgent: string, allow: string)

  datatype RobotsFile = RobotsFile(rules: seq<Rule>, sitemap: string)

  const SitemapPath: string := "/sitemap.xml"

  function Robots(env: Option<string>): (r: RobotsFile)
    ensures r.rules == [Rule("*", "/")]
    ensures var u := GetSiteUrl(env);
      |r.sitemap| == |u| + |SitemapPath| && r.sitemap[..|u|] == u && r.sitemap[|u|..] == SitemapPath
  {
    var siteUrl := GetSiteUrl(env);
    RobotsFile([Rule("*", "/")], siteUrl + SitemapPath)
  }

  /** Exactly one slash precedes `sitemap.xml`, whatever trailing slashes the
      configured value had. */
  lemma SitemapHasSingleSlash(env: Option<string>)
    ensures var s := Robots(env).sitemap;
      |s| >= |SitemapPath| && s[|s| - |SitemapPath|..] == SitemapPath
      && (|s| == |SitemapPath| || s[|s| - |SitemapPath| - 1] != '/')
  {
    var u := GetSiteUrl(env);
    var s := u + SitemapPath;
    assert s[|s| - |SitemapPath|..] == SitemapPath;
    if u != "" {
      assert s[|s| - |SitemapPath| - 1] == u[|u| - 1];
    }
  }

  /** An absent value points crawlers at the development server's sitemap. */
  lemma FallbackSitemap()
    ensures Robots(None).sitemap == "http://localhost:3000/sitemap.xml"
  {
    assert Fallback[|Fallback| - 1] == '0';
    StripKeepsClean(Fallback);
  }

  /** Trailing slashes in the configured value do not change the robots file. */
  lemma RobotsIgnoresTrailingSlashes(url: string, slashes: string)
    requires url != ""
    requires forall k :: 0 <= k < |slashes| ==> slashes[k] == '/'
    ensures Robots(Some(url + slashes)) == Robots(Some(url))
  {
    SiteUrlIgnoresTrailingSlashes(url, slashes);
  }
}
