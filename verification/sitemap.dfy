/** The public site URL: the configured value (or the local development
    fall-back) with every trailing slash removed. Used by both the sitemap
    and robots metadata. */
module SiteUrl {
  import opened JsPrimitives

  const Fallback: string := "http://localhost:3000"

  /** `url.replace(/\/+$/, "")`: remove the final run of slashes. */
  function StripTrailingSlashes(url: string): (r: string)
    ensures |r| <= |url| && r == url[..|r|]
    ensures forall k :: |r| <= k < |url| ==> url[k] == '/'
    ensures r == "" || r[|r| - 1] != '/'
    decreases |url|
  {
    if url != "" && url[|url| - 1] == '/' then StripTrailingSlashes(url[..|url| - 1]) else url
  }

  /** `getSiteUrl()` with `process.env.NEXT_PUBLIC_SITE_URL` passed in: an
      absent or empty value falls back to the development URL, and the result
      never ends with a slash. */
  function GetSiteUrl(env: Option<string>): (r: string)
    ensures r == "" || r[|r| - 1] != '/'
    ensures env.None? || env == Some("") ==> r == Fallback
    ensures env.Some? && env.value != "" ==>
      |r| <= |env.value| && r == env.value[..|r|] && forall k :: |r| <= k < |env.value| ==> env.value[k] == '/'
  {
    var url := match env
      case Some(v) => if v == "" then Fallback else v
      case None => Fallback;
    StripTrailingSlashes(url)
  }

  /** A string with no trailing slash is left as it is, so stripping is
      idempotent. */
  lemma StripKeepsClean(url: string)
    requires url == "" || url[|url| - 1] != '/'
    ensures StripTrailingSlashes(url) == url
    ensures StripTrailingSlashes(StripTrailingSlashes(url)) == url
  {
  }

  /** Appending slashes to a value changes nothing: only the trailing run is
      removed, so every slash inside the URL is kept. */
  lemma {:induction false} StripIgnoresAddedSlashes(url: string, slashes: string)
    requires forall k :: 0 <= k < |slashes| ==> slashes[k] == '/'
    ensures StripTrailingSlashes(url + slashes) == StripTrailingSlashes(url)
    decreases |slashes|
  {
    if slashes != "" {
      var shorter := slashes[..|slashes| - 1];
      assert (url + slashes)[..|url + slashes| - 1] == url + shorter;
      StripIgnoresAddedSlashes(url, shorter);
    } else {
      assert url + slashes == url;
    }
  }

  /** The configured URL with any number of trailing slashes yields the same
      site URL; a value made only of slashes strips to the empty string (it
      is not replaced by the fall-back, which applies before stripping). */
  lemma SiteUrlIgnoresTrailingSlashes(url: string, slashes: string)
    requires url != ""
    requires forall k :: 0 <= k < |slashes| ==> slashes[k] == '/'
    ensures GetSiteUrl(Some(url + slashes)) == GetSiteUrl(Some(url))
    ensures GetSiteUrl(Some("/" + slashes)) == ""
  {
    StripIgnoresAddedSlashes(url, slashes);
    StripIgnoresAddedSlashes("/", slashes);
  }
}

/** `sitemap()`: the four pages of the site. */
module Sitemap {
  import opened JsPrimitives
  import opened SiteUrl

  datatype ChangeFrequency = Weekly

  /** One sitemap record; `D` stands for the `Date` the caller supplies. */
  datatype Entry<D> = Entry(url: string, lastModified: D, changeFrequency: ChangeFrequency, priority: real)

  function Pages<D>(env: Option<string>, lastModified: D): (entries: seq<Entry<D>>)
    ensures |entries| == 4
    ensures var u := GetSiteUrl(env);
      && entries[0].url == u + "/"
      && entries[1].url == u + "/ro"
      && entries[2].url == u + "/hu"
      && entries[3].url == u + "/en"
    ensures forall k :: 0 <= k < |entries| ==>
      entries[k].lastModified == lastModified && entries[k].changeFrequency == Weekly
    ensures entries[0].priority == 0.8
    ensures forall k :: 1 <= k < |entries| ==> entries[0].priority < entries[k].priority == 1.0
  {
    var siteUrl := GetSiteUrl(env);
    [
      Entry(siteUrl + "/", lastModified, Weekly, 0.8),
      Entry(siteUrl + "/ro", lastModified, Weekly, 1.0),
      Entry(siteUrl + "/hu", lastModified, Weekly, 1.0),
      Entry(siteUrl + "/en", lastModified, Weekly, 1.0)
    ]
  }

  /** Every sitemap URL has exactly one slash between the site URL and the
      page path, however many trailing slashes the configured value had. */
  lemma PagesHaveSingleSlash<D>(env: Option<string>, lastModified: D)
    ensures var u := GetSiteUrl(env);
      forall k :: 0 <= k < 4 ==>
        var url := Pages(env, lastModified)[k].url;
        |url| > |u| && url[..|u|] == u && url[|u|] == '/' && (u == "" || url[|u| - 1] != '/')
  {
  }
}
