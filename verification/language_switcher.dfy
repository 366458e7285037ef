/** The language switcher: rewriting the locale segment of the current path,
    and the one-link-per-locale list it renders. */
module LanguageSwitcher {
  import opened JsPrimitives
  import opened Languages

  /** `parts.filter(Boolean)` on strings: drop the empty ones, keep the order. */
  function NonEmpty(parts: seq<string>): (r: seq<string>)
    ensures |r| <= |parts|
    ensures forall k :: 0 <= k < |r| ==> r[k] != "" && r[k] in parts
    ensures (forall k :: 0 <= k < |parts| ==> parts[k] != "") ==> r == parts
    ensures forall x :: x != "" ==> multiset(r)[x] == multiset(parts)[x]
  {
    if parts == [] then []
    else
      assert parts == [parts[0]] + parts[1..];
      if parts[0] == "" then NonEmpty(parts[1..])
      else [parts[0]] + NonEmpty(parts[1..])
  }

  /** The filter keeps the order: filtering a concatenation filters each part. */
  lemma {:induction false} NonEmptyAppend(a: seq<string>, b: seq<string>)
    ensures NonEmpty(a + b) == NonEmpty(a) + NonEmpty(b)
    decreases |a|
  {
    if a == [] {
      assert a + b == b;
    } else {
      assert (a + b)[0] == a[0] && (a + b)[1..] == a[1..] + b;
      NonEmptyAppend(a[1..], b);
    }
  }

  /** The non-empty `/`-separated segments of a path. */
  function Segments(path: string): (segments: seq<string>)
    ensures CleanParts(segments, '/')
  {
    NonEmpty(Split(path, '/'))
  }

  /** `replaceLangInPath`: a leading supported locale is replaced by `newLang`;
      any other path gets `newLang` prepended. */
  function ReplaceLangInPath(pathname: string, newLang: Lang): (r: string)
    ensures |r| > |newLang| && r[..|newLang| + 1] == "/" + newLang
    ensures |r| == |newLang| + 1 || r[|newLang| + 1] == '/'
  {
    var parts := Segments(pathname);
    if |parts| == 0 then "/" + newLang
    else
      var first := parts[0];
      var rest := parts[1..];
      if IsLang(first) then
        var tail := if |rest| > 0 then "/" + Join(rest, '/') else "";
        "/" + newLang + tail
      else
        "/" + newLang + "/" + Join(parts, '/')
  }

  /** The segments the rewrite keeps after the new locale: everything but a
      leading supported locale. */
  function Kept(segments: seq<string>): seq<string>
  {
    if |segments| > 0 && IsLang(segments[0]) then segments[1..] else segments
  }

  lemma SegmentsAreClean(path: string)
    ensures CleanParts(Segments(path), '/')
  {
  }

  /** Both branches of the rewrite render the same shape: a slash, then the
      new locale and the kept segments joined by slashes. */
  lemma ReplaceIsRender(pathname: string, newLang: Lang)
    ensures ReplaceLangInPath(pathname, newLang)
      == "/" + Join([newLang] + Kept(Segments(pathname)), '/')
  {
    var parts := Segments(pathname);
    var kept := Kept(parts);
    var ps := [newLang] + kept;
    assert ps[1..] == kept;
    if |parts| > 0 && !IsLang(parts[0]) {
      assert "/" + newLang + "/" + Join(parts, '/') == "/" + (newLang + ['/'] + Join(parts, '/'));
    } else if |parts| > 0 && |parts[1..]| > 0 {
      assert "/" + newLang + ("/" + Join(kept, '/')) == "/" + (newLang + ['/'] + Join(kept, '/'));
    }
  }

  /** Rendering a clean segment list and reading its segments back is lossless. */
  lemma SegmentsOfRender(ps: seq<string>)
    requires |ps| >= 1 && CleanParts(ps, '/')
    ensures Segments("/" + Join(ps, '/')) == ps
  {
    var j := Join(ps, '/');
    SplitJoin(ps, '/');
    var s := "/" + j;
    assert s[0] == '/' && s[1..] == j;
    assert Split(s, '/') == [""] + ps;
    assert ([""] + ps)[1..] == ps;
  }

  /** The segments of the rewritten path are exactly the new locale followed
      by the kept segments, in order. */
  lemma {:induction false} ReplaceSegments(pathname: string, newLang: Lang)
    ensures Segments(ReplaceLangInPath(pathname, newLang))
      == [newLang] + Kept(Segments(pathname))
  {
    ReplaceIsRender(pathname, newLang);
    SegmentsAreClean(pathname);
    LangIsSegment(newLang);
    SegmentsOfRender([newLang] + Kept(Segments(pathname)));
  }

  /** A path with no non-empty segment (`""`, `"/"`, `"///"`) becomes exactly
      the new locale's root. */
  lemma EmptyPathToRoot(pathname: string, newLang: Lang)
    requires forall k :: 0 <= k < |pathname| ==> pathname[k] == '/'
    ensures ReplaceLangInPath(pathname, newLang) == "/" + newLang
  {
    SlashesHaveNoSegments(pathname);
  }

  lemma {:induction false} SlashesHaveNoSegments(pathname: string)
    requires forall k :: 0 <= k < |pathname| ==> pathname[k] == '/'
    ensures Segments(pathname) == []
    decreases |pathname|
  {
    if pathname != [] {
      SlashesHaveNoSegments(pathname[1..]);
      var tail := Split(pathname[1..], '/');
      assert Split(pathname, '/') == [""] + tail;
      assert ([""] + tail)[1..] == tail;
    }
  }

  /** When the first segment is a supported locale it is replaced and the
      remaining segments follow unchanged; when it is anything else (a page
      name, `"EN"`, ...) every segment is kept after the new locale. Only the
      first segment is inspected. */
  lemma ReplaceCases(pathname: string, newLang: Lang)
    ensures var segs := Segments(pathname);
      && (|segs| > 0 && IsLang(segs[0]) ==>
            Segments(ReplaceLangInPath(pathname, newLang)) == [newLang] + segs[1..])
      && (|segs| == 0 || !IsLang(segs[0]) ==>
            Segments(ReplaceLangInPath(pathname, newLang)) == [newLang] + segs)
  {
    ReplaceSegments(pathname, newLang);
  }

  /** The rewritten path never holds an empty segment: no `//` and no
      trailing `/`. */
  lemma ReplaceIsClean(pathname: string, newLang: Lang)
    ensures var r := ReplaceLangInPath(pathname, newLang);
      && r[|r| - 1] != '/'
      && forall k :: 0 <= k < |r| - 1 ==> !(r[k] == '/' && r[k + 1] == '/')
  {
    var ps := [newLang] + Kept(Segments(pathname));
    ReplaceIsRender(pathname, newLang);
    SegmentsAreClean(pathname);
    LangIsSegment(newLang);
    JoinClean(ps, '/');
    var j := Join(ps, '/');
    var r := "/" + j;
    forall k | 0 <= k < |r| - 1
      ensures !(r[k] == '/' && r[k + 1] == '/')
    {
      if k > 0 {
        assert r[k] == j[k - 1] && r[k + 1] == j[k];
      }
    }
  }

  /** Switching twice is the same as switching once to the final language. */
  lemma SwitchTwice(pathname: string, a: Lang, b: Lang)
    ensures ReplaceLangInPath(ReplaceLangInPath(pathname, a), b)
      == ReplaceLangInPath(pathname, b)
  {
    var once := ReplaceLangInPath(pathname, a);
    ReplaceSegments(pathname, a);
    ReplaceIsRender(once, b);
    ReplaceIsRender(pathname, b);
    assert ([a] + Kept(Segments(pathname)))[1..] == Kept(Segments(pathname));
  }

  /** `lang.toUpperCase()` for the ASCII letters of a locale code. */
  function Upper(s: string): (r: string)
    ensures |r| == |s|
    ensures forall k :: 0 <= k < |s| ==>
      r[k] == (if 'a' <= s[k] <= 'z' then (s[k] as int - 32) as char else s[k])
  {
    if s == [] then [] else [if 'a' <= s[0] <= 'z' then (s[0] as int - 32) as char else s[0]] + Upper(s[1..])
  }

  datatype LangLink = LangLink(lang: Lang, href: string, caption: string, active: bool)

  /** The links rendered by `LanguageSwitcher`, one per supported locale, for
      the path `usePathname()` reported (absent or empty meaning `"/"`). */
  function Links(pathname: Option<string>, currentLang: Lang): (links: seq<LangLink>)
    ensures |links| == |SupportedLangs|
    ensures forall k :: 0 <= k < |links| ==>
      && links[k].lang == SupportedLangs[k]
      && links[k].href == ReplaceLangInPath(CurrentPath(pathname), SupportedLangs[k])
      && links[k].caption == Upper(SupportedLangs[k])
      && (links[k].active <==> SupportedLangs[k] == currentLang)
  {
    var path := CurrentPath(pathname);
    seq(|SupportedLangs|, k requires 0 <= k < |SupportedLangs| =>
      var lang: Lang := SupportedLangs[k];
      LangLink(lang, ReplaceLangInPath(path, lang), Upper(lang), lang == currentLang))
  }

  /** `usePathname() || "/"`. */
  function CurrentPath(pathname: Option<string>): (p: string)
    ensures p != ""
    ensures pathname.None? || pathname == Some("") ==> p == "/"
    ensures pathname.Some? && pathname.value != "" ==> p == pathname.value
  {
    match pathname
    case Some(v) => if v == "" then "/" else v
    case None => "/"
  }

  /** Exactly one link is active: the one for the current language. */
  lemma ExactlyOneActive(pathname: Option<string>, currentLang: Lang)
    ensures var links := Links(pathname, currentLang);
      exists k :: 0 <= k < |links| && links[k].active
        && links[k].lang == currentLang
        && forall j :: 0 <= j < |links| && links[j].active ==> j == k
  {
    var links := Links(pathname, currentLang);
    var k := if currentLang == "hu" then 0 else if currentLang == "ro" then 1 else 2;
    assert links[k].active && links[k].lang == currentLang;
    SupportedLangsShape();
  }

  /** With no path reported, every link points at its locale's root. */
  lemma MissingPathLinksToRoots(currentLang: Lang)
    ensures var links := Links(None, currentLang);
      forall k :: 0 <= k < |links| ==> links[k].href == "/" + SupportedLangs[k]
  {
    EmptyPathToRoot("/", "hu");
    EmptyPathToRoot("/", "ro");
    EmptyPathToRoot("/", "en");
  }
}
