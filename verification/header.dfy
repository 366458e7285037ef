/** The sticky header: its navigation items, the "scrolled" shadow flag, and
    the choice of the active section from intersection-observer entries. */
module Header {
  import opened JsPrimitives
  import opened Languages

  /** The page sections the navigation links to. */
  datatype Section = Top | About | Gallery | Contact

  /** The element id of a section, which is also its fragment in the link. */
  function Id(s: Section): string
  {
    match s
    case Top => "top"
    case About => "about"
    case Gallery => "gallery"
    case Contact => "contact"
  }

  /** The sections in navigation order. */
  const Sections: seq<Section> := [Top, About, Gallery, Contact]

  datatype NavLabels = NavLabels(top: string, about: string, gallery: string, contact: string)

  /** `NAV[lang]`: the navigation captions of each locale. */
  function Nav(lang: Lang): (labels: NavLabels)
    ensures forall s :: Caption(labels, s) != ""
    ensures forall s1, s2 :: s1 != s2 ==> Caption(labels, s1) != Caption(labels, s2)
  {
    if lang == "hu" then NavLabels("Kezdőlap", "Rólunk", "Galéria", "Kapcsolat")
    else if lang == "ro" then NavLabels("Acasă", "Despre", "Galerie", "Contact")
    else NavLabels("Home", "About", "Gallery", "Contact")
  }

  function Caption(labels: NavLabels, s: Section): string
  {
    match s
    case Top => labels.top
    case About => labels.about
    case Gallery => labels.gallery
    case Contact => labels.contact
  }

  datatype NavItem = NavItem(id: Section, href: string, caption: string)

  /** The `items` list: one link per section, in order, to `#id`, captioned
      in the page's locale. */
  function Items(lang: Lang): (items: seq<NavItem>)
    ensures |items| == |Sections|
    ensures forall k :: 0 <= k < |items| ==>
      && items[k].id == Sections[k]
      && items[k].href == "#" + Id(Sections[k])
      && items[k].caption == Caption(Nav(lang), Sections[k])
  {
    seq(|Sections|, k requires 0 <= k < |Sections| =>
      NavItem(Sections[k], "#" + Id(Sections[k]), Caption(Nav(lang), Sections[k])))
  }

  /** One record handed to the observer callback. Every observed element is
      one of the sections, so its id is never empty. */
  datatype ObserverEntry = ObserverEntry(target: Section, isIntersecting: bool, ratio: Option<real>)

  /** `intersectionRatio ?? 0`. */
  function Ratio(e: ObserverEntry): real
  {
    match e.ratio
    case Some(r) => r
    case None => 0.0
  }

  /** Entry `k` is the head of the intersecting entries stably sorted by
      descending ratio: it intersects, no intersecting entry has a larger
      ratio, and every earlier intersecting entry has a strictly smaller one
      (ties go to the earliest entry). */
  ghost predicate IsChosen(entries: seq<ObserverEntry>, k: int)
  {
    && 0 <= k < |entries|
    && entries[k].isIntersecting
    && (forall j :: 0 <= j < |entries| && entries[j].isIntersecting ==> Ratio(entries[j]) <= Ratio(entries[k]))
    && (forall j :: 0 <= j < k && entries[j].isIntersecting ==> Ratio(entries[j]) < Ratio(entries[k]))
  }

  /** The position of the entry the callback picks, if any intersects. */
  function Choose(entries: seq<ObserverEntry>): (c: Option<nat>)
    ensures c.None? <==> forall j :: 0 <= j < |entries| ==> !entries[j].isIntersecting
    ensures c.Some? ==> IsChosen(entries, c.value)
    decreases |entries|
  {
    if entries == [] then None
    else
      var init := entries[..|entries| - 1];
      var last := |entries| - 1;
      var c := Choose(init);
      assert forall j :: 0 <= j < last ==> init[j] == entries[j];
      if entries[last].isIntersecting && (c.None? || Ratio(init[c.value]) < Ratio(entries[last])) then
        Some(last)
      else
        c
  }

  /** The stable-sort reading picks one entry only: at most one position
      satisfies it. */
  lemma ChosenIsUnique(entries: seq<ObserverEntry>, k1: int, k2: int)
    requires IsChosen(entries, k1) && IsChosen(entries, k2)
    ensures k1 == k2
  {
  }

  /** The header's state: whether the page is scrolled, and the active section. */
  datatype HeaderState = HeaderState(scrolled: bool, active: Section)

  const Initial: HeaderState := HeaderState(false, Top)

  /** The scroll handler's frame callback: `scrolled` follows
      `(window.scrollY || 0) > 8`; the active section is untouched. */
  function OnScrollFrame(h: HeaderState, scrollY: real): (h': HeaderState)
    ensures h'.active == h.active
    ensures h'.scrolled <==> scrollY > 8.0
  {
    h.(scrolled := scrollY > 8.0)
  }

  /** The observer callback: with no intersecting entry the active section is
      kept; otherwise it becomes the target of the entry with the largest
      ratio, the earliest among equals. The scroll flag is untouched. */
  function OnIntersection(h: HeaderState, entries: seq<ObserverEntry>): (h': HeaderState)
    ensures h'.scrolled == h.scrolled
    ensures (forall j :: 0 <= j < |entries| ==> !entries[j].isIntersecting) ==> h' == h
    ensures (exists j :: 0 <= j < |entries| && entries[j].isIntersecting) ==>
      exists k :: IsChosen(entries, k) && h'.active == entries[k].target
  {
    match Choose(entries)
    case Some(k) => h.(active := entries[k].target)
    case None => h
  }

  /** The callback's choice agrees with any entry meeting the stable-sort
      reading. */
  lemma IntersectionPicksChosen(h: HeaderState, entries: seq<ObserverEntry>, k: int)
    requires IsChosen(entries, k)
    ensures OnIntersection(h, entries).active == entries[k].target
  {
    var c := Choose(entries);
    ChosenIsUnique(entries, c.value, k);
  }

  /** Which navigation links are rendered active. */
  function ActiveFlags(h: HeaderState, lang: Lang): (flags: seq<bool>)
    ensures |flags| == |Sections|
    ensures forall k :: 0 <= k < |flags| ==> (flags[k] <==> Sections[k] == h.active)
  {
    var items := Items(lang);
    seq(|items|, k requires 0 <= k < |items| => items[k].id == h.active)
  }

  /** Exactly one navigation link is active, the one of the active section;
      at first that is the top of the page. */
  lemma ExactlyOneActiveLink(h: HeaderState, lang: Lang)
    ensures var flags := ActiveFlags(h, lang);
      exists k :: 0 <= k < |flags| && flags[k] && Sections[k] == h.active
        && forall j :: 0 <= j < |flags| && flags[j] ==> j == k
    ensures ActiveFlags(Initial, lang)[0] && Sections[0] == Top
  {
    var flags := ActiveFlags(h, lang);
    assert forall i, j :: 0 <= i < j < |Sections| ==> Sections[i] != Sections[j];
    var k := match h.active
      case Top => 0
      case About => 1
      case Gallery => 2
      case Contact => 3;
    assert flags[k] && Sections[k] == h.active;
  }
}
