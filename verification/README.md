# Akkert site logic, modelled in Dafny

This project models the small pieces of logic in a multilingual (Hungarian,
Romanian, English) marketing site for a holiday rental. Most of the site is
markup. What is modelled here is the pure decision logic behind it:

- **Gallery** (`gallery.dfy`). The lightbox state machine: open at a
  thumbnail, close, next and previous with wrap-around (`clamp`). It also
  covers keyboard and pointer dispatch, the `k / n` counter, the current
  image, and the body-overflow scroll lock that is saved and restored.
- **Locale path rewriting** (`language_switcher.dfy`, `languages.dfy`).
  `replaceLangInPath`, the per-locale link list, the supported locales and
  `isLang`.
- **Message lookup** (`messages.dfy`). `getMessages` and the dotted-key
  walk `t`, which falls back to the key itself.
- **Site URL** (`sitemap.dfy`, `robots.dfy`). `getSiteUrl`, with its
  fall-back URL and trailing-slash stripping, plus the sitemap and robots
  records built from it.
- **Header** (`header.dfy`). The navigation items, the `scrolled` flag and
  the observer callback's choice of the active section.
- **Slideshow** (`slideshow.dfy`). The timer tick over three slides and the
  rule that one slide is visible at a time.

`js_primitives.dfy` holds the JavaScript semantics these pieces rely on:

- `undefined`-able values (`Option`).
- The truncating `%` operator (`TruncRem`). Its remainder takes the sign of
  the dividend, unlike Dafny's Euclidean `%`.
- `split` and `join` with a one-character separator, and both round trips
  between them.

Inputs from outside the program are parameters of the model:

- the `NEXT_PUBLIC_SITE_URL` environment value;
- the sitemap's `new Date()`;
- the path `usePathname()` reports;
- the body's overflow style when the gallery mounts;
- the message dictionaries;
- the image list and its length at each interaction;
- the observer entries and the scroll offset.

React state survives a change of the gallery's `images` prop, so the model
passes the image count to every interaction and never resets the index. The
code keeps the raw index and wraps it only when it reads or advances it
(`current`, `next`, `prev`); the model does the same.

## Model

| member | source | states |
|---|---|---|
| JsPrimitives.TruncRem | src/components/Gallery.tsx:13 | JavaScript `%` for a positive divisor: the dividend is the truncated quotient times the divisor plus the remainder, and the remainder lies in `[0, b)` for a non-negative dividend and in `(-b, 0]` for a negative one |
| JsPrimitives.Split | src/i18n/messages.ts:17 | `split` always yields at least one piece, no piece contains the separator, and a single piece is the whole string |
| JsPrimitives.JoinSplit | src/i18n/messages.ts:17 | joining the pieces of a split gives back the original string |
| JsPrimitives.Join | src/components/LanguageSwitcher.tsx:15-19 | `join` of no pieces is `""`; otherwise the result is at least as long as the first piece plus one separator per further piece (its meaning is carried by JoinSplit and SplitJoin) |
| JsPrimitives.SplitJoin | src/components/LanguageSwitcher.tsx:15-19 | splitting a join of separator-free pieces gives back exactly those pieces |
| Languages.IsLang | src/i18n/languages.ts:6-8 | `isLang(v)` holds iff `v` is exactly `"hu"`, `"ro"` or `"en"` |
| Languages.SupportedLangsShape | src/i18n/languages.ts:1-4 | three distinct codes in the order hu, ro, en, and the default `"ro"` is one of them |
| Languages.IsLangIsExact | src/i18n/languages.ts:7 | membership is exact string equality: `"HU"`, `"Ro"`, `"en "`, `""` and `"/en"` are rejected |
| LanguageSwitcher.NonEmpty | src/components/LanguageSwitcher.tsx:8 | `filter(Boolean)` keeps only non-empty pieces, keeps every non-empty piece as often as it occurs in the input, and keeps a list without empty pieces unchanged |
| LanguageSwitcher.NonEmptyAppend | src/components/LanguageSwitcher.tsx:8 | the filter keeps the order: filtering a concatenation is the concatenation of the filtered parts |
| LanguageSwitcher.Segments | src/components/LanguageSwitcher.tsx:8 | the segments of a path are non-empty and contain no `/` |
| LanguageSwitcher.ReplaceLangInPath | src/components/LanguageSwitcher.tsx:7-20 | the result starts with `"/" + newLang`, followed by nothing or by a `/` |
| LanguageSwitcher.ReplaceIsRender | src/components/LanguageSwitcher.tsx:9-19 | all three return paths produce `/` followed by the new locale and the kept segments joined by `/` |
| LanguageSwitcher.ReplaceSegments | src/components/LanguageSwitcher.tsx:8-19 | the segments of the result are the new locale followed by the input's segments, minus a leading supported locale |
| LanguageSwitcher.EmptyPathToRoot | src/components/LanguageSwitcher.tsx:8-9 | a path made only of slashes (`""`, `"/"`, `"///"`) maps to exactly `"/" + newLang` |
| LanguageSwitcher.ReplaceCases | src/components/LanguageSwitcher.tsx:11-19 | a leading supported locale is replaced and the other segments keep their order; any other first segment (such as `"EN"`) is kept with all the others after the new locale; only the first segment is inspected |
| LanguageSwitcher.ReplaceIsClean | src/components/LanguageSwitcher.tsx:15-19 | the result has no `//` and no trailing `/` |
| LanguageSwitcher.SwitchTwice | src/components/LanguageSwitcher.tsx:7-20 | switching to `a` and then to `b` gives the same path as switching straight to `b` |
| LanguageSwitcher.Upper | src/components/LanguageSwitcher.tsx:41 | the link caption upper-cases each ASCII letter and keeps the length |
| LanguageSwitcher.CurrentPath | src/components/LanguageSwitcher.tsx:23 | a missing or empty pathname is read as `"/"`; any other pathname is kept |
| LanguageSwitcher.Links | src/components/LanguageSwitcher.tsx:27-41 | one link per supported locale, in order; each link's href is that locale's rewrite of the current path, and it is active iff its locale is the current one |
| LanguageSwitcher.ExactlyOneActive | src/components/LanguageSwitcher.tsx:29 | exactly one link is active, the one of the current language |
| LanguageSwitcher.MissingPathLinksToRoots | src/components/LanguageSwitcher.tsx:23-28 | with no pathname, each link points to `"/" + locale` |
| Messages.GetMessages | src/i18n/messages.ts:9-13 | the lookup is defined for every locale and returns that locale's dictionary |
| Messages.Index | src/i18n/messages.ts:19 | one `cur?.[p]` step: `undefined` and non-string primitives give `undefined`; an object gives its own property `p` exactly when it has one; a string leaf gives at most one of its own characters |
| Messages.Walk | src/i18n/messages.ts:18-19 | the loop over the segments: `undefined` stays `undefined`, and a single segment is one step |
| Messages.T | src/i18n/messages.ts:16-21 | `t` returns either the key or the string the walk over the key's segments reaches; DottedKeyLookup, MissingSegmentFallsBack and StringLeafIsIndexed say which |
| Messages.WalkUndefined | src/i18n/messages.ts:19 | once optional chaining reaches `undefined`, it stays `undefined` and never fails |
| Messages.WalkAppend | src/i18n/messages.ts:19 | walking a concatenated path is the same as walking the first part and then the second |
| Messages.WalkFollowsLookup | src/i18n/messages.ts:19 | where descending through objects finds a value, the walk finds the same value |
| Messages.DottedKeyLookup | src/i18n/messages.ts:16-20 | a key joined from dot-free segments that lead to a string leaf translates to that string; if they lead to an object, `t` returns the key |
| Messages.MissingSegmentFallsBack | src/i18n/messages.ts:17-20 | if a segment is missing from the object reached so far, `t` returns the key verbatim; this includes the empty segments that `".."` or a leading or trailing dot produce |
| Messages.KeyWithoutDots | src/i18n/messages.ts:17-20 | a key without dots is a single top-level lookup: the string there, or else the key |
| Messages.StringLeafIsIndexed | src/i18n/messages.ts:17-20 | for every path of dot-free segments that reaches a string leaf, one more segment that is a canonical in-range numeral yields the character at that position; an out-of-range numeral, a non-canonical one or any other name (such as `"length"`) gives back the key |
| Messages.NonCanonicalNames | src/i18n/messages.ts:19 | `"01"`, `""` and `"length"` are not array indices, while `"0"` and `"12"` are |
| Messages.DoubleDotFallsBack | src/i18n/messages.ts:17-20 | `"a..b"` looks up the absent `""` property and falls back to the key, while `"a.b"` finds the message |
| SiteUrl.StripTrailingSlashes | src/app/sitemap.ts:5 | `replace(/\/+$/, "")` returns a prefix of the input that does not end with `/`, and everything it removed was `/` |
| SiteUrl.GetSiteUrl | src/app/sitemap.ts:3-6 | an absent or empty value gives `http://localhost:3000`; any other value loses exactly its trailing slashes; the result never ends with `/` |
| SiteUrl.StripKeepsClean | src/app/sitemap.ts:5 | a URL without a trailing slash is unchanged, so stripping is idempotent |
| SiteUrl.StripIgnoresAddedSlashes | src/app/sitemap.ts:5 | appending slashes does not change the stripped result, so interior slashes are kept |
| SiteUrl.SiteUrlIgnoresTrailingSlashes | src/app/robots.ts:3-6 | a configured value with extra trailing slashes yields the same site URL; a value made only of slashes yields `""` (the fall-back is applied before stripping) |
| Sitemap.Pages | src/app/sitemap.ts:8-38 | four entries, in the order root, `/ro`, `/hu`, `/en`, all with the same `lastModified` and a weekly change frequency; the root's priority is 0.8 and each language page's is 1.0 |
| Sitemap.PagesHaveSingleSlash | src/app/sitemap.ts:14-32 | every sitemap URL has exactly one `/` between the site URL and the page path |
| Robots.Robots | src/app/robots.ts:8-20 | one rule (`userAgent "*"`, `allow "/"`), and a sitemap URL equal to the site URL followed by `/sitemap.xml` |
| Robots.SitemapHasSingleSlash | src/app/robots.ts:18 | exactly one `/` precedes `sitemap.xml`, whatever trailing slashes the value had |
| Robots.FallbackSitemap | src/app/robots.ts:4 | with no configured value, the sitemap URL is `http://localhost:3000/sitemap.xml` |
| Robots.RobotsIgnoresTrailingSlashes | src/app/robots.ts:3-18 | trailing slashes in the configured value do not change the robots record |
| Header.Nav | src/components/Header.tsx:13-20 | in every locale the four navigation captions are non-empty and pairwise distinct |
| Header.Items | src/components/Header.tsx:60-67 | four items in the order top, about, gallery, contact; each href is `"#" + id` and each caption comes from the locale's NAV table |
| Header.Choose | src/components/Header.tsx:97-99 | no entry is picked iff none intersects; otherwise the pick is the head of the stable descending sort by ratio (a missing ratio counts as 0): no intersecting entry has a larger ratio, and every earlier one has a smaller ratio |
| Header.ChosenIsUnique | src/components/Header.tsx:99 | the head of the stable sort is unique |
| Header.OnScrollFrame | src/components/Header.tsx:76 | `scrolled` becomes `scrollY > 8`, and the active section is unchanged |
| Header.OnIntersection | src/components/Header.tsx:95-103 | with no intersecting entry the header state is unchanged; otherwise the active section becomes the target of the chosen entry; the scroll flag is untouched |
| Header.IntersectionPicksChosen | src/components/Header.tsx:97-102 | the active section becomes the target of any entry that satisfies the stable-sort reading |
| Header.ActiveFlags | src/components/Header.tsx:137-144 | one flag per navigation link, set exactly for the link of the active section |
| Header.ExactlyOneActiveLink | src/components/Header.tsx:57 | exactly one nav link is active, the one of the active section; at first that is `top` |
| Slideshow.Tick | src/components/Slideshow.tsx:16 | from any index at or above -1 the tick stays in `[0, 3)`; it advances by one and wraps from 2 to 0 |
| Slideshow.TicksFromStart | src/components/Slideshow.tsx:12-16 | starting at 0, the index after `k` ticks is `k mod 3` |
| Slideshow.ThreeTicksCycle | src/components/Slideshow.tsx:16 | three ticks return any slide index to itself |
| Slideshow.Visible | src/components/Slideshow.tsx:24-31 | one opacity flag per slide, set exactly for the slide at the index |
| Slideshow.ExactlyOneVisible | src/components/Slideshow.tsx:24-31 | at every reachable index exactly one slide is visible, the one at the index |
| Gallery.Clamp | src/components/Gallery.tsx:11-14 | an empty count gives 0; an in-range index is unchanged; the index one below range wraps to the top; any index at or above `-n`, however large, becomes `index mod n` in `[0, n)`; further below, truncation leaves the result non-positive |
| Gallery.SetOpen | src/components/Gallery.tsx:46-53 | opening saves the body overflow and sets it to `"hidden"`; closing puts back the saved value; committing an unchanged `open` changes nothing |
| Gallery.Close | src/components/Gallery.tsx:29 | `close` clears `open` and leaves the index alone |
| Gallery.Next | src/components/Gallery.tsx:30 | `next` changes only the index: one step forward, wrapping from `n-1` to 0; from any index at or above -1, including one left past the end by a shrunken list, the new index is `(index + 1) mod n` |
| Gallery.Prev | src/components/Gallery.tsx:31 | `prev` changes only the index: one step back, wrapping from 0 to `n-1`; from any index at or above `1 - n`, including one left past the end by a shrunken list, the new index is `(index - 1) mod n` |
| Gallery.OpenAt | src/components/Gallery.tsx:136-139 | activating thumbnail `i` sets `index = i` and `open = true` |
| Gallery.Counter | src/components/Gallery.tsx:63-71 | the counter exists iff the lightbox is open over a non-empty list; for any index at or above `-n` it reads `(index mod n) + 1` of `n`, so the first number is in `1..n` even after the list has shrunk under a larger index |
| Gallery.CurrentImage | src/components/Gallery.tsx:23-27 | `current` is absent iff the list is empty; an in-range index shows the image at that index, an index up to one lap below zero shows the image `n` places further on, and in general any index at or above `-n` shows the image at position `index mod n` |
| Gallery.ShrunkenList | src/components/Gallery.tsx:13-71 | with image 8 of 8 open and the list then cut to three, the lightbox shows the second image as `2 / 3`; ArrowRight then shows `3 / 3` and ArrowLeft `1 / 3` |
| Gallery.CounterMatchesImage | src/components/Gallery.tsx:23-71 | while the lightbox is shown, the counter reads the position of the displayed image plus one, out of `n` |
| Gallery.OnKey | src/components/Gallery.tsx:36-40 | Escape closes, ArrowRight does `next`, ArrowLeft does `prev`, and any other key changes nothing |
| Gallery.OnPointerDown | src/components/Gallery.tsx:66-124 | pressing the backdrop closes and keeps the index; the previous button does `prev` and the next button does `next`, moving only the index; the picture, the top bar and the close button change nothing on pointer-down |
| Gallery.Step | src/components/Gallery.tsx:29-139 | only a thumbnail click on an existing image opens the lightbox, and such a click, open or not, moves to that image and opens; while closed, nothing but a thumbnail click has any effect; a click on anything but the close button changes nothing, and a click on the close button of a shown lightbox closes it |
| Gallery.Unmount | src/components/Gallery.tsx:50-52 | unmounting from any state that keeps the invariant leaves exactly the page's original overflow |
| Gallery.StepKeepsInv | src/components/Gallery.tsx:29-53 | every interaction keeps the invariant: index non-negative, and the lock is held exactly while open, having saved the page's original overflow |
| Gallery.RunKeepsInv | src/components/Gallery.tsx:18 | any sequence of interactions keeps the invariant, even when the image count changes between them |
| Gallery.ReachableStates | src/components/Gallery.tsx:46-53 | after any interactions from mount: the index is never negative; the body is `"hidden"` while open; when closed, and after unmount, the overflow is exactly its original value |
| Gallery.EmptyGalleryNeverOpens | src/components/Gallery.tsx:55-61 | while the image list is empty no thumbnail exists, so the lightbox never opens |
| Gallery.OpenThenClose | src/components/Gallery.tsx:132-139 | a thumbnail click opens at that index and hides the overflow; closing then restores everything except the chosen index |
| Gallery.KeyDispatch | src/components/Gallery.tsx:33-44 | while open, Escape closes, ArrowRight does `next` and ArrowLeft does `prev`; other keys, and any key while closed, change nothing |
| Gallery.PointerDispatch | src/components/Gallery.tsx:66-124 | pressing the backdrop closes; pressing the previous or next button does `prev` or `next`; pressing the picture, the top bar or the close button does not; clicking the close button closes a shown lightbox, and a click anywhere else (picture, top bar, backdrop, arrows) changes nothing; a lightbox that is not shown ignores pointers |
| Gallery.EmptiedWhileOpen | src/components/Gallery.tsx:44-64 | if the list empties while open, the counter disappears and the page stays locked until Escape, which restores the original overflow |
| Gallery.NextPrevUndo | src/components/Gallery.tsx:30-31 | on the gallery state, `prev` after `next` and `next` after `prev` give back the same state whenever the index names an image |
| Gallery.NextPrevInverse | src/components/Gallery.tsx:30-31 | `next` from `n-1` gives 0, `prev` from 0 gives `n-1`, and each undoes the other on every in-range index |
| Gallery.NextTimesAdvances | src/components/Gallery.tsx:13 | `k <= n` presses of `next` advance the index by `k`, wrapping once past the end |
| Gallery.NextCycle | src/components/Gallery.tsx:30 | `n` presses of `next` return to the starting image |
| Gallery.ThreeImageScenario | src/components/Gallery.tsx:30-71 | with three images: open at the first (1/3), go forward to 2/3, 3/3, then 1/3, and back to 3/3 |

## Left out

- Hero and HeroOverlayText: floating-point scroll and pointer maths that drive opacity, transforms and blur. This is visual numerics with no decision logic.
- Reveal, and the IntersectionObserver and scroll-listener wiring in Header: subscriptions and `requestAnimationFrame` scheduling. Only the pure decisions the callbacks make are modelled. The `ticking` throttle and the observer's `rootMargin` and thresholds are not.
- Header.OnScrollFrame: takes `scrollY` as a real, so the `|| 0` case for `NaN` is not represented. For every real value, `(scrollY || 0) > 8` and `scrollY > 8` agree.
- Slideshow.Tick: the 4000 ms interval and its clean-up are scheduling, so they are not modelled. Only the state update is.
- React mechanics: effect timing, the `mounted` flag, `createPortal`, `useMemo`. Also the Next.js `Image`, `Link` and `dynamic` components. The lightbox is treated as rendered as soon as it is open over a non-empty list.
- Gallery.PointerDispatch: event propagation is abstracted to the part of the lightbox that receives the pointer. The backdrop is a sibling of the overlay, so no press inside the overlay bubbles to it; the `stopPropagation` calls have no effect the model could show.
- Gallery focus handling: no focus trap exists in the code. The model still accepts a thumbnail activation while open, which keeps the lightbox open and moves to that image.
- Messages.Index: only an object's own properties are modelled. Inherited prototype properties (`"toString"`, `"constructor"`, a function's `"name"`) are not. A key walking through them could return a string the model does not produce. String indexing counts characters, not UTF-16 code units.
- The message files' contents: the three dictionaries are given values.
- AirbnbEmbed and AirbnbStatic: DOM construction and third-party script injection.
- Icon, SocialIcons, Footer, the layouts, the pages and the manifest: static markup and constants with no logic.
