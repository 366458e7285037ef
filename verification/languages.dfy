/** The site's locales: the supported language codes, the default one, and
    the membership test that narrows an arbitrary string to a `Lang`. */
module Languages {

  /** The supported locale codes, in the order the language switcher lists them. */
  const SupportedLangs: seq<string> := ["hu", "ro", "en"]

  /** A supported locale code (the source's string-literal union type). */
  type Lang = s: string | s in SupportedLangs witness "ro"

  const DefaultLang: Lang := "ro"

  /** Membership in the supported list, by exact string equality. */
  function IsLang(v: string): (b: bool)
    ensures b <==> v == "hu" || v == "ro" || v == "en"
  {
    v in SupportedLangs
  }

  /** The list holds three distinct codes in the order hu, ro, en, and the
      default is one of them. */
  lemma SupportedLangsShape()
    ensures |SupportedLangs| == 3
    ensures SupportedLangs[0] == "hu" && SupportedLangs[1] == "ro" && SupportedLangs[2] == "en"
    ensures forall i, j :: 0 <= i < j < |SupportedLangs| ==> SupportedLangs[i] != SupportedLangs[j]
    ensures IsLang(DefaultLang) && DefaultLang == "ro"
  {
  }

  /** Membership is exact: other casings and padded codes are rejected. */
  lemma IsLangIsExact()
    ensures !IsLang("HU") && !IsLang("Ro") && !IsLang("en ") && !IsLang("") && !IsLang("/en")
  {
  }

  /** Every supported code is a non-empty string without `/` or `.`, so it is a
      single path segment and a single message-key segment. */
  lemma LangIsSegment(l: Lang)
    ensures l != "" && '/' !in l && '.' !in l
  {
  }
}
