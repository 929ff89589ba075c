/** java.util.Locale as used by the language manager, and the fallback chain
    of commons-lang3's LocaleUtils.localeLookupList. */
module Locales {
  import opened Wrappers

  /** A locale: language, country and variant; an absent part is the empty string. */
  datatype Locale = Locale(language: string, country: string, variant: string)

  /** A locale with only a language, as `new Locale("en")`. */
  function Lang(language: string): Locale {
    Locale(language, "", "")
  }

  /** Locale.toString(): the parts joined with `_`. The country slot is written
      (possibly empty) when a variant follows a language, as in "es__test";
      a country without language keeps its leading `_`, as in "_GB_POSIX";
      a variant without language and country is not written at all. */
  function LocaleString(l: Locale): (s: string)
    ensures l.country == [] && l.variant == [] ==> s == l.language
    ensures l.language != [] && l.country != [] && l.variant == [] ==> s == l.language + "_" + l.country
    ensures l.language != [] && l.variant != [] ==> s == l.language + "_" + l.country + "_" + l.variant
    ensures l.language == [] && l.country == [] ==> s == []
    ensures l.language == [] && l.country != [] ==> s == "_" + l.country + (if l.variant != [] then "_" + l.variant else "")
  {
    var hasLanguage := l.language != [];
    var hasCountry := l.country != [];
    var hasVariant := l.variant != [];
    l.language
    + (if hasCountry || (hasLanguage && hasVariant) then "_" + l.country else "")
    + (if hasVariant && (hasLanguage || hasCountry) then "_" + l.variant else "")
  }

  /** The locales of `ls`, each as its string, in order. */
  function LocaleStrings(ls: seq<Locale>): (r: seq<string>)
    ensures |r| == |ls|
    ensures forall i | 0 <= i < |ls| :: r[i] == LocaleString(ls[i])
  {
    if ls == [] then [] else [LocaleString(ls[0])] + LocaleStrings(ls[1..])
  }

  /** The chain of candidate locales, from the most specific to the default:
      the locale itself, then language and country if it has a variant, then
      the bare language if it has a country, then the default unless already
      present (a null default is appended too). A null locale gives the empty chain. */
  function LookupList(locale: Option<Locale>, default: Option<Locale>): (chain: seq<Option<Locale>>)
    ensures locale.None? <==> chain == []
    ensures locale.Some? ==> chain[0] == locale && default in chain
    ensures |chain| <= 4
    ensures forall i, j | 0 <= i < j < |chain| :: chain[i] != chain[j]
    ensures forall c | c in chain && c != default :: c.Some? && c.value.language == locale.value.language
  {
    if locale.None? then []
    else
      var l := locale.value;
      var stripped :=
        [locale]
        + (if l.variant != [] then [Some(Locale(l.language, l.country, ""))] else [])
        + (if l.country != [] then [Some(Lang(l.language))] else []);
      if default in stripped then stripped else stripped + [default]
  }
}
