/**
 * The navigator's options (alphaListNav.js:6-30), after the merge of the
 * caller's options over the defaults. `includeOther` and `showCounts` are
 * accepted by the source but read nowhere, so they are not fields here.
 */
module Config {
  import opened Prefix

  /** `initHiddenText`: a string, or the boolean `false`. */
  datatype HiddenText = HiddenMessage(message: string) | HiddenOff

  datatype Options = Options(
    initHidden: bool,
    initHiddenText: HiddenText,
    initLetter: string,
    includeAll: bool,
    allText: string,
    noMatchText: string,
    includeNums: bool,
    concatenateNums: bool,
    flagDisabled: bool,
    removeDisabled: bool,
    prefixes: seq<LiteralRule>,
    filterSelector: string,
    showLetterHeadings: bool)

  /** The defaults of lines 6-22. */
  const Defaults: Options := Options(
    initHidden := false,
    initHiddenText := HiddenMessage(""),
    initLetter := "",
    includeAll := true,
    allText := "Toutes nos marques",
    noMatchText := "No matching entries",
    includeNums := true,
    concatenateNums := true,
    flagDisabled := true,
    removeDisabled := false,
    prefixes := [],
    filterSelector := "",
    showLetterHeadings := false)

  /** JavaScript truthiness of `initHiddenText`. */
  predicate HiddenTextTruthy(h: HiddenText)
  {
    h.HiddenMessage? && h.message != ""
  }

  /** The string `textContent` becomes when `initHiddenText` is assigned to it. */
  function HiddenTextContent(h: HiddenText): string
  {
    match h
    case HiddenMessage(m) => m
    case HiddenOff => "false"
  }
}
