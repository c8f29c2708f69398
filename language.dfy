/** `getLanguageFullName` (src/utils/language.js): a language code's English name for prompts. */
module Language {
  import opened Wrappers

  /** The codes the extension names, with their names. */
  const FullNames: map<string, string> := map[
    "en" := "English", "zh" := "Simplified Chinese", "es" := "Spanish", "fr" := "French",
    "hi" := "Hindi", "ur" := "Urdu", "de" := "German", "ar" := "Arabic", "ja" := "Japanese",
    "ko" := "Korean", "ru" := "Russian", "it" := "Italian", "pt" := "Portuguese"]

  /** `getLanguageFullName(code)`; an absent code is None. */
  function FullName(code: Option<string>): (r: string)
    ensures r != ""
    ensures r in FullNames.Values
    ensures code.Some? && code.value in FullNames ==> r == FullNames[code.value]
    ensures code.None? || code.value !in FullNames ==> r == "English"
  {
    assert FullNames["en"] == "English";
    if code.Some? && code.value in FullNames && FullNames[code.value] != "" then FullNames[code.value] else "English"
  }

  /** Two listed codes name different languages, so the name tells the code back. */
  lemma NamesIdentifyCodes(a: string, b: string)
    requires a in FullNames && b in FullNames && a != b
    ensures FullName(Some(a)) != FullName(Some(b))
  {
  }
}
