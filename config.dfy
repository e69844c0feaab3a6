/** The settings the assistant reads from its configuration module
    (config_example.py holds the values used here). */
module Config {

  /** DEFAULT_LANGUAGE: the language of a newly created profile. */
  const DefaultLanguage: string := "en"

  /** SUPPORTED_LANG_CODES_FOR_TTS: the languages a turn may be answered in. */
  const SupportedLangCodesForTts: set<string> := {"en", "hi", "bn", "ta", "te", "kn", "ml", "mr", "gu", "pa", "ur"}
}
