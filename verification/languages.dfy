/**
 * The language profile registry: one immutable profile per supported
 * language code, and the lookup the assistant performs once at start-up,
 * falling back to English for an unknown code.
 */
module Languages {

  /** The keys of a profile's `error_messages`: `"not_understood"` and
      `"processing_error"`. */
  datatype ErrorKind = NotUnderstood | ProcessingError

  /** `LanguageConfig`. */
  datatype LanguageConfig = LanguageConfig(
    code: string,
    whisperLanguage: string,
    errorMessages: map<ErrorKind, string>,
    systemPrompt: string)

  /** A profile the assistant can run with: it has the message voiced when
      the language model fails. */
  type Profile = p: LanguageConfig | ProcessingError in p.errorMessages
    witness LanguageConfig("", "", map[ProcessingError := ""], "")

  /** The error kinds every profile must be able to voice. */
  const ErrorKinds: set<ErrorKind> := {NotUnderstood, ProcessingError}

  const English: LanguageConfig := LanguageConfig(
    "en",
    "en",
    map[
      NotUnderstood := "I didn't understand. Could you repeat that?",
      ProcessingError := "Sorry, I encountered an error processing your request."],
    "You are a friendly voice assistant. Keep responses concise and natural.")

  const Italian: LanguageConfig := LanguageConfig(
    "it",
    "it",
    map[
      NotUnderstood := "Non ho capito. Potresti ripetere?",
      ProcessingError := "Mi dispiace, ho avuto un problema nell'elaborare la richiesta."],
    "Sei un assistente vocale amichevole che parla in italiano. Mantieni le risposte concise e naturali.")

  /** `LANGUAGE_CONFIGS`. */
  const Configs: map<string, LanguageConfig> := map["en" := English, "it" := Italian]

  const DefaultLanguage: string := "en"

  /** A profile is filed under its own code, names the same language to the
      transcriber, and has a message for every error kind. */
  predicate WellFormed(key: string, p: LanguageConfig) {
    && p.code == key
    && p.whisperLanguage == key
    && ErrorKinds <= p.errorMessages.Keys
  }

  /** The table holds exactly English and Italian, each well formed. */
  lemma RegistryWellFormed()
    ensures Configs.Keys == {"en", "it"}
    ensures DefaultLanguage in Configs
    ensures forall key :: key in Configs ==> WellFormed(key, Configs[key])
  {
  }

  /** `VoiceAssistant._get_language_config`: never fails. */
  function Resolve(language: string): (p: Profile)
    ensures language in Configs ==> p == Configs[language]
    ensures language !in Configs ==> p == Configs[DefaultLanguage]
    ensures p.code in Configs && Configs[p.code] == p
    ensures WellFormed(p.code, p)
  {
    RegistryWellFormed();
    if language in Configs then Configs[language] else Configs[DefaultLanguage]
  }

  /** Resolving the code of a resolved profile gives that profile back: the
      fallback lands on a registered code. */
  lemma ResolveIdempotent(language: string)
    ensures Resolve(Resolve(language).code) == Resolve(language)
  {
  }
}
