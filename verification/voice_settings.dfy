/**
 * Text-to-speech voice settings (client/src/lib/voiceSettings.ts): the six
 * voices, the default voice per language, the saved choice in browser
 * storage, and the display texts. Browser storage is a map from key to
 * string, passed in and returned.
 */
module VoiceSettings {
  import opened Common

  datatype Voice = Voice(name: string, nameKo: string, description: string, descriptionKo: string)

  /** `TTS_VOICES`, keyed by voice id. */
  const TtsVoices: map<string, Voice> := map[
    "alloy" := Voice("Alloy", "알로이", "Neutral and balanced voice", "중성적이고 균형잡힌 목소리"),
    "echo" := Voice("Echo", "에코", "Deep masculine voice", "남성적이고 깊은 목소리"),
    "fable" := Voice("Fable", "페이블", "Expressive storyteller", "재밌고 표현력 풍부한 스토리텔러"),
    "onyx" := Voice("Onyx", "오닉스", "Authoritative and deep", "권위있고 깊은 목소리"),
    "nova" := Voice("Nova", "노바", "Soft and warm female voice", "부드럽고 따뜻한 여성 목소리"),
    "shimmer" := Voice("Shimmer", "시머", "Bright and friendly female voice", "밝고 친근한 여성 목소리")
  ]

  /** `DEFAULT_VOICE_BY_LANGUAGE`. */
  const DefaultVoiceByLanguage: map<string, string> := map[
    "en" := "fable", "ko" := "nova", "es" := "shimmer", "fr" := "fable", "de" := "onyx",
    "it" := "shimmer", "zh" := "nova", "ja" := "alloy", "pt" := "shimmer", "ru" := "onyx"
  ]

  /** The storage key the choice is kept under. */
  const StorageKey: string := "tts-voice"

  predicate IsVoiceId(v: string) {
    v in TtsVoices
  }

  /** The listed default for the language, `fable` for any other language. */
  function GetVoiceForLanguage(language: string): (v: string)
    ensures IsVoiceId(v)
    ensures language in DefaultVoiceByLanguage ==> v == DefaultVoiceByLanguage[language]
    ensures language !in DefaultVoiceByLanguage ==> v == "fable"
  {
    DefaultsAreVoices();
    if language in DefaultVoiceByLanguage && DefaultVoiceByLanguage[language] != ""
    then DefaultVoiceByLanguage[language]
    else "fable"
  }

  /** The saved voice, when storage holds a voice id under the key. */
  function GetSavedVoice(storage: map<string, string>): (r: Option<string>)
    ensures r.Some? <==> StorageKey in storage && IsVoiceId(storage[StorageKey])
    ensures r.Some? ==> r.value == storage[StorageKey]
  {
    if StorageKey in storage && storage[StorageKey] != "" && storage[StorageKey] in TtsVoices
    then Some(storage[StorageKey])
    else None
  }

  /** `localStorage.setItem('tts-voice', v)`: the key now holds `v`, and nothing else changes. */
  function SaveVoice(storage: map<string, string>, v: string): (s: map<string, string>)
    ensures s.Keys == storage.Keys + {StorageKey}
    ensures s[StorageKey] == v
    ensures forall k :: k in storage && k != StorageKey ==> s[k] == storage[k]
  {
    storage[StorageKey := v]
  }

  /** The voice's display name: Korean for `ko`, English otherwise. */
  function GetVoiceName(v: string, language: string): (r: string)
    requires IsVoiceId(v)
    ensures r == TtsVoices[v].nameKo || r == TtsVoices[v].name
    ensures r != ""
  {
    if language == "ko" then TtsVoices[v].nameKo else TtsVoices[v].name
  }

  /** The voice's description: Korean for `ko`, English otherwise. */
  function GetVoiceDescription(v: string, language: string): (r: string)
    requires IsVoiceId(v)
    ensures r == TtsVoices[v].descriptionKo || r == TtsVoices[v].description
    ensures r != ""
  {
    if language == "ko" then TtsVoices[v].descriptionKo else TtsVoices[v].description
  }

  // ---------------------------------------------------------------- lemmas

  /** Every default is one of the six voices, and none is empty (so `||` never falls through). */
  lemma DefaultsAreVoices()
    ensures forall l :: l in DefaultVoiceByLanguage ==> IsVoiceId(DefaultVoiceByLanguage[l]) && DefaultVoiceByLanguage[l] != ""
  {
  }

  /** Saving a voice and reading it back gives that voice. */
  lemma SaveThenGet(storage: map<string, string>, v: string)
    requires IsVoiceId(v)
    ensures GetSavedVoice(SaveVoice(storage, v)) == Some(v)
  {
  }

  /** Saving something that is not a voice id makes the saved choice read as absent. */
  lemma SaveNonVoiceReadsAbsent(storage: map<string, string>, v: string)
    requires !IsVoiceId(v)
    ensures GetSavedVoice(SaveVoice(storage, v)) == None
  {
  }

  /** The name and description are the Korean texts for `ko` and the English ones for every other language. */
  lemma DisplayTexts(v: string, language: string)
    requires IsVoiceId(v)
    ensures language == "ko" ==>
      GetVoiceName(v, language) == TtsVoices[v].nameKo && GetVoiceDescription(v, language) == TtsVoices[v].descriptionKo
    ensures language != "ko" ==>
      && GetVoiceName(v, language) == GetVoiceName(v, "en")
      && GetVoiceDescription(v, language) == GetVoiceDescription(v, "en")
  {
  }
}
