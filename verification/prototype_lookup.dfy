/**
 * Property lookup on a plain JavaScript object literal, with the keys every
 * such object inherits from `Object.prototype`. Eight lookups of the client
 * and server helpers index an object literal with a caller-supplied string;
 * for the inherited names they see a function (or, for `__proto__`, the
 * prototype object) instead of `undefined`, and the fallback the code
 * intends is skipped. The members here model those lookups as written; the
 * main model (`VoiceSettings`, `StartingPoints`, `Translations`, `Clova`)
 * uses own keys only, which is the behaviour the code intends. Each
 * as-written member comes with the input that tells the two apart and a
 * lemma that they agree on every other input.
 */
module PrototypeLookup {
  import opened Common
  import VoiceSettings
  import StartingPoints
  import Translations
  import Clova

  /** The property names an object literal inherits from `Object.prototype`. */
  const ObjectPrototypeKeys: set<string> := {
    "constructor", "hasOwnProperty", "isPrototypeOf", "propertyIsEnumerable", "toLocaleString",
    "toString", "valueOf", "__defineGetter__", "__defineSetter__", "__lookupGetter__",
    "__lookupSetter__", "__proto__"
  }

  /** What `obj[key]` yields: an own value, an inherited function or object, or `undefined`. */
  datatype Prop<V> = Own(value: V) | Inherited(key: string) | Undefined

  function Get<V>(own: map<string, V>, key: string): (p: Prop<V>)
    ensures key in own ==> p == Own(own[key])
    ensures key !in own && key in ObjectPrototypeKeys ==> p == Inherited(key)
    ensures key !in own && key !in ObjectPrototypeKeys ==> p == Undefined
  {
    if key in own then Own(own[key])
    else if key in ObjectPrototypeKeys then Inherited(key)
    else Undefined
  }

  /** An own-key lookup read as a property: a value or `undefined`, never an inherited one. */
  function FromOption<V>(o: Option<V>): (p: Prop<V>)
    ensures p.Own? <==> o.Some?
    ensures !p.Inherited?
  {
    if o.Some? then Own(o.value) else Undefined
  }

  /** A string-valued read after `|| fallback`: a string, or the value an inherited name yields. */
  datatype JsValue = Str(s: string) | Builtin(key: string)

  /** The `name` property of what an inherited name yields: `Object` for `constructor`, none for the prototype object. */
  function BuiltinName(key: string): (r: Option<string>)
    ensures r.Some? ==> r.value != ""
    ensures r.None? <==> key == "__proto__"
  {
    if key == "constructor" then Some("Object")
    else if key == "__proto__" then None
    else if key != "" then Some(key)
    else Some("anonymous")
  }

  /** How a built-in function named `name` prints. */
  function NativeCode(name: string): string {
    "function " + name + "() { [native code] }"
  }

  /** `String(v)`: a built-in function prints as its native-code text, the prototype object as `[object Object]`. */
  function ToText(v: JsValue): (r: string)
    ensures v.Str? ==> r == v.s
  {
    match v
    case Str(s) => s
    case Builtin(k) =>
      if k == "__proto__" then "[object Object]"
      else NativeCode(BuiltinName(k).value)
  }

  /** The `in` operator: own keys and inherited ones. */
  predicate HasProperty<V>(own: map<string, V>, key: string) {
    key in own || key in ObjectPrototypeKeys
  }

  // ------------------------------------------------------- getSavedVoice

  /** `getSavedVoice` as written: `saved && saved in TTS_VOICES`. */
  function SavedVoiceAsWritten(storage: map<string, string>): (r: Option<string>)
    ensures r.Some? ==>
      && VoiceSettings.StorageKey in storage && r.value == storage[VoiceSettings.StorageKey]
      && (VoiceSettings.IsVoiceId(r.value) || r.value in ObjectPrototypeKeys)
  {
    var key := VoiceSettings.StorageKey;
    if key in storage && storage[key] != "" && HasProperty(VoiceSettings.TtsVoices, storage[key])
    then Some(storage[key])
    else None
  }

  /** A stored `toString` is returned as if it were a voice id. */
  lemma SavedVoiceAcceptsToString()
    ensures SavedVoiceAsWritten(map[VoiceSettings.StorageKey := "toString"]) == Some("toString")
    ensures !VoiceSettings.IsVoiceId("toString")
  {
  }

  /** Away from the inherited names, the lookup as written and the own-key lookup agree. */
  lemma SavedVoiceAgreesOffPrototype(storage: map<string, string>)
    requires VoiceSettings.StorageKey in storage ==> storage[VoiceSettings.StorageKey] !in ObjectPrototypeKeys
    ensures SavedVoiceAsWritten(storage) == VoiceSettings.GetSavedVoice(storage)
  {
  }

  // --------------------------------------------- getAllStartingPointsForCity

  /**
   * `getAllStartingPointsForCity` as written: an inherited value is truthy
   * and has no `airports`, so spreading it throws a `TypeError`.
   */
  function AllStartingPointsAsWritten(table: StartingPoints.Table, cityId: string): (r: Result<seq<StartingPoints.StartingPoint>, string>)
    ensures r.Failure? <==> cityId !in table && cityId in ObjectPrototypeKeys
  {
    match Get(table, cityId)
    case Own(c) => Success(c.airports + c.cruiseTerminals + c.trainStations)
    case Inherited(_) => Failure("TypeError: cityData.airports is not iterable")
    case Undefined => Success([])
  }

  /** Asking for the city `constructor` throws instead of giving the empty list. */
  lemma StartingPointsThrowOnConstructor(table: StartingPoints.Table)
    requires "constructor" !in table
    ensures AllStartingPointsAsWritten(table, "constructor").Failure?
    ensures StartingPoints.GetAllStartingPointsForCity(table, "constructor") == []
  {
  }

  lemma StartingPointsAgreeOffPrototype(table: StartingPoints.Table, cityId: string)
    requires cityId !in ObjectPrototypeKeys
    ensures AllStartingPointsAsWritten(table, cityId) == Success(StartingPoints.GetAllStartingPointsForCity(table, cityId))
  {
  }

  // ----------------------------------------------- getClovaVoicesForLanguage

  /**
   * `getClovaVoicesForLanguage` as written: `langMapping[language] || "en"`
   * keeps an inherited function, which no voice's language equals.
   */
  function ClovaVoicesAsWritten(language: string): (r: seq<string>)
    ensures language !in Clova.LangMapping && language in ObjectPrototypeKeys ==> r == []
    ensures language !in ObjectPrototypeKeys ==> r == Clova.GetClovaVoicesForLanguage(language)
  {
    match Get(Clova.LangMapping, language)
    case Own(lang) => Clova.FilterByLanguage(Clova.ClovaVoices, if lang != "" then lang else "en")
    case Inherited(_) => []
    case Undefined => Clova.FilterByLanguage(Clova.ClovaVoices, "en")
  }

  /** For the language `constructor` no voice is offered, where the English voices are intended. */
  lemma ClovaVoicesEmptyForConstructor()
    ensures ClovaVoicesAsWritten("constructor") == []
    ensures "clara" in Clova.GetClovaVoicesForLanguage("constructor")
  {
    assert Get(Clova.LangMapping, "constructor") == Inherited("constructor");
    Clova.ClaraIsEnglish("constructor");
  }

  lemma ClovaVoicesAgreeOffPrototype(language: string)
    requires language !in ObjectPrototypeKeys
    ensures ClovaVoicesAsWritten(language) == Clova.GetClovaVoicesForLanguage(language)
  {
  }

  // ------------------------------------------------------ getVoiceForLanguage

  /** `getVoiceForLanguage` as written: `DEFAULT_VOICE_BY_LANGUAGE[language] || 'fable'`. */
  function VoiceForLanguageAsWritten(language: string): (r: JsValue)
    ensures r.Builtin? <==> language !in VoiceSettings.DefaultVoiceByLanguage && language in ObjectPrototypeKeys
    ensures r.Str? ==> VoiceSettings.IsVoiceId(r.s)
  {
    VoiceSettings.DefaultsAreVoices();
    match Get(VoiceSettings.DefaultVoiceByLanguage, language)
    case Own(v) => if v != "" then Str(v) else Str("fable")
    case Inherited(k) => Builtin(k)
    case Undefined => Str("fable")
  }

  /** For the language `constructor` the voice is the `Object` function, where `fable` is intended. */
  lemma VoiceForConstructorIsAFunction()
    ensures VoiceForLanguageAsWritten("constructor") == Builtin("constructor")
    ensures ToText(VoiceForLanguageAsWritten("constructor")) == NativeCode("Object")
    ensures VoiceSettings.GetVoiceForLanguage("constructor") == "fable"
  {
  }

  lemma VoiceForLanguageAgreesOffPrototype(language: string)
    requires language !in ObjectPrototypeKeys
    ensures VoiceForLanguageAsWritten(language) == Str(VoiceSettings.GetVoiceForLanguage(language))
  {
  }

  // ------------------------------------------------------ getCityStartingPoints

  /**
   * `getCityStartingPoints` as written: `cityStartingPoints[cityId] || null`.
   * Every own value and every inherited one is truthy, so `null`
   * (`Undefined` here) is returned only for a name the object lacks altogether.
   */
  function CityStartingPointsAsWritten(table: StartingPoints.Table, cityId: string): (r: Prop<StartingPoints.CityStartingPoints>)
    ensures r.Own? <==> cityId in table
    ensures r.Own? ==> r.value == table[cityId]
    ensures r.Inherited? <==> cityId !in table && cityId in ObjectPrototypeKeys
  {
    Get(table, cityId)
  }

  /** For the city `constructor` the record is the `Object` function, where `null` is intended. */
  lemma CityConstructorIsNotNull(table: StartingPoints.Table)
    requires "constructor" !in table
    ensures CityStartingPointsAsWritten(table, "constructor") == Inherited("constructor")
    ensures StartingPoints.GetCityStartingPoints(table, "constructor") == None
  {
  }

  lemma CityStartingPointsAgreeOffPrototype(table: StartingPoints.Table, cityId: string)
    requires cityId !in ObjectPrototypeKeys
    ensures CityStartingPointsAsWritten(table, cityId) == FromOption(StartingPoints.GetCityStartingPoints(table, cityId))
  {
  }

  // ------------------------------------------------------ getStartingPointName

  /**
   * `getStartingPointName` as written: `point.translations[language]` is
   * truthy for an inherited name, and its `name` is the built-in's name.
   * `None` is `undefined`: what `__proto__` gives, the prototype object
   * having no `name`.
   */
  function StartingPointNameAsWritten(point: StartingPoints.StartingPoint, language: string): (r: Option<string>)
    ensures point.translations.None? ==> r == Some(point.name)
    ensures r.None? ==> point.translations.Some? && language == "__proto__" && language !in point.translations.value
    ensures r.Some? && r.value != point.name ==>
      point.translations.Some? && (language in point.translations.value || language in ObjectPrototypeKeys)
  {
    if point.translations.None? then Some(point.name)
    else
      match Get(point.translations.value, language)
      case Own(n) => Some(n)
      case Inherited(k) => BuiltinName(k)
      case Undefined => Some(point.name)
  }

  /** A point with translations is named `Object` in the language `constructor`, where its own name is intended. */
  lemma StartingPointNamedObject()
    ensures var point := StartingPoints.StartingPoint("fco", StartingPoints.Airport, "Fiumicino Airport", Some(map["ko" := "피우미치노 공항"]));
      && StartingPointNameAsWritten(point, "constructor") == Some("Object")
      && StartingPoints.GetStartingPointName(point, "constructor") == "Fiumicino Airport"
  {
  }

  lemma StartingPointNameAgreesOffPrototype(point: StartingPoints.StartingPoint, language: string)
    requires language !in ObjectPrototypeKeys
    ensures StartingPointNameAsWritten(point, language) == Some(StartingPoints.GetStartingPointName(point, language))
  {
  }

  // ------------------------------------------------------ getTranslatedContent

  /**
   * `getTranslatedContent` as written: for an inherited name the
   * `translation` is a built-in, whose `name` is truthy (except for
   * `__proto__`) and whose `narration` and `description` are `undefined`.
   */
  function TranslatedContentAsWritten(l: Translations.Landmark, language: string, f: Translations.Field): (r: string)
    ensures f != Translations.Name ==> r == Translations.GetTranslatedContent(l, language, f)
    ensures l.translations.None? ==> r == Translations.GetTranslatedContent(l, language, f)
  {
    var fallback := Translations.LandmarkField(l, f).GetOr("");
    if l.translations.None? then fallback
    else
      match Get(l.translations.value, language)
      case Own(tr) =>
        if Translations.Truthy(Translations.TranslationField(tr, f)) then Translations.TranslationField(tr, f).value
        else fallback
      case Inherited(k) =>
        if f == Translations.Name && BuiltinName(k).Some? then BuiltinName(k).value else fallback
      case Undefined => fallback
  }

  /** A translated landmark's name in the language `constructor` is `Object`, where its own name is intended. */
  lemma TranslatedNameIsObject()
    ensures var l := Translations.Landmark("Colosseum", "", None, Some(map[]));
      && TranslatedContentAsWritten(l, "constructor", Translations.Name) == "Object"
      && Translations.GetTranslatedContent(l, "constructor", Translations.Name) == "Colosseum"
  {
  }

  lemma TranslatedContentAgreesOffPrototype(l: Translations.Landmark, language: string, f: Translations.Field)
    requires language !in ObjectPrototypeKeys
    ensures TranslatedContentAsWritten(l, language, f) == Translations.GetTranslatedContent(l, language, f)
  {
  }

  // ------------------------------------------------------ generateAndSaveClovaTTS

  /** The voice of `generateAndSaveClovaTTS` as written: `voiceId || DEFAULT_CLOVA_VOICE_BY_LANGUAGE[language] || "nara"`. */
  function SelectedVoiceAsWritten(voiceId: Option<string>, language: string): (r: JsValue)
    ensures r.Builtin? <==>
      && (voiceId.None? || voiceId.value == "")
      && language !in Clova.DefaultClovaVoiceByLanguage && language in ObjectPrototypeKeys
    ensures r.Str? ==> r.s == Clova.SelectedVoice(voiceId, language)
  {
    if voiceId.Some? && voiceId.value != "" then Str(voiceId.value)
    else
      match Get(Clova.DefaultClovaVoiceByLanguage, language)
      case Own(v) => if v != "" then Str(v) else Str("nara")
      case Inherited(k) => Builtin(k)
      case Undefined => Str("nara")
  }

  /**
   * With no voice and the language `constructor`, the speaker sent to the
   * service is the `Object` function's text, and so is the voice part of the
   * file name; `nara` is intended.
   */
  lemma ClovaVoiceForConstructorIsAFunction()
    ensures SelectedVoiceAsWritten(None, "constructor") == Builtin("constructor")
    ensures ToText(SelectedVoiceAsWritten(None, "constructor")) == NativeCode("Object")
    ensures Clova.ParseFileName(Clova.FileName("colosseum", "constructor", NativeCode("Object")))
      == Some(("colosseum", "constructor", NativeCode("Object")))
    ensures Clova.SelectedVoice(None, "constructor") == "nara"
  {
    assert '_' !in "colosseum" && '_' !in "constructor";
    Clova.ParseFileNameInverts("colosseum", "constructor", NativeCode("Object"));
  }

  lemma ClovaSelectedVoiceAgreesOffPrototype(voiceId: Option<string>, language: string)
    requires language !in ObjectPrototypeKeys
    ensures SelectedVoiceAsWritten(voiceId, language) == Str(Clova.SelectedVoice(voiceId, language))
  {
  }
}
