/**
 * `getTranslatedContent` (client/src/lib/translations.ts): the text of one
 * landmark field in the requested language, falling back to the landmark's
 * own value. JavaScript truthiness is spelled out: a missing value and the
 * empty string both count as absent.
 */
module Translations {
  import opened Common

  /** The three fields a caller may ask for. */
  datatype Field = Name | Narration | Description

  /** One language's entry of `translations`; `description` is optional in the schema. */
  datatype Translation = Translation(name: string, narration: string, description: Option<string>)

  datatype Landmark = Landmark(
    name: string,
    narration: string,
    description: Option<string>,
    translations: Option<map<string, Translation>>)

  function TranslationField(tr: Translation, f: Field): Option<string> {
    match f
    case Name => Some(tr.name)
    case Narration => Some(tr.narration)
    case Description => tr.description
  }

  function LandmarkField(l: Landmark, f: Field): Option<string> {
    match f
    case Name => Some(l.name)
    case Narration => Some(l.narration)
    case Description => l.description
  }

  /** A JavaScript value of type `string | undefined` that is truthy. */
  predicate Truthy(v: Option<string>) {
    v.Some? && v.value != ""
  }

  /** The translation entry for `language`, if the landmark has one. */
  function TranslationFor(l: Landmark, language: string): Option<Translation> {
    if l.translations.Some? && language in l.translations.value
    then Some(l.translations.value[language])
    else None
  }

  function GetTranslatedContent(l: Landmark, language: string, f: Field): (r: string)
    ensures var tr := TranslationFor(l, language);
      tr.Some? && Truthy(TranslationField(tr.value, f)) ==> r == TranslationField(tr.value, f).value
    ensures var tr := TranslationFor(l, language);
      !(tr.Some? && Truthy(TranslationField(tr.value, f))) ==> r == LandmarkField(l, f).GetOr("")
  {
    var tr := TranslationFor(l, language);
    if tr.Some? && Truthy(TranslationField(tr.value, f)) then TranslationField(tr.value, f).value
    else if Truthy(LandmarkField(l, f)) then LandmarkField(l, f).value
    else ""
  }

  // ---------------------------------------------------------------- lemmas

  /** The result is one of the field's own values, in some language, or `""`. */
  lemma ResultIsAFieldValue(l: Landmark, language: string, f: Field)
    ensures var r := GetTranslatedContent(l, language, f);
      || r == ""
      || Some(r) == LandmarkField(l, f)
      || (TranslationFor(l, language).Some? && Some(r) == TranslationField(TranslationFor(l, language).value, f))
  {
  }

  /** The result is empty only when neither the translation nor the landmark has a value. */
  lemma EmptyOnlyWithoutValues(l: Landmark, language: string, f: Field)
    ensures GetTranslatedContent(l, language, f) == "" <==>
      && !Truthy(LandmarkField(l, f))
      && (TranslationFor(l, language).None? || !Truthy(TranslationField(TranslationFor(l, language).value, f)))
  {
  }

  /** Two landmarks that agree on field `f`, in every language and in the base record, give the same text. */
  ghost predicate AgreeOn(l1: Landmark, l2: Landmark, f: Field) {
    && LandmarkField(l1, f) == LandmarkField(l2, f)
    && (forall lang :: TranslationFor(l1, lang).Some? <==> TranslationFor(l2, lang).Some?)
    && (forall lang :: TranslationFor(l1, lang).Some? ==>
          TranslationField(TranslationFor(l1, lang).value, f) == TranslationField(TranslationFor(l2, lang).value, f))
  }

  /** Only the requested field is consulted: the other fields can be anything. */
  lemma OnlyRequestedField(l1: Landmark, l2: Landmark, language: string, f: Field)
    requires AgreeOn(l1, l2, f)
    ensures GetTranslatedContent(l1, language, f) == GetTranslatedContent(l2, language, f)
  {
    assert TranslationFor(l1, language).Some? <==> TranslationFor(l2, language).Some?;
  }
}
