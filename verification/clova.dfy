/**
 * The pure parts of the CLOVA voice helper
 * (GPS-Cruise-Tour-AudioGuideNo-Wifi-1/server/lib/clova.ts): the voice table
 * in declaration order, the voices offered for a language, the voice chosen
 * for a request, and the name and URL of the saved audio file.
 */
module Clova {
  import opened Common

  datatype Gender = Female | Male

  datatype ClovaVoice = ClovaVoice(name: string, nameKo: string, gender: Gender, language: string, description: string)

  /** `CLOVA_VOICES` as `Object.keys` lists it: in declaration order. */
  const ClovaVoices: seq<(string, ClovaVoice)> := [
    ("nara", ClovaVoice("Nara", "나라", Female, "ko", "Korean female voice")),
    ("nara_call", ClovaVoice("Nara Call", "나라 (전화)", Female, "ko", "Korean female voice for call")),
    ("nminsang", ClovaVoice("Minsang", "민상", Male, "ko", "Korean male voice")),
    ("nhajun", ClovaVoice("Hajun", "하준", Male, "ko", "Korean child male voice")),
    ("ndain", ClovaVoice("Dain", "다인", Female, "ko", "Korean child female voice")),
    ("njiyun", ClovaVoice("Jiyun", "지윤", Female, "ko", "Korean female voice")),
    ("nsujin", ClovaVoice("Sujin", "수진", Female, "ko", "Korean female voice")),
    ("njinho", ClovaVoice("Jinho", "진호", Male, "ko", "Korean male voice")),
    ("njihun", ClovaVoice("Jihun", "지훈", Male, "ko", "Korean male voice")),
    ("njooahn", ClovaVoice("Jooahn", "주안", Male, "ko", "Korean male voice")),
    ("nseonhee", ClovaVoice("Seonhee", "선희", Female, "ko", "Korean female voice")),
    ("njiyoung", ClovaVoice("Jiyoung", "지영", Female, "ko", "Korean female voice")),
    ("nsiyoon", ClovaVoice("Siyoon", "시윤", Male, "ko", "Korean male voice")),
    ("ngaram", ClovaVoice("Garam", "가람", Female, "ko", "Korean child female voice")),
    ("ntomoko", ClovaVoice("Tomoko", "토모코", Female, "ja", "Japanese female voice")),
    ("nnaomi", ClovaVoice("Naomi", "나오미", Female, "ja", "Japanese female voice")),
    ("nsayuri", ClovaVoice("Sayuri", "사유리", Female, "ja", "Japanese female voice")),
    ("ngoeun", ClovaVoice("Goeun", "고은", Female, "ko", "Korean female voice")),
    ("neunyoung", ClovaVoice("Eunyoung", "은영", Female, "ko", "Korean female voice")),
    ("nsunkyung", ClovaVoice("Sunkyung", "선경", Female, "ko", "Korean female voice")),
    ("nyujin", ClovaVoice("Yujin", "유진", Female, "ko", "Korean female voice")),
    ("ntaejin", ClovaVoice("Taejin", "태진", Male, "ko", "Korean male voice")),
    ("nyoungil", ClovaVoice("Youngil", "영일", Male, "ko", "Korean male voice")),
    ("nseungpyo", ClovaVoice("Seungpyo", "승표", Male, "ko", "Korean male voice")),
    ("nwontak", ClovaVoice("Wontak", "원탁", Male, "ko", "Korean male voice")),
    ("dara_ang", ClovaVoice("Dara (Angry)", "다라 (분노)", Female, "ko", "Korean female voice with angry emotion")),
    ("nsunhee", ClovaVoice("Sunhee", "순희", Female, "ko", "Korean female voice")),
    ("nmammon", ClovaVoice("Mammon", "마몬", Male, "ko", "Korean male voice")),
    ("nwoof", ClovaVoice("Woof", "우프", Male, "ko", "Korean male voice")),
    ("njoonyoung", ClovaVoice("Joonyoung", "준영", Male, "ko", "Korean male voice")),
    ("clara", ClovaVoice("Clara", "클라라", Female, "en", "English female voice")),
    ("matt", ClovaVoice("Matt", "매트", Male, "en", "English male voice")),
    ("shinji", ClovaVoice("Shinji", "신지", Male, "ja", "Japanese male voice")),
    ("meimei", ClovaVoice("Meimei", "메이메이", Female, "zh", "Chinese female voice")),
    ("liangliang", ClovaVoice("Liangliang", "량량", Male, "zh", "Chinese male voice")),
    ("jose", ClovaVoice("Jose", "호세", Male, "es", "Spanish male voice")),
    ("carmen", ClovaVoice("Carmen", "카르멘", Female, "es", "Spanish female voice"))
  ]

  /** `DEFAULT_CLOVA_VOICE_BY_LANGUAGE`. */
  const DefaultClovaVoiceByLanguage: map<string, string> := map[
    "ko" := "nara", "en" := "clara", "ja" := "ntomoko", "zh" := "meimei", "es" := "carmen",
    "fr" := "clara", "de" := "clara", "it" := "clara", "pt" := "clara", "ru" := "clara"
  ]

  /** `langMapping` inside `getClovaVoicesForLanguage`. */
  const LangMapping: map<string, string> := map["ko" := "ko", "en" := "en", "ja" := "ja", "zh" := "zh", "es" := "es"]

  function VoiceIds(vs: seq<(string, ClovaVoice)>): (ks: seq<string>)
    ensures |ks| == |vs| && forall i :: 0 <= i < |vs| ==> ks[i] == vs[i].0
  {
    if vs == [] then [] else [vs[0].0] + VoiceIds(vs[1..])
  }

  /** `v` is a key of `CLOVA_VOICES`. */
  ghost predicate IsClovaVoiceId(v: string) {
    exists i :: 0 <= i < |ClovaVoices| && ClovaVoices[i].0 == v
  }

  /** The language whose voices are offered: the mapped one, English for any other. */
  function TargetLanguage(language: string): (t: string)
    ensures language in LangMapping ==> t == language
    ensures language !in LangMapping ==> t == "en"
  {
    if language in LangMapping && LangMapping[language] != "" then LangMapping[language] else "en"
  }

  /** The ids of the voices of `vs` whose language is `lang`, in table order. */
  function FilterByLanguage(vs: seq<(string, ClovaVoice)>, lang: string): (r: seq<string>)
    ensures |r| <= |vs|
  {
    if vs == [] then []
    else if vs[0].1.language == lang then [vs[0].0] + FilterByLanguage(vs[1..], lang)
    else FilterByLanguage(vs[1..], lang)
  }

  /** The ids of the voices of the target language, in `Object.keys` order; see `FilterByLanguageSpec`. */
  function GetClovaVoicesForLanguage(language: string): (r: seq<string>)
    ensures |r| <= |ClovaVoices|
  {
    FilterByLanguage(ClovaVoices, TargetLanguage(language))
  }

  /** `voiceId || DEFAULT_CLOVA_VOICE_BY_LANGUAGE[language] || "nara"`. */
  function SelectedVoice(voiceId: Option<string>, language: string): (v: string)
    ensures voiceId.Some? && voiceId.value != "" ==> v == voiceId.value
    ensures (voiceId.None? || voiceId.value == "") && language in DefaultClovaVoiceByLanguage ==>
      v == DefaultClovaVoiceByLanguage[language]
    ensures (voiceId.None? || voiceId.value == "") && language !in DefaultClovaVoiceByLanguage ==> v == "nara"
  {
    if voiceId.Some? && voiceId.value != "" then voiceId.value
    else if language in DefaultClovaVoiceByLanguage && DefaultClovaVoiceByLanguage[language] != ""
    then DefaultClovaVoiceByLanguage[language]
    else "nara"
  }

  /** `${landmarkId}_${language}_${selectedVoice}.mp3`. */
  function FileName(landmarkId: string, language: string, voice: string): (f: string)
    ensures |f| == |landmarkId| + |language| + |voice| + 6
    ensures f[..|landmarkId|] == landmarkId && f[|f| - 4..] == ".mp3"
  {
    landmarkId + "_" + language + "_" + voice + ".mp3"
  }

  /** The URL the file is served under. */
  function AudioUrl(landmarkId: string, language: string, voice: string): (u: string)
    ensures |u| == 13 + |FileName(landmarkId, language, voice)|
  {
    "/audio/clova/" + FileName(landmarkId, language, voice)
  }

  /** The text before and after the first `c`, if there is one. */
  function SplitFirst(s: string, c: char): (r: Option<(string, string)>)
    ensures r.Some? ==> s == r.value.0 + [c] + r.value.1 && c !in r.value.0
    ensures r.None? ==> c !in s
  {
    if s == [] then None
    else if s[0] == c then Some(([], s[1..]))
    else
      match SplitFirst(s[1..], c)
      case None => None
      case Some((a, b)) => Some(([s[0]] + a, b))
  }

  /** Reads a file name back into landmark id, language and voice. */
  function ParseFileName(f: string): Option<(string, string, string)> {
    if |f| >= 4 && f[|f| - 4..] == ".mp3" then
      match SplitFirst(f[..|f| - 4], '_')
      case None => None
      case Some((landmarkId, rest)) =>
        match SplitFirst(rest, '_')
        case None => None
        case Some((language, voice)) => Some((landmarkId, language, voice))
    else None
  }

  // ---------------------------------------------------------------- lemmas

  /** `a` is `b` with some entries left out, the rest in the same order. */
  predicate SubsequenceOf(a: seq<string>, b: seq<string>)
    decreases |b|
  {
    if a == [] then true
    else if b == [] then false
    else (a[0] == b[0] && SubsequenceOf(a[1..], b[1..])) || SubsequenceOf(a, b[1..])
  }

  /**
   * The filter keeps exactly the ids of the entries of language `lang`
   * (every one of them, and nothing else), in table order.
   */
  lemma {:induction false} FilterByLanguageSpec(vs: seq<(string, ClovaVoice)>, lang: string)
    ensures forall x :: x in FilterByLanguage(vs, lang) <==>
      exists i :: 0 <= i < |vs| && vs[i].0 == x && vs[i].1.language == lang
    ensures SubsequenceOf(FilterByLanguage(vs, lang), VoiceIds(vs))
    decreases |vs|
  {
    if vs != [] {
      FilterByLanguageSpec(vs[1..], lang);
      var r := FilterByLanguage(vs, lang);
      var rest := FilterByLanguage(vs[1..], lang);
      forall x
        ensures x in r <==> exists i :: 0 <= i < |vs| && vs[i].0 == x && vs[i].1.language == lang
      {
        if x in rest {
          var i :| 0 <= i < |vs[1..]| && vs[1..][i].0 == x && vs[1..][i].1.language == lang;
          assert vs[i + 1] == vs[1..][i];
        }
        if exists i :: 0 <= i < |vs| && vs[i].0 == x && vs[i].1.language == lang {
          var i :| 0 <= i < |vs| && vs[i].0 == x && vs[i].1.language == lang;
          if i > 0 {
            assert vs[1..][i - 1] == vs[i];
          }
        }
      }
      assert VoiceIds(vs)[1..] == VoiceIds(vs[1..]);
      if vs[0].1.language == lang {
        assert r[1..] == rest;
      } else {
        SubsequenceOfSkip(rest, VoiceIds(vs));
      }
    }
  }

  lemma SubsequenceOfSkip(a: seq<string>, b: seq<string>)
    requires b != [] && SubsequenceOf(a, b[1..])
    ensures SubsequenceOf(a, b)
  {
  }

  /**
   * The voices offered for a language are exactly the voices of its target
   * language, in `Object.keys` order.
   */
  lemma VoicesForLanguage(language: string)
    ensures forall x :: x in GetClovaVoicesForLanguage(language) <==>
      exists i :: 0 <= i < |ClovaVoices| && ClovaVoices[i].0 == x && ClovaVoices[i].1.language == TargetLanguage(language)
    ensures SubsequenceOf(GetClovaVoicesForLanguage(language), VoiceIds(ClovaVoices))
  {
    var vs, lang := ClovaVoices, TargetLanguage(language);
    FilterByLanguageSpec(vs, lang);
    assert GetClovaVoicesForLanguage(language) == FilterByLanguage(vs, lang);
  }

  /** Languages outside the five mapped ones are offered the English voices. */
  lemma UnmappedLanguageGetsEnglish(language: string)
    requires language !in LangMapping
    ensures GetClovaVoicesForLanguage(language) == GetClovaVoicesForLanguage("en")
  {
  }

  /** `clara` is offered for every language without voices of its own. */
  lemma ClaraIsEnglish(language: string)
    requires language !in LangMapping
    ensures "clara" in GetClovaVoicesForLanguage(language)
  {
    assert ClovaVoices[30].0 == "clara" && ClovaVoices[30].1.language == "en";
    FilterKeeps(ClovaVoices, "en", 30);
  }

  lemma {:induction false} FilterKeeps(vs: seq<(string, ClovaVoice)>, lang: string, i: nat)
    requires i < |vs| && vs[i].1.language == lang
    ensures vs[i].0 in FilterByLanguage(vs, lang)
    decreases i
  {
    if i > 0 {
      assert vs[1..][i - 1] == vs[i];
      FilterKeeps(vs[1..], lang, i - 1);
    }
  }

  /** Every per-language default is a CLOVA voice id. */
  lemma DefaultsAreClovaVoices()
    ensures forall l :: l in DefaultClovaVoiceByLanguage ==> IsClovaVoiceId(DefaultClovaVoiceByLanguage[l])
  {
    assert ClovaVoices[0].0 == "nara";
    assert ClovaVoices[14].0 == "ntomoko";
    assert ClovaVoices[30].0 == "clara";
    assert ClovaVoices[33].0 == "meimei";
    assert ClovaVoices[36].0 == "carmen";
  }

  /** With no explicit voice, or a valid one, the voice used is a CLOVA voice id. */
  lemma SelectedVoiceIsClovaVoice(voiceId: Option<string>, language: string)
    requires voiceId.Some? ==> IsClovaVoiceId(voiceId.value)
    ensures IsClovaVoiceId(SelectedVoice(voiceId, language))
  {
    DefaultsAreClovaVoices();
    assert ClovaVoices[0].0 == "nara";
  }

  lemma {:induction false} SplitFirstOf(a: string, c: char, b: string)
    requires c !in a
    ensures SplitFirst(a + [c] + b, c) == Some((a, b))
    decreases |a|
  {
    if a != [] {
      assert (a + [c] + b)[1..] == a[1..] + [c] + b;
      SplitFirstOf(a[1..], c, b);
      assert [a[0]] + a[1..] == a;
    } else {
      assert (a + [c] + b)[1..] == b;
    }
  }

  /** The file name can be read back when neither the landmark id nor the language contains `_`. */
  lemma ParseFileNameInverts(landmarkId: string, language: string, voice: string)
    requires '_' !in landmarkId && '_' !in language
    ensures ParseFileName(FileName(landmarkId, language, voice)) == Some((landmarkId, language, voice))
  {
    var f := FileName(landmarkId, language, voice);
    var body := landmarkId + "_" + language + "_" + voice;
    assert f == body + ".mp3";
    assert f[..|f| - 4] == body;
    assert f[|f| - 4..] == ".mp3";
    assert body == landmarkId + ['_'] + (language + "_" + voice);
    SplitFirstOf(landmarkId, '_', language + "_" + voice);
    assert language + "_" + voice == language + ['_'] + voice;
    SplitFirstOf(language, '_', voice);
  }

  /** With `_` inside a landmark id, two different requests write the same file. */
  lemma FileNamesCollide()
    ensures FileName("st_peter", "ko", "nara") == FileName("st", "peter_ko", "nara")
  {
  }

  /** The URL is the directory followed by the file name. */
  lemma AudioUrlShape(landmarkId: string, language: string, voice: string)
    ensures var u := AudioUrl(landmarkId, language, voice);
      u[..13] == "/audio/clova/" && u[13..] == FileName(landmarkId, language, voice)
  {
  }
}
