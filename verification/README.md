# Record patchers and lookup helpers of the GPS cruise tour audio guide

This project models, in Dafny, the core of a tour-guide app's maintenance scripts and a few of its pure helpers.

**Record patchers.** Five one-shot scripts patch the landmark source file `server/storage.ts` in place:
- update-coordinates.ts
- fix-coordinates.py
- update-photos.mjs
- update-rome-data.py
- update-rome-data.mjs

Each script reads the text and walks a table of `id → new value` entries in order. For each entry it finds the record anchor `id: '<id>'` and the nearest field key after it (`lat:`, `lng:` or `photos: [`). It splices the new value in and passes the edited text on to the next entry. The script writes once; the first three also report a count.

The file contents are a parameter and the written text is the result. The entry tables are caller input.

The regular expressions are not run by a general engine. Each pattern is a hand-written deterministic scanner (module `Patterns`):
- an anchor;
- the lazy gap to the nearest key;
- the value.

A generic scanner finds the leftmost match and replaces globally (`g`, `re.sub`) or once (`re.subn(count=1)`). That scanner is module `Engine`, instantiated by `Rewrite`.

**Secondary helpers.** These are pure client and server functions. The main model reads their plain objects by own key only; what the lookups do for a name every object inherits (`constructor`, `toString`, …) is modelled separately and listed under Findings:
- the translated-field fallback (`translations.ts`);
- starting-point lookup and flattening (`startingPoints.ts`);
- TTS voice defaults and the saved voice, with browser storage as a map (`voiceSettings.ts`);
- CLOVA voice filtering, voice choice and audio file names (`clova.ts`);
- the byte layout of the offline export container and its byte-per-character conversion (`offlineDataEncryption.ts`).

Modules, following the program's structure:
- `Common`, `Text`: options, results, `\s` per regex dialect, number runs, `Find`, `Splice`.
- `JsRegExp`: JavaScript's `GetSubstitution` (`$1`, `$&`, …) and the escaping of update-photos.mjs.
- `Patterns`, `Engine`, `Rewrite`: the five patterns, the leftmost scan and the replacements.
- `Spans`, `Anchors`: what one match covers and rewrites; which records an anchor selects.
- `Scripts`: the five table loops and their counts.
- `Locality`, `CoordinateReruns`, `EntryReruns`, `PhotoReruns`, `PairReruns`, `RomeReruns`, `ScriptReruns`: what a second run does.
- `PassesApart`: update-coordinates.ts and fix-coordinates.py on a record without `lng:`.
- `Translations`, `StartingPoints`, `VoiceSettings`, `Clova`, `OfflineFraming`: the helpers.
- `PrototypeLookup`: the helpers' object lookups as written, for names inherited from `Object.prototype` (see Findings).

Three behaviours worth knowing:
- **fix-coordinates.py counts matches, not changes.** A second run leaves the text as it is but reports the same count, not 0 (`ScriptReruns.RerunFixCoordinates`).
- **The two Rome scripts are not idempotent.** Each run writes the block's four leading spaces after the kept indentation again (`RomeReruns`).
- **No script reports a total attempted.** update-coordinates.ts, fix-coordinates.py and update-photos.mjs report one count. The Rome scripts report nothing.

## Model

The scanners of `Patterns` (`AnchorEnd`, `MatchAt`, `CoordinateMatch`, `PairMatch`, `PhotoListMatch`, `PhotoBlockMatch`, `PhotoListBody`) stand for the five regular expressions and update-photos.mjs's `photosStr`. Their contracts are the `Anchors.*` rows and the `Spans.*MatchShape`, `*MatchWhen`, `*MatchIff`, `*Render` and `PhotoBlockSplice` rows.

| member | source | states |
|---|---|---|
| Anchors.QuotedAnchorSelects | GPS-Cruise-Tour-AudioGuideNo-Wifi/scripts/update-coordinates.ts:131-132 | `id:\s*['"]<id>['"]` accepts a record with any whitespace run and either quote around its id, exactly when the record's id equals the entry's id (both directions) |
| Anchors.ExactAnchorSelects | scripts/update-rome-data.py:157 | `id: '<id>',` selects a record exactly when its id equals the entry's id |
| Anchors.ColosseumIsNotColosseumMemories | scripts/update-rome-data.py:157-180 | the entry `colosseum` does not select the record `colosseum-memories-rome` |
| Anchors.DashLooseAnchorSelects | GPS-Cruise-Tour-AudioGuideNo-Wifi/scripts/update-rome-data.mjs:150-152 | with `-` and `_` read as `[-_]`, the anchor selects exactly the records whose id equals the entry's up to swapping `-` and `_` |
| Anchors.RomanForumMatchesRomanDashForum | GPS-Cruise-Tour-AudioGuideNo-Wifi/scripts/update-rome-data.mjs:150 | `roman_forum` selects a record spelled `roman-forum` |
| JsRegExp.EscapedIdIsLiteral | scripts/update-photos.mjs:406 | after escaping, the id's pattern text matches exactly the id's own characters |
| JsRegExp.SubstituteLiteral | scripts/update-photos.mjs:417 | a replacement template without `$` is inserted verbatim |
| Engine.Leftmost | GPS-Cruise-Tour-AudioGuideNo-Wifi/scripts/update-coordinates.ts:136-142 | the match found starts at the first position from which the pattern matches: none before it, and none at all when it returns nothing |
| Engine.HitsAreLeftmostChain | GPS-Cruise-Tour-AudioGuideNo-Wifi/scripts/update-coordinates.ts:131-132 | with the `g` flag the replacement visits the leftmost match, then the leftmost match after its end, and so on: every non-overlapping occurrence |
| Engine.ChainUnique | scripts/update-rome-data.py:163 | there is only one such chain of leftmost non-overlapping matches from a given point |
| Engine.ReplaceFromRebuilds | scripts/update-rome-data.py:163 | a global replacement copies the text and replaces exactly the spans of that chain, each by its rendering |
| Engine.NoMatchUnchanged | GPS-Cruise-Tour-AudioGuideNo-Wifi-1/scripts/fix-coordinates.py:139-141 | with no match the text is returned unchanged |
| Engine.PrefixKept | GPS-Cruise-Tour-AudioGuideNo-Wifi/scripts/update-coordinates.ts:136-138 | everything before the first match is kept |
| Engine.FixedPoint | scripts/update-photos.mjs:417 | a global replacement whose every visited match already reads as its own replacement leaves the text unchanged |
| Rewrite.ReplaceOnce | GPS-Cruise-Tour-AudioGuideNo-Wifi-1/scripts/fix-coordinates.py:139 | `re.subn(count=1)` makes at most one substitution, makes one exactly when the pattern matches somewhere, and makes it at the first match |
| Rewrite.OnceAt | GPS-Cruise-Tour-AudioGuideNo-Wifi-1/scripts/fix-coordinates.py:139 | a substitution that happened is at the first position with a match |
| Patterns.FirstNumberKey | GPS-Cruise-Tour-AudioGuideNo-Wifi/scripts/update-coordinates.ts:131 | the lazy `[\s\S]*?` stops at the nearest key followed by `\s*` and a number character, with no such key before it |
| Patterns.FirstPhotosKey | scripts/update-photos.mjs:410 | the `photos:\s*[` used is the nearest one after the anchor |
| Patterns.RenderKeepsFirstGroup | GPS-Cruise-Tour-AudioGuideNo-Wifi/scripts/update-coordinates.ts:136-137 | every script's replacement starts with its first group: the anchor and the gap to the key are written back unchanged |
| JsRegExp.Substitute | scripts/update-photos.mjs:417 | `$$` gives `$`, `$&` the match, `` $` `` the text before it, `$'` the text after it, and `$n` the n-th group when there is one |
| JsRegExp.EscapeRegExp | scripts/update-photos.mjs:406 | an id with none of `-/\^$*+?.()\|[]{}` is left as it is |
| Spans.CoordinateMatchShape | GPS-Cruise-Tour-AudioGuideNo-Wifi/scripts/update-coordinates.ts:131-138 | a lat or lng pass matches at `p` exactly when the anchor is there and some key-and-number follows; it rewrites only the maximal `[\d.-]+` run after the nearest key, keeping the anchor and the gap |
| Spans.CoordinateRender | GPS-Cruise-Tour-AudioGuideNo-Wifi/scripts/update-coordinates.ts:136-142 | replacing a match is a `Splice` of the number run by the new value and nothing else |
| Spans.PairMatchShape | GPS-Cruise-Tour-AudioGuideNo-Wifi-1/scripts/fix-coordinates.py:134-137 | a match holds the anchor, the nearest `lat:` number after it and the nearest `lng:` number after the lat number; the output equals the input with only the two number runs replaced |
| Spans.PairMatchWhen | GPS-Cruise-Tour-AudioGuideNo-Wifi-1/scripts/fix-coordinates.py:134 | the converse of `PairMatchShape`: an anchor, the nearest `lat:` number after it and the nearest `lng:` number after that run make a match covering exactly those runs |
| Spans.PairMatchIff | GPS-Cruise-Tour-AudioGuideNo-Wifi-1/scripts/fix-coordinates.py:134 | the pair pattern matches at `p` exactly when the anchor is there and a `lat:` number followed by a `lng:` number comes after it |
| Spans.PairRender | GPS-Cruise-Tour-AudioGuideNo-Wifi-1/scripts/fix-coordinates.py:136-137 | the groups and the id put back give the input text with only the two runs changed |
| Spans.PhotoListMatchShape | scripts/update-photos.mjs:409-417 | a match keeps the anchor through `[` and the closing `]`; the text between them holds no `]` and is the only text replaced, by the new list |
| Spans.PhotoListMatchWhen | scripts/update-photos.mjs:409-412 | the converse: an anchor, the nearest `photos:\s*[` after it and a `]` after the bracket make a match whose one cut is the bracket and which ends just past the first `]` |
| Spans.PhotoListMatchIff | scripts/update-photos.mjs:409-412 | the photo-list pattern matches at `p` exactly when the anchor is there and a `photos: [ … ]` follows it |
| Spans.PhotoListRender | scripts/update-photos.mjs:414-417 | the template `$1<body>$2` with `$`-free urls puts the two groups back around the body and expands nothing else |
| Spans.PhotoBlockMatchShape | scripts/update-rome-data.py:157-163 | a match keeps the anchor up to the nearest `photos: [` and replaces the text from there through the first `],` after it by the block |
| Spans.PhotoBlockMatchWhen | scripts/update-rome-data.py:157 | the converse: an anchor and a `photos: [` after it, closed by a later `],`, make a match that cuts at the nearest such key and ends just past the first `],` |
| Spans.PhotoBlockMatchIff | scripts/update-rome-data.py:157 | the block pattern matches at `p` exactly when the anchor is there and a `photos: [ … ],` follows it |
| Spans.PhotoBlockSplice | GPS-Cruise-Tour-AudioGuideNo-Wifi/scripts/update-rome-data.mjs:151-160 | replacing a block match is a `Splice` from its `photos: [` on; the callback inserts the block literally |
| Scripts.Trace | GPS-Cruise-Tour-AudioGuideNo-Wifi/scripts/update-coordinates.ts:130 | the texts a table loop passes through: each entry applies to the previous entry's output, in table order |
| Scripts.TraceOfFixedPoint | scripts/update-photos.mjs:405 | a table every entry of which leaves a text as it is passes it through unchanged |
| Scripts.PatchCoordinates | GPS-Cruise-Tour-AudioGuideNo-Wifi/scripts/update-coordinates.ts:131-142 | one entry's lat pass then lng pass; a text in which neither pattern matches anywhere comes back unchanged |
| Scripts.FixEntry | GPS-Cruise-Tour-AudioGuideNo-Wifi-1/scripts/fix-coordinates.py:134-142 | one entry's `re.subn(count=1)`; a text the pattern does not match is kept |
| Scripts.PatchPhotos | scripts/update-photos.mjs:406-417 | one entry's global replace; a text the pattern does not match is returned unchanged |
| Scripts.PatchRomePy | scripts/update-rome-data.py:153-163 | `update_photos_section`; a text the pattern does not match is returned unchanged |
| Scripts.PatchRomeMjs | GPS-Cruise-Tour-AudioGuideNo-Wifi/scripts/update-rome-data.mjs:149-160 | one entry's global replace; a text the pattern does not match is returned unchanged |
| Scripts.UpdateCoordinates | GPS-Cruise-Tour-AudioGuideNo-Wifi/scripts/update-coordinates.ts:124-152 | the written text is the last text of the trace (lat pass, then lng pass, per entry); the count is the number of entries whose passes changed the text |
| Scripts.FixCoordinates | GPS-Cruise-Tour-AudioGuideNo-Wifi-1/scripts/fix-coordinates.py:125-148 | the written text is the last text of the trace; the count is the number of entries whose pattern matched, whether or not the text changed |
| Scripts.UpdatePhotos | scripts/update-photos.mjs:399-427 | the written text is the last text of the trace; the count is the number of entries that changed the text |
| Scripts.UpdateRomePy | scripts/update-rome-data.py:153-187 | the written text is the `updates` applied in list order, each by a global `re.sub`; nothing is counted |
| Scripts.UpdateRomeMjs | GPS-Cruise-Tour-AudioGuideNo-Wifi/scripts/update-rome-data.mjs:148-164 | the written text is the `photoUpdates` applied in order, each by a global replace; nothing is counted |
| CoordinateReruns.CoordinatePassIdempotent | GPS-Cruise-Tour-AudioGuideNo-Wifi/scripts/update-coordinates.ts:131-142 | one pass run again on its own output changes nothing, for an id without `:` and a number-run value |
| CoordinateReruns.CoordinateNoneBefore | GPS-Cruise-Tour-AudioGuideNo-Wifi/scripts/update-coordinates.ts:131 | before a pass's first match its output has no match either |
| CoordinateReruns.NearestKeyKept | GPS-Cruise-Tour-AudioGuideNo-Wifi/scripts/update-coordinates.ts:131 | the nearest key after the anchor stays the nearest once its number is rewritten |
| EntryReruns.AnchorBeforeWindow | GPS-Cruise-Tour-AudioGuideNo-Wifi/scripts/update-coordinates.ts:131 | for an id without `:`, an anchor that starts before the number of a `lat:` or `lng:` window ends at or before that key: the lazy gap of a later match cannot start inside a key |
| EntryReruns.SameNumberSameKey | GPS-Cruise-Tour-AudioGuideNo-Wifi/scripts/update-coordinates.ts:131-132 | two key windows of the same length that reach the same number are one window, so `lat:\s*` and `lng:\s*` never lead to the same number |
| EntryReruns.SettledIsFixed | GPS-Cruise-Tour-AudioGuideNo-Wifi/scripts/update-coordinates.ts:136-142 | a pass whose every match, wherever it starts, already holds the pass's value leaves the text unchanged |
| EntryReruns.PassSettles | GPS-Cruise-Tour-AudioGuideNo-Wifi/scripts/update-coordinates.ts:136-138 | after a pass every match of that pass, wherever it starts, holds the new value |
| EntryReruns.KeyRunKept | GPS-Cruise-Tour-AudioGuideNo-Wifi/scripts/update-coordinates.ts:140-142 | the lng pass keeps the number run that the nearest `lat:` window reads from the start of the text |
| EntryReruns.OtherPassKeepsSettled | GPS-Cruise-Tour-AudioGuideNo-Wifi/scripts/update-coordinates.ts:136-142 | the lng pass keeps every latitude match holding the latitude value: it rewrites only number runs after `lng:` |
| EntryReruns.PatchCoordinatesIdempotent | GPS-Cruise-Tour-AudioGuideNo-Wifi/scripts/update-coordinates.ts:131-142 | one entry's lat pass then lng pass, run again on their own output, change nothing, for an id without `:` and number-run values |
| PhotoReruns.PhotoListPassIdempotent | scripts/update-photos.mjs:409-417 | one entry run again on its own output changes nothing, for an id without `:` and urls without `$` or `]` |
| PhotoReruns.PhotoListBodyLacksBracket | scripts/update-photos.mjs:414 | the written list holds no `]` when no url does, so the next run's first `]` is the same bracket |
| PairReruns.PairRerun | GPS-Cruise-Tour-AudioGuideNo-Wifi-1/scripts/fix-coordinates.py:134-141 | `re.subn(count=1)` run again on its own output returns that output and the same count |
| PairReruns.PairOutputAgain | GPS-Cruise-Tour-AudioGuideNo-Wifi-1/scripts/fix-coordinates.py:134-137 | the output still matches at the same place, and the match renders to the output itself |
| PairReruns.PairNoneBefore | GPS-Cruise-Tour-AudioGuideNo-Wifi-1/scripts/fix-coordinates.py:134 | no match appears in the output before the place of the first match |
| ScriptReruns.SettledTableRerun | GPS-Cruise-Tour-AudioGuideNo-Wifi/scripts/update-coordinates.ts:134-147 | a table whose entries all leave the text as it is writes it back and counts 0 |
| ScriptReruns.RerunUpdateCoordinates | GPS-Cruise-Tour-AudioGuideNo-Wifi/scripts/update-coordinates.ts:124-152 | update-coordinates.ts with one entry run twice: the second run writes the first run's text and counts 0 |
| ScriptReruns.RerunUpdatePhotos | scripts/update-photos.mjs:416-425 | update-photos.mjs with one entry run twice: the second run writes the first run's text and counts 0 |
| ScriptReruns.FixEntryRerun | GPS-Cruise-Tour-AudioGuideNo-Wifi-1/scripts/fix-coordinates.py:139-142 | one entry applied to its own output keeps it, and matches again exactly when it matched the first time |
| ScriptReruns.RerunFixCoordinates | GPS-Cruise-Tour-AudioGuideNo-Wifi-1/scripts/fix-coordinates.py:139-148 | fix-coordinates.py with one entry run twice: the same text, and the same count (1 when the pair pattern matches: the anchor, a `lat:` number and a `lng:` number after it; else 0) |
| ScriptReruns.OnceCountsMatch | GPS-Cruise-Tour-AudioGuideNo-Wifi-1/scripts/fix-coordinates.py:139-140 | `count > 0` exactly when the pattern matches somewhere in the text |
| PassesApart.LatChangesAlone | GPS-Cruise-Tour-AudioGuideNo-Wifi/scripts/update-coordinates.ts:136-147 | on the record `id: 'a', lat: 1,` (a `lat:` and no `lng:`), update-coordinates.ts rewrites the latitude alone and counts the entry, while fix-coordinates.py changes nothing and counts nothing |
| PassesApart.PairFindsNothing | GPS-Cruise-Tour-AudioGuideNo-Wifi-1/scripts/fix-coordinates.py:134-143 | on the record `id: 'a', lat: 1,`, which has no `lng:` after its latitude, fix-coordinates.py finds no match |
| RomeReruns.RomePyRerunGrows | scripts/update-rome-data.py:153-163 | update-rome-data.py run twice on a record: the second run adds four characters, so it is not byte-idempotent |
| RomeReruns.RomeMjsRerunGrows | GPS-Cruise-Tour-AudioGuideNo-Wifi/scripts/update-rome-data.mjs:151-160 | update-rome-data.mjs run twice on a record grows the text by the same four spaces |
| Translations.GetTranslatedContent | client/src/lib/translations.ts:3-18 | a truthy translated value of the field is returned; otherwise the landmark's own value, or `''` when that is missing or empty |
| Translations.EmptyOnlyWithoutValues | client/src/lib/translations.ts:11-17 | the result is `''` exactly when neither the translation nor the landmark has a non-empty value |
| Translations.ResultIsAFieldValue | client/src/lib/translations.ts:11-17 | the result is the landmark's own value, the translation's value of that field, or `''` |
| Translations.OnlyRequestedField | client/src/lib/translations.ts:3-18 | landmarks that agree on the requested field give the same text, whatever their other fields |
| StartingPoints.NameIsOwnOrTranslated | client/src/lib/startingPoints.ts:776-781 | a point's name is its own name or one of its translations: the translation for a language with an own entry, the point's own name for every other language (own keys only; see Findings) |
| StartingPoints.NameReadsOneLanguage | client/src/lib/startingPoints.ts:776-781 | only the requested language's translation is read: points with the same own name and the same entry for that language get the same name |
| StartingPoints.AllPointsViaCityRecord | client/src/lib/startingPoints.ts:784-798 | flattening reads the same record `getCityStartingPoints` returns: `[]` where that is `null`, the record's three buckets in order otherwise |
| StartingPoints.GetAllStartingPointsForCity | client/src/lib/startingPoints.ts:789-798 | `[]` for an unknown city; otherwise airports, then cruise terminals, then train stations, with length the sum of the three |
| StartingPoints.FlattenedHasNoHotels | client/src/lib/startingPoints.ts:789-798 | in a well-formed table the flattened list holds no hotel and every airport, terminal and station of the city |
| StartingPoints.RostersWellFormed | client/src/lib/startingPoints.ts:21-773 | in the source table every city record's `cityId` is its key and every point's type is its bucket's kind |
| VoiceSettings.GetVoiceForLanguage | client/src/lib/voiceSettings.ts:61-76 | the listed default for the ten languages, `fable` for any other, and always one of the six voices (own keys only; see Findings) |
| VoiceSettings.DefaultsAreVoices | client/src/lib/voiceSettings.ts:61-72 | every per-language default is a key of `TTS_VOICES` and non-empty |
| VoiceSettings.GetSavedVoice | client/src/lib/voiceSettings.ts:78-84 | the stored string exactly when it is a voice id, `null` otherwise |
| VoiceSettings.SaveVoice | client/src/lib/voiceSettings.ts:86-88 | the key `tts-voice` holds the saved voice afterwards, and every other key is kept |
| VoiceSettings.SaveThenGet | client/src/lib/voiceSettings.ts:78-88 | after saving a voice id, the saved voice reads back as that id |
| VoiceSettings.SaveNonVoiceReadsAbsent | client/src/lib/voiceSettings.ts:78-88 | after saving something that is not a voice id, the saved voice reads as absent |
| VoiceSettings.DisplayTexts | client/src/lib/voiceSettings.ts:90-98 | name and description are the Korean texts for `ko` and the English ones for every other language |
| VoiceSettings.GetVoiceName | client/src/lib/voiceSettings.ts:90-93 | the voice's Korean name for `ko`, its English name otherwise; never empty |
| VoiceSettings.GetVoiceDescription | client/src/lib/voiceSettings.ts:95-98 | the voice's Korean description for `ko`, its English one otherwise; never empty |
| Clova.FilterByLanguageSpec | GPS-Cruise-Tour-AudioGuideNo-Wifi-1/server/lib/clova.ts:71-73 | the filter keeps every voice of the target language and nothing else, in declaration order |
| Clova.VoicesForLanguage | GPS-Cruise-Tour-AudioGuideNo-Wifi-1/server/lib/clova.ts:62-74 | a voice id is offered exactly when some `CLOVA_VOICES` entry with that id has the target language; the offer keeps the declaration order |
| Clova.GetClovaVoicesForLanguage | GPS-Cruise-Tour-AudioGuideNo-Wifi-1/server/lib/clova.ts:62-74 | never more voices than `CLOVA_VOICES` holds |
| Clova.TargetLanguage | GPS-Cruise-Tour-AudioGuideNo-Wifi-1/server/lib/clova.ts:63-70 | ko, en, ja, zh and es map to themselves; every other language falls back to `en` |
| Clova.UnmappedLanguageGetsEnglish | GPS-Cruise-Tour-AudioGuideNo-Wifi-1/server/lib/clova.ts:62-74 | a language outside the five is offered exactly the English voices |
| Clova.SelectedVoice | GPS-Cruise-Tour-AudioGuideNo-Wifi-1/server/lib/clova.ts:136 | the explicit voice if given, else the language's default, else `nara` (own keys only; see Findings) |
| Clova.DefaultsAreClovaVoices | GPS-Cruise-Tour-AudioGuideNo-Wifi-1/server/lib/clova.ts:7-60 | every entry of `DEFAULT_CLOVA_VOICE_BY_LANGUAGE` is a key of `CLOVA_VOICES` |
| Clova.SelectedVoiceIsClovaVoice | GPS-Cruise-Tour-AudioGuideNo-Wifi-1/server/lib/clova.ts:134-136 | with no voice or a valid one, the voice used is a CLOVA voice id |
| Clova.ParseFileNameInverts | GPS-Cruise-Tour-AudioGuideNo-Wifi-1/server/lib/clova.ts:145 | `<landmarkId>_<language>_<voice>.mp3` reads back into its three parts when the id and language have no `_` |
| Clova.FileName | GPS-Cruise-Tour-AudioGuideNo-Wifi-1/server/lib/clova.ts:145 | the file name starts with the landmark id, ends in `.mp3` and is six characters longer than its three parts |
| Clova.AudioUrl | GPS-Cruise-Tour-AudioGuideNo-Wifi-1/server/lib/clova.ts:152 | the URL is thirteen characters (`/audio/clova/`) longer than the file name |
| Clova.FileNamesCollide | GPS-Cruise-Tour-AudioGuideNo-Wifi-1/server/lib/clova.ts:145 | with `_` in a landmark id, two different requests write the same file |
| Clova.AudioUrlShape | GPS-Cruise-Tour-AudioGuideNo-Wifi-1/server/lib/clova.ts:145-152 | the URL is `/audio/clova/` followed by the file name |
| OfflineFraming.Frame | GPS-Cruise-Tour-AudioGuideNo-Wifi-1/client/src/lib/offlineDataEncryption.ts:55-59 | the container holds the salt, then the iv, then the ciphertext, each at its offset |
| OfflineFraming.FrameLength | GPS-Cruise-Tour-AudioGuideNo-Wifi-1/client/src/lib/offlineDataEncryption.ts:39-59 | with a 16-byte salt and a 12-byte iv the container is 28 bytes longer than the ciphertext |
| OfflineFraming.SplitFrame | GPS-Cruise-Tour-AudioGuideNo-Wifi-1/client/src/lib/offlineDataEncryption.ts:82-84 | slicing at 16 and 28 recovers exactly the salt, the iv and the ciphertext |
| OfflineFraming.Split | GPS-Cruise-Tour-AudioGuideNo-Wifi-1/client/src/lib/offlineDataEncryption.ts:82-84 | the three slices laid end to end are the data; salt and iv are at most 16 and 12 bytes, exactly that when the data has 28 bytes or a ciphertext is left |
| OfflineFraming.EncodeContainer | GPS-Cruise-Tour-AudioGuideNo-Wifi-1/client/src/lib/offlineDataEncryption.ts:56-69 | one character per byte of the framed salt, iv and ciphertext |
| OfflineFraming.DecodeContainer | GPS-Cruise-Tour-AudioGuideNo-Wifi-1/client/src/lib/offlineDataEncryption.ts:75-84 | from at least 28 bytes a 16-byte salt and 12-byte iv; the ciphertext is what is left after the first 28 bytes |
| OfflineFraming.FrameSplit | GPS-Cruise-Tour-AudioGuideNo-Wifi-1/client/src/lib/offlineDataEncryption.ts:82-84 | the three slices laid end to end give back the data, however short it is |
| OfflineFraming.ToBinaryString | GPS-Cruise-Tour-AudioGuideNo-Wifi-1/client/src/lib/offlineDataEncryption.ts:62-68 | the chunked loop emits one character per byte, in order, covering all bytes |
| OfflineFraming.FromBinaryString | GPS-Cruise-Tour-AudioGuideNo-Wifi-1/client/src/lib/offlineDataEncryption.ts:75-79 | decoding gives one byte per character, the character's code modulo 256 |
| OfflineFraming.BytesOfCharsOf | GPS-Cruise-Tour-AudioGuideNo-Wifi-1/client/src/lib/offlineDataEncryption.ts:62-79 | decoding the binary string of some bytes gives back those bytes |
| OfflineFraming.CharsOfBytesOf | GPS-Cruise-Tour-AudioGuideNo-Wifi-1/client/src/lib/offlineDataEncryption.ts:75-79 | a string whose codes are all below 256 is the binary string of its decoded bytes |
| OfflineFraming.ContainerRoundTrip | GPS-Cruise-Tour-AudioGuideNo-Wifi-1/client/src/lib/offlineDataEncryption.ts:55-84 | what `encryptData` frames and encodes, `decryptData` decodes and slices into the same salt, iv and ciphertext |
| PrototypeLookup.SavedVoiceAgreesOffPrototype | client/src/lib/voiceSettings.ts:78-84 | away from the names every object inherits, `saved in TTS_VOICES` agrees with the own-key check |
| PrototypeLookup.StartingPointsAgreeOffPrototype | client/src/lib/startingPoints.ts:789-798 | away from the inherited names, the lookup as written agrees with the own-key lookup |
| PrototypeLookup.ClovaVoicesAgreeOffPrototype | GPS-Cruise-Tour-AudioGuideNo-Wifi-1/server/lib/clova.ts:62-74 | away from the inherited names, the lookup as written agrees with the own-key lookup |
| PrototypeLookup.SavedVoiceAsWritten | client/src/lib/voiceSettings.ts:78-84 | `saved && saved in TTS_VOICES` returns only the stored string, and only when it is a voice id or a name every object inherits |
| PrototypeLookup.AllStartingPointsAsWritten | client/src/lib/startingPoints.ts:789-798 | the spread throws exactly for an inherited name the table lacks |
| PrototypeLookup.ClovaVoicesAsWritten | GPS-Cruise-Tour-AudioGuideNo-Wifi-1/server/lib/clova.ts:62-74 | `langMapping[language] \|\| "en"` offers no voice at all for an inherited name, and the own-key list for every other language |
| PrototypeLookup.VoiceForLanguageAsWritten | client/src/lib/voiceSettings.ts:74-76 | `DEFAULT_VOICE_BY_LANGUAGE[language] \|\| 'fable'` is a built-in function exactly for an inherited name the table lacks, and a voice id otherwise |
| PrototypeLookup.VoiceForLanguageAgreesOffPrototype | client/src/lib/voiceSettings.ts:74-76 | away from the inherited names, the lookup as written gives the own-key voice |
| PrototypeLookup.CityStartingPointsAsWritten | client/src/lib/startingPoints.ts:784-786 | `cityStartingPoints[cityId] \|\| null` is the city's record exactly when it is an own key, a built-in exactly for an inherited name, and `null` otherwise |
| PrototypeLookup.CityStartingPointsAgreeOffPrototype | client/src/lib/startingPoints.ts:784-786 | away from the inherited names, the lookup as written is the own-key lookup |
| PrototypeLookup.StartingPointNameAsWritten | client/src/lib/startingPoints.ts:776-781 | a point without translations gets its own name; any other name than its own comes from an own translation or an inherited name; `undefined` only for `__proto__` |
| PrototypeLookup.StartingPointNameAgreesOffPrototype | client/src/lib/startingPoints.ts:776-781 | away from the inherited names, the name as written is the own-key name |
| PrototypeLookup.TranslatedContentAsWritten | client/src/lib/translations.ts:9-17 | for `narration` and `description`, and for a landmark without translations, the lookup as written agrees with the own-key one |
| PrototypeLookup.TranslatedContentAgreesOffPrototype | client/src/lib/translations.ts:9-17 | away from the inherited names, the text as written is the own-key text for every field |
| PrototypeLookup.SelectedVoiceAsWritten | GPS-Cruise-Tour-AudioGuideNo-Wifi-1/server/lib/clova.ts:136 | `voiceId \|\| DEFAULT_CLOVA_VOICE_BY_LANGUAGE[language] \|\| "nara"` is a built-in function exactly when no voice is given and the language is an inherited name the table lacks; otherwise it is the own-key choice |
| PrototypeLookup.ClovaSelectedVoiceAgreesOffPrototype | GPS-Cruise-Tour-AudioGuideNo-Wifi-1/server/lib/clova.ts:136 | away from the inherited names, the voice as written is the own-key voice |

## Left out

- File reads and writes, and the console messages: the file contents are a parameter and the written text is the result.
- The contents of the `CORRECT_COORDINATES`, `CORRECT_PHOTOS`, `updates` and `photoUpdates` tables: they are caller input. So are the blocks' literal text and the landmark data in `server/storage.ts`.
- Float rendering of coordinates (`${coords.lat}` and Python's `str`): new values are already-rendered strings.
- Python's `\d` also matches non-ASCII Unicode digits: the model reads `\d` as ASCII digits in both dialects.
- update-coordinates.ts (lines 131-132), fix-coordinates.py (line 134) and update-rome-data.py (line 157) put the id into the pattern unescaped. The model reads the id literally, which is what it means for the ids in their tables (lower-case letters, `-` and `_`, none of them special in a pattern).
- update-rome-data.mjs puts id characters other than `-` and `_` into the pattern unescaped. The model reads them literally, which is what they mean for the script's ids (lower-case letters, `-`, `_`).
- EntryReruns.PatchCoordinatesIdempotent: needs the id to have no `:` and both values to be number runs, as `CoordinateReruns.CoordinatePassIdempotent` does for one pass. With a `:` in the id a second anchor could start inside a key; a value with other characters would not be read back as one run.
- PhotoReruns.PhotoListPassIdempotent: stated for one entry. For a table, a later entry can rewrite a record an earlier one patched (duplicate anchors, an id that is a prefix of another in a shared record), so a re-run of a whole table is stated only under `SettledTableRerun`'s hypothesis.
- PairReruns.PairRerun: needs the id to have no `:` and both values to be number runs. With a `:` in the id, a second anchor could start inside the first match.
- ScriptReruns.RerunUpdateCoordinates, ScriptReruns.RerunUpdatePhotos, ScriptReruns.RerunFixCoordinates: stated for a one-entry table. In a longer table a later entry can rewrite a record an earlier one patched (see the line on `PhotoReruns.PhotoListPassIdempotent`), so for a table the count of 0 is stated under the hypothesis of `ScriptReruns.SettledTableRerun`: every entry leaves the text as it is.
- PassesApart.LatChangesAlone, PassesApart.PairFindsNothing: shown on one record (`id: 'a', lat: 1,`), not on every text without `lng:`.
- RomeReruns.RomePyRerunGrows, RomeReruns.RomeMjsRerunGrows: shown on one small record (`id: 'a',photos: [],`), not on every text.
- Key derivation (PBKDF2), AES-GCM, random salt and iv, `btoa`/`atob` and JSON: foreign primitives. The salt, iv and ciphertext are parameters; only the framing and the binary-string step are modelled.
- `generateClovaTTS` and the network, file and checksum parts of `generateAndSaveClovaTTS`: foreign calls. Only the voice choice, file name and URL are modelled.
- `VOICE_PRESETS`: data that no modelled function reads.
- Coordinates and translations in the starting-point table beyond each point's id and type: data only.
- `downloadEncryptedData` and `readEncryptedFile`: browser I/O.
- VoiceSettings.GetVoiceForLanguage, StartingPoints.GetStartingPointName, StartingPoints.GetCityStartingPoints, Translations.GetTranslatedContent, Clova.SelectedVoice, VoiceSettings.GetSavedVoice, StartingPoints.GetAllStartingPointsForCity, Clova.TargetLanguage, Clova.VoicesForLanguage, Clova.UnmappedLanguageGetsEnglish: read the helpers' objects by own key only, which is what they are evidently meant to do. For a name inherited from `Object.prototype` the code as written does otherwise: it gives a built-in, accepts the name with `in`, throws on the spread, or offers no voice. That behaviour is in the `PrototypeLookup` members and the Findings rows, not in these contracts.

## Findings

| source | as written | input that shows it | evidently intended | confidence | as-written member | corrected member |
|---|---|---|---|---|---|---|
| client/src/lib/voiceSettings.ts:80 | `saved in TTS_VOICES` also accepts names inherited from `Object.prototype` | storage `tts-voice` = `toString` returns `"toString"` as a voice id | only the six own keys are voice ids | high (not executed) | PrototypeLookup.SavedVoiceAcceptsToString | VoiceSettings.GetSavedVoice |
| client/src/lib/startingPoints.ts:790-797 | `cityStartingPoints[cityId]` is truthy for an inherited name, so the spread of `cityData.airports` throws | city id `constructor` | `[]` for every unknown city | high (not executed) | PrototypeLookup.StartingPointsThrowOnConstructor | StartingPoints.GetAllStartingPointsForCity |
| GPS-Cruise-Tour-AudioGuideNo-Wifi-1/server/lib/clova.ts:70 | `langMapping[language] \|\| "en"` keeps an inherited function for an inherited name, and no voice's language equals it | language `constructor` gives `[]` | an unmapped language gets the English voices | high (not executed) | PrototypeLookup.ClovaVoicesEmptyForConstructor | Clova.UnmappedLanguageGetsEnglish |
| client/src/lib/voiceSettings.ts:75 | `DEFAULT_VOICE_BY_LANGUAGE[language] \|\| 'fable'` returns the inherited `Object` function for an inherited name | language `constructor` gives a function, not a voice id | `fable` for every language without a default | high (not executed) | PrototypeLookup.VoiceForConstructorIsAFunction | VoiceSettings.GetVoiceForLanguage |
| client/src/lib/startingPoints.ts:785 | `cityStartingPoints[cityId] \|\| null` returns the inherited function for an inherited name | city id `constructor` gives the `Object` function, not `null` | `null` for every city not in the table | high (not executed) | PrototypeLookup.CityConstructorIsNotNull | StartingPoints.GetCityStartingPoints |
| client/src/lib/startingPoints.ts:777-778 | `point.translations[language]` is truthy for an inherited name, and its `name` is the built-in's name | a point with translations, language `constructor`, is named `Object` | the point's own name when it has no translation for the language | high (not executed) | PrototypeLookup.StartingPointNamedObject | StartingPoints.NameIsOwnOrTranslated |
| client/src/lib/translations.ts:10-12 | `landmark.translations[language]` is truthy for an inherited name, and its `name` is truthy | a landmark with translations, language `constructor`, field `name`, gives `Object` | the landmark's own name | high (not executed) | PrototypeLookup.TranslatedNameIsObject | Translations.GetTranslatedContent |
| GPS-Cruise-Tour-AudioGuideNo-Wifi-1/server/lib/clova.ts:136 | `DEFAULT_CLOVA_VOICE_BY_LANGUAGE[language] \|\| "nara"` keeps the inherited function for an inherited name; its text becomes the speaker and part of the file name | no voice and language `constructor` | `nara` | high (not executed) | PrototypeLookup.ClovaVoiceForConstructorIsAFunction | Clova.SelectedVoice |
