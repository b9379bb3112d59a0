# Woloapp-AI localization pipeline and event matrix, in Dafny

Woloapp-AI is the AI service behind a volunteering app. Its core expands
content records into every supported locale, and this project models that
core together with the recommender's event matrix.

A client posts a JSON object with a `language` selector and some text fields.
The service writes one variant of each field per locale, for example
`descriptionPL`, `descriptionEN`, `descriptionUA` and `descriptionRU`. The
variant for the source locale is a verbatim copy, and the others come from
a translation model. The service then deletes the source field and the
selector. A `KeyError` or `ValueError` turns the whole answer into a
one-key `{'error': ...}` record.

The project models:

- **Locale tables** (`locales.dfy`). The main table `PL/EN/UA/RU` with its
  model codes, the `ENG` variant of the stand-alone event service, and the
  legacy `pl/eng` table. The legacy table uses `_`-separated keys and has no
  empty-text shortcut.
- **The field and array expanders** (`expansion.dfy`, `translation_util.dfy`).
  The mutating loops of `TranslationTool.translate_field` and
  `translate_array` are methods on a `JsonDict` object. They are proved
  against specification functions that mirror each loop step. Those steps
  include live reads of the dictionary being written. The lemmas say what
  the loops compute: the key sets, each variant's value, the untouched keys,
  and which exception is raised first.
- **The handlers** (`translation_handler.dfy`, `report_handler.dfy`,
  `event_handler.dfy`). They cover `process_field_translation`,
  `process_array_translation`, `language_delete` and `add_info_about_ai`. They
  also cover the report handler and the app's event-creation handler.
  - Each handler works on a copy (`dict(json_data)`).
  - `Json.Caught` maps a failure to the error record.
- **The four routes** (`routes.dfy`). These are `/event-create`,
  `/report/translate`, `/organisation/translate` and `/faq/translate`, each as
  a composition of handler steps. The lemmas cover:
  - what happens when a step runs on the error record of an earlier step;
  - the responses the unit tests expect. The test requests are in
    `unit_requests.dfy`.
- **The stand-alone services**. `event_creation_app.dfy` models the `ENG`
  locales, keeps `imageUrl` and adds `alt`. `legacy_translations.dfy` models
  `translate_json` of the first service: nested key × locale loops, no empty
  shortcut, and deletions only at the end.
- **The event matrix** (`recommendation.dfy`, `recommendation_data.dfy`).
  - `prepare_matrix` gives 21 columns: 6 categories, 7 districts and
    8 organisations, all distinct.
  - `insert_events` builds each row in an array, setting bits in place, and
    appends the rows to a `DataFrame` object.
  - The fixed user and upcoming events insert cleanly.

The external capabilities are parameters: the translation pipeline or MBart
model (`Translator`) and the image captioner (`Captioner`). Each answers with
a text, raises `ValueError`, or raises something no handler catches (`Crash`).

## Model

| member | source | states |
|---|---|---|
| Json.FromReply | app/handlers/ai_utils/translation_util.py:35-38 | A model reply is either a text, or the `ValueError` it raises, or an uncaught exception. |
| Json.Caught | app/handlers/translation_handler.py:42-45 | A `KeyError` for `k` becomes exactly `{'error': 'Missing key: ' + repr(k)}` and a `ValueError` becomes `{'error': 'Invalid JSON data: ...'}`. The error record has the single key `error`. Only other exceptions escape. |
| Json.CatchFailure | app/handlers/translation_handler.py:42-45 | The except clauses return a fresh dict holding exactly the error record of the raised exception. |
| Json.MissingKeyMessagePlain | app/handlers/translation_handler.py:42-43 | For a key with no quote, backslash or control character the message is `Missing key: 'k'`. |
| Json.MissingLanguageMessage | tests/unit_tests.py:47-48 | A missing selector gives `Missing key: 'language'`. |
| Quoting.QuoteFor | app/handlers/translation_handler.py:42-43 | `repr` quotes with `"` exactly when the text holds `'` and no `"`, and with `'` otherwise. |
| Quoting.EscapedChar | app/handlers/translation_handler.py:42-43 | A character is written as itself exactly when it is neither the quote, nor a backslash, nor a control character. An escape is at most four characters. |
| Quoting.EscapedCons | app/handlers/translation_handler.py:42-43 | A text is escaped character by character, in order. |
| Quoting.HexRoundTrip | app/handlers/translation_handler.py:42-43 | A `\xHH` digit reads back as its value. |
| Quoting.UnescapeChar | app/handlers/translation_handler.py:42-43 | Every escaped character reads back as itself, whatever follows. |
| Quoting.EscapedRoundTrip | app/handlers/translation_handler.py:42-43 | Reading an escaped text back gives the text: the escaping loses nothing. |
| Quoting.ReprRoundTrip | app/handlers/translation_handler.py:42-43 | `repr(k)` opens and closes with the chosen quote, and what lies between reads back as `k`. |
| Quoting.EscapedPlain | app/handlers/translation_handler.py:42-43 | A text of plain characters is written unchanged. |
| Quoting.ReprPlain | app/handlers/translation_handler.py:42-43 | A plain key is written between single quotes as it is. |
| Quoting.ReprApostrophe | app/handlers/translation_handler.py:42-43 | A key holding `'` and no `"` is written between double quotes, unescaped. |
| Json.MissingKeyMessageStartsWith | tests/unit_tests.py:47-48 | Every `KeyError` message starts with `Missing key`. |
| Locales.MainTableWellFormed | app/handlers/ai_utils/translation_util.py:14-15 | The four locales are distinct and each has a model code. No variant key can collide with `language` or with the field. |
| Locales.MainTableFourLocales | app/handlers/ai_utils/translation_util.py:14-15 | The locale list is exactly `PL, EN, UA, RU` in this order. Keys are glued without a separator, and every code belongs to a locale. |
| Locales.EngTableWellFormed | event_creation_app.py:22-23 | The `PL, ENG, UA, RU` table is well formed. |
| Locales.LegacyTableWellFormed | translations_app.py:19-23 | The `pl, eng` table is well formed. |
| Locales.VariantKeysApart | app/handlers/ai_utils/translation_util.py:29 | A variant key `f+L` is neither `f` nor `language`. |
| Expansion.FourVariantKeys | app/handlers/ai_utils/translation_util.py:28-29 | In a four-locale table the variants of `f` are exactly `fPL`, `fEN`, `fUA` and `fRU`. |
| Expansion.FieldRunSources | app/handlers/ai_utils/translation_util.py:28-40 | The loop never changes `language` or `f`, so every locale step reads the request's own values. |
| Expansion.FieldRunIsWriteRun | app/handlers/ai_utils/translation_util.py:28-40 | The live-reading loop equals writing each locale's precomputed value in turn. |
| Expansion.FieldKeysDistinct | app/handlers/ai_utils/translation_util.py:29 | The per-locale keys are pairwise distinct, none is `f` or `language`, and together they form the variant set. |
| Expansion.ExpandFieldOk | app/handlers/ai_utils/translation_util.py:28-45 | `translate_field` succeeds if and only if every locale's value can be computed. |
| Expansion.ExpandFieldKeys | app/handlers/ai_utils/translation_util.py:28-45 | After success the keys are the old keys minus `f`, plus the variants of `f`, and `f` is gone. |
| Expansion.ExpandFieldVariants | app/handlers/ai_utils/translation_util.py:28-40 | Each variant `f+L` holds locale `L`'s value computed from the request. |
| Expansion.ExpandFieldOthers | app/handlers/ai_utils/translation_util.py:28-45 | Every key other than `f` and its variants is unchanged. |
| Expansion.ExpandFieldContents | app/handlers/ai_utils/translation_util.py:28-45 | Key set, variant values and untouched keys, stated together. |
| Expansion.ExpandFieldFailure | app/handlers/ai_utils/translation_util.py:28-40 | A failing call raises the failure of the first locale that fails; every earlier locale succeeded. |
| Expansion.ExpandFieldSpec | app/handlers/ai_utils/translation_util.py:17-45 | The complete contract: success if and only if every locale succeeds, then the contents, otherwise the first locale failure. |
| Expansion.ExpandFieldVerbatim | app/handlers/ai_utils/translation_util.py:30-31 | The source locale's variant is the source text, with no model call. |
| Expansion.ExpandFieldTranslated | app/handlers/ai_utils/translation_util.py:32-38 | Another locale's variant is the model's translation from the source code to that locale's code. |
| Expansion.ExpandFieldEmpty | app/handlers/ai_utils/translation_util.py:39-40 | An empty text gives `""` in every variant without calling the model, even when the selector has no code. The result does not depend on the model. |
| Expansion.ExpandFieldUniformFailure | app/handlers/ai_utils/translation_util.py:28-40 | When every locale fails the same way, that failure is raised. |
| Expansion.ExpandFieldModelFails | app/handlers/ai_utils/translation_util.py:33-38 | A model that raises `ValueError` on a non-empty text makes the call raise that `ValueError`. |
| Expansion.ExpandFieldErrors | app/handlers/ai_utils/translation_util.py:30-37 | Three `KeyError` cases: no `language`, then a missing `f`, then a selector without a code when the text is non-empty. |
| Expansion.ItemRunOk | app/handlers/ai_utils/translation_util.py:64-76 | One direction's record is built if and only if each locale's value can be; otherwise some locale's failure is raised. |
| Expansion.ItemRunKeys | app/handlers/ai_utils/translation_util.py:64-76 | The record's keys are `addressDescription+L` for the locales processed. |
| Expansion.ItemRunValues | app/handlers/ai_utils/translation_util.py:64-76 | Each `addressDescription+L` holds that locale's value. |
| Expansion.ItemRunSpec | app/handlers/ai_utils/translation_util.py:64-76 | The success condition, keys, values and failure of one direction's record, together. |
| Expansion.ItemRunFull | app/handlers/ai_utils/translation_util.py:63-78 | A full record has exactly the four `addressDescription+L` keys, each holding its locale's value. |
| Expansion.ItemsRunSpec | app/handlers/ai_utils/translation_util.py:61-78 | The list has one record per direction, in input order, when every direction's record can be built. |
| Expansion.ExpandArrayOk | app/handlers/ai_utils/translation_util.py:58-83 | `translate_array` succeeds if and only if the array is present, is a list of strings, a string (iterated by its characters) or an empty list, and every item's every locale succeeds. |
| Expansion.ItemsRunRecords | app/handlers/ai_utils/translation_util.py:61-78 | Each collected record has exactly the item keys and the item's per-locale values. |
| Expansion.ExpandArraySpec | app/handlers/ai_utils/translation_util.py:58-83 | `shiftTranslations` is written whatever the name is, and then the array key is deleted. The list keeps length and order, and the other keys are unchanged. |
| Expansion.ExpandArrayRecords | app/handlers/ai_utils/translation_util.py:61-73 | A list of records raises a caught `KeyError`: for `language` without a selector, for the selector when it has no model code. Any other selector escapes. |
| Expansion.ExpandArrayEmpty | app/handlers/ai_utils/translation_util.py:58-83 | An empty array gives `shiftTranslations == []` without reading `language`. |
| TranslationUtil.TranslationTool.constructor | app/handlers/ai_utils/translation_util.py:12-15 | The tool holds the main locale table and the translation model. The notes are a parameter standing for the missing `ai_generated_text` attribute. |
| TranslationUtil.TranslationTool.WithTable | event_creation_app.py:18-23 | The same tool over another well-formed table with the empty shortcut. |
| TranslationUtil.TranslationTool.LocaleValue | app/handlers/ai_utils/translation_util.py:30-40 | The loop body for one locale computes exactly that locale's specified value. |
| TranslationUtil.TranslationTool.TranslateField | app/handlers/ai_utils/translation_util.py:17-45 | The in-place loop leaves the dict equal to the expansion on success. On failure it reports the expansion's failure and leaves the dict as written so far. |
| TranslationUtil.TranslationTool.ItemLocaleValue | app/handlers/ai_utils/translation_util.py:64-76 | The inner-loop body for one direction and one locale computes the specified value. |
| TranslationUtil.TranslationTool.TranslateArray | app/handlers/ai_utils/translation_util.py:47-85 | The nested loops leave the dict equal to the array expansion on success. On failure the dict is unchanged. |
| TranslationHandlers.WithoutLanguage | app/handlers/translation_handler.py:81-84 | Removes `language` when present and keeps every other key with its value. |
| TranslationHandlers.WithNote | app/handlers/translation_handler.py:101 | `+= " " + note`: a string gets the note appended after a space. A list grows by one item per character of `" " + note`. |
| TranslationHandlers.WithNoteList | app/handlers/translation_handler.py:101 | A list of strings keeps its items in order, then gets `" "` and one item per character of the note, in order. |
| TranslationHandlers.ExpandFieldsKeeps | app/handlers/translation_handler.py:37-40 | The fold over the field list keeps every key that is neither a listed field nor one of their variants. |
| TranslationHandlers.ExpandFieldsPresent | app/handlers/translation_handler.py:37-40 | Every key that is not a listed field survives the fold. |
| TranslationHandlers.ExpandFieldsAbsent | app/handlers/translation_handler.py:37-40 | The fold adds no key other than variants. |
| TranslationHandlers.ExpandFieldsKeys | app/handlers/translation_handler.py:37-40 | Each field's variants are present after the fold, and each field is gone unless a later field re-creates it. |
| TranslationHandlers.ExpandFieldsNoLanguage | app/handlers/translation_handler.py:37-43 | Without `language` the fold raises `KeyError('language')`. |
| TranslationHandlers.AddNoteOk | app/handlers/translation_handler.py:97-104 | `add_info_about_ai` succeeds if and only if every locale's step succeeds. Otherwise the first failing step's exception is raised. |
| TranslationHandlers.AddNoteContents | app/handlers/translation_handler.py:98-102 | On success each non-source variant gets its locale's note appended. The source variant and all other keys are unchanged, and the key set is the same. |
| TranslationHandlers.AddNoteSpec | app/handlers/translation_handler.py:97-104 | The success condition, contents and failure, stated together. |
| TranslationHandlers.AddNoteNoLanguage | app/handlers/translation_handler.py:100 | A record without `language`, such as an error record, raises `KeyError('language')`. |
| TranslationHandlers.AddNoteWithoutNotes | app/handlers/translation_handler.py:101 | As written, without the notes attribute, the first non-source locale raises an uncaught `AttributeError`. |
| TranslationHandlers.WithoutLanguageIdempotent | app/handlers/translation_handler.py:81-84 | Deleting the selector twice is the same as deleting it once. |
| TranslationHandlers.ExpandFieldAllText | app/handlers/ai_utils/translation_util.py:28-45 | With a coded selector, a string field and a model that always answers, every variant is written as a string. |
| TranslationHandlers.ExpandFieldsAllText | app/handlers/translation_handler.py:37-40 | With the same conditions for each field of a list, the fold succeeds and keeps the selector. Each field's variants are strings. |
| TranslationHandlers.AddNoteAllText | app/handlers/translation_handler.py:98-102 | With string variants and a note for every locale, the step succeeds and keeps the key set. |
| TranslationHandlers.TranslationHandler.constructor | app/handlers/translation_handler.py:17-21 | The handler stores the field list, the optional array list and a tool over the main table. |
| TranslationHandlers.TranslationHandler.ProcessFieldTranslation | app/handlers/translation_handler.py:23-45 | Folds `translate_field` over the fields on a fresh copy, catching `KeyError`/`ValueError`. The caller's dict is not modified. |
| TranslationHandlers.TranslationHandler.ProcessArrayTranslation | app/handlers/translation_handler.py:47-69 | Folds `translate_array` on a fresh copy with the same error mapping. Iterating a missing (`None`) array list raises. |
| TranslationHandlers.TranslationHandler.LanguageDelete | app/handlers/translation_handler.py:71-84 | Deletes `language` in place and returns the same object. |
| TranslationHandlers.TranslationHandler.NoteStep | app/handlers/translation_handler.py:99-101 | The loop body for one locale computes that locale's note step. |
| TranslationHandlers.TranslationHandler.NoteLoop | app/handlers/translation_handler.py:98-102 | The locale loop leaves the dict as the note steps specify and reports the first failing step. |
| TranslationHandlers.TranslationHandler.AddInfoAboutAi | app/handlers/translation_handler.py:86-106 | With the notes supplied: patches the argument in place. It returns the argument on success and a fresh error record otherwise. The dict holds the writes made before the failure. |
| ReportHandler.FieldsTranslation | app/handlers/report_translation_handler.py:29-45 | A successful report answer has no `language`. |
| ReportHandler.ReportTranslation | app/handlers/report_translation_handler.py:15-45 | The same over the main table with the field list `['report']`. |
| ReportHandler.ReportTranslationHandler.constructor | app/handlers/report_translation_handler.py:15-18 | Only `report` is translated, over the main table. |
| ReportHandler.ReportTranslationHandler.ProcessReportTranslation | app/handlers/report_translation_handler.py:20-45 | Works on a fresh copy: expands, deletes `language` and maps the exceptions. The request is not modified. |
| ReportHandler.ReportFieldsIsField | app/handlers/report_translation_handler.py:17 | The field loop is one `translate_field('report')`. |
| ReportHandler.ExpandFieldAllTextContents | app/handlers/ai_utils/translation_util.py:28-45 | With a known selector and an answering model: the key set after expansion, the verbatim source variant, and the untouched keys. |
| ReportHandler.ReportFieldsAllText | app/handlers/report_translation_handler.py:26-40 | For any well-formed table: the answer has the report variants and neither `report` nor `language`. The source variant is verbatim and other keys are unchanged. |
| ReportHandler.ReportTranslationAllText | app/handlers/report_translation_handler.py:26-40 | The same for the main table: `reportPL/EN/UA/RU` are present and `report` and `language` are gone. |
| ReportHandler.ReportTranslationKeyErrors | app/handlers/report_translation_handler.py:42-43 | A missing `language`, a missing `report`, or an unknown selector with a non-empty report each give exactly the `Missing key` record. |
| ReportHandler.ReportTranslationModelFails | app/handlers/report_translation_handler.py:44-45 | A `ValueError` from the model gives exactly the `Invalid JSON data` record. |
| EventHandler.WithAlt | app/handlers/event_creation_handler.py:75-76 | `alt` is added exactly when `imageUrl` is non-empty. A missing `imageUrl` fails. |
| EventHandler.WithAltSpec | app/handlers/event_creation_handler.py:75-76 | Succeeds if and only if `imageUrl` is present and, when non-empty, captioned. Then `alt` is the caption and the other keys are kept. The errors are `KeyError('imageUrl')` or the captioner's. |
| EventHandler.EventCreationOf | app/handlers/event_creation_handler.py:43-86 | A successful answer has neither `language` nor `imageUrl`, for any field list. |
| EventHandler.Finish | app/handlers/event_creation_handler.py:70-81 | The steps after the field loop: drop `language`, add `alt`, drop `imageUrl`. |
| EventHandler.EventCreation | app/handlers/event_creation_handler.py:43-86 | Over the main table and the handler's field list, a successful answer also has none of `name`, `description` and `shiftDirections`. |
| EventHandler.EventCreationHandler.constructor | app/handlers/event_creation_handler.py:34-39 | The handler uses the main locale table and the field list `name`, `description`, `shiftDirections`. |
| EventHandler.EventCreationHandler.ProcessEventCreation | app/handlers/event_creation_handler.py:43-86 | Works on a fresh copy and equals the specification. The request is not modified. |
| EventHandler.EventCreationHandler.TranslateKeys | app/handlers/event_creation_handler.py:64-68 | The field loop: arrays go through `translate_array` and the rest through `translate_field`, in list order. |
| EventHandler.EventCreationHandler.TranslateKey | app/handlers/event_creation_handler.py:65-68 | The loop body's dispatch on `shiftDirections`. |
| EventHandler.EventCreationHandler.FinishEvent | app/handlers/event_creation_handler.py:70-86 | The deletions and the alt step in place, with the exceptions mapped. |
| EventHandler.EventStepKeeps | app/handlers/event_creation_handler.py:64-68 | One step leaves unrelated keys as they were. |
| EventHandler.EventFoldKeeps | app/handlers/event_creation_handler.py:64-68 | The whole loop leaves unrelated keys (`imageUrl`, `alt`, ...) as they were. |
| EventHandler.EventFoldIsRouteSteps | app/handlers/event_creation_handler.py:64-68 | The loop is the field expansion of `name` and `description` followed by the `shiftDirections` expansion. |
| EventHandler.EventFoldDropsFields | app/handlers/event_creation_handler.py:64-68 | A successful loop leaves none of `name`, `description` and `shiftDirections`. |
| EventHandler.EventCreationDropsFields | app/handlers/event_creation_handler.py:43-86 | For every request, a successful answer has none of the translated fields. |
| EventHandler.FinishDrops | app/handlers/event_creation_handler.py:70-81 | The steps after the loop add no key but `alt`. |
| EventHandler.FinishKeeps | app/handlers/event_creation_handler.py:70-81 | The steps after the loop keep every key except `language`, `alt` and `imageUrl` with its value. |
| EventHandler.EventFieldsContents | app/handlers/event_creation_handler.py:64-68 | With a coded selector and a model that answers, the `name` and `description` steps write every variant and keep `shiftDirections`. |
| EventHandler.EventFoldContents | app/handlers/event_creation_handler.py:64-68 | The loop then writes every variant and one item-keyed record per direction. |
| EventHandler.EventCreationContents | app/handlers/event_creation_handler.py:43-86 | A well-formed request succeeds with every `name` and `description` variant, one record per direction with the four item keys, and none of the sent fields. |
| EventHandler.EventCreationNoSelector | app/handlers/event_creation_handler.py:83-84 | Without `language` the answer is exactly the `Missing key` record for `language`. |
| EventHandler.EventCreationNoImage | app/handlers/event_creation_handler.py:75 | After successful translations a missing `imageUrl` discards them and answers only `Missing key` for `imageUrl`. |
| EventHandler.FinishSpec | app/handlers/event_creation_handler.py:70-86 | `alt` is present if and only if it was already present or `imageUrl` is non-empty, and then it equals the caption. A captioner `ValueError` gives `Invalid JSON data`. |
| EventHandler.EventCreationAlt | app/handlers/event_creation_handler.py:75-79 | The same, stated for the whole handler. |
| EventCreationApp.AppFinish | event_creation_app.py:34-38 | Drops `language` and keeps `imageUrl`. |
| EventCreationApp.AppTranslation | event_creation_app.py:25-45 | A successful answer has no `language`. |
| EventCreationApp.EventCreationHandler.constructor | event_creation_app.py:18-23 | The handler uses the `PL, ENG, UA, RU` table. |
| EventCreationApp.EventCreationHandler.TranslateJson | event_creation_app.py:25-45 | Works on a fresh copy and equals the specification. |
| EventCreationApp.EventCreationHandler.TranslateKeys | event_creation_app.py:31-32 | Runs `translate_field` over `name`, `description`, `addressDescription` in order. |
| EventCreationApp.EventCreationHandler.FinishJson | event_creation_app.py:34-45 | Deletes `language` and adds `alt` in place, with the exceptions mapped. |
| EventCreationApp.AppFoldAllText | event_creation_app.py:31-32 | All variants of the three fields are written and the three fields are gone. `imageUrl` and `alt` pass through. |
| EventCreationApp.AppFinishSpec | event_creation_app.py:34-45 | `imageUrl` is kept. `alt` is present if and only if it already was or `imageUrl` is non-empty, and then it equals the caption. A captioner `ValueError` gives `Invalid JSON data`. |
| EventCreationApp.AppTranslationAllText | event_creation_app.py:25-40 | The whole answer: every variant, no source fields, `imageUrl` kept and `alt` as above. |
| EventCreationApp.AppNoSelector | event_creation_app.py:42-43 | Without `language` the answer is the `Missing key` record. |
| EventCreationApp.AppNoImage | event_creation_app.py:37 | A missing `imageUrl` gives the `Missing key` record after the translations. |
| EventCreationApp.AppModelFails | event_creation_app.py:44-45 | A model `ValueError` gives the `Invalid JSON data` record. |
| EventCreationApp.EngVariantKeys | event_creation_app.py:22 | The variants are `fPL`, `fENG`, `fUA` and `fRU`. |
| LegacyTranslations.LegacyTranslation | translations_app.py:9-54 | A successful answer has none of `language`, `title`, `description`, `address_description`. |
| LegacyTranslations.LocaleValue | translations_app.py:28-38 | The loop body: the selector is compared first. Outside the source locale, the source code is looked up before the text is read, and an empty text is translated too. |
| LegacyTranslations.WriteKeyVariants | translations_app.py:26-38 | The inner loop writes each locale's variant of one key in place. |
| LegacyTranslations.WriteAllVariants | translations_app.py:25-38 | The outer loop over the three keys. |
| LegacyTranslations.DropSourceKeys | translations_app.py:40-47 | The four conditional deletions remove exactly the four keys. |
| LegacyTranslations.TranslateJson | translations_app.py:9-54 | Works on a fresh copy: loops, deletions and exception mapping. |
| LegacyTranslations.WriteVariantsOk | translations_app.py:26-38 | One key's loop succeeds if and only if every locale's value can be computed. |
| LegacyTranslations.WriteVariantsContents | translations_app.py:26-38 | It adds exactly that key's variants, holding the computed values, and keeps everything else, the key included. |
| LegacyTranslations.WriteVariantsFailure | translations_app.py:26-38 | A failure is some locale's failure. |
| LegacyTranslations.WriteVariantsFirstFails | translations_app.py:26-38 | When the first locale fails, its failure is raised. |
| LegacyTranslations.VariantsFoldOk | translations_app.py:25-38 | The nested loops succeed if and only if every key's every locale can be computed from the request. Earlier keys' writes never change what later keys read. |
| LegacyTranslations.VariantsFoldContents | translations_app.py:25-38 | Every variant holds the value computed from the request, and every non-variant key keeps its presence and value. |
| LegacyTranslations.LegacyContents | translations_app.py:25-49 | A successful answer: all six variants hold their values, and the four keys are gone. Every other key of the request is unchanged. |
| LegacyTranslations.LegacyAllText | translations_app.py:25-49 | With a coded selector, the three keys as strings and an answering model, the run succeeds. |
| LegacyTranslations.LegacyVariantValue | translations_app.py:28-38 | The source locale gets the text verbatim. The other locale gets the model's translation, even of `""`. |
| LegacyTranslations.LegacyKeyErrors | translations_app.py:28-32 | `Missing key` records: for `language` when it is absent; for the selector when it has no code (even without `title`); for `title` when it is absent. |
| LegacyTranslations.LegacyModelFails | translations_app.py:53-54 | A model `ValueError` gives `Invalid JSON data`, even for an empty title. |
| LegacyTranslations.LegacyVariantKeys | translations_app.py:27 | The variants of `key` are `key_pl` and `key_eng`. |
| Routes.EventRoute | app/__init__.py:36-46 | The `/event-create` answer never has `language`. |
| Routes.EventArrayStep | app/__init__.py:42-43 | The array step and the selector deletion leave no `language`. |
| Routes.TextRoute | app/__init__.py:58-66 | The report, organisation and FAQ answers never have `language`. |
| Routes.EventCreationReceiver | app/__init__.py:20-46 | With the notes supplied, the route body equals the composition: fields, note on `description`, `shiftDirections`, selector deletion. |
| Routes.TextReceiver | app/__init__.py:58-64 | Fields, note on the given field, selector deletion. |
| Routes.ReportReceiver | app/__init__.py:48-66 | `['report']` with the note on `report`. |
| Routes.OrganisationReceiver | app/__init__.py:68-86 | `['description']` with the note on `description`. |
| Routes.FaqReceiver | app/__init__.py:88-108 | `['question', 'answer']` with the note on `answer` only. |
| Routes.NoteOnErrorRecord | app/handlers/translation_handler.py:100-104 | The note step on an error record answers `Missing key` for `language`. |
| Routes.ArrayOnErrorRecord | app/handlers/ai_utils/translation_util.py:58 | The array step on an error record answers `Missing key` for `shiftDirections`. |
| Routes.EventRouteFieldError | app/__init__.py:40-43 | A caught error in the field step ends the event route as the single `Missing key` record for `shiftDirections`. |
| Routes.EventRouteNoteError | app/__init__.py:41-43 | The same for a caught error in the note step. |
| Routes.TextRouteFieldError | app/__init__.py:61-63 | A caught error in the field step ends the text routes as `Missing key` for `language`. |
| Routes.NoSelectorResponses | app/__init__.py:36-105 | A request without `language` gets a `Missing key` record from every route. |
| Routes.InvalidRequestResponses | tests/unit_tests.py:39-48 | The invalid request of the unit tests gets a record whose error starts with `Missing key`, from all four routes. |
| Routes.TextRouteAllText | app/__init__.py:60-63 | With notes for every locale, a text route succeeds and has every variant of every field. |
| Routes.TextRouteAllTextAsWritten | app/handlers/translation_handler.py:101 | As written, the same request crashes every text route. |
| Routes.SingleFieldResponse | app/__init__.py:80-83 | A one-field route gives `fPL`, `fEN`, `fUA` and `fRU`. |
| Routes.ReportRequestResponse | tests/unit_tests.py:51-63 | The report test request gets `reportPL/EN/RU/UA`. |
| Routes.OrganisationRequestResponse | tests/unit_tests.py:77-89 | The organisation test request gets `descriptionPL/EN/RU/UA`. |
| Routes.TwoFieldResponse | app/__init__.py:102-105 | A two-field route gives all eight variants. |
| Routes.FaqRequestResponse | tests/unit_tests.py:103-120 | The FAQ test request gets the eight `question`/`answer` variants. |
| Routes.NoteStepKeeps | app/handlers/translation_handler.py:98-102 | The note step keeps the key set and every key outside the noted variants. |
| Routes.EventNoteStep | app/__init__.py:40-41 | After fields and note, the selector and `shiftDirections` are intact and the name and description variants are present. |
| Expandable.ArrayExpandedAllText | app/handlers/ai_utils/translation_util.py:58-83 | A list of strings gives one record per item, each with exactly the table's item keys. |
| Routes.ExpandArraysSingle | app/handlers/translation_handler.py:61-62 | The array fold over one name is one `translate_array`. |
| Routes.EventArrayStepAllText | app/__init__.py:42-43 | `shiftDirections` is replaced by one record per direction, and the other keys remain. |
| Routes.EventRouteAllText | app/__init__.py:38-44 | A successful event answer has the name and description variants and no `shiftDirections`. `shiftTranslations` has one record per direction, `""` included. |
| Routes.EventResponse | app/__init__.py:38-44 | With four locales: `namePL`, `descriptionPL` and `addressDescriptionPL` in every record. |
| Routes.EventRequestResponse | tests/unit_tests.py:22-37 | The event test request gets `namePL` and `descriptionPL`. It also gets a two-record `shiftTranslations` whose first record has `addressDescriptionPL`. |
| Routes.NoteStepAsWritten | app/handlers/translation_handler.py:101 | As written, the note step crashes on every record with a selector and all variants. |
| Routes.EventRouteAllTextAsWritten | app/__init__.py:40-41 | As written, the event route crashes on the same requests. |
| Recommendation.ColumnIndex | recommendation_app.py:177 | `get_loc` gives the first position holding the name, or `KeyError` exactly when the name is no column. |
| Recommendation.Zeros | recommendation_app.py:174 | `[0] * n` has length `n` and is all zeros. |
| Recommendation.PrepareMatrix | recommendation_app.py:149-169 | A fresh table with the 21 columns in order and no row. |
| Recommendation.BuildRow | recommendation_app.py:174-180 | The in-place bit setting over an array computes the specified row, or the `KeyError` it raises. |
| Recommendation.InsertEvents | recommendation_app.py:171-184 | Appends rows in place as specified, stopping at the first event that raises. It keeps every row one cell per column. |
| Recommendation.EventMatrices | recommendation_app.py:25-30 | The user matrix, then the matrix of the user's events followed by the upcoming ones. |
| Recommendation.IndexOfColumn | recommendation_app.py:177 | In distinct columns a column's label finds that column. |
| Recommendation.SetBitsSpec | recommendation_app.py:176-177 | Setting names' bits succeeds if and only if every name is a column. It sets exactly those columns and keeps the rest. |
| Recommendation.SetBitsFailure | recommendation_app.py:176-177 | A failure is the `KeyError` of the first name that is no column. |
| Recommendation.EventRowSpec | recommendation_app.py:174-180 | A row exists if and only if `district` and `organisation` are present and all names are columns. It is then 1 exactly at the named columns and 0 elsewhere. |
| Recommendation.EventRowFailure | recommendation_app.py:176-180 | A failure is `KeyError('district')`, `KeyError('organisation')`, or the `KeyError` of a carried name that is no column. |
| Recommendation.NoCategoriesRow | recommendation_app.py:176 | An event without `categories` marks only its district and organisation. |
| Recommendation.InsertRunKeeps | recommendation_app.py:173-182 | Existing rows are never changed, and at most one row per event is appended. |
| Recommendation.InsertRunOk | recommendation_app.py:173-182 | The loop runs to the end if and only if every event can be encoded. |
| Recommendation.InsertRunRows | recommendation_app.py:173-182 | It then appends exactly one one-hot row per event, in event order. |
| Recommendation.InsertRunAll | recommendation_app.py:173-182 | Encodable events are all inserted. |
| Recommendation.InsertRunWidths | recommendation_app.py:174 | Every appended row has one cell per column. |
| Recommendation.EventRowLength | recommendation_app.py:174 | A built row has one cell per column. |
| Recommendation.ListsDistinct | recommendation_app.py:152-160 | Each of the three lists has distinct names. |
| Recommendation.ListsApart | recommendation_app.py:152-160 | No name is in two lists. |
| Recommendation.AllColumnsLayout | recommendation_app.py:162-169 | 21 distinct columns: the categories, then the districts, then the organisations. |
| RecommendationData.NamesAreColumns | recommendation_app.py:152-160 | Every name the fixed events use is a column. |
| RecommendationData.UserEventsEncodable | recommendation_app.py:63-82 | Every fixed user event can be encoded. |
| RecommendationData.UpcomingEventsEncodable | recommendation_app.py:96-145 | Every fixed upcoming event can be encoded. |
| RecommendationData.UserMatrixRows | recommendation_app.py:25-26 | The user matrix gets 3 rows. |
| RecommendationData.UpcomingRows | recommendation_app.py:30 | The upcoming events add 8 rows to any table. |
| RecommendationData.DummyMatrices | recommendation_app.py:25-30 | 3 rows for the user matrix, and 3 + 8 for the matrix of all events. |

## Left out

- The translation pipeline, the MBart model and tokenizer, and the image captioner are not modelled: they are function parameters that answer a text or raise. Image download, HTTP, Flask/CORS, `jsonify` and model loading are I/O.
- JSON values are strings, lists of strings or lists of string records. Numbers, booleans and `null` are not modelled. An operation the source would apply to another kind of value is modelled as an uncaught exception (`Crash`). This covers an f-string copy of a list, hashing a list as a selector, and `==` on a non-string text.
- `Crash` does not distinguish the Python exception types (`TypeError`, `AttributeError`, network errors). None of them is caught by the handlers.
- EventHandler.EventCreationOf: its own contract states only the absence of `language` and `imageUrl`, because the field list is a parameter. For the handler's own list, EventHandler.EventCreation, EventCreationDropsFields and EventCreationContents state the rest.
- Quoting.Repr: characters outside ASCII are written as they are. Python escapes the non-printable ones among them (`\x`, `\u`, `\U`).
- Expansion.RecordItemFailure: handing a record to the translation model is treated as an uncaught exception, since the model's behaviour on a dict is unknown. A list of records in a one-locale table, which Python would copy unchanged, is treated the same way. Such a table does not occur in the source.
- TranslationHandlers.WithNote: `+=` of a string onto a list of records is modelled as `Crash`, though Python extends the list with the note's characters. Such a list cannot arise from the routes.
- The `except ValueError` around each route body is not modelled separately: every `ValueError` is already caught inside the handlers.
- The moderation gate is not modelled, because no classifier exists in the modelled code. The modules that would raise `InappropriateEventException` are not part of this model.
- `RecommendationHandler.recommend` is not modelled beyond its matrix construction (lines 25-30). The MultiLabelBinarizer and nearest-neighbour fitting and the debug prints are library calls. The events API calls are commented out; the fixed lists stand in for them.
- `category_suggester_app.py`, `recommendation_sys_app.py`, `app/app.py` and `app.py` are not part of this model.
- `translate_field` and `translate_array` are duplicated in `event_creation_handler.py` and `event_creation_app.py`. Both copies are modelled by `TranslationTool` over their own locale table (`WithTable` for `ENG`), because their bodies are identical.
- The pandas `DataFrame` is reduced to its column labels and a sequence of integer rows. `df.loc[len(df)] = row` is modelled as an append, since the index labels are `0..len-1`.
- Routes.TextRouteAllText, Routes.EventRouteAllText: they state the presence of the variant keys and the record counts the unit tests check, not the note-augmented values. The values are stated per step by TranslationHandlers.AddNoteContents and Expansion.ExpandFieldSpec.
- TranslationUtil.TranslationTool.constructor: the tool takes the AI notes as a parameter, standing for the `ai_generated_text` attribute the source never defines. TranslationHandlers.TranslationHandler.NoteStep, NoteLoop and AddInfoAboutAi, and Routes.EventCreationReceiver, TextReceiver, ReportReceiver, OrganisationReceiver and FaqReceiver, run with the notes supplied, so they model the corrected code. The code as written raises an uncaught `AttributeError` in the note step. TranslationHandlers.AddNoteWithoutNotes, Routes.NoteStepAsWritten, Routes.TextRouteAllTextAsWritten and Routes.EventRouteAllTextAsWritten state that behaviour.
- TranslationHandlers.TranslationHandler.ProcessFieldTranslation, ProcessArrayTranslation, ReportHandler.ReportTranslationHandler.ProcessReportTranslation, EventHandler.EventCreationHandler.ProcessEventCreation, EventCreationApp.EventCreationHandler.TranslateJson and LegacyTranslations.TranslateJson take the request as a JSON object. The `dict(json_data)` conversion of another body is not modelled. A list of two-character strings would become a dict, a string or a list of other strings would give the caught `ValueError` (`Invalid JSON data: dictionary update sequence element ...`), and a number or `null` would raise an uncaught `TypeError`.
- The debug `print` calls (for example of each direction in `translate_array`) are output only and are not modelled.
- The `addressDescriptionEND` key in the handler docstrings disagrees with the code. The model follows the code: `addressDescription` + `PL/EN/UA/RU`.

## Findings

| source | as written | input that shows it | evidently intended | confidence | as-written member | corrected member |
|---|---|---|---|---|---|---|
| app/handlers/translation_handler.py:101 | `add_info_about_ai` reads `self.translation_tool.ai_generated_text[lang]`, but `TranslationTool` defines no such attribute. Every text route therefore raises an uncaught `AttributeError` once the fields are translated. | the report test request `{"language": "EN", "report": "This is a sample report."}` with a model that answers | append the per-locale AI note to each non-source variant and answer with all four variants | not executed | Routes.TextRouteAllTextAsWritten | Routes.TextRouteAllText |
| app/handlers/translation_handler.py:101 | The same attribute read makes the event route raise on every request whose fields translate. | the event test request with `language` `EN`, `name`, `description` and `shiftDirections` `["Sample directions", ""]` | answer with the variants and one `shiftTranslations` record per direction | not executed | Routes.EventRouteAllTextAsWritten | Routes.EventRouteAllText |
