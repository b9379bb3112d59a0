/** The four translation routes of the web app, each a fixed composition of
    the handler's steps, and what the unit tests expect of them. A response
    is the dict returned with status 200; an exception that escapes a route
    (Crash) is a server error. The routes run over the tool's table; the
    properties are stated for any well-formed table and then read off for
    the four-locale one. */
module Routes {
  import opened Json
  import opened Locales
  import opened Expansion
  import opened TranslationUtil
  import opened TranslationHandlers
  import opened Expandable
  import opened UnitRequests

  const EventFields := ["name", "description"]
  const EventArrays := ["shiftDirections"]
  const ReportFields := ["report"]
  const OrganisationFields := ["description"]
  const FaqFields := ["question", "answer"]

  // ---------------------------------------------------------------------
  // Specification

  /** `/event-create`: expand `name` and `description`, append the note to
      the `description` variants, expand `shiftDirections`, drop the selector. */
  function EventRoute(t: LocaleTable, d: Record, tr: Translator, notes: Option<map<string, string>>): (r: Result<Record>)
    ensures r.Ok? ==> "language" !in r.value
  {
    var fielded :- Caught(ExpandFields(t, d, EventFields, tr));
    var noted :- Caught(AddNote(t, fielded, "description", notes));
    EventArrayStep(t, noted, tr)
  }

  /** The last two steps of `/event-create`. */
  function EventArrayStep(t: LocaleTable, noted: Record, tr: Translator): (r: Result<Record>)
    ensures r.Ok? ==> "language" !in r.value
  {
    var arrayed :- Caught(ExpandArrays(t, noted, EventArrays, tr));
    Ok(WithoutLanguage(arrayed))
  }

  /** `/report/translate`, `/organisation/translate` and `/faq/translate`:
      expand `fields`, append the note to the `noteField` variants, drop the
      selector. */
  function TextRoute(t: LocaleTable, d: Record, fields: seq<string>, noteField: string, tr: Translator,
                     notes: Option<map<string, string>>): (r: Result<Record>)
    ensures r.Ok? ==> "language" !in r.value
  {
    var fielded :- Caught(ExpandFields(t, d, fields, tr));
    var noted :- Caught(AddNote(t, fielded, noteField, notes));
    Ok(WithoutLanguage(noted))
  }

  // ---------------------------------------------------------------------
  // The routes

  method EventCreationReceiver(received: JsonDict, translate: Translator, aiGeneratedText: map<string, string>)
    returns (response: Result<JsonDict>)
    ensures Entries(response) == EventRoute(MainTable, old(received.entries), translate, Some(aiGeneratedText))
  {
    var handler := new TranslationHandler(EventFields, Some(EventArrays), translate, aiGeneratedText);
    var eventData := handler.ProcessFieldTranslation(received);
    if eventData.Err? {
      return eventData;
    }
    eventData := handler.AddInfoAboutAi(eventData.value, "description");
    if eventData.Err? {
      return eventData;
    }
    eventData := handler.ProcessArrayTranslation(eventData.value);
    if eventData.Err? {
      return eventData;
    }
    var result := handler.LanguageDelete(eventData.value);
    return Ok(result);
  }

  /** The body shared by the report, organisation and FAQ routes. */
  method TextReceiver(received: JsonDict, fields: seq<string>, noteField: string,
                      translate: Translator, aiGeneratedText: map<string, string>)
    returns (response: Result<JsonDict>)
    ensures Entries(response) == TextRoute(MainTable, old(received.entries), fields, noteField, translate, Some(aiGeneratedText))
  {
    var handler := new TranslationHandler(fields, None, translate, aiGeneratedText);
    var data := handler.ProcessFieldTranslation(received);
    if data.Err? {
      return data;
    }
    data := handler.AddInfoAboutAi(data.value, noteField);
    if data.Err? {
      return data;
    }
    var result := handler.LanguageDelete(data.value);
    return Ok(result);
  }

  method ReportReceiver(received: JsonDict, translate: Translator, aiGeneratedText: map<string, string>)
    returns (response: Result<JsonDict>)
    ensures Entries(response) == TextRoute(MainTable, old(received.entries), ReportFields, "report", translate, Some(aiGeneratedText))
  {
    response := TextReceiver(received, ReportFields, "report", translate, aiGeneratedText);
  }

  method OrganisationReceiver(received: JsonDict, translate: Translator, aiGeneratedText: map<string, string>)
    returns (response: Result<JsonDict>)
    ensures Entries(response)
         == TextRoute(MainTable, old(received.entries), OrganisationFields, "description", translate, Some(aiGeneratedText))
  {
    response := TextReceiver(received, OrganisationFields, "description", translate, aiGeneratedText);
  }

  method FaqReceiver(received: JsonDict, translate: Translator, aiGeneratedText: map<string, string>)
    returns (response: Result<JsonDict>)
    ensures Entries(response) == TextRoute(MainTable, old(received.entries), FaqFields, "answer", translate, Some(aiGeneratedText))
  {
    response := TextReceiver(received, FaqFields, "answer", translate, aiGeneratedText);
  }

  // ---------------------------------------------------------------------
  // Error cascade

  /** Once a step has raised KeyError or ValueError, the route goes on with
      the error dict, and the note step raises KeyError('language') on it. */
  lemma NoteOnErrorRecord(t: LocaleTable, f: Failure, field: string, notes: Option<map<string, string>>)
    requires WellFormed(t) && |t.languages| > 0 && f != Crash
    ensures Caught(Err(f)).Ok?
    ensures Caught(AddNote(t, Caught(Err(f)).value, field, notes)) == Ok(ErrorRecord(MissingKeyMessage("language")))
  {
    AddNoteNoLanguage(t, Caught(Err(f)).value, field, notes);
  }

  /** The array step and the selector deletion on an error dict. */
  lemma ArrayOnErrorRecord(t: LocaleTable, tr: Translator)
    ensures Caught(ExpandArrays(t, ErrorRecord(MissingKeyMessage("language")), EventArrays, tr)) == Ok(ErrorRecord(MissingKeyMessage("shiftDirections")))
    ensures WithoutLanguage(ErrorRecord(MissingKeyMessage("shiftDirections"))) == ErrorRecord(MissingKeyMessage("shiftDirections"))
    ensures WithoutLanguage(ErrorRecord(MissingKeyMessage("language"))) == ErrorRecord(MissingKeyMessage("language"))
  {
    ExpandArraysSingle(t, ErrorRecord(MissingKeyMessage("language")), "shiftDirections", tr);
  }

  /** A KeyError or ValueError in the field step of the event route ends,
      through the note step's KeyError and the array step's, as the single
      error `Missing key: 'shiftDirections'`. */
  lemma EventRouteFieldError(t: LocaleTable, d: Record, tr: Translator, notes: Option<map<string, string>>)
    requires WellFormed(t) && |t.languages| > 0
    requires ExpandFields(t, d, EventFields, tr).Err?
    requires ExpandFields(t, d, EventFields, tr).failure != Crash
    ensures EventRoute(t, d, tr, notes) == Ok(ErrorRecord(MissingKeyMessage("shiftDirections")))
  {
    NoteOnErrorRecord(t, ExpandFields(t, d, EventFields, tr).failure, "description", notes);
    ArrayOnErrorRecord(t, tr);
  }

  /** Likewise a KeyError or ValueError in the event route's note step. */
  lemma EventRouteNoteError(t: LocaleTable, d: Record, tr: Translator, notes: Option<map<string, string>>)
    requires ExpandFields(t, d, EventFields, tr).Ok?
    requires AddNote(t, ExpandFields(t, d, EventFields, tr).value, "description", notes).Err?
    requires AddNote(t, ExpandFields(t, d, EventFields, tr).value, "description", notes).failure != Crash
    ensures EventRoute(t, d, tr, notes) == Ok(ErrorRecord(MissingKeyMessage("shiftDirections")))
  {
    var arrayed := ErrorRecord(MissingKeyMessage("shiftDirections"));
    assert WithoutLanguage(arrayed) == arrayed;
  }

  /** A KeyError or ValueError in the field step of the other routes ends,
      through the note step's KeyError, as `Missing key: 'language'`. */
  lemma TextRouteFieldError(t: LocaleTable, d: Record, fields: seq<string>, noteField: string, tr: Translator,
                            notes: Option<map<string, string>>)
    requires WellFormed(t) && |t.languages| > 0
    requires ExpandFields(t, d, fields, tr).Err?
    requires ExpandFields(t, d, fields, tr).failure != Crash
    ensures TextRoute(t, d, fields, noteField, tr, notes) == Ok(ErrorRecord(MissingKeyMessage("language")))
  {
    NoteOnErrorRecord(t, ExpandFields(t, d, fields, tr).failure, noteField, notes);
    ArrayOnErrorRecord(t, tr);
  }

  /** A request with no selector gets the single error of its route,
      whatever the translator and the notes. */
  lemma NoSelectorResponses(t: LocaleTable, d: Record, tr: Translator, notes: Option<map<string, string>>)
    requires WellFormed(t) && |t.languages| > 0
    requires "language" !in d
    ensures EventRoute(t, d, tr, notes) == Ok(ErrorRecord(MissingKeyMessage("shiftDirections")))
    ensures TextRoute(t, d, ReportFields, "report", tr, notes) == Ok(ErrorRecord(MissingKeyMessage("language")))
    ensures TextRoute(t, d, OrganisationFields, "description", tr, notes) == Ok(ErrorRecord(MissingKeyMessage("language")))
    ensures TextRoute(t, d, FaqFields, "answer", tr, notes) == Ok(ErrorRecord(MissingKeyMessage("language")))
  {
    ExpandFieldsNoLanguage(t, d, EventFields, tr);
    EventRouteFieldError(t, d, tr, notes);
    ExpandFieldsNoLanguage(t, d, ReportFields, tr);
    TextRouteFieldError(t, d, ReportFields, "report", tr, notes);
    ExpandFieldsNoLanguage(t, d, OrganisationFields, tr);
    TextRouteFieldError(t, d, OrganisationFields, "description", tr, notes);
    ExpandFieldsNoLanguage(t, d, FaqFields, tr);
    TextRouteFieldError(t, d, FaqFields, "answer", tr, notes);
  }

  // ---------------------------------------------------------------------
  // The unit tests' invalid request

  /** The invalid request gets status 200 and an error starting with
      `Missing key` on every route. */
  lemma InvalidRequestResponses(tr: Translator, notes: Option<map<string, string>>)
    ensures EventRoute(MainTable, InvalidRequest, tr, notes) == Ok(ErrorRecord(MissingKeyMessage("shiftDirections")))
    ensures TextRoute(MainTable, InvalidRequest, ReportFields, "report", tr, notes) == Ok(ErrorRecord(MissingKeyMessage("language")))
    ensures TextRoute(MainTable, InvalidRequest, OrganisationFields, "description", tr, notes)
         == Ok(ErrorRecord(MissingKeyMessage("language")))
    ensures TextRoute(MainTable, InvalidRequest, FaqFields, "answer", tr, notes) == Ok(ErrorRecord(MissingKeyMessage("language")))
    ensures StartsWith(MissingKeyMessage("shiftDirections"), "Missing key")
    ensures StartsWith(MissingKeyMessage("language"), "Missing key")
  {
    MainTableWellFormed();
    InvalidRequestShape();
    NoSelectorResponses(MainTable, InvalidRequest, tr, notes);
    MissingKeyMessageStartsWith("shiftDirections");
    MissingKeyMessageStartsWith("language");
  }

  // ---------------------------------------------------------------------
  // Requests that go through

  /** The text routes go through when the fields are expandable and there is
      a note for every locale; then every variant is in the response. */
  lemma TextRouteAllText(t: LocaleTable, d: Record, fields: seq<string>, tr: Translator, notes: map<string, string>)
    requires FieldsExpandable(t, d, fields, tr)
    requires forall lang :: lang in t.languages ==> lang in notes
    ensures TextRoute(t, d, fields, fields[|fields| - 1], tr, Some(notes)).Ok?
    ensures forall i, lang :: 0 <= i < |fields| && lang in t.languages ==>
      VariantKey(t, fields[i], lang) in TextRoute(t, d, fields, fields[|fields| - 1], tr, Some(notes)).value
  {
    var last := fields[|fields| - 1];
    ExpandFieldsAllText(t, d, fields, tr);
    LastFieldExpanded(t, d, fields, tr);
    var fielded := ExpandFields(t, d, fields, tr).value;
    AddNoteAllText(t, fielded, last, notes);
    var r := TextRoute(t, d, fields, last, tr, Some(notes)).value;
    assert r == WithoutLanguage(AddNote(t, fielded, last, Some(notes)).value);
    forall i, lang | 0 <= i < |fields| && lang in t.languages
      ensures VariantKey(t, fields[i], lang) in r
    {
      VariantKeysApart(t, fields[i], lang);
      assert VariantKey(t, fields[i], lang) in AllVariantKeys(t, fields[i]);
      forall j | i < j < |fields|
        ensures fields[j] != VariantKey(t, fields[i], lang)
      {
        assert fields[j] !in AllVariantKeys(t, fields[i]);
      }
    }
  }

  /** Two locales: some locale differs from any given selector. */
  lemma OtherLocale(t: LocaleTable, selector: Value)
    requires WellFormed(t) && |t.languages| >= 2
    ensures exists lang :: lang in t.languages && selector != Str(lang)
  {
    if selector == Str(t.languages[0]) {
      assert t.languages[1] in t.languages && selector != Str(t.languages[1]);
    } else {
      assert t.languages[0] in t.languages;
    }
  }

  /** As written, the same requests raise AttributeError in the note step:
      every text route is a server error for them. */
  lemma TextRouteAllTextAsWritten(t: LocaleTable, d: Record, fields: seq<string>, tr: Translator)
    requires FieldsExpandable(t, d, fields, tr) && |t.languages| >= 2
    ensures TextRoute(t, d, fields, fields[|fields| - 1], tr, None) == Err(Crash)
  {
    LastFieldExpanded(t, d, fields, tr);
    var fielded := ExpandFields(t, d, fields, tr).value;
    OtherLocale(t, fielded["language"]);
    AddNoteWithoutNotes(t, fielded, fields[|fields| - 1]);
  }

  // ---------------------------------------------------------------------
  // The unit tests' text requests

  /** In a four-locale table the variants of a field are the field name
      followed by PL, EN, UA and RU. */
  lemma FourVariants(t: LocaleTable, r: Record, field: string)
    requires FourLocales(t)
    requires forall lang :: lang in t.languages ==> VariantKey(t, field, lang) in r
    ensures {field + "PL", field + "EN", field + "UA", field + "RU"} <= r.Keys
  {
    FourVariantKeys(t, field);
    assert "PL" in t.languages && "EN" in t.languages;
    assert "UA" in t.languages && "RU" in t.languages;
  }

  /** A one-field text route with a selector that has a model code gets
      the four variants of its field. */
  lemma SingleFieldResponse(t: LocaleTable, d: Record, field: string, tr: Translator, notes: map<string, string>)
    requires FourLocales(t) && AlwaysAnswers(tr)
    requires forall lang :: lang in t.languages ==> lang in notes
    requires "language" in d && d["language"].Str? && d["language"].s in t.codes
    requires field != "language" && field in d && d[field].Str?
    ensures TextRoute(t, d, [field], field, tr, Some(notes)).Ok?
    ensures {field + "PL", field + "EN", field + "UA", field + "RU"} <= TextRoute(t, d, [field], field, tr, Some(notes)).value.Keys
  {
    assert FieldsExpandable(t, d, [field], tr);
    TextRouteAllText(t, d, [field], tr, notes);
    FourVariants(t, TextRoute(t, d, [field], field, tr, Some(notes)).value, field);
  }

  /** The unit test's report request gets all four report variants. */
  lemma ReportRequestResponse(tr: Translator, notes: map<string, string>)
    requires AlwaysAnswers(tr)
    requires forall lang :: lang in MainTable.languages ==> lang in notes
    ensures TextRoute(MainTable, ReportRequest, ReportFields, "report", tr, Some(notes)).Ok?
    ensures {"reportPL", "reportEN", "reportRU", "reportUA"}
         <= TextRoute(MainTable, ReportRequest, ReportFields, "report", tr, Some(notes)).value.Keys
  {
    MainTableFourLocales();
    ReportRequestShape();
    SingleFieldResponse(MainTable, ReportRequest, "report", tr, notes);
    ReportSpellings();
  }

  /** The unit test's organisation request gets all four description variants. */
  lemma OrganisationRequestResponse(tr: Translator, notes: map<string, string>)
    requires AlwaysAnswers(tr)
    requires forall lang :: lang in MainTable.languages ==> lang in notes
    ensures TextRoute(MainTable, OrganisationRequest, OrganisationFields, "description", tr, Some(notes)).Ok?
    ensures {"descriptionPL", "descriptionEN", "descriptionRU", "descriptionUA"}
         <= TextRoute(MainTable, OrganisationRequest, OrganisationFields, "description", tr, Some(notes)).value.Keys
  {
    MainTableFourLocales();
    OrganisationRequestShape();
    SingleFieldResponse(MainTable, OrganisationRequest, "description", tr, notes);
    DescriptionSpellings();
  }

  /** A two-field text route whose fields have different initials gets the
      four variants of both fields. */
  lemma TwoFieldResponse(t: LocaleTable, d: Record, a: string, b: string, tr: Translator, notes: map<string, string>)
    requires FourLocales(t) && AlwaysAnswers(tr)
    requires forall lang :: lang in t.languages ==> lang in notes
    requires "language" in d && d["language"].Str? && d["language"].s in t.codes
    requires a != "" && b != "" && a[0] != b[0] && a[0] != 'l' && b[0] != 'l'
    requires a in d && d[a].Str? && b in d && d[b].Str?
    ensures TextRoute(t, d, [a, b], b, tr, Some(notes)).Ok?
    ensures {a + "PL", a + "EN", a + "UA", a + "RU", b + "PL", b + "EN", b + "UA", b + "RU"}
         <= TextRoute(t, d, [a, b], b, tr, Some(notes)).value.Keys
  {
    TwoFieldsApart(t, a, b);
    assert FieldsExpandable(t, d, [a, b], tr);
    TextRouteAllText(t, d, [a, b], tr, notes);
    var r := TextRoute(t, d, [a, b], b, tr, Some(notes)).value;
    assert [a, b][0] == a && [a, b][1] == b;
    FourVariants(t, r, a);
    FourVariants(t, r, b);
  }

  /** The unit test's FAQ request gets all four variants of the question
      and of the answer. */
  lemma FaqRequestResponse(tr: Translator, notes: map<string, string>)
    requires AlwaysAnswers(tr)
    requires forall lang :: lang in MainTable.languages ==> lang in notes
    ensures TextRoute(MainTable, FaqRequest, FaqFields, "answer", tr, Some(notes)).Ok?
    ensures {"questionPL", "questionEN", "questionRU", "questionUA", "answerPL", "answerEN", "answerRU", "answerUA"}
         <= TextRoute(MainTable, FaqRequest, FaqFields, "answer", tr, Some(notes)).value.Keys
  {
    MainTableFourLocales();
    FaqRequestShape();
    TwoFieldResponse(MainTable, FaqRequest, "question", "answer", tr, notes);
    FaqSpellings();
  }

  // ---------------------------------------------------------------------
  // The event route

  /** The note step keeps the keys, the selector and any key that is not a
      variant of the annotated field. */
  lemma NoteStepKeeps(t: LocaleTable, fielded: Record, field: string, notes: map<string, string>, k: string)
    requires WellFormed(t) && "language" in fielded
    requires forall lang :: lang in t.languages ==>
      VariantKey(t, field, lang) in fielded && fielded[VariantKey(t, field, lang)].Str? && lang in notes
    requires k in fielded && k !in AllVariantKeys(t, field)
    ensures AddNote(t, fielded, field, Some(notes)).Ok?
    ensures AddNote(t, fielded, field, Some(notes)).value.Keys == fielded.Keys
    ensures AddNote(t, fielded, field, Some(notes)).value[k] == fielded[k]
  {
    AddNoteAllText(t, fielded, field, notes);
    AddNoteSpec(t, fielded, field, Some(notes));
  }

  /** After the field and note steps of the event route, under the
      conditions of EventRouteAllText: the selector and the array are as
      sent, and all name and description variants are there. */
  lemma EventNoteStep(t: LocaleTable, d: Record, tr: Translator, notes: map<string, string>)
    requires FieldsExpandable(t, d, EventFields, tr)
    requires "shiftDirections" in d
    requires forall lang :: lang in t.languages ==> lang in notes
    ensures ExpandFields(t, d, EventFields, tr).Ok?
    ensures AddNote(t, ExpandFields(t, d, EventFields, tr).value, "description", Some(notes)).Ok?
    ensures var noted := AddNote(t, ExpandFields(t, d, EventFields, tr).value, "description", Some(notes)).value;
      && "language" in noted && noted["language"] == d["language"]
      && "shiftDirections" in noted && noted["shiftDirections"] == d["shiftDirections"]
      && forall lang :: lang in t.languages ==> VariantKey(t, "name", lang) in noted && VariantKey(t, "description", lang) in noted
  {
    NotNameOrDescriptionVariant(t, "shiftDirections");
    TwoFieldsExpanded(t, d, EventFields, tr, "shiftDirections");
    var fielded := ExpandFields(t, d, EventFields, tr).value;
    NotNameOrDescriptionVariant(t, "language");
    NoteStepKeeps(t, fielded, "description", notes, "shiftDirections");
    NoteStepKeeps(t, fielded, "description", notes, "language");
  }

  lemma ExpandArraysSingle(t: LocaleTable, d: Record, name: string, tr: Translator)
    ensures ExpandArrays(t, d, [name], tr) == ExpandArray(t, d, name, tr)
  {
    assert [name][1..] == [];
  }

  /** The array step of the event route on a record whose selector has a
      model code and whose `shiftDirections` is a list of strings: one
      locale record per direction, and every other key but the selector
      kept. */
  lemma EventArrayStepAllText(t: LocaleTable, noted: Record, tr: Translator, items: seq<string>)
    requires WellFormed(t)
    requires "language" in noted && noted["language"].Str? && noted["language"].s in t.codes
    requires "shiftDirections" in noted && noted["shiftDirections"] == StrList(items)
    requires AlwaysAnswers(tr)
    ensures EventArrayStep(t, noted, tr).Ok?
    ensures var r := EventArrayStep(t, noted, tr).value;
      && "shiftDirections" !in r
      && ShiftTranslations in r && r[ShiftTranslations].RecordList?
      && |r[ShiftTranslations].records| == |items|
      && (forall i :: 0 <= i < |items| ==> r[ShiftTranslations].records[i].Keys == ItemKeys(t))
      && forall k :: k in noted && k != "language" && k != "shiftDirections" ==> k in r
  {
    ArrayExpandedAllText(t, noted, "shiftDirections", tr, items);
    ExpandArraysSingle(t, noted, "shiftDirections", tr);
    assert EventArrayStep(t, noted, tr) == Ok(WithoutLanguage(ExpandArray(t, noted, "shiftDirections", tr).value));
  }

  /** The event route goes through when, besides the conditions of the text
      routes, `shiftDirections` is a list of strings; the response holds
      every name and description variant and one locale record per
      direction, and neither the array nor the selector. */
  lemma EventRouteAllText(t: LocaleTable, d: Record, tr: Translator, notes: map<string, string>, items: seq<string>)
    requires FieldsExpandable(t, d, EventFields, tr)
    requires "shiftDirections" in d && d["shiftDirections"] == StrList(items)
    requires forall lang :: lang in t.languages ==> lang in notes
    ensures EventRoute(t, d, tr, Some(notes)).Ok?
    ensures var r := EventRoute(t, d, tr, Some(notes)).value;
      && (forall lang :: lang in t.languages ==> VariantKey(t, "name", lang) in r && VariantKey(t, "description", lang) in r)
      && "shiftDirections" !in r
      && ShiftTranslations in r && r[ShiftTranslations].RecordList?
      && |r[ShiftTranslations].records| == |items|
      && forall i :: 0 <= i < |items| ==> r[ShiftTranslations].records[i].Keys == ItemKeys(t)
  {
    EventNoteStep(t, d, tr, notes);
    var noted := AddNote(t, ExpandFields(t, d, EventFields, tr).value, "description", Some(notes)).value;
    EventArrayStepAllText(t, noted, tr, items);
    forall lang | lang in t.languages
      ensures VariantKey(t, "name", lang) != "language" && VariantKey(t, "name", lang) != "shiftDirections"
      ensures VariantKey(t, "description", lang) != "language" && VariantKey(t, "description", lang) != "shiftDirections"
    {
      assert VariantKey(t, "name", lang)[0] == 'n' && VariantKey(t, "description", lang)[0] == 'd';
    }
    assert EventRoute(t, d, tr, Some(notes)) == EventArrayStep(t, noted, tr);
  }

  /** An event request with a selector that has a model code, a string name
      and description, and a list of strings as its directions meets the
      conditions of the field step. */
  lemma EventFieldsExpandable(t: LocaleTable, d: Record, tr: Translator)
    requires WellFormed(t) && AlwaysAnswers(tr)
    requires "language" in d && d["language"].Str? && d["language"].s in t.codes
    requires "name" in d && d["name"].Str? && "description" in d && d["description"].Str?
    ensures FieldsExpandable(t, d, EventFields, tr)
  {
    TwoFieldsApart(t, "name", "description");
  }

  /** Such a request gets the PL name and description and one locale record
      per direction, each with `addressDescriptionPL`. */
  lemma EventResponse(t: LocaleTable, d: Record, items: seq<string>, tr: Translator, notes: map<string, string>)
    requires FourLocales(t) && AlwaysAnswers(tr)
    requires forall lang :: lang in t.languages ==> lang in notes
    requires "language" in d && d["language"].Str? && d["language"].s in t.codes
    requires "name" in d && d["name"].Str? && "description" in d && d["description"].Str?
    requires "shiftDirections" in d && d["shiftDirections"] == StrList(items)
    ensures EventRoute(t, d, tr, Some(notes)).Ok?
    ensures var r := EventRoute(t, d, tr, Some(notes)).value;
      && "namePL" in r && "descriptionPL" in r
      && ShiftTranslations in r && r[ShiftTranslations].RecordList? && |r[ShiftTranslations].records| == |items|
      && forall i :: 0 <= i < |items| ==> "addressDescriptionPL" in r[ShiftTranslations].records[i]
  {
    EventFieldsExpandable(t, d, tr);
    EventRouteAllText(t, d, tr, notes, items);
    EventSpellings();
    GluedVariant(t, "name", "PL");
    GluedVariant(t, "description", "PL");
    assert "PL" in t.languages;
    assert ItemKey("PL") == "addressDescriptionPL" && ItemKey("PL") in ItemKeys(t);
  }

  /** The unit test's event request gets the PL name and description and a
      list under `shiftTranslations` whose first record has
      `addressDescriptionPL`. */
  lemma EventRequestResponse(tr: Translator, notes: map<string, string>)
    requires AlwaysAnswers(tr)
    requires forall lang :: lang in MainTable.languages ==> lang in notes
    ensures EventRoute(MainTable, EventRequest, tr, Some(notes)).Ok?
    ensures var r := EventRoute(MainTable, EventRequest, tr, Some(notes)).value;
      && "namePL" in r && "descriptionPL" in r
      && ShiftTranslations in r && r[ShiftTranslations].RecordList? && |r[ShiftTranslations].records| == 2
      && "addressDescriptionPL" in r[ShiftTranslations].records[0]
  {
    MainTableFourLocales();
    EventRequestShape();
    EventResponse(MainTable, EventRequest, ["Sample directions", ""], tr, notes);
  }

  /** As written, the note step raises AttributeError on any record with a
      selector and all variants of the annotated field. */
  lemma NoteStepAsWritten(t: LocaleTable, fielded: Record, field: string)
    requires WellFormed(t) && |t.languages| >= 2 && "language" in fielded
    requires forall lang :: lang in t.languages ==> VariantKey(t, field, lang) in fielded
    ensures AddNote(t, fielded, field, None) == Err(Crash)
  {
    OtherLocale(t, fielded["language"]);
    AddNoteWithoutNotes(t, fielded, field);
  }

  /** As written, the event route is a server error for the same requests:
      the note step raises AttributeError. */
  lemma EventRouteAllTextAsWritten(t: LocaleTable, d: Record, tr: Translator)
    requires FieldsExpandable(t, d, EventFields, tr) && |t.languages| >= 2
    requires "shiftDirections" in d
    ensures EventRoute(t, d, tr, None) == Err(Crash)
  {
    NotNameOrDescriptionVariant(t, "shiftDirections");
    TwoFieldsExpanded(t, d, EventFields, tr, "shiftDirections");
    NoteStepAsWritten(t, ExpandFields(t, d, EventFields, tr).value, "description");
  }
}
