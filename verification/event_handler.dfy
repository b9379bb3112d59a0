/** The event creation handler of the app package: expands `name` and
    `description`, expands `shiftDirections` into per-locale records, drops
    the selector, captions the image when there is one and drops the image
    reference. */
module EventHandler {
  import opened Json
  import opened Locales
  import opened Expansion
  import opened TranslationUtil
  import opened TranslationHandlers
  import opened Expandable

  /** The one key of the field list that goes through translate_array. */
  const ArrayField := "shiftDirections"
  const EventCreationFields := ["name", "description", "shiftDirections"]

  /** The loop of `process_event_creation` over its field list: the array
      field is expanded by translate_array, every other one by
      translate_field, each on the record the previous one left. */
  function EventFold(t: LocaleTable, d: Record, fields: seq<string>, tr: Translator): Result<Record>
    decreases |fields|
  {
    if fields == [] then Ok(d)
    else
      var next :- EventStep(t, d, fields[0], tr);
      EventFold(t, next, fields[1..], tr)
  }

  /** One iteration of that loop. */
  function EventStep(t: LocaleTable, d: Record, key: string, tr: Translator): Result<Record>
  {
    if key == ArrayField then ExpandArray(t, d, key, tr) else ExpandField(t, d, key, tr)
  }

  /** The alt text step: `imageUrl` must be there; when it is not "" the
      captioner's text is stored under `alt`. */
  function WithAlt(d: Record, caption: Captioner): (r: Result<Record>)
    ensures r.Ok? ==> "imageUrl" in d && r.value.Keys == d.Keys + (if d["imageUrl"] != Str("") then {"alt"} else {})
  {
    if "imageUrl" !in d then Err(KeyMissing("imageUrl"))
    else if d["imageUrl"] != Str("") then
      var alt :- FromReply(caption(d["imageUrl"]));
      Ok(d["alt" := Str(alt)])
    else Ok(d)
  }

  /** The alt step fails exactly when the image reference is missing or the
      captioner raises; otherwise it adds the caption under `alt` and leaves
      every other key as it was. */
  lemma WithAltSpec(d: Record, caption: Captioner)
    ensures WithAlt(d, caption).Ok? <==> "imageUrl" in d && (d["imageUrl"] != Str("") ==> caption(d["imageUrl"]).Text?)
    ensures "imageUrl" !in d ==> WithAlt(d, caption) == Err(KeyMissing("imageUrl"))
    ensures WithAlt(d, caption).Ok? && d["imageUrl"] != Str("") ==> WithAlt(d, caption).value["alt"] == Str(caption(d["imageUrl"]).text)
    ensures WithAlt(d, caption).Ok? ==> forall k :: k in d && k != "alt" ==> WithAlt(d, caption).value[k] == d[k]
    ensures WithAlt(d, caption).Ok? && d["imageUrl"] == Str("") ==> WithAlt(d, caption).value == d
    ensures WithAlt(d, caption).Err? && "imageUrl" in d ==> WithAlt(d, caption) == Err(FromReply(caption(d["imageUrl"])).failure)
  {
  }

  /** What `process_event_creation` returns for request `d` when its field
      list is `fields`. */
  function EventCreationOf(t: LocaleTable, d: Record, fields: seq<string>, tr: Translator, caption: Captioner): (r: Result<Record>)
    ensures r.Ok? ==> "language" !in r.value && "imageUrl" !in r.value
  {
    Caught(var translated :- EventFold(t, d, fields, tr); Finish(translated, caption))
  }

  /** What follows the loop: drop the selector, caption the image, drop the
      image reference. */
  function Finish(translated: Record, caption: Captioner): (r: Result<Record>)
    ensures r.Ok? ==> "language" !in r.value && "imageUrl" !in r.value
  {
    var captioned :- WithAlt(WithoutLanguage(translated), caption);
    Ok(captioned - {"imageUrl"})
  }

  /** What `process_event_creation` returns for request `d`. */
  function EventCreation(d: Record, tr: Translator, caption: Captioner): (r: Result<Record>)
    ensures r.Ok? ==> "language" !in r.value && "imageUrl" !in r.value
    ensures r.Ok? ==> "name" !in r.value && "description" !in r.value && "shiftDirections" !in r.value
  {
    MainTableWellFormed();
    EventCreationDropsFields(MainTable, d, tr, caption);
    EventCreationOf(MainTable, d, EventCreationFields, tr, caption)
  }

  class EventCreationHandler {
    const translationTool: TranslationTool
    const caption: Captioner
    const fieldsToTranslate: seq<string>

    ghost predicate Valid()
    {
      translationTool.Valid()
    }

    constructor (translate: Translator, caption: Captioner)
      ensures Valid() && fieldsToTranslate == EventCreationFields && translationTool.table == MainTable
      ensures translationTool.translate == translate && this.caption == caption
    {
      translationTool := new TranslationTool(translate, map[]);
      this.caption := caption;
      fieldsToTranslate := EventCreationFields;
    }

    /** `process_event_creation`: works on a copy; the request itself is not
        modified. */
    method ProcessEventCreation(json: JsonDict) returns (out: Result<JsonDict>)
      requires Valid()
      ensures Entries(out) == EventCreationOf(translationTool.table, json.entries, fieldsToTranslate, translationTool.translate, caption)
      ensures out.Ok? ==> fresh(out.value)
    {
      var dataDict := new JsonDict(json.entries);
      var raised := TranslateKeys(dataDict);
      ghost var spec := EventCreationOf(translationTool.table, json.entries, fieldsToTranslate, translationTool.translate, caption);
      if raised.Some? {
        assert spec == Caught(Err(raised.value));
        out := CatchFailure(raised.value);
      } else {
        assert spec == Caught(Finish(dataDict.entries, caption));
        out := FinishEvent(dataDict);
      }
    }

    /** The loop of `process_event_creation` over the keys to translate. */
    method TranslateKeys(dataDict: JsonDict) returns (raised: Option<Failure>)
      requires Valid()
      modifies dataDict
      ensures raised.None? ==> EventFold(translationTool.table, old(dataDict.entries), fieldsToTranslate, translationTool.translate) == Ok(dataDict.entries)
      ensures raised.Some? ==> EventFold(translationTool.table, old(dataDict.entries), fieldsToTranslate, translationTool.translate) == Err(raised.value)
    {
      ghost var original := dataDict.entries;
      var fields := fieldsToTranslate;
      var i := 0;
      while i < |fields|
        invariant 0 <= i <= |fields|
        invariant EventFold(translationTool.table, original, fields, translationTool.translate)
               == EventFold(translationTool.table, dataDict.entries, fields[i..], translationTool.translate)
      {
        raised := TranslateKey(fields[i], dataDict);
        assert fields[i..][1..] == fields[i + 1..];
        if raised.Some? {
          return;
        }
        i := i + 1;
      }
      assert fields[i..] == [];
      raised := None;
    }

    /** The body of the loop of `process_event_creation`. */
    method TranslateKey(key: string, dataDict: JsonDict) returns (raised: Option<Failure>)
      requires Valid()
      modifies dataDict
      ensures raised.None? ==> EventStep(translationTool.table, old(dataDict.entries), key, translationTool.translate) == Ok(dataDict.entries)
      ensures raised.Some? ==> EventStep(translationTool.table, old(dataDict.entries), key, translationTool.translate) == Err(raised.value)
    {
      if key == ArrayField {
        raised := translationTool.TranslateArray(ArrayField, dataDict);
      } else {
        raised := translationTool.TranslateField(key, dataDict);
      }
    }

    /** The rest of `process_event_creation`, on the translated dict. */
    method FinishEvent(dataDict: JsonDict) returns (out: Result<JsonDict>)
      modifies dataDict
      ensures Entries(out) == Caught(Finish(old(dataDict.entries), caption))
      ensures out.Ok? ==> out.value == dataDict || fresh(out.value)
    {
      ghost var translated := dataDict.entries;
      if "language" in dataDict.entries {
        dataDict.entries := dataDict.entries - {"language"};
      } else {
        assert dataDict.entries == WithoutLanguage(dataDict.entries);
      }
      assert dataDict.entries == WithoutLanguage(translated);
      if "imageUrl" !in dataDict.entries {
        out := CatchFailure(KeyMissing("imageUrl"));
        return;
      }
      if dataDict.entries["imageUrl"] != Str("") {
        var alt := FromReply(caption(dataDict.entries["imageUrl"]));
        if alt.Err? {
          out := CatchFailure(alt.failure);
          return;
        }
        dataDict.entries := dataDict.entries["alt" := Str(alt.value)];
      }
      if "imageUrl" in dataDict.entries {
        dataDict.entries := dataDict.entries - {"imageUrl"};
      }
      return Ok(dataDict);
    }
  }

  // ---------------------------------------------------------------------
  // Properties

  /** One step of the fold keeps every key it neither writes nor deletes. */
  lemma EventStepKeeps(t: LocaleTable, d: Record, f: string, tr: Translator, k: string)
    requires WellFormed(t)
    requires (if f == ArrayField then ExpandArray(t, d, f, tr) else ExpandField(t, d, f, tr)).Ok?
    requires k != f && k != ShiftTranslations && k !in AllVariantKeys(t, f)
    ensures var next := (if f == ArrayField then ExpandArray(t, d, f, tr) else ExpandField(t, d, f, tr)).value;
      (k in next <==> k in d) && (k in d ==> next[k] == d[k])
  {
    if f == ArrayField {
      ExpandArraySpec(t, d, f, tr);
    } else {
      ExpandFieldSpec(t, d, f, tr);
    }
  }

  /** A key that is not in the field list, not a variant of any field and
      not `shiftTranslations` passes through the fold untouched. */
  lemma {:induction false} EventFoldKeeps(t: LocaleTable, d: Record, fields: seq<string>, tr: Translator, k: string)
    requires WellFormed(t) && EventFold(t, d, fields, tr).Ok?
    requires k !in fields && k != ShiftTranslations
    requires forall f :: f in fields ==> k !in AllVariantKeys(t, f)
    ensures k in EventFold(t, d, fields, tr).value <==> k in d
    ensures k in d ==> EventFold(t, d, fields, tr).value[k] == d[k]
    decreases |fields|
  {
    if fields != [] {
      var f := fields[0];
      EventStepKeeps(t, d, f, tr, k);
      var next := EventStep(t, d, f, tr).value;
      assert forall g :: g in fields[1..] ==> g in fields;
      EventFoldKeeps(t, next, fields[1..], tr, k);
    }
  }

  /** On the handler's field list the fold is the two field expansions of
      the event route followed by its array expansion. */
  lemma EventFoldIsRouteSteps(t: LocaleTable, d: Record, tr: Translator)
    ensures EventFold(t, d, EventCreationFields, tr)
         == (var fielded :- ExpandFields(t, d, ["name", "description"], tr); ExpandArray(t, fielded, ArrayField, tr))
  {
    var fs := EventCreationFields;
    assert fs[1..] == ["description", "shiftDirections"];
    assert fs[1..][1..] == ["shiftDirections"];
    assert fs[1..][1..][1..] == [];
    var text := ["name", "description"];
    assert text[1..] == ["description"] && text[1..][1..] == [];
  }

  /** The loop leaves none of the fields it translates: `name` and
      `description` are replaced by their variants, `shiftDirections` by
      `shiftTranslations`. */
  lemma EventFoldDropsFields(t: LocaleTable, d: Record, tr: Translator)
    requires WellFormed(t) && EventFold(t, d, EventCreationFields, tr).Ok?
    ensures var fold := EventFold(t, d, EventCreationFields, tr).value;
      "name" !in fold && "description" !in fold && "shiftDirections" !in fold
  {
    var text := ["name", "description"];
    EventFoldIsRouteSteps(t, d, tr);
    var fielded := ExpandFields(t, d, text, tr).value;
    assert text[1..] == ["description"] && text[2..] == [];
    NotVariantByInitial(t, "description", "name");
    ExpandFieldsKeys(t, d, text, tr);
    assert "name" !in fielded && "description" !in fielded;
    ExpandArraySpec(t, fielded, ArrayField, tr);
  }

  /** Whatever the request, a response that is not an escaping exception
      holds none of the translated fields; an error record has only
      `error`. */
  lemma EventCreationDropsFields(t: LocaleTable, d: Record, tr: Translator, caption: Captioner)
    requires WellFormed(t)
    ensures var r := EventCreationOf(t, d, EventCreationFields, tr, caption);
      r.Ok? ==> "name" !in r.value && "description" !in r.value && "shiftDirections" !in r.value
  {
    var fold := EventFold(t, d, EventCreationFields, tr);
    if fold.Ok? {
      EventFoldDropsFields(t, d, tr);
      FinishDrops(fold.value, caption, "name");
      FinishDrops(fold.value, caption, "description");
      FinishDrops(fold.value, caption, "shiftDirections");
      assert EventCreationOf(t, d, EventCreationFields, tr, caption) == Caught(Finish(fold.value, caption));
    } else {
      assert EventCreationOf(t, d, EventCreationFields, tr, caption) == Caught(Err(fold.failure));
    }
  }

  /** The steps after the loop add no key but `alt`. */
  lemma FinishDrops(fold: Record, caption: Captioner, k: string)
    requires k !in fold && k != "alt"
    ensures Finish(fold, caption).Ok? ==> k !in Finish(fold, caption).value
  {
  }

  /** The steps after the loop keep every key they neither delete nor add. */
  lemma FinishKeeps(fold: Record, caption: Captioner, k: string)
    requires Finish(fold, caption).Ok?
    requires k in fold && k != "language" && k != "alt" && k != "imageUrl"
    ensures k in Finish(fold, caption).value && Finish(fold, caption).value[k] == fold[k]
  {
    WithAltSpec(WithoutLanguage(fold), caption);
  }

  /** The two field expansions of the loop on such a request: every name
      and description variant, and the selector, the directions and the
      image reference as sent. */
  lemma EventFieldsContents(t: LocaleTable, d: Record, tr: Translator)
    requires WellFormed(t) && AlwaysAnswers(tr)
    requires "language" in d && d["language"].Str? && d["language"].s in t.codes
    requires "name" in d && d["name"].Str? && "description" in d && d["description"].Str?
    requires "shiftDirections" in d && "imageUrl" in d
    ensures ExpandFields(t, d, ["name", "description"], tr).Ok?
    ensures var fielded := ExpandFields(t, d, ["name", "description"], tr).value;
      && (forall lang :: lang in t.languages ==> VariantKey(t, "name", lang) in fielded && VariantKey(t, "description", lang) in fielded)
      && "language" in fielded && fielded["language"] == d["language"]
      && "shiftDirections" in fielded && fielded["shiftDirections"] == d["shiftDirections"]
      && "imageUrl" in fielded && fielded["imageUrl"] == d["imageUrl"]
  {
    var text := ["name", "description"];
    TwoFieldsApart(t, "name", "description");
    assert FieldsExpandable(t, d, text, tr);
    NotVariantByInitial(t, "name", "shiftDirections");
    NotVariantByInitial(t, "description", "shiftDirections");
    TwoFieldsExpanded(t, d, text, tr, "shiftDirections");
    NotVariantByInitial(t, "name", "imageUrl");
    NotVariantByInitial(t, "description", "imageUrl");
    assert forall f :: f in text ==> f == "name" || f == "description";
    ExpandFieldsKeeps(t, d, text, tr, "imageUrl");
  }

  /** The loop on such a request: every name and description variant, one
      locale record per direction, and the image reference as sent. */
  lemma EventFoldContents(t: LocaleTable, d: Record, tr: Translator, items: seq<string>)
    requires WellFormed(t) && AlwaysAnswers(tr)
    requires "language" in d && d["language"].Str? && d["language"].s in t.codes
    requires "name" in d && d["name"].Str? && "description" in d && d["description"].Str?
    requires "shiftDirections" in d && d["shiftDirections"] == StrList(items)
    requires "imageUrl" in d
    ensures EventFold(t, d, EventCreationFields, tr).Ok?
    ensures var fold := EventFold(t, d, EventCreationFields, tr).value;
      && (forall lang :: lang in t.languages ==> VariantKey(t, "name", lang) in fold && VariantKey(t, "description", lang) in fold)
      && ShiftTranslations in fold && fold[ShiftTranslations].RecordList?
      && |fold[ShiftTranslations].records| == |items|
      && (forall i :: 0 <= i < |items| ==> fold[ShiftTranslations].records[i].Keys == ItemKeys(t))
      && "imageUrl" in fold && fold["imageUrl"] == d["imageUrl"]
  {
    EventFieldsContents(t, d, tr);
    var fielded := ExpandFields(t, d, ["name", "description"], tr).value;
    ArrayExpandedAllText(t, fielded, ArrayField, tr, items);
    EventFoldIsRouteSteps(t, d, tr);
    var fold := ExpandArray(t, fielded, ArrayField, tr).value;
    assert EventFold(t, d, EventCreationFields, tr) == Ok(fold);
    forall lang | lang in t.languages
      ensures VariantKey(t, "name", lang) in fold && VariantKey(t, "description", lang) in fold
    {
      var n := VariantKey(t, "name", lang);
      var e := VariantKey(t, "description", lang);
      assert n[0] == 'n' && e[0] == 'd';
      assert n != ArrayField && n != ShiftTranslations && e != ArrayField && e != ShiftTranslations;
      assert n in fielded && e in fielded;
      assert n in fold.Keys && e in fold.Keys;
    }
  }

  /** A request with a selector that has a model code, a string name and
      description, a list of strings as its directions and an image that
      can be captioned, with a model that always answers, gets every name
      and description variant and one locale record per direction, and
      none of the fields it sent for translation. */
  lemma EventCreationContents(t: LocaleTable, d: Record, tr: Translator, caption: Captioner, items: seq<string>)
    requires WellFormed(t) && AlwaysAnswers(tr)
    requires "language" in d && d["language"].Str? && d["language"].s in t.codes
    requires "name" in d && d["name"].Str? && "description" in d && d["description"].Str?
    requires "shiftDirections" in d && d["shiftDirections"] == StrList(items)
    requires "imageUrl" in d && (d["imageUrl"] != Str("") ==> caption(d["imageUrl"]).Text?)
    ensures EventCreationOf(t, d, EventCreationFields, tr, caption).Ok?
    ensures var r := EventCreationOf(t, d, EventCreationFields, tr, caption).value;
      && (forall lang :: lang in t.languages ==> VariantKey(t, "name", lang) in r && VariantKey(t, "description", lang) in r)
      && ShiftTranslations in r && r[ShiftTranslations].RecordList?
      && |r[ShiftTranslations].records| == |items|
      && (forall i :: 0 <= i < |items| ==> r[ShiftTranslations].records[i].Keys == ItemKeys(t))
      && "name" !in r && "description" !in r && "shiftDirections" !in r
  {
    EventFoldContents(t, d, tr, items);
    var fold := EventFold(t, d, EventCreationFields, tr).value;
    FinishSpec(fold, caption);
    var r := Finish(fold, caption).value;
    assert EventCreationOf(t, d, EventCreationFields, tr, caption) == Ok(r);
    FinishKeeps(fold, caption, ShiftTranslations);
    forall lang | lang in t.languages
      ensures VariantKey(t, "name", lang) in r && VariantKey(t, "description", lang) in r
    {
      var n := VariantKey(t, "name", lang);
      var e := VariantKey(t, "description", lang);
      assert n[0] == 'n' && e[0] == 'd';
      FinishKeeps(fold, caption, n);
      FinishKeeps(fold, caption, e);
    }
    EventCreationDropsFields(t, d, tr, caption);
  }

  /** A request without the selector gets `Missing key: 'language'`. */
  lemma EventCreationNoSelector(t: LocaleTable, d: Record, tr: Translator, caption: Captioner)
    requires WellFormed(t) && |t.languages| > 0
    requires "language" !in d
    ensures EventCreationOf(t, d, EventCreationFields, tr, caption) == Ok(ErrorRecord(MissingKeyMessage("language")))
  {
    EventFoldIsRouteSteps(t, d, tr);
    ExpandFieldsNoLanguage(t, d, ["name", "description"], tr);
  }

  /** A request that translates but has no `imageUrl` gets
      `Missing key: 'imageUrl'`. */
  lemma EventCreationNoImage(t: LocaleTable, d: Record, tr: Translator, caption: Captioner)
    requires WellFormed(t) && EventFold(t, d, EventCreationFields, tr).Ok?
    requires "imageUrl" !in d
    ensures EventCreationOf(t, d, EventCreationFields, tr, caption) == Ok(ErrorRecord(MissingKeyMessage("imageUrl")))
  {
    PassesFold(t, "imageUrl");
    EventFoldKeeps(t, d, EventCreationFields, tr, "imageUrl");
    var translated := WithoutLanguage(EventFold(t, d, EventCreationFields, tr).value);
    assert "imageUrl" !in translated;
    assert WithAlt(translated, caption) == Err(KeyMissing("imageUrl"));
  }

  /** The steps after the loop on a record that has `imageUrl`. */
  lemma FinishSpec(fold: Record, caption: Captioner)
    requires "imageUrl" in fold
    ensures Caught(Finish(fold, caption)).Err? <==> fold["imageUrl"] != Str("") && caption(fold["imageUrl"]).RaisesOther?
    ensures fold["imageUrl"] == Str("") || caption(fold["imageUrl"]).Text? ==>
      && Finish(fold, caption).Ok?
      && ("alt" in Finish(fold, caption).value <==> "alt" in fold || fold["imageUrl"] != Str(""))
    ensures fold["imageUrl"] != Str("") && caption(fold["imageUrl"]).Text? ==>
      Finish(fold, caption).value["alt"] == Str(caption(fold["imageUrl"]).text)
    ensures fold["imageUrl"] != Str("") && caption(fold["imageUrl"]).RaisesValueError? ==>
      Caught(Finish(fold, caption)) == Ok(ErrorRecord(InvalidDataMessage(caption(fold["imageUrl"]).detail)))
  {
    var translated := WithoutLanguage(fold);
    assert "imageUrl" in translated && translated["imageUrl"] == fold["imageUrl"];
    assert "alt" in translated <==> "alt" in fold;
    WithAltSpec(translated, caption);
  }

  /** A non-empty `imageUrl` is captioned: the caption lands under `alt`, a
      ValueError of the captioner becomes an error record and any other
      exception escapes. Otherwise the response has `alt` exactly when the
      request had one. */
  lemma EventCreationAlt(t: LocaleTable, d: Record, tr: Translator, caption: Captioner)
    requires WellFormed(t) && EventFold(t, d, EventCreationFields, tr).Ok? && "imageUrl" in d
    ensures EventCreationOf(t, d, EventCreationFields, tr, caption).Err? <==>
      d["imageUrl"] != Str("") && caption(d["imageUrl"]).RaisesOther?
    ensures d["imageUrl"] == Str("") || caption(d["imageUrl"]).Text? ==>
      && EventCreationOf(t, d, EventCreationFields, tr, caption).Ok?
      && ("alt" in EventCreationOf(t, d, EventCreationFields, tr, caption).value <==> "alt" in d || d["imageUrl"] != Str(""))
    ensures d["imageUrl"] != Str("") && caption(d["imageUrl"]).Text? ==>
      EventCreationOf(t, d, EventCreationFields, tr, caption).value["alt"] == Str(caption(d["imageUrl"]).text)
    ensures d["imageUrl"] != Str("") && caption(d["imageUrl"]).RaisesValueError? ==>
      EventCreationOf(t, d, EventCreationFields, tr, caption) == Ok(ErrorRecord(InvalidDataMessage(caption(d["imageUrl"]).detail)))
  {
    PassesFold(t, "imageUrl");
    PassesFold(t, "alt");
    var fold := EventFold(t, d, EventCreationFields, tr).value;
    EventFoldKeeps(t, d, EventCreationFields, tr, "imageUrl");
    EventFoldKeeps(t, d, EventCreationFields, tr, "alt");
    FinishSpec(fold, caption);
    assert EventCreationOf(t, d, EventCreationFields, tr, caption) == Caught(Finish(fold, caption));
  }

  /** A key whose initial is not that of a translated field passes through
      the fold. */
  lemma PassesFold(t: LocaleTable, k: string)
    requires k != "" && k[0] != 'n' && k[0] != 'd' && k[0] != 's'
    ensures k !in EventCreationFields && k != ShiftTranslations
    ensures forall f :: f in EventCreationFields ==> k !in AllVariantKeys(t, f)
  {
    NotVariantByInitial(t, "name", k);
    NotVariantByInitial(t, "description", k);
    NotVariantByInitial(t, "shiftDirections", k);
  }
}
