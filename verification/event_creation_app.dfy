/** The stand-alone event creation service: expands `name`, `description`
    and `addressDescription` as plain fields over the PL, ENG, UA, RU
    locales, drops the selector and captions a non-empty image. Unlike the
    app package's handler it keeps `imageUrl`. */
module EventCreationApp {
  import opened Json
  import opened Locales
  import opened Expansion
  import opened TranslationUtil
  import opened TranslationHandlers
  import opened EventHandler

  const AppFields := ["name", "description", "addressDescription"]

  /** What follows the loop of `translate_json`: drop the selector, then
      caption a non-empty image. */
  function AppFinish(translated: Record, caption: Captioner): (r: Result<Record>)
    ensures r.Ok? ==> "language" !in r.value && "imageUrl" in r.value
  {
    WithAlt(WithoutLanguage(translated), caption)
  }

  /** What `translate_json` returns for request `d`. */
  function AppTranslation(t: LocaleTable, d: Record, tr: Translator, caption: Captioner): (r: Result<Record>)
    ensures r.Ok? ==> "language" !in r.value
  {
    Caught(var translated :- ExpandFields(t, d, AppFields, tr); AppFinish(translated, caption))
  }

  class EventCreationHandler {
    const translationTool: TranslationTool
    const caption: Captioner

    ghost predicate Valid()
    {
      translationTool.Valid()
    }

    /** The locales PL, ENG, UA, RU with their model codes. */
    constructor (translate: Translator, caption: Captioner)
      ensures Valid() && translationTool.table == EngTable
      ensures translationTool.translate == translate && this.caption == caption
    {
      EngTableWellFormed();
      translationTool := new TranslationTool.WithTable(EngTable, translate, map[]);
      this.caption := caption;
    }

    /** `translate_json`: works on a copy; the request itself is not
        modified. */
    method TranslateJson(json: JsonDict) returns (out: Result<JsonDict>)
      requires Valid()
      ensures Entries(out) == AppTranslation(translationTool.table, json.entries, translationTool.translate, caption)
      ensures out.Ok? ==> fresh(out.value)
    {
      var dataDict := new JsonDict(json.entries);
      var raised := TranslateKeys(dataDict);
      ghost var spec := AppTranslation(translationTool.table, json.entries, translationTool.translate, caption);
      if raised.Some? {
        assert spec == Caught(Err(raised.value));
        out := CatchFailure(raised.value);
      } else {
        assert spec == Caught(AppFinish(dataDict.entries, caption));
        out := FinishJson(dataDict);
      }
    }

    /** The loop of `translate_json` over the three fields. */
    method TranslateKeys(dataDict: JsonDict) returns (raised: Option<Failure>)
      requires Valid()
      modifies dataDict
      ensures raised.None? ==> ExpandFields(translationTool.table, old(dataDict.entries), AppFields, translationTool.translate) == Ok(dataDict.entries)
      ensures raised.Some? ==> ExpandFields(translationTool.table, old(dataDict.entries), AppFields, translationTool.translate) == Err(raised.value)
    {
      ghost var original := dataDict.entries;
      var keys := AppFields;
      var i := 0;
      while i < |keys|
        invariant 0 <= i <= |keys|
        invariant ExpandFields(translationTool.table, original, keys, translationTool.translate)
               == ExpandFields(translationTool.table, dataDict.entries, keys[i..], translationTool.translate)
      {
        raised := translationTool.TranslateField(keys[i], dataDict);
        assert keys[i..][1..] == keys[i + 1..];
        if raised.Some? {
          return;
        }
        i := i + 1;
      }
      assert keys[i..] == [];
      raised := None;
    }

    /** The rest of `translate_json`, on the translated dict. */
    method FinishJson(dataDict: JsonDict) returns (out: Result<JsonDict>)
      modifies dataDict
      ensures Entries(out) == Caught(AppFinish(old(dataDict.entries), caption))
      ensures out.Ok? ==> out.value == dataDict || fresh(out.value)
    {
      ghost var translated := dataDict.entries;
      if "language" in dataDict.entries {
        dataDict.entries := dataDict.entries - {"language"};
      } else {
        assert dataDict.entries == WithoutLanguage(dataDict.entries);
      }
      assert dataDict.entries == WithoutLanguage(translated);
      if "imageUrl" !in dataDict.entries {
        out := CatchFailure(KeyMissing("imageUrl"));
        return;
      }
      if dataDict.entries["imageUrl"] != Str("") {
        var alt := FromReply(caption(dataDict.entries["imageUrl"]));
        if alt.Err? {
          out := CatchFailure(alt.failure);
          return;
        }
        dataDict.entries := dataDict.entries["alt" := Str(alt.value)];
      }
      return Ok(dataDict);
    }
  }

  // ---------------------------------------------------------------------
  // Properties

  /** A key no longer than a field is none of its variants. */
  lemma ShortNotVariant(t: LocaleTable, field: string, k: string)
    requires WellFormed(t) && |k| <= |field|
    ensures k !in AllVariantKeys(t, field)
  {
    forall lang | lang in t.languages
      ensures k != VariantKey(t, field, lang)
    {
      assert |VariantKey(t, field, lang)| > |field|;
    }
  }

  /** The three fields are distinct and none is a variant of another. */
  lemma AppFieldsApart(t: LocaleTable)
    ensures forall i, j :: 0 <= i < j < |AppFields| ==>
      AppFields[i] != AppFields[j] && AppFields[j] !in AllVariantKeys(t, AppFields[i])
    ensures forall i, j :: 0 <= i < |AppFields| && 0 <= j < |AppFields| && i != j ==>
      AppFields[i] !in AllVariantKeys(t, AppFields[j])
  {
    NotVariantByInitial(t, "name", "description");
    NotVariantByInitial(t, "name", "addressDescription");
    NotVariantByInitial(t, "description", "name");
    NotVariantByInitial(t, "description", "addressDescription");
    NotVariantByInitial(t, "addressDescription", "name");
    NotVariantByInitial(t, "addressDescription", "description");
  }

  /** `imageUrl` and `alt` are neither fields nor variants of one. */
  lemma ImageKeysPass(t: LocaleTable)
    requires WellFormed(t)
    ensures "imageUrl" !in AppFields && "alt" !in AppFields
    ensures forall f :: f in AppFields ==> "imageUrl" !in AllVariantKeys(t, f) && "alt" !in AllVariantKeys(t, f)
  {
    NotVariantByInitial(t, "name", "imageUrl");
    NotVariantByInitial(t, "description", "imageUrl");
    NotVariantByInitial(t, "addressDescription", "imageUrl");
    NotVariantByInitial(t, "name", "alt");
    NotVariantByInitial(t, "description", "alt");
    ShortNotVariant(t, "addressDescription", "alt");
  }

  /** The field loop with a selector that has a model code, string fields
      and a translator that always answers: every variant of the three
      fields is written, the fields themselves are gone, and `imageUrl` and
      `alt` are as sent. */
  lemma AppFoldAllText(t: LocaleTable, d: Record, tr: Translator)
    requires WellFormed(t) && "language" in d && d["language"].Str? && d["language"].s in t.codes
    requires forall f :: f in AppFields ==> f in d && d[f].Str?
    requires forall s, a, b :: tr(s, a, b).Text?
    ensures ExpandFields(t, d, AppFields, tr).Ok?
    ensures var r := ExpandFields(t, d, AppFields, tr).value;
      forall i, lang :: 0 <= i < |AppFields| && lang in t.languages ==> VariantKey(t, AppFields[i], lang) in r
    ensures var r := ExpandFields(t, d, AppFields, tr).value;
      forall f :: f in AppFields ==> f !in r
    ensures var r := ExpandFields(t, d, AppFields, tr).value;
      && ("imageUrl" in r <==> "imageUrl" in d) && ("imageUrl" in d ==> r["imageUrl"] == d["imageUrl"])
      && ("alt" in r <==> "alt" in d)
  {
    AppFieldsApart(t);
    ExpandFieldsAllText(t, d, AppFields, tr);
    ExpandFieldsKeys(t, d, AppFields, tr);
    var r := ExpandFields(t, d, AppFields, tr).value;
    forall i, lang | 0 <= i < |AppFields| && lang in t.languages
      ensures VariantKey(t, AppFields[i], lang) in r
    {
      assert VariantKey(t, AppFields[i], lang) in AllVariantKeys(t, AppFields[i]);
      forall j | i < j < |AppFields|
        ensures AppFields[j] != VariantKey(t, AppFields[i], lang)
      {
      }
    }
    forall f | f in AppFields
      ensures f !in r
    {
      var i :| 0 <= i < |AppFields| && AppFields[i] == f;
      forall g | g in AppFields[i + 1..]
        ensures f !in AllVariantKeys(t, g)
      {
        var j :| i + 1 <= j < |AppFields| && AppFields[j] == g;
      }
    }
    ImageKeysPass(t);
    ExpandFieldsKeeps(t, d, AppFields, tr, "imageUrl");
    ExpandFieldsKeeps(t, d, AppFields, tr, "alt");
  }

  /** The steps after the loop on a record that has `imageUrl`: the
      reference is kept, `alt` is there exactly when the request had one or
      the image is non-empty, and a captioner's ValueError becomes an
      error record. */
  lemma AppFinishSpec(translated: Record, caption: Captioner)
    requires "imageUrl" in translated
    ensures Caught(AppFinish(translated, caption)).Err? <==>
      translated["imageUrl"] != Str("") && caption(translated["imageUrl"]).RaisesOther?
    ensures translated["imageUrl"] == Str("") || caption(translated["imageUrl"]).Text? ==>
      && AppFinish(translated, caption).Ok?
      && AppFinish(translated, caption).value["imageUrl"] == translated["imageUrl"]
      && ("alt" in AppFinish(translated, caption).value <==> "alt" in translated || translated["imageUrl"] != Str(""))
    ensures translated["imageUrl"] != Str("") && caption(translated["imageUrl"]).Text? ==>
      AppFinish(translated, caption).value["alt"] == Str(caption(translated["imageUrl"]).text)
    ensures translated["imageUrl"] != Str("") && caption(translated["imageUrl"]).RaisesValueError? ==>
      Caught(AppFinish(translated, caption)) == Ok(ErrorRecord(InvalidDataMessage(caption(translated["imageUrl"]).detail)))
  {
    var dropped := WithoutLanguage(translated);
    assert "imageUrl" in dropped && dropped["imageUrl"] == translated["imageUrl"];
    assert "alt" in dropped <==> "alt" in translated;
    WithAltSpec(dropped, caption);
  }

  /** A request with a selector that has a model code, the three fields as
      strings and an image the captioner can describe (or none): the
      response has every variant of the three fields, none of the fields,
      no selector, the image reference as sent, and `alt` exactly when the
      image is non-empty (or the request had one). */
  lemma AppTranslationAllText(t: LocaleTable, d: Record, tr: Translator, caption: Captioner)
    requires WellFormed(t) && "language" in d && d["language"].Str? && d["language"].s in t.codes
    requires forall f :: f in AppFields ==> f in d && d[f].Str?
    requires forall s, a, b :: tr(s, a, b).Text?
    requires "imageUrl" in d && (d["imageUrl"] == Str("") || caption(d["imageUrl"]).Text?)
    ensures AppTranslation(t, d, tr, caption).Ok?
    ensures var r := AppTranslation(t, d, tr, caption).value;
      forall i, lang :: 0 <= i < |AppFields| && lang in t.languages ==> VariantKey(t, AppFields[i], lang) in r
    ensures var r := AppTranslation(t, d, tr, caption).value;
      && (forall f :: f in AppFields ==> f !in r)
      && "imageUrl" in r && r["imageUrl"] == d["imageUrl"]
      && ("alt" in r <==> "alt" in d || d["imageUrl"] != Str(""))
  {
    AppFoldAllText(t, d, tr);
    var translated := ExpandFields(t, d, AppFields, tr).value;
    AppFinishSpec(translated, caption);
    assert AppTranslation(t, d, tr, caption) == AppFinish(translated, caption);
    var r := AppFinish(translated, caption).value;
    forall i, lang | 0 <= i < |AppFields| && lang in t.languages
      ensures VariantKey(t, AppFields[i], lang) in r
    {
      VariantKeysApart(t, AppFields[i], lang);
    }
  }

  /** A request without the selector gets `Missing key: 'language'`. */
  lemma AppNoSelector(t: LocaleTable, d: Record, tr: Translator, caption: Captioner)
    requires WellFormed(t) && |t.languages| > 0
    requires "language" !in d
    ensures AppTranslation(t, d, tr, caption) == Ok(ErrorRecord(MissingKeyMessage("language")))
  {
    ExpandFieldsNoLanguage(t, d, AppFields, tr);
  }

  /** A request that translates but has no `imageUrl` gets
      `Missing key: 'imageUrl'`. */
  lemma AppNoImage(t: LocaleTable, d: Record, tr: Translator, caption: Captioner)
    requires WellFormed(t) && ExpandFields(t, d, AppFields, tr).Ok?
    requires "imageUrl" !in d
    ensures AppTranslation(t, d, tr, caption) == Ok(ErrorRecord(MissingKeyMessage("imageUrl")))
  {
    ImageKeysPass(t);
    ExpandFieldsKeeps(t, d, AppFields, tr, "imageUrl");
    var dropped := WithoutLanguage(ExpandFields(t, d, AppFields, tr).value);
    assert "imageUrl" !in dropped;
    assert AppFinish(ExpandFields(t, d, AppFields, tr).value, caption) == Err(KeyMissing("imageUrl"));
  }

  /** A translation model that raises ValueError on a non-empty name in a
      known locale yields the `Invalid JSON data` record with its message. */
  lemma AppModelFails(t: LocaleTable, d: Record, tr: Translator, caption: Captioner, detail: string, other: string)
    requires WellFormed(t) && t.emptyShortcut
    requires "language" in d && d["language"].Str? && d["language"].s in t.codes
    requires other in t.languages && d["language"] != Str(other)
    requires "name" in d && d["name"].Str? && d["name"] != Str("")
    requires forall s, a, b :: tr(s, a, b) == RaisesValueError(detail)
    ensures AppTranslation(t, d, tr, caption) == Ok(ErrorRecord(InvalidDataMessage(detail)))
  {
    ExpandFieldModelFails(t, d, "name", tr, detail, other);
    assert ExpandFields(t, d, AppFields, tr) == Err(ValueFault(detail));
  }

  /** The service's table spells English `ENG`: the variants of a field are
      the field name followed by PL, ENG, UA and RU. */
  lemma EngVariantKeys(field: string)
    ensures AllVariantKeys(EngTable, field) == {field + "PL", field + "ENG", field + "UA", field + "RU"}
  {
    var t := EngTable;
    var expected := {field + "PL", field + "ENG", field + "UA", field + "RU"};
    assert field + t.separator == field;
    forall k | k in AllVariantKeys(t, field)
      ensures k in expected
    {
      var lang :| lang in t.languages && k == VariantKey(t, field, lang);
      assert lang == "PL" || lang == "ENG" || lang == "UA" || lang == "RU";
    }
    assert VariantKey(t, field, "PL") == field + "PL";
    assert VariantKey(t, field, "ENG") == field + "ENG";
    assert VariantKey(t, field, "UA") == field + "UA";
    assert VariantKey(t, field, "RU") == field + "RU";
  }
}
