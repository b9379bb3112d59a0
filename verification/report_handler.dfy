/** The stand-alone report handler: expands `report` into the four locales
    on a copy of the request and drops the selector, turning KeyError and
    ValueError into an error record. */
module ReportHandler {
  import opened Json
  import opened Locales
  import opened Expansion
  import opened TranslationUtil
  import opened TranslationHandlers

  const ReportFields := ["report"]

  /** What `process_report_translation` returns for request `d` when its
      field list is `fields`. */
  function FieldsTranslation(t: LocaleTable, d: Record, fields: seq<string>, tr: Translator): (r: Result<Record>)
    ensures r.Ok? ==> "language" !in r.value
  {
    Caught(var expanded :- ExpandFields(t, d, fields, tr); Ok(WithoutLanguage(expanded)))
  }

  /** What `process_report_translation` returns for request `d`. */
  function ReportTranslation(d: Record, tr: Translator): (r: Result<Record>)
    ensures r.Ok? ==> "language" !in r.value
  {
    FieldsTranslation(MainTable, d, ReportFields, tr)
  }

  class ReportTranslationHandler {
    const fieldsToTranslate: seq<string>
    const translationTool: TranslationTool

    ghost predicate Valid()
    {
      translationTool.Valid()
    }

    constructor (translate: Translator, aiGeneratedText: map<string, string>)
      ensures Valid() && fieldsToTranslate == ReportFields && translationTool.translate == translate
      ensures translationTool.table == MainTable
    {
      fieldsToTranslate := ReportFields;
      translationTool := new TranslationTool(translate, aiGeneratedText);
    }

    /** `process_report_translation`: the request itself is not modified. */
    method ProcessReportTranslation(json: JsonDict) returns (out: Result<JsonDict>)
      requires Valid()
      ensures Entries(out) == FieldsTranslation(translationTool.table, json.entries, fieldsToTranslate, translationTool.translate)
      ensures out.Ok? ==> fresh(out.value)
    {
      var dataDict := new JsonDict(json.entries);
      var i := 0;
      while i < |fieldsToTranslate|
        invariant 0 <= i <= |fieldsToTranslate| && fresh(dataDict)
        invariant ExpandFields(translationTool.table, json.entries, fieldsToTranslate, translationTool.translate)
               == ExpandFields(translationTool.table, dataDict.entries, fieldsToTranslate[i..], translationTool.translate)
      {
        var raised := translationTool.TranslateField(fieldsToTranslate[i], dataDict);
        assert fieldsToTranslate[i..][1..] == fieldsToTranslate[i + 1..];
        if raised.Some? {
          out := CatchFailure(raised.value);
          return;
        }
        i := i + 1;
      }
      assert fieldsToTranslate[i..] == [];
      assert ExpandFields(translationTool.table, json.entries, fieldsToTranslate, translationTool.translate) == Ok(dataDict.entries);
      if "language" in dataDict.entries {
        dataDict.entries := dataDict.entries - {"language"};
      } else {
        assert dataDict.entries == WithoutLanguage(dataDict.entries);
      }
      return Ok(dataDict);
    }
  }

  lemma ReportFieldsIsField(d: Record, tr: Translator)
    ensures ExpandFields(MainTable, d, ReportFields, tr) == ExpandField(MainTable, d, "report", tr)
  {
    assert ReportFields[1..] == [];
  }

  /** translate_field with a selector that has a model code and a
      translator that always answers. */
  lemma ExpandFieldAllTextContents(t: LocaleTable, d: Record, field: string, tr: Translator)
    requires WellFormed(t)
    requires "language" in d && d["language"].Str? && d["language"].s in t.codes && d["language"].s in t.languages
    requires field in d && d[field].Str?
    requires forall s, a, b :: tr(s, a, b).Text?
    ensures ExpandField(t, d, field, tr).Ok?
    ensures var e := ExpandField(t, d, field, tr).value;
      && e.Keys == (d.Keys - {field}) + AllVariantKeys(t, field)
      && e[VariantKey(t, field, d["language"].s)] == d[field]
      && forall k :: k in d && k != field && k !in AllVariantKeys(t, field) ==> e[k] == d[k]
  {
    ExpandFieldAllText(t, d, field, tr);
    ExpandFieldSpec(t, d, field, tr);
    ExpandFieldVerbatim(t, d, field, tr, d["language"].s);
  }

  /** The report field list with a selector that has a model code and a
      translator that always answers: the report is replaced by its
      variants, the source locale's one verbatim, the selector is dropped
      and everything else is kept. */
  lemma ReportFieldsAllText(t: LocaleTable, d: Record, tr: Translator)
    requires WellFormed(t)
    requires "language" in d && d["language"].Str? && d["language"].s in t.codes && d["language"].s in t.languages
    requires "report" in d && d["report"].Str?
    requires forall s, a, b :: tr(s, a, b).Text?
    ensures FieldsTranslation(t, d, ReportFields, tr).Ok?
    ensures var r := FieldsTranslation(t, d, ReportFields, tr).value;
      r.Keys == (d.Keys - {"report", "language"}) + AllVariantKeys(t, "report")
    ensures var r := FieldsTranslation(t, d, ReportFields, tr).value;
      VariantKey(t, "report", d["language"].s) in r && r[VariantKey(t, "report", d["language"].s)] == d["report"]
    ensures var r := FieldsTranslation(t, d, ReportFields, tr).value;
      forall k :: k in d && k != "language" && k != "report" && k !in AllVariantKeys(t, "report") ==> r[k] == d[k]
  {
    assert ReportFields[1..] == [];
    ExpandFieldAllTextContents(t, d, "report", tr);
    NotVariantByInitial(t, "report", "language");
  }

  /** The same for the handler's own table. */
  lemma ReportTranslationAllText(d: Record, tr: Translator)
    requires "language" in d && d["language"].Str? && d["language"].s in MainTable.codes
    requires "report" in d && d["report"].Str?
    requires forall s, a, b :: tr(s, a, b).Text?
    ensures ReportTranslation(d, tr).Ok?
    ensures ReportTranslation(d, tr).value.Keys == (d.Keys - {"report", "language"}) + AllVariantKeys(MainTable, "report")
    ensures VariantKey(MainTable, "report", d["language"].s) in ReportTranslation(d, tr).value
    ensures ReportTranslation(d, tr).value[VariantKey(MainTable, "report", d["language"].s)] == d["report"]
    ensures forall k :: k in d && k != "language" && k != "report" && k !in AllVariantKeys(MainTable, "report") ==>
      ReportTranslation(d, tr).value[k] == d[k]
  {
    MainTableFourLocales();
    ReportFieldsAllText(MainTable, d, tr);
  }

  /** The error records: no selector; no report; a selector without a model
      code while there is text to translate. */
  lemma ReportTranslationKeyErrors(d: Record, tr: Translator)
    ensures "language" !in d ==> ReportTranslation(d, tr) == Ok(ErrorRecord(MissingKeyMessage("language")))
    ensures "language" in d && "report" !in d ==> ReportTranslation(d, tr) == Ok(ErrorRecord(MissingKeyMessage("report")))
    ensures "language" in d && d["language"].Str? && d["language"].s !in MainTable.codes &&
            "report" in d && d["report"].Str? && d["report"] != Str("") ==>
      ReportTranslation(d, tr) == Ok(ErrorRecord(MissingKeyMessage(d["language"].s)))
  {
    MainTableWellFormed();
    ReportFieldsIsField(d, tr);
    ExpandFieldErrors(MainTable, d, "report", tr);
  }

  /** A translation model that raises ValueError on a non-empty report in a
      known locale yields the `Invalid JSON data` record with its message. */
  lemma ReportTranslationModelFails(d: Record, tr: Translator, detail: string)
    requires "language" in d && d["language"].Str? && d["language"].s in MainTable.codes
    requires "report" in d && d["report"].Str? && d["report"] != Str("")
    requires forall s, a, b :: tr(s, a, b) == RaisesValueError(detail)
    ensures ReportTranslation(d, tr) == Ok(ErrorRecord(InvalidDataMessage(detail)))
  {
    MainTableWellFormed();
    ReportFieldsIsField(d, tr);
    var other := if d["language"] == Str("PL") then "EN" else "PL";
    ExpandFieldModelFails(MainTable, d, "report", tr, detail, other);
  }
}
