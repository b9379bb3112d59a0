/** The locale tables: which locales a record is expanded into, how the variant
    keys are spelled, and which model code each locale maps to. */
module Locales {

  /** `languages` in output order, `codes` from locale to the translation
      model's language code, `separator` between field name and locale in a
      variant key, and whether an empty source text skips the model call. */
  datatype LocaleTable = LocaleTable(
    languages: seq<string>,
    codes: map<string, string>,
    separator: string,
    emptyShortcut: bool)

  /** The tables of TranslationTool and of the app's EventCreationHandler. */
  const MainTable := LocaleTable(
    ["PL", "EN", "UA", "RU"],
    map["PL" := "pl_PL", "EN" := "en_XX", "UA" := "uk_UA", "RU" := "ru_RU"],
    "",
    true)

  /** The table of the stand-alone event creation service, which spells English `ENG`. */
  const EngTable := LocaleTable(
    ["PL", "ENG", "UA", "RU"],
    map["PL" := "pl_PL", "ENG" := "en_XX", "UA" := "uk_UA", "RU" := "ru_RU"],
    "",
    true)

  /** The two-locale table of the first translation service. */
  const LegacyTable := LocaleTable(
    ["pl", "eng"],
    map["pl" := "pl_PL", "eng" := "en_XX"],
    "_",
    false)

  /** The key under which the `lang` rendering of `field` is stored. */
  function VariantKey(t: LocaleTable, field: string, lang: string): string
  {
    field + t.separator + lang
  }

  predicate Distinct(s: seq<string>)
  {
    forall i, j :: 0 <= i < j < |s| ==> s[i] != s[j]
  }

  /** Every locale has a model code, the locales are distinct, and no locale is
      empty or ends in 'e' -- so no variant key can spell `language` (which
      ends in 'e') or the field itself. */
  predicate WellFormed(t: LocaleTable)
  {
    && Distinct(t.languages)
    && forall lang :: lang in t.languages ==>
         lang in t.codes && lang != "" && lang[|lang| - 1] != 'e'
  }

  lemma MainTableWellFormed()
    ensures WellFormed(MainTable)
  {
    var t := MainTable;
    assert Distinct(t.languages);
    forall lang | lang in t.languages
      ensures lang in t.codes && lang != "" && lang[|lang| - 1] != 'e'
    {
      assert lang == "PL" || lang == "EN" || lang == "UA" || lang == "RU";
    }
  }

  /** A well-formed table whose locales are PL, EN, UA and RU, appended to
      the field name directly. */
  predicate FourLocales(t: LocaleTable)
  {
    && WellFormed(t) && t.separator == "" && t.languages == ["PL", "EN", "UA", "RU"]
    && forall code :: code in t.codes ==> code in t.languages
  }

  lemma MainTableFourLocales()
    ensures FourLocales(MainTable) && "EN" in MainTable.codes
  {
    MainTableWellFormed();
    forall code | code in MainTable.codes
      ensures code in MainTable.languages
    {
      assert code == "PL" || code == "EN" || code == "UA" || code == "RU";
    }
  }

  /** Without a separator a variant key is the field name followed by the locale. */
  lemma GluedVariant(t: LocaleTable, field: string, lang: string)
    requires t.separator == ""
    ensures VariantKey(t, field, lang) == field + lang
  {
    assert field + t.separator == field;
  }

  /** The variant keys the unit tests look for, spelled out. */
  lemma ReportSpellings()
    ensures "report" + "PL" == "reportPL" && "report" + "EN" == "reportEN"
    ensures "report" + "UA" == "reportUA" && "report" + "RU" == "reportRU"
  {
  }

  lemma DescriptionSpellings()
    ensures "description" + "PL" == "descriptionPL" && "description" + "EN" == "descriptionEN"
    ensures "description" + "UA" == "descriptionUA" && "description" + "RU" == "descriptionRU"
  {
  }

  lemma FaqSpellings()
    ensures "question" + "PL" == "questionPL" && "question" + "EN" == "questionEN"
    ensures "question" + "UA" == "questionUA" && "question" + "RU" == "questionRU"
    ensures "answer" + "PL" == "answerPL" && "answer" + "EN" == "answerEN"
    ensures "answer" + "UA" == "answerUA" && "answer" + "RU" == "answerRU"
  {
  }

  lemma EventSpellings()
    ensures "name" + "PL" == "namePL" && "description" + "PL" == "descriptionPL"
    ensures "addressDescription" + "PL" == "addressDescriptionPL"
  {
  }

  lemma EngTableWellFormed()
    ensures WellFormed(EngTable)
  {
    var t := EngTable;
    assert Distinct(t.languages);
    forall lang | lang in t.languages
      ensures lang in t.codes && lang != "" && lang[|lang| - 1] != 'e'
    {
      assert lang == "PL" || lang == "ENG" || lang == "UA" || lang == "RU";
    }
  }

  lemma LegacyTableWellFormed()
    ensures WellFormed(LegacyTable)
  {
    var t := LegacyTable;
    assert Distinct(t.languages);
    forall lang | lang in t.languages
      ensures lang in t.codes && lang != "" && lang[|lang| - 1] != 'e'
    {
      assert lang == "pl" || lang == "eng";
    }
  }

  /** Writing a variant key never overwrites the language selector or the
      source field, and distinct locales write distinct keys. */
  lemma {:induction false} VariantKeysApart(t: LocaleTable, field: string, lang: string)
    requires WellFormed(t) && lang in t.languages
    ensures VariantKey(t, field, lang) != "language"
    ensures VariantKey(t, field, lang) != field
    ensures forall other :: VariantKey(t, field, other) == VariantKey(t, field, lang) ==> other == lang
  {
    var k := VariantKey(t, field, lang);
    assert k[|k| - 1] == lang[|lang| - 1];
    assert "language"[7] == 'e';
    assert |k| > |field|;
    forall other | VariantKey(t, field, other) == k
      ensures other == lang
    {
      var prefix := field + t.separator;
      assert VariantKey(t, field, other) == prefix + other;
      assert k == prefix + lang;
      assert other == (prefix + other)[|prefix|..];
      assert lang == (prefix + lang)[|prefix|..];
    }
  }
}
