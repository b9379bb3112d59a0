/** The translation tool: the locale tables, the translation capability, and
    the two expanders that rewrite a record in place. */
module TranslationUtil {
  import opened Json
  import opened Locales
  import opened Expansion

  class TranslationTool {
    const table: LocaleTable
    const translate: Translator
    /** The per-locale note `add_info_about_ai` appends. The tool reads it as
        an attribute but never defines it, so it is supplied here. */
    const aiGeneratedText: map<string, string>

    ghost predicate Valid()
    {
      WellFormed(table) && table.emptyShortcut
    }

    /** `TranslationTool()`: the four locales PL, EN, UA, RU and their model codes. */
    constructor (translate: Translator, aiGeneratedText: map<string, string>)
      ensures Valid()
      ensures table == MainTable && this.translate == translate && this.aiGeneratedText == aiGeneratedText
    {
      MainTableWellFormed();
      table := MainTable;
      this.translate := translate;
      this.aiGeneratedText := aiGeneratedText;
    }

    /** A tool with the same expanders over another table of the same kind. */
    constructor WithTable(table: LocaleTable, translate: Translator, aiGeneratedText: map<string, string>)
      requires WellFormed(table) && table.emptyShortcut
      ensures Valid()
      ensures this.table == table && this.translate == translate && this.aiGeneratedText == aiGeneratedText
    {
      this.table := table;
      this.translate := translate;
      this.aiGeneratedText := aiGeneratedText;
    }

    /** The body of `translate_field`'s loop for one locale, reading the
        dictionary as it stands: the value to store, or the exception raised. */
    method LocaleValue(field: string, lang: string, d: Record) returns (r: Result<Value>)
      requires table.emptyShortcut
      ensures r == FieldValue(table, d, field, lang, translate)
    {
      if "language" !in d {
        return Err(KeyMissing("language"));
      }
      if d["language"] == Str(lang) {
        if field !in d {
          return Err(KeyMissing(field));
        }
        // the verbatim copy is an f-string of the field; only strings are modelled
        if !d[field].Str? {
          return Err(Crash);
        }
        return Ok(d[field]);
      }
      if field !in d {
        return Err(KeyMissing(field));
      }
      if d[field] == Str("") {
        return Ok(Str(""));
      }
      var selector := d["language"];
      if !selector.Str? {
        return Err(Crash);
      }
      if selector.s !in table.codes {
        return Err(KeyMissing(selector.s));
      }
      if lang !in table.codes {
        return Err(KeyMissing(lang));
      }
      if !d[field].Str? {
        return Err(Crash);
      }
      match translate(d[field].s, table.codes[selector.s], table.codes[lang])
      case Text(out) => return Ok(Str(out));
      case RaisesValueError(detail) => return Err(ValueFault(detail));
      case RaisesOther => return Err(Crash);
    }

    /** `translate_field`: writes one variant of `field` per locale into
        `dictionary`, then deletes `field`. When it raises, the variants
        written so far stay in the dictionary. */
    method TranslateField(field: string, dictionary: JsonDict) returns (raised: Option<Failure>)
      requires Valid()
      modifies dictionary
      ensures raised.None? ==> ExpandField(table, old(dictionary.entries), field, translate) == Ok(dictionary.entries)
      ensures raised.Some? ==> ExpandField(table, old(dictionary.entries), field, translate) == Err(raised.value)
      ensures raised.Some? ==>
        dictionary.entries == FieldRun(table, old(dictionary.entries), field, translate, |table.languages|).rec
    {
      ghost var d0 := dictionary.entries;
      var n := |table.languages|;
      var i := 0;
      while i < n
        invariant 0 <= i <= n
        invariant FieldRun(table, d0, field, translate, i) == Progress(dictionary.entries, None)
      {
        var lang := table.languages[i];
        var value := LocaleValue(field, lang, dictionary.entries);
        if value.Err? {
          FieldRunStoppedStays(table, d0, field, translate, i + 1, n);
          return Some(value.failure);
        }
        dictionary.entries := dictionary.entries[field + table.separator + lang := value.value];
        i := i + 1;
      }
      if field in dictionary.entries {
        dictionary.entries := dictionary.entries - {field};
      } else {
        assert dictionary.entries - {field} == dictionary.entries;
      }
      return None;
    }

    /** The body of `translate_array`'s inner loop for one item and one
        locale: the string to store, or the exception raised. */
    method ItemLocaleValue(direction: string, lang: string, d: Record) returns (r: Result<string>)
      ensures r == ItemValue(table, d, direction, lang, translate)
    {
      if "language" !in d {
        return Err(KeyMissing("language"));
      }
      if d["language"] == Str(lang) {
        return Ok(direction);
      }
      if direction == "" {
        return Ok("");
      }
      var selector := d["language"];
      if !selector.Str? {
        return Err(Crash);
      }
      if selector.s !in table.codes {
        return Err(KeyMissing(selector.s));
      }
      if lang !in table.codes {
        return Err(KeyMissing(lang));
      }
      match translate(direction, table.codes[selector.s], table.codes[lang])
      case Text(out) => return Ok(out);
      case RaisesValueError(detail) => return Err(ValueFault(detail));
      case RaisesOther => return Err(Crash);
    }

    /** `translate_array`: builds one record per item of `arrayName`, keyed
        by ItemKey, stores the list under `shiftTranslations`, then deletes
        `arrayName`. The dictionary is changed only when nothing is raised. */
    method TranslateArray(arrayName: string, dictionary: JsonDict) returns (raised: Option<Failure>)
      modifies dictionary
      ensures raised.None? ==> ExpandArray(table, old(dictionary.entries), arrayName, translate) == Ok(dictionary.entries)
      ensures raised.Some? ==> ExpandArray(table, old(dictionary.entries), arrayName, translate) == Err(raised.value)
      ensures raised.Some? ==> dictionary.entries == old(dictionary.entries)
    {
      var d := dictionary.entries;
      if arrayName !in d {
        return Some(KeyMissing(arrayName));
      }
      var items;
      match ArrayItems(table, d, d[arrayName]) {
        case Err(f) => return Some(f);
        case Ok(xs) => items := xs;
      }
      var shiftTranslations: seq<map<string, string>> := [];
      var k := 0;
      while k < |items|
        invariant 0 <= k <= |items|
        invariant ItemsRun(table, d, items, translate, k) == Ok(shiftTranslations)
        invariant dictionary.entries == d
      {
        var direction := items[k];
        var single: map<string, string> := map[];
        var i := 0;
        while i < |table.languages|
          invariant 0 <= i <= |table.languages|
          invariant ItemRun(table, d, direction, translate, i) == Ok(single)
          invariant dictionary.entries == d
        {
          var lang := table.languages[i];
          var value := ItemLocaleValue(direction, lang, d);
          if value.Err? {
            ItemRunErrStays(table, d, direction, translate, i + 1, |table.languages|);
            ItemsRunErrStays(table, d, items, translate, k + 1, |items|);
            return Some(value.failure);
          }
          single := single[ItemKey(lang) := value.value];
          i := i + 1;
        }
        shiftTranslations := shiftTranslations + [single];
        k := k + 1;
      }
      dictionary.entries := d[ShiftTranslations := RecordList(shiftTranslations)] - {arrayName};
      return None;
    }
  }
}
