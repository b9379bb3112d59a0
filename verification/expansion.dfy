/** What the field and array expanders compute, as functions of the record
    they start from, and what is proved about them. The loops of the
    expanders read the record as it stands at each step; these functions do
    the same, and the lemmas show the reads never see an earlier step's
    writes. */
module Expansion {
  import opened Json
  import opened Locales

  /** Per-item keys of an expanded array are this prefix plus the locale,
      whatever the array's own name. */
  const ItemPrefix := "addressDescription"

  /** The key that receives the expanded array. */
  const ShiftTranslations := "shiftTranslations"

  function ItemKey(lang: string): string
  {
    ItemPrefix + lang
  }

  /** The state of a per-locale write loop: the record so far and the
      exception that ended the loop, if any. */
  datatype Progress = Progress(rec: Record, stopped: Option<Failure>)

  function TranslatedValue(tr: Translator, text: string, source: string, target: string): Result<Value>
  {
    match FromReply(tr(text, source, target))
    case Ok(out) => Ok(Str(out))
    case Err(f) => Err(f)
  }

  /** What one iteration of the per-locale loop stores under the `lang`
      variant of `field`, or the exception it raises, reading `d`: the
      source locale gets a verbatim copy, every other locale goes through
      OtherLocaleValue. */
  function FieldValue(t: LocaleTable, d: Record, field: string, lang: string, tr: Translator): Result<Value>
  {
    if "language" !in d then Err(KeyMissing("language"))
    else if d["language"] == Str(lang) then
      if field !in d then Err(KeyMissing(field))
      else if d[field].Str? then Ok(d[field])
      else Err(Crash)
    else OtherLocaleValue(t, d["language"], if field in d then Some(d[field]) else None, field, lang, tr)
  }

  /** A locale other than the source one, given the selector and the source
      field's value (None when it is absent). With the empty shortcut (the
      current expanders) the field is read and compared with "" before the
      model codes are looked up; without it (the first translation service)
      the source code is looked up first and an empty text is translated like
      any other. A list as selector is unhashable, and a list as text is
      not something the model is given here. */
  function OtherLocaleValue(t: LocaleTable, selector: Value, text: Option<Value>, field: string, lang: string, tr: Translator): Result<Value>
  {
    if t.emptyShortcut then
      if text.None? then Err(KeyMissing(field))
      else if text.value == Str("") then Ok(Str(""))
      else if !selector.Str? then Err(Crash)
      else if selector.s !in t.codes then Err(KeyMissing(selector.s))
      else if lang !in t.codes then Err(KeyMissing(lang))
      else if !text.value.Str? then Err(Crash)
      else TranslatedValue(tr, text.value.s, t.codes[selector.s], t.codes[lang])
    else
      if !selector.Str? then Err(Crash)
      else if selector.s !in t.codes then Err(KeyMissing(selector.s))
      else if text.None? then Err(KeyMissing(field))
      else if !text.value.Str? then Err(Crash)
      else if lang !in t.codes then Err(KeyMissing(lang))
      else TranslatedValue(tr, text.value.s, t.codes[selector.s], t.codes[lang])
  }

  /** Every variant the loop writes is a string. */
  lemma FieldValueStr(t: LocaleTable, d: Record, field: string, lang: string, tr: Translator)
    ensures FieldValue(t, d, field, lang, tr).Ok? ==> FieldValue(t, d, field, lang, tr).value.Str?
  {
  }

  /** The first `n` iterations of the per-locale loop over `field`. */
  function FieldRun(t: LocaleTable, d: Record, field: string, tr: Translator, n: nat): Progress
    requires n <= |t.languages|
  {
    if n == 0 then Progress(d, None)
    else
      var p := FieldRun(t, d, field, tr, n - 1);
      if p.stopped.Some? then p
      else
        var lang := t.languages[n - 1];
        match FieldValue(t, p.rec, field, lang, tr)
        case Ok(v) => Progress(p.rec[VariantKey(t, field, lang) := v], None)
        case Err(f) => Progress(p.rec, Some(f))
  }

  /** `translate_field`: all locales written, then the source field deleted. */
  function ExpandField(t: LocaleTable, d: Record, field: string, tr: Translator): Result<Record>
  {
    var p := FieldRun(t, d, field, tr, |t.languages|);
    if p.stopped.Some? then Err(p.stopped.value) else Ok(p.rec - {field})
  }

  ghost function VariantKeys(t: LocaleTable, field: string, n: nat): set<string>
    requires n <= |t.languages|
  {
    set j | 0 <= j < n :: VariantKey(t, field, t.languages[j])
  }

  ghost function AllVariantKeys(t: LocaleTable, field: string): set<string>
  {
    set lang | lang in t.languages :: VariantKey(t, field, lang)
  }

  /** The variants of a field in a four-locale table. */
  lemma FourVariantKeys(t: LocaleTable, field: string)
    requires FourLocales(t)
    ensures AllVariantKeys(t, field) == {field + "PL", field + "EN", field + "UA", field + "RU"}
  {
    var expected := {field + "PL", field + "EN", field + "UA", field + "RU"};
    assert field + t.separator == field;
    forall k | k in AllVariantKeys(t, field)
      ensures k in expected
    {
      var lang :| lang in t.languages && k == VariantKey(t, field, lang);
      assert lang == "PL" || lang == "EN" || lang == "UA" || lang == "RU";
    }
    assert VariantKey(t, field, "PL") == field + "PL";
    assert VariantKey(t, field, "EN") == field + "EN";
    assert VariantKey(t, field, "UA") == field + "UA";
    assert VariantKey(t, field, "RU") == field + "RU";
  }

  /** A key whose first letter differs from the field's is none of its variants. */
  lemma NotVariantByInitial(t: LocaleTable, field: string, k: string)
    requires field != "" && (k == "" || k[0] != field[0])
    ensures k !in AllVariantKeys(t, field)
  {
    forall lang | lang in t.languages
      ensures k != VariantKey(t, field, lang)
    {
      assert VariantKey(t, field, lang)[0] == field[0];
    }
  }

  ghost predicate ValuesOk(t: LocaleTable, d: Record, field: string, tr: Translator, n: nat)
    requires n <= |t.languages|
  {
    forall j :: 0 <= j < n ==> FieldValue(t, d, field, t.languages[j], tr).Ok?
  }

  /** The two records agree on everything FieldValue reads. */
  ghost predicate SameSources(a: Record, b: Record, field: string)
  {
    && ("language" in a <==> "language" in b)
    && ("language" in a ==> a["language"] == b["language"])
    && (field in a <==> field in b)
    && (field in a ==> a[field] == b[field])
  }

  lemma FieldValueFrame(t: LocaleTable, a: Record, b: Record, field: string, lang: string, tr: Translator)
    requires SameSources(a, b, field)
    ensures FieldValue(t, a, field, lang, tr) == FieldValue(t, b, field, lang, tr)
  {
  }

  /** The per-locale loop never touches the selector or the source field. */
  lemma {:induction false} FieldRunSources(t: LocaleTable, d: Record, field: string, tr: Translator, n: nat)
    requires WellFormed(t) && n <= |t.languages|
    ensures SameSources(FieldRun(t, d, field, tr, n).rec, d, field)
  {
    if n > 0 {
      FieldRunSources(t, d, field, tr, n - 1);
      VariantKeysApart(t, field, t.languages[n - 1]);
    }
  }

  /** Once the loop has raised, later iterations do not run. */
  lemma {:induction false} FieldRunStoppedStays(t: LocaleTable, d: Record, field: string, tr: Translator, i: nat, n: nat)
    requires i <= n <= |t.languages| && FieldRun(t, d, field, tr, i).stopped.Some?
    ensures FieldRun(t, d, field, tr, n) == FieldRun(t, d, field, tr, i)
    decreases n - i
  {
    if i < n {
      FieldRunStoppedStays(t, d, field, tr, i, n - 1);
    }
  }

  /** Writing `vals[j]` under `keys[j]` for j < n in order, stopping at the
      first failure: the per-locale loop once its reads are known not to
      change. */
  function WriteRun(d: Record, keys: seq<string>, vals: seq<Result<Value>>, n: nat): Progress
    requires n <= |keys| == |vals|
  {
    if n == 0 then Progress(d, None)
    else
      var p := WriteRun(d, keys, vals, n - 1);
      if p.stopped.Some? then p
      else match vals[n - 1]
        case Ok(v) => Progress(p.rec[keys[n - 1] := v], None)
        case Err(f) => Progress(p.rec, Some(f))
  }

  lemma {:induction false} WriteRunStops(d: Record, keys: seq<string>, vals: seq<Result<Value>>, n: nat)
    requires n <= |keys| == |vals|
    ensures WriteRun(d, keys, vals, n).stopped.None? <==> forall j :: 0 <= j < n ==> vals[j].Ok?
    ensures WriteRun(d, keys, vals, n).stopped.Some? ==>
      exists j :: 0 <= j < n && vals[j] == Err(WriteRun(d, keys, vals, n).stopped.value) &&
        forall i :: 0 <= i < j ==> vals[i].Ok?
  {
    if n > 0 {
      WriteRunStops(d, keys, vals, n - 1);
    }
  }

  /** With every value computed, the run adds exactly the keys. */
  lemma {:induction false} WriteRunKeys(d: Record, keys: seq<string>, vals: seq<Result<Value>>, n: nat)
    requires n <= |keys| == |vals|
    requires forall j :: 0 <= j < n ==> vals[j].Ok?
    ensures WriteRun(d, keys, vals, n).stopped.None?
    ensures WriteRun(d, keys, vals, n).rec.Keys == d.Keys + set j | 0 <= j < n :: keys[j]
  {
    if n > 0 {
      WriteRunKeys(d, keys, vals, n - 1);
      assert (set j | 0 <= j < n :: keys[j]) == (set j | 0 <= j < n - 1 :: keys[j]) + {keys[n - 1]};
    }
  }

  /** With distinct keys, each key holds its own value at the end. */
  lemma {:induction false} WriteRunValues(d: Record, keys: seq<string>, vals: seq<Result<Value>>, n: nat)
    requires n <= |keys| == |vals|
    requires forall i, j :: 0 <= i < j < n ==> keys[i] != keys[j]
    requires forall j :: 0 <= j < n ==> vals[j].Ok?
    ensures forall j :: 0 <= j < n ==>
      keys[j] in WriteRun(d, keys, vals, n).rec && WriteRun(d, keys, vals, n).rec[keys[j]] == vals[j].value
  {
    if n > 0 {
      WriteRunValues(d, keys, vals, n - 1);
      WriteRunKeys(d, keys, vals, n - 1);
      var r := WriteRun(d, keys, vals, n).rec;
      assert r == WriteRun(d, keys, vals, n - 1).rec[keys[n - 1] := vals[n - 1].value];
      forall j | 0 <= j < n - 1
        ensures keys[j] in r && r[keys[j]] == vals[j].value
      {
        assert keys[j] != keys[n - 1];
      }
    }
  }

  /** A key the run never writes keeps its value. */
  lemma {:induction false} WriteRunOthers(d: Record, keys: seq<string>, vals: seq<Result<Value>>, n: nat)
    requires n <= |keys| == |vals|
    requires forall j :: 0 <= j < n ==> vals[j].Ok?
    ensures forall k :: k in d && k !in keys[..n] ==>
      k in WriteRun(d, keys, vals, n).rec && WriteRun(d, keys, vals, n).rec[k] == d[k]
  {
    if n > 0 {
      WriteRunOthers(d, keys, vals, n - 1);
      WriteRunKeys(d, keys, vals, n - 1);
      assert keys[..n] == keys[..n - 1] + [keys[n - 1]];
    }
  }

  lemma WriteRunWrites(d: Record, keys: seq<string>, vals: seq<Result<Value>>, n: nat)
    requires n <= |keys| == |vals|
    requires forall i, j :: 0 <= i < j < n ==> keys[i] != keys[j]
    requires forall j :: 0 <= j < n ==> vals[j].Ok?
    ensures WriteRun(d, keys, vals, n).stopped.None?
    ensures WriteRun(d, keys, vals, n).rec.Keys == d.Keys + set j | 0 <= j < n :: keys[j]
    ensures forall j :: 0 <= j < n ==> WriteRun(d, keys, vals, n).rec[keys[j]] == vals[j].value
    ensures forall k :: k in d && k !in keys[..n] ==> WriteRun(d, keys, vals, n).rec[k] == d[k]
  {
    WriteRunKeys(d, keys, vals, n);
    WriteRunValues(d, keys, vals, n);
    WriteRunOthers(d, keys, vals, n);
  }

  function FieldKeys(t: LocaleTable, field: string): (keys: seq<string>)
    ensures |keys| == |t.languages|
  {
    seq(|t.languages|, j requires 0 <= j < |t.languages| => VariantKey(t, field, t.languages[j]))
  }

  function FieldValues(t: LocaleTable, d: Record, field: string, tr: Translator): (vals: seq<Result<Value>>)
    ensures |vals| == |t.languages|
  {
    seq(|t.languages|, j requires 0 <= j < |t.languages| => FieldValue(t, d, field, t.languages[j], tr))
  }

  /** Because the loop never changes what it reads, it is the plain write
      loop over the values computed from the original record. */
  lemma {:induction false} FieldRunIsWriteRun(t: LocaleTable, d: Record, field: string, tr: Translator, n: nat)
    requires WellFormed(t) && n <= |t.languages|
    ensures FieldRun(t, d, field, tr, n) == WriteRun(d, FieldKeys(t, field), FieldValues(t, d, field, tr), n)
  {
    if n > 0 {
      FieldRunIsWriteRun(t, d, field, tr, n - 1);
      var p := FieldRun(t, d, field, tr, n - 1);
      if p.stopped.None? {
        FieldRunSources(t, d, field, tr, n - 1);
        FieldValueFrame(t, p.rec, d, field, t.languages[n - 1], tr);
      }
    }
  }

  lemma FieldKeysDistinct(t: LocaleTable, field: string)
    requires WellFormed(t)
    ensures forall i, j :: 0 <= i < j < |t.languages| ==> FieldKeys(t, field)[i] != FieldKeys(t, field)[j]
    ensures forall k :: k in FieldKeys(t, field) ==> k != field && k != "language"
    ensures (set j | 0 <= j < |t.languages| :: FieldKeys(t, field)[j]) == AllVariantKeys(t, field)
  {
    var keys := FieldKeys(t, field);
    forall i, j | 0 <= i < j < |t.languages|
      ensures keys[i] != keys[j]
    {
      VariantKeysApart(t, field, t.languages[j]);
    }
    forall k | k in keys
      ensures k != field && k != "language"
    {
      var j :| 0 <= j < |keys| && keys[j] == k;
      VariantKeysApart(t, field, t.languages[j]);
    }
    forall k | k in AllVariantKeys(t, field)
      ensures k in (set j | 0 <= j < |t.languages| :: keys[j])
    {
      var lang :| lang in t.languages && k == VariantKey(t, field, lang);
      var j :| 0 <= j < |t.languages| && t.languages[j] == lang;
      assert keys[j] == k;
    }
  }

  /** translate_field succeeds exactly when every locale's value can be
      computed from the original record. */
  lemma ExpandFieldOk(t: LocaleTable, d: Record, field: string, tr: Translator)
    requires WellFormed(t)
    ensures ExpandField(t, d, field, tr).Ok? <==>
      forall lang :: lang in t.languages ==> FieldValue(t, d, field, lang, tr).Ok?
  {
    var n := |t.languages|;
    var vals := FieldValues(t, d, field, tr);
    FieldRunIsWriteRun(t, d, field, tr, n);
    WriteRunStops(d, FieldKeys(t, field), vals, n);
    if forall lang :: lang in t.languages ==> FieldValue(t, d, field, lang, tr).Ok? {
      assert forall j :: 0 <= j < n ==> vals[j].Ok?;
    }
    if ExpandField(t, d, field, tr).Ok? {
      forall lang | lang in t.languages
        ensures FieldValue(t, d, field, lang, tr).Ok?
      {
        var j :| 0 <= j < n && t.languages[j] == lang;
        assert vals[j].Ok?;
      }
    }
  }

  /** On success translate_field is the plain write loop followed by the
      deletion of the field. */
  lemma ExpandFieldIsWrite(t: LocaleTable, d: Record, field: string, tr: Translator)
    requires WellFormed(t) && ExpandField(t, d, field, tr).Ok?
    ensures forall j :: 0 <= j < |t.languages| ==> FieldValues(t, d, field, tr)[j].Ok?
    ensures ExpandField(t, d, field, tr).value
         == WriteRun(d, FieldKeys(t, field), FieldValues(t, d, field, tr), |t.languages|).rec - {field}
  {
    var n := |t.languages|;
    var keys, vals := FieldKeys(t, field), FieldValues(t, d, field, tr);
    FieldRunIsWriteRun(t, d, field, tr, n);
    WriteRunStops(d, keys, vals, n);
  }

  /** The written record, field still in place, with its key set. */
  lemma ExpandFieldWritten(t: LocaleTable, d: Record, field: string, tr: Translator)
    requires WellFormed(t) && ExpandField(t, d, field, tr).Ok?
    ensures forall j :: 0 <= j < |t.languages| ==> FieldValues(t, d, field, tr)[j].Ok?
    ensures var r := WriteRun(d, FieldKeys(t, field), FieldValues(t, d, field, tr), |t.languages|).rec;
      && ExpandField(t, d, field, tr).value == r - {field}
      && r.Keys == d.Keys + AllVariantKeys(t, field)
      && (forall j :: 0 <= j < |t.languages| ==> r[FieldKeys(t, field)[j]] == FieldValues(t, d, field, tr)[j].value)
      && (forall k :: k in d && k !in FieldKeys(t, field) ==> r[k] == d[k])
  {
    ExpandFieldIsWrite(t, d, field, tr);
    var n := |t.languages|;
    var keys, vals := FieldKeys(t, field), FieldValues(t, d, field, tr);
    FieldKeysDistinct(t, field);
    WriteRunWrites(d, keys, vals, n);
    assert keys[..n] == keys;
  }

  /** A successful translate_field holds the variant keys instead of the
      source field, and nothing else changes its key set. */
  lemma ExpandFieldKeys(t: LocaleTable, d: Record, field: string, tr: Translator)
    requires WellFormed(t) && ExpandField(t, d, field, tr).Ok?
    ensures ExpandField(t, d, field, tr).value.Keys == (d.Keys - {field}) + AllVariantKeys(t, field)
    ensures field !in ExpandField(t, d, field, tr).value
  {
    ExpandFieldWritten(t, d, field, tr);
    FieldKeysDistinct(t, field);
    assert field !in AllVariantKeys(t, field);
  }

  /** Each variant holds the value computed from the original record. */
  lemma ExpandFieldVariants(t: LocaleTable, d: Record, field: string, tr: Translator)
    requires WellFormed(t) && ExpandField(t, d, field, tr).Ok?
    ensures forall lang :: lang in t.languages ==> FieldValue(t, d, field, lang, tr).Ok?
    ensures forall lang :: lang in t.languages ==>
      && VariantKey(t, field, lang) in ExpandField(t, d, field, tr).value
      && ExpandField(t, d, field, tr).value[VariantKey(t, field, lang)] == FieldValue(t, d, field, lang, tr).value
  {
    ExpandFieldOk(t, d, field, tr);
    ExpandFieldKeys(t, d, field, tr);
    ExpandFieldWritten(t, d, field, tr);
    FieldKeysDistinct(t, field);
    var n := |t.languages|;
    var keys, vals := FieldKeys(t, field), FieldValues(t, d, field, tr);
    var e := ExpandField(t, d, field, tr).value;
    forall lang | lang in t.languages
      ensures VariantKey(t, field, lang) in e && e[VariantKey(t, field, lang)] == FieldValue(t, d, field, lang, tr).value
    {
      var j :| 0 <= j < n && t.languages[j] == lang;
      assert VariantKey(t, field, lang) in AllVariantKeys(t, field);
      assert keys[j] == VariantKey(t, field, lang);
      assert vals[j] == FieldValue(t, d, field, lang, tr);
    }
  }

  /** Every key other than the field and its variants keeps its value. */
  lemma ExpandFieldOthers(t: LocaleTable, d: Record, field: string, tr: Translator)
    requires WellFormed(t) && ExpandField(t, d, field, tr).Ok?
    ensures forall k :: k in d && k != field && k !in AllVariantKeys(t, field) ==>
      k in ExpandField(t, d, field, tr).value && ExpandField(t, d, field, tr).value[k] == d[k]
  {
    ExpandFieldWritten(t, d, field, tr);
    FieldKeysDistinct(t, field);
    var e := ExpandField(t, d, field, tr).value;
    forall k | k in d && k != field && k !in AllVariantKeys(t, field)
      ensures k in e && e[k] == d[k]
    {
      assert k !in FieldKeys(t, field);
    }
  }

  /** A successful translate_field holds the variant keys instead of the
      source field, each with the value computed from the original record,
      and every other key unchanged. */
  lemma ExpandFieldContents(t: LocaleTable, d: Record, field: string, tr: Translator)
    requires WellFormed(t) && ExpandField(t, d, field, tr).Ok?
    ensures forall lang :: lang in t.languages ==> FieldValue(t, d, field, lang, tr).Ok?
    ensures ExpandField(t, d, field, tr).value.Keys == (d.Keys - {field}) + AllVariantKeys(t, field)
    ensures field !in ExpandField(t, d, field, tr).value
    ensures forall lang :: lang in t.languages ==>
      ExpandField(t, d, field, tr).value[VariantKey(t, field, lang)] == FieldValue(t, d, field, lang, tr).value
    ensures forall k :: k in d && k != field && k !in AllVariantKeys(t, field) ==>
      ExpandField(t, d, field, tr).value[k] == d[k]
  {
    ExpandFieldKeys(t, d, field, tr);
    ExpandFieldVariants(t, d, field, tr);
    ExpandFieldOthers(t, d, field, tr);
  }

  /** A failing translate_field raises the failure of the first locale that
      fails. */
  lemma ExpandFieldFailure(t: LocaleTable, d: Record, field: string, tr: Translator)
    requires WellFormed(t) && ExpandField(t, d, field, tr).Err?
    ensures exists j ::
      && 0 <= j < |t.languages|
      && ValuesOk(t, d, field, tr, j)
      && FieldValue(t, d, field, t.languages[j], tr) == Err(ExpandField(t, d, field, tr).failure)
  {
    var n := |t.languages|;
    var keys, vals := FieldKeys(t, field), FieldValues(t, d, field, tr);
    FieldRunIsWriteRun(t, d, field, tr, n);
    var p := WriteRun(d, keys, vals, n);
    assert p.stopped == Some(ExpandField(t, d, field, tr).failure);
    WriteRunStops(d, keys, vals, n);
    var j :| 0 <= j < n && vals[j] == Err(p.stopped.value) && forall i :: 0 <= i < j ==> vals[i].Ok?;
    assert ValuesOk(t, d, field, tr, j) by {
      forall i | 0 <= i < j
        ensures FieldValue(t, d, field, t.languages[i], tr).Ok?
      {
        assert vals[i] == FieldValue(t, d, field, t.languages[i], tr);
      }
    }
    assert vals[j] == FieldValue(t, d, field, t.languages[j], tr);
  }

  lemma ExpandFieldSpec(t: LocaleTable, d: Record, field: string, tr: Translator)
    requires WellFormed(t)
    ensures ExpandField(t, d, field, tr).Ok? <==>
      forall lang :: lang in t.languages ==> FieldValue(t, d, field, lang, tr).Ok?
    ensures ExpandField(t, d, field, tr).Ok? ==>
      var e := ExpandField(t, d, field, tr).value;
      && e.Keys == (d.Keys - {field}) + AllVariantKeys(t, field)
      && field !in e
      && (forall lang :: lang in t.languages ==>
            e[VariantKey(t, field, lang)] == FieldValue(t, d, field, lang, tr).value)
      && (forall k :: k in d && k != field && k !in AllVariantKeys(t, field) ==> e[k] == d[k])
    ensures ExpandField(t, d, field, tr).Err? ==>
      exists j ::
        && 0 <= j < |t.languages|
        && ValuesOk(t, d, field, tr, j)
        && FieldValue(t, d, field, t.languages[j], tr) == Err(ExpandField(t, d, field, tr).failure)
  {
    ExpandFieldOk(t, d, field, tr);
    if ExpandField(t, d, field, tr).Ok? {
      ExpandFieldContents(t, d, field, tr);
    } else {
      ExpandFieldFailure(t, d, field, tr);
    }
  }

  /** The source locale's variant is the original text, verbatim. */
  lemma ExpandFieldVerbatim(t: LocaleTable, d: Record, field: string, tr: Translator, lang: string)
    requires WellFormed(t) && lang in t.languages
    requires "language" in d && d["language"] == Str(lang)
    requires ExpandField(t, d, field, tr).Ok?
    ensures field in d && d[field].Str?
    ensures VariantKey(t, field, lang) in ExpandField(t, d, field, tr).value
    ensures ExpandField(t, d, field, tr).value[VariantKey(t, field, lang)] == d[field]
  {
    ExpandFieldSpec(t, d, field, tr);
  }

  /** Every other locale's variant is the model's translation of the text,
      from the source locale's code to that locale's code; with the empty
      shortcut an empty text is the one exception (see ExpandFieldEmpty). */
  lemma ExpandFieldTranslated(t: LocaleTable, d: Record, field: string, tr: Translator, lang: string)
    requires WellFormed(t) && lang in t.languages
    requires "language" in d && d["language"] != Str(lang)
    requires t.emptyShortcut ==> field in d && d[field] != Str("")
    requires ExpandField(t, d, field, tr).Ok?
    ensures d["language"].Str? && d["language"].s in t.codes
    ensures field in d && d[field].Str?
    ensures tr(d[field].s, t.codes[d["language"].s], t.codes[lang]).Text?
    ensures VariantKey(t, field, lang) in ExpandField(t, d, field, tr).value
    ensures ExpandField(t, d, field, tr).value[VariantKey(t, field, lang)]
         == Str(tr(d[field].s, t.codes[d["language"].s], t.codes[lang]).text)
  {
    ExpandFieldSpec(t, d, field, tr);
  }

  /** With the empty shortcut an empty text expands to "" in every locale,
      whatever the source locale, and the translator is never consulted: the
      result is the same for any translator. */
  lemma ExpandFieldEmpty(t: LocaleTable, d: Record, field: string, tr: Translator, other: Translator)
    requires WellFormed(t) && t.emptyShortcut
    requires "language" in d && field in d && d[field] == Str("")
    ensures ExpandField(t, d, field, tr).Ok?
    ensures forall lang :: lang in t.languages ==>
      VariantKey(t, field, lang) in ExpandField(t, d, field, tr).value &&
      ExpandField(t, d, field, tr).value[VariantKey(t, field, lang)] == Str("")
    ensures ExpandField(t, d, field, other) == ExpandField(t, d, field, tr)
  {
    var n := |t.languages|;
    forall j | 0 <= j < n
      ensures FieldValue(t, d, field, t.languages[j], tr) == FieldValue(t, d, field, t.languages[j], other) == Ok(Str(""))
    {
    }
    assert FieldValues(t, d, field, tr) == FieldValues(t, d, field, other);
    FieldRunIsWriteRun(t, d, field, tr, n);
    FieldRunIsWriteRun(t, d, field, other, n);
    ExpandFieldOk(t, d, field, tr);
    ExpandFieldVariants(t, d, field, tr);
  }

  /** When every locale fails alike, translate_field raises that failure. */
  lemma ExpandFieldUniformFailure(t: LocaleTable, d: Record, field: string, tr: Translator, f: Failure)
    requires WellFormed(t) && |t.languages| > 0
    requires forall lang :: lang in t.languages ==> FieldValue(t, d, field, lang, tr) == Err(f)
    ensures ExpandField(t, d, field, tr) == Err(f)
  {
    ExpandFieldSpec(t, d, field, tr);
    assert FieldValue(t, d, field, t.languages[0], tr).Err?;
  }

  /** When the model raises the same ValueError for every call, a
      non-empty text in a known locale makes translate_field raise it. */
  lemma ExpandFieldModelFails(t: LocaleTable, d: Record, field: string, tr: Translator, detail: string, other: string)
    requires WellFormed(t) && t.emptyShortcut
    requires "language" in d && d["language"].Str? && d["language"].s in t.codes
    requires other in t.languages && d["language"] != Str(other)
    requires field in d && d[field].Str? && d[field] != Str("")
    requires forall s, a, b :: tr(s, a, b) == RaisesValueError(detail)
    ensures ExpandField(t, d, field, tr) == Err(ValueFault(detail))
  {
    ExpandFieldOk(t, d, field, tr);
    assert FieldValue(t, d, field, other, tr).Err?;
    ExpandFieldFailure(t, d, field, tr);
    var j :| 0 <= j < |t.languages| && FieldValue(t, d, field, t.languages[j], tr) == Err(ExpandField(t, d, field, tr).failure);
    assert FieldValue(t, d, field, t.languages[j], tr) == Err(ValueFault(detail));
  }

  /** The KeyErrors of translate_field: no selector; no source field; a
      selector with no model code while there is text to translate. */
  lemma ExpandFieldErrors(t: LocaleTable, d: Record, field: string, tr: Translator)
    requires WellFormed(t) && |t.languages| > 0
    ensures "language" !in d ==>
      ExpandField(t, d, field, tr) == Err(KeyMissing("language"))
    ensures "language" in d && field !in d &&
            (t.emptyShortcut || (d["language"].Str? && d["language"].s in t.codes)) ==>
      ExpandField(t, d, field, tr) == Err(KeyMissing(field))
    ensures "language" in d && d["language"].Str? && d["language"].s !in t.codes &&
            field in d && d[field].Str? && (t.emptyShortcut ==> d[field] != Str("")) ==>
      ExpandField(t, d, field, tr) == Err(KeyMissing(d["language"].s))
  {
    if "language" !in d {
      ExpandFieldUniformFailure(t, d, field, tr, KeyMissing("language"));
    } else if field !in d && (t.emptyShortcut || (d["language"].Str? && d["language"].s in t.codes)) {
      ExpandFieldUniformFailure(t, d, field, tr, KeyMissing(field));
    } else if d["language"].Str? && d["language"].s !in t.codes && field in d && d[field].Str? &&
              (t.emptyShortcut ==> d[field] != Str("")) {
      ExpandFieldUniformFailure(t, d, field, tr, KeyMissing(d["language"].s));
    }
  }

  // ---------------------------------------------------------------------
  // Array expansion

  /** What one item gets in the `lang` locale: the item itself in the source
      locale, "" for an empty item, and otherwise the model's translation. */
  function ItemValue(t: LocaleTable, d: Record, direction: string, lang: string, tr: Translator): Result<string>
  {
    if "language" !in d then Err(KeyMissing("language"))
    else if d["language"] == Str(lang) then Ok(direction)
    else if direction == "" then Ok("")
    else match d["language"]
      case Str(src) =>
        if src !in t.codes then Err(KeyMissing(src))
        else if lang !in t.codes then Err(KeyMissing(lang))
        else FromReply(tr(direction, t.codes[src], t.codes[lang]))
      case _ => Err(Crash)
  }

  /** The inner loop of `translate_array`: the first `n` locales of one item. */
  function ItemRun(t: LocaleTable, d: Record, direction: string, tr: Translator, n: nat): Result<map<string, string>>
    requires n <= |t.languages|
  {
    if n == 0 then Ok(map[])
    else
      var m :- ItemRun(t, d, direction, tr, n - 1);
      var v :- ItemValue(t, d, direction, t.languages[n - 1], tr);
      Ok(m[ItemKey(t.languages[n - 1]) := v])
  }

  /** The outer loop of `translate_array`: the records of the first `n` items. */
  function ItemsRun(t: LocaleTable, d: Record, items: seq<string>, tr: Translator, n: nat): Result<seq<map<string, string>>>
    requires n <= |items|
  {
    if n == 0 then Ok([])
    else
      var recs :- ItemsRun(t, d, items, tr, n - 1);
      var m :- ItemRun(t, d, items[n - 1], tr, |t.languages|);
      Ok(recs + [m])
  }

  /** What `for direction in data` iterates over: the strings of a list, the
      characters of a string. A record item goes through the locale loop
      too and raises there (RecordItemFailure). */
  function ArrayItems(t: LocaleTable, d: Record, v: Value): Result<seq<string>>
  {
    match v
    case StrList(items) => Ok(items)
    case Str(s) => Ok(Chars(s))
    case RecordList(records) =>
      if records == [] then Ok([])
      else match RecordItemFailure(t, d, t.languages)
        case Some(f) => Err(f)
        case None => Err(Crash)
  }

  /** What the locale loop of `translate_array` raises on a record item,
      locale by locale: the selector is read and compared with the locale;
      the source locale stores the record, any other locale looks up the two
      model codes and then hands the record to the model, which is not
      modelled (Crash). A record is never "", so there is no shortcut. None
      when every locale is the source one, which only a one-locale table
      allows. */
  function RecordItemFailure(t: LocaleTable, d: Record, langs: seq<string>): Option<Failure>
  {
    if langs == [] then None
    else if "language" !in d then Some(KeyMissing("language"))
    else if d["language"] == Str(langs[0]) then RecordItemFailure(t, d, langs[1..])
    else match d["language"]
      case Str(src) =>
        if src !in t.codes then Some(KeyMissing(src))
        else if langs[0] !in t.codes then Some(KeyMissing(langs[0]))
        else Some(Crash)
      case _ => Some(Crash)
  }

  /** `translate_array`: the item records go under `shiftTranslations`,
      then `array_name` is deleted, whatever it is. */
  function ExpandArray(t: LocaleTable, d: Record, name: string, tr: Translator): Result<Record>
  {
    if name !in d then Err(KeyMissing(name))
    else
      var items :- ArrayItems(t, d, d[name]);
      var recs :- ItemsRun(t, d, items, tr, |items|);
      Ok(d[ShiftTranslations := RecordList(recs)] - {name})
  }

  ghost function ItemKeys(t: LocaleTable): set<string>
  {
    set lang | lang in t.languages :: ItemKey(lang)
  }

  lemma ItemKeyInjective(a: string, b: string)
    requires ItemKey(a) == ItemKey(b)
    ensures a == b
  {
    assert a == ItemKey(a)[|ItemPrefix|..];
    assert b == ItemKey(b)[|ItemPrefix|..];
  }

  /** An item whose locale fails makes its whole record fail. */
  lemma {:induction false} ItemRunErrStays(t: LocaleTable, d: Record, direction: string, tr: Translator, i: nat, n: nat)
    requires i <= n <= |t.languages| && ItemRun(t, d, direction, tr, i).Err?
    ensures ItemRun(t, d, direction, tr, n) == ItemRun(t, d, direction, tr, i)
    decreases n - i
  {
    if i < n {
      ItemRunErrStays(t, d, direction, tr, i, n - 1);
    }
  }

  /** A failing item makes the whole array fail. */
  lemma {:induction false} ItemsRunErrStays(t: LocaleTable, d: Record, items: seq<string>, tr: Translator, i: nat, n: nat)
    requires i <= n <= |items| && ItemsRun(t, d, items, tr, i).Err?
    ensures ItemsRun(t, d, items, tr, n) == ItemsRun(t, d, items, tr, i)
    decreases n - i
  {
    if i < n {
      ItemsRunErrStays(t, d, items, tr, i, n - 1);
    }
  }

  /** One item's record fails exactly when some locale fails, with the
      failure of one of them. */
  lemma {:induction false} ItemRunOk(t: LocaleTable, d: Record, direction: string, tr: Translator, n: nat)
    requires n <= |t.languages|
    ensures ItemRun(t, d, direction, tr, n).Ok? <==>
      forall j :: 0 <= j < n ==> ItemValue(t, d, direction, t.languages[j], tr).Ok?
    ensures ItemRun(t, d, direction, tr, n).Err? ==>
      exists j :: 0 <= j < n &&
        ItemValue(t, d, direction, t.languages[j], tr) == Err(ItemRun(t, d, direction, tr, n).failure)
  {
    if n > 0 {
      ItemRunOk(t, d, direction, tr, n - 1);
    }
  }

  /** A successful item record has exactly one key per locale. */
  lemma {:induction false} ItemRunKeys(t: LocaleTable, d: Record, direction: string, tr: Translator, n: nat)
    requires n <= |t.languages|
    requires ItemRun(t, d, direction, tr, n).Ok?
    ensures ItemRun(t, d, direction, tr, n).value.Keys == (set j | 0 <= j < n :: ItemKey(t.languages[j]))
  {
    if n > 0 {
      ItemRunKeys(t, d, direction, tr, n - 1);
      var lang := t.languages[n - 1];
      assert ItemRun(t, d, direction, tr, n).value.Keys == ItemRun(t, d, direction, tr, n - 1).value.Keys + {ItemKey(lang)};
      assert (set j | 0 <= j < n :: ItemKey(t.languages[j]))
          == (set j | 0 <= j < n - 1 :: ItemKey(t.languages[j])) + {ItemKey(lang)};
    }
  }

  /** Each locale's key in a successful item record holds that locale's
      ItemValue. */
  lemma {:induction false} ItemRunValues(t: LocaleTable, d: Record, direction: string, tr: Translator, n: nat)
    requires WellFormed(t) && n <= |t.languages|
    requires ItemRun(t, d, direction, tr, n).Ok?
    ensures forall j :: 0 <= j < n ==>
      && ItemValue(t, d, direction, t.languages[j], tr).Ok?
      && ItemKey(t.languages[j]) in ItemRun(t, d, direction, tr, n).value
      && ItemRun(t, d, direction, tr, n).value[ItemKey(t.languages[j])] == ItemValue(t, d, direction, t.languages[j], tr).value
  {
    if n > 0 {
      ItemRunValues(t, d, direction, tr, n - 1);
      var lang := t.languages[n - 1];
      var prev := ItemRun(t, d, direction, tr, n - 1).value;
      var m := ItemRun(t, d, direction, tr, n).value;
      assert m == prev[ItemKey(lang) := ItemValue(t, d, direction, lang, tr).value];
      forall j | 0 <= j < n - 1
        ensures ItemKey(t.languages[j]) in m && m[ItemKey(t.languages[j])] == prev[ItemKey(t.languages[j])]
      {
        if ItemKey(t.languages[j]) == ItemKey(lang) {
          ItemKeyInjective(t.languages[j], lang);
        }
      }
    }
  }

  /** One item's record has exactly one key per locale, each holding that
      locale's ItemValue; it fails exactly when some locale fails, with the
      first failure. */
  lemma ItemRunSpec(t: LocaleTable, d: Record, direction: string, tr: Translator, n: nat)
    requires WellFormed(t) && n <= |t.languages|
    ensures ItemRun(t, d, direction, tr, n).Ok? <==>
      forall j :: 0 <= j < n ==> ItemValue(t, d, direction, t.languages[j], tr).Ok?
    ensures ItemRun(t, d, direction, tr, n).Ok? ==>
      var m := ItemRun(t, d, direction, tr, n).value;
      && m.Keys == (set j | 0 <= j < n :: ItemKey(t.languages[j]))
      && forall j :: 0 <= j < n ==>
           m[ItemKey(t.languages[j])] == ItemValue(t, d, direction, t.languages[j], tr).value
    ensures ItemRun(t, d, direction, tr, n).Err? ==>
      exists j :: 0 <= j < n &&
        ItemValue(t, d, direction, t.languages[j], tr) == Err(ItemRun(t, d, direction, tr, n).failure)
  {
    ItemRunOk(t, d, direction, tr, n);
    if ItemRun(t, d, direction, tr, n).Ok? {
      ItemRunKeys(t, d, direction, tr, n);
      ItemRunValues(t, d, direction, tr, n);
    }
  }

  lemma ItemRunFull(t: LocaleTable, d: Record, direction: string, tr: Translator)
    requires WellFormed(t)
    ensures ItemRun(t, d, direction, tr, |t.languages|).Ok? <==>
      forall lang :: lang in t.languages ==> ItemValue(t, d, direction, lang, tr).Ok?
    ensures ItemRun(t, d, direction, tr, |t.languages|).Ok? ==>
      var m := ItemRun(t, d, direction, tr, |t.languages|).value;
      && m.Keys == ItemKeys(t)
      && forall lang :: lang in t.languages ==> m[ItemKey(lang)] == ItemValue(t, d, direction, lang, tr).value
  {
    var n := |t.languages|;
    ItemRunSpec(t, d, direction, tr, n);
    assert (set j | 0 <= j < n :: ItemKey(t.languages[j])) == ItemKeys(t) by {
      forall k | k in ItemKeys(t)
        ensures k in (set j | 0 <= j < n :: ItemKey(t.languages[j]))
      {
        var lang :| lang in t.languages && k == ItemKey(lang);
        var j :| 0 <= j < n && t.languages[j] == lang;
      }
    }
    if ItemRun(t, d, direction, tr, n).Ok? {
      forall lang | lang in t.languages
        ensures ItemValue(t, d, direction, lang, tr).Ok?
      {
        var j :| 0 <= j < n && t.languages[j] == lang;
      }
    }
  }

  /** The item records come in input order, one per item. */
  lemma {:induction false} ItemsRunSpec(t: LocaleTable, d: Record, items: seq<string>, tr: Translator, n: nat)
    requires n <= |items|
    ensures ItemsRun(t, d, items, tr, n).Ok? <==>
      forall i :: 0 <= i < n ==> ItemRun(t, d, items[i], tr, |t.languages|).Ok?
    ensures ItemsRun(t, d, items, tr, n).Ok? ==>
      var recs := ItemsRun(t, d, items, tr, n).value;
      && |recs| == n
      && forall i :: 0 <= i < n ==> ItemRun(t, d, items[i], tr, |t.languages|) == Ok(recs[i])
  {
    if n > 0 {
      ItemsRunSpec(t, d, items, tr, n - 1);
    }
  }

  /** translate_array succeeds exactly when the array is present, iterable,
      and every item translates in every locale. */
  lemma ExpandArrayOk(t: LocaleTable, d: Record, name: string, tr: Translator)
    requires WellFormed(t)
    ensures ExpandArray(t, d, name, tr).Ok? <==>
      && name in d && ArrayItems(t, d, d[name]).Ok?
      && forall i, lang :: 0 <= i < |ArrayItems(t, d, d[name]).value| && lang in t.languages ==>
           ItemValue(t, d, ArrayItems(t, d, d[name]).value[i], lang, tr).Ok?
  {
    if name in d && ArrayItems(t, d, d[name]).Ok? {
      var items := ArrayItems(t, d, d[name]).value;
      ItemsRunSpec(t, d, items, tr, |items|);
      if ExpandArray(t, d, name, tr).Ok? {
        forall i, lang | 0 <= i < |items| && lang in t.languages
          ensures ItemValue(t, d, items[i], lang, tr).Ok?
        {
          ItemRunFull(t, d, items[i], tr);
        }
      }
      if forall i, lang :: 0 <= i < |items| && lang in t.languages ==> ItemValue(t, d, items[i], lang, tr).Ok? {
        forall i | 0 <= i < |items|
          ensures ItemRun(t, d, items[i], tr, |t.languages|).Ok?
        {
          ItemRunFull(t, d, items[i], tr);
        }
      }
    }
  }

  /** The records of a successful outer loop, one per item, each with exactly
      the per-locale item keys. */
  lemma ItemsRunRecords(t: LocaleTable, d: Record, items: seq<string>, tr: Translator)
    requires WellFormed(t) && ItemsRun(t, d, items, tr, |items|).Ok?
    ensures var recs := ItemsRun(t, d, items, tr, |items|).value;
      && |recs| == |items|
      && forall i :: 0 <= i < |items| ==>
           && recs[i].Keys == ItemKeys(t)
           && forall lang :: lang in t.languages ==>
                ItemValue(t, d, items[i], lang, tr).Ok? && recs[i][ItemKey(lang)] == ItemValue(t, d, items[i], lang, tr).value
  {
    ItemsRunSpec(t, d, items, tr, |items|);
    var recs := ItemsRun(t, d, items, tr, |items|).value;
    forall i | 0 <= i < |items|
      ensures recs[i].Keys == ItemKeys(t)
      ensures forall lang :: lang in t.languages ==>
        ItemValue(t, d, items[i], lang, tr).Ok? && recs[i][ItemKey(lang)] == ItemValue(t, d, items[i], lang, tr).value
    {
      ItemRunFull(t, d, items[i], tr);
    }
  }

  /** translate_array succeeds exactly when the array is present, iterable,
      and every item translates in every locale. It then stores one record
      per item, in input order, each with exactly the per-locale item keys;
      the array key is gone (so naming the array `shiftTranslations`
      deletes the result) and nothing else changes. */
  lemma ExpandArraySpec(t: LocaleTable, d: Record, name: string, tr: Translator)
    requires WellFormed(t)
    ensures ExpandArray(t, d, name, tr).Ok? <==>
      && name in d && ArrayItems(t, d, d[name]).Ok?
      && forall i, lang :: 0 <= i < |ArrayItems(t, d, d[name]).value| && lang in t.languages ==>
           ItemValue(t, d, ArrayItems(t, d, d[name]).value[i], lang, tr).Ok?
    ensures ExpandArray(t, d, name, tr).Ok? ==>
      var items := ArrayItems(t, d, d[name]).value;
      var e := ExpandArray(t, d, name, tr).value;
      && e.Keys == (d.Keys + {ShiftTranslations}) - {name}
      && (forall k :: k in d && k != name && k != ShiftTranslations ==> e[k] == d[k])
      && (name != ShiftTranslations ==>
            && e[ShiftTranslations].RecordList?
            && |e[ShiftTranslations].records| == |items|
            && forall i :: 0 <= i < |items| ==>
                 && e[ShiftTranslations].records[i].Keys == ItemKeys(t)
                 && forall lang :: lang in t.languages ==>
                      e[ShiftTranslations].records[i][ItemKey(lang)] == ItemValue(t, d, items[i], lang, tr).value)
  {
    ExpandArrayOk(t, d, name, tr);
    if ExpandArray(t, d, name, tr).Ok? && name != ShiftTranslations {
      var items := ArrayItems(t, d, d[name]).value;
      assert ExpandArray(t, d, name, tr).value[ShiftTranslations] == RecordList(ItemsRun(t, d, items, tr, |items|).value);
      ItemsRunRecords(t, d, items, tr);
    }
  }

  /** An empty array expands to an empty list without reading the selector. */
  lemma ExpandArrayEmpty(t: LocaleTable, d: Record, name: string, tr: Translator)
    requires name in d && d[name] == StrList([])
    ensures ExpandArray(t, d, name, tr) == Ok(d[ShiftTranslations := RecordList([])] - {name})
  {
  }

  /** A non-empty list of records is never expanded: without a selector it
      raises KeyError('language'), with a string selector that has no model
      code KeyError of that selector, and otherwise the model is handed a
      record. */
  lemma ExpandArrayRecords(t: LocaleTable, d: Record, name: string, tr: Translator)
    requires WellFormed(t) && |t.languages| >= 2
    requires name in d && d[name].RecordList? && d[name].records != []
    ensures "language" !in d ==> ExpandArray(t, d, name, tr) == Err(KeyMissing("language"))
    ensures "language" in d && d["language"].Str? && d["language"].s !in t.codes ==>
      ExpandArray(t, d, name, tr) == Err(KeyMissing(d["language"].s))
    ensures "language" in d && (d["language"].Str? ==> d["language"].s in t.codes) ==>
      ExpandArray(t, d, name, tr) == Err(Crash)
  {
    var langs := t.languages;
    assert langs[0] in langs && langs[1] in langs;
    if "language" in d && d["language"] == Str(langs[0]) {
      assert langs[1..][0] == langs[1];
      assert RecordItemFailure(t, d, langs) == RecordItemFailure(t, d, langs[1..]);
    }
  }
}
