/** The first translation service: writes `<key>_pl` and `<key>_eng` for
    `title`, `description` and `address_description`, translating every
    non-source locale (an empty text too), and only after all keys are
    written deletes the selector and the three source keys. */
module LegacyTranslations {
  import opened Json
  import opened Locales
  import opened Expansion

  const LegacyKeys := ["title", "description", "address_description"]

  /** The keys deleted at the end, when present. */
  const Dropped := {"language", "title", "description", "address_description"}

  /** The inner loop for one key: every locale's variant written, the key
      itself kept. */
  function WriteVariants(t: LocaleTable, d: Record, key: string, tr: Translator): Result<Record>
  {
    var p := FieldRun(t, d, key, tr, |t.languages|);
    if p.stopped.Some? then Err(p.stopped.value) else Ok(p.rec)
  }

  /** The outer loop over the keys. */
  function VariantsFold(t: LocaleTable, d: Record, keys: seq<string>, tr: Translator): Result<Record>
    decreases |keys|
  {
    if keys == [] then Ok(d)
    else
      var next :- WriteVariants(t, d, keys[0], tr);
      VariantsFold(t, next, keys[1..], tr)
  }

  /** What `translate_json` returns for request `d`. */
  function LegacyTranslation(t: LocaleTable, d: Record, tr: Translator): (r: Result<Record>)
    ensures r.Ok? ==> forall k :: k in Dropped ==> k !in r.value
  {
    Caught(var written :- VariantsFold(t, d, LegacyKeys, tr); Ok(written - Dropped))
  }

  /** The body of the inner loop for one key and one locale, reading the
      dictionary as it stands: the source code is looked up before the text
      is read, and an empty text is translated like any other. */
  method LocaleValue(t: LocaleTable, key: string, lang: string, d: Record, tr: Translator) returns (r: Result<Value>)
    requires !t.emptyShortcut
    ensures r == FieldValue(t, d, key, lang, tr)
  {
    if "language" !in d {
      return Err(KeyMissing("language"));
    }
    if d["language"] == Str(lang) {
      if key !in d {
        return Err(KeyMissing(key));
      }
      // the verbatim copy is an f-string of the value; only strings are modelled
      if !d[key].Str? {
        return Err(Crash);
      }
      return Ok(d[key]);
    }
    var selector := d["language"];
    if !selector.Str? {
      return Err(Crash);
    }
    if selector.s !in t.codes {
      return Err(KeyMissing(selector.s));
    }
    if key !in d {
      return Err(KeyMissing(key));
    }
    if !d[key].Str? {
      return Err(Crash);
    }
    if lang !in t.codes {
      return Err(KeyMissing(lang));
    }
    match tr(d[key].s, t.codes[selector.s], t.codes[lang])
    case Text(out) => return Ok(Str(out));
    case RaisesValueError(detail) => return Err(ValueFault(detail));
    case RaisesOther => return Err(Crash);
  }

  /** The inner loop of `translate_json` for one key: write each locale's
      variant into `dataDict`. */
  method WriteKeyVariants(t: LocaleTable, key: string, dataDict: JsonDict, tr: Translator) returns (raised: Option<Failure>)
    requires !t.emptyShortcut
    modifies dataDict
    ensures raised.None? ==> WriteVariants(t, old(dataDict.entries), key, tr) == Ok(dataDict.entries)
    ensures raised.Some? ==> WriteVariants(t, old(dataDict.entries), key, tr) == Err(raised.value)
  {
    ghost var before := dataDict.entries;
    var i := 0;
    while i < |t.languages|
      invariant 0 <= i <= |t.languages|
      invariant FieldRun(t, before, key, tr, i) == Progress(dataDict.entries, None)
    {
      var lang := t.languages[i];
      var value := LocaleValue(t, key, lang, dataDict.entries, tr);
      if value.Err? {
        FieldRunStoppedStays(t, before, key, tr, i + 1, |t.languages|);
        return Some(value.failure);
      }
      dataDict.entries := dataDict.entries[key + t.separator + lang := value.value];
      i := i + 1;
    }
    raised := None;
  }

  /** The outer loop of `translate_json`: every key's variants in turn. */
  method WriteAllVariants(t: LocaleTable, dataDict: JsonDict, tr: Translator) returns (raised: Option<Failure>)
    requires !t.emptyShortcut
    modifies dataDict
    ensures raised.None? ==> VariantsFold(t, old(dataDict.entries), LegacyKeys, tr) == Ok(dataDict.entries)
    ensures raised.Some? ==> VariantsFold(t, old(dataDict.entries), LegacyKeys, tr) == Err(raised.value)
  {
    ghost var original := dataDict.entries;
    var keys := LegacyKeys;
    var k := 0;
    while k < |keys|
      invariant 0 <= k <= |keys|
      invariant VariantsFold(t, original, keys, tr) == VariantsFold(t, dataDict.entries, keys[k..], tr)
    {
      assert keys[k..][0] == keys[k] && keys[k..][1..] == keys[k + 1..];
      raised := WriteKeyVariants(t, keys[k], dataDict, tr);
      if raised.Some? {
        return;
      }
      k := k + 1;
    }
    assert keys[k..] == [];
    raised := None;
  }

  /** The deletions at the end of `translate_json`, each only when the key
      is present. */
  method DropSourceKeys(dataDict: JsonDict)
    modifies dataDict
    ensures dataDict.entries == old(dataDict.entries) - Dropped
  {
    if "language" in dataDict.entries {
      dataDict.entries := dataDict.entries - {"language"};
    }
    if "title" in dataDict.entries {
      dataDict.entries := dataDict.entries - {"title"};
    }
    if "description" in dataDict.entries {
      dataDict.entries := dataDict.entries - {"description"};
    }
    if "address_description" in dataDict.entries {
      dataDict.entries := dataDict.entries - {"address_description"};
    }
  }

  /** `translate_json`: works on a copy; the request itself is not modified. */
  method TranslateJson(json: JsonDict, translate: Translator) returns (out: Result<JsonDict>)
    ensures Entries(out) == LegacyTranslation(LegacyTable, json.entries, translate)
    ensures out.Ok? ==> fresh(out.value)
  {
    var dataDict := new JsonDict(json.entries);
    var raised := WriteAllVariants(LegacyTable, dataDict, translate);
    if raised.Some? {
      out := CatchFailure(raised.value);
      return;
    }
    DropSourceKeys(dataDict);
    return Ok(dataDict);
  }

  // ---------------------------------------------------------------------
  // Properties of one key's loop

  /** The loop for one key succeeds exactly when every locale's value can be
      computed from the record it starts from. */
  lemma WriteVariantsOk(t: LocaleTable, d: Record, key: string, tr: Translator)
    requires WellFormed(t)
    ensures WriteVariants(t, d, key, tr).Ok? <==> forall lang :: lang in t.languages ==> FieldValue(t, d, key, lang, tr).Ok?
  {
    ExpandFieldOk(t, d, key, tr);
  }

  /** On success it adds exactly the variants of the key, each holding the
      value computed from the original record, and keeps everything else. */
  lemma WriteVariantsContents(t: LocaleTable, d: Record, key: string, tr: Translator)
    requires WellFormed(t) && WriteVariants(t, d, key, tr).Ok?
    ensures WriteVariants(t, d, key, tr).value.Keys == d.Keys + AllVariantKeys(t, key)
    ensures forall lang :: lang in t.languages ==> FieldValue(t, d, key, lang, tr).Ok?
    ensures forall lang :: lang in t.languages ==>
      WriteVariants(t, d, key, tr).value[VariantKey(t, key, lang)] == FieldValue(t, d, key, lang, tr).value
    ensures forall x :: x in d && x !in AllVariantKeys(t, key) ==> WriteVariants(t, d, key, tr).value[x] == d[x]
  {
    var n := |t.languages|;
    var keys, vals := FieldKeys(t, key), FieldValues(t, d, key, tr);
    WriteVariantsOk(t, d, key, tr);
    ExpandFieldWritten(t, d, key, tr);
    FieldRunIsWriteRun(t, d, key, tr, n);
    FieldKeysDistinct(t, key);
    var r := WriteVariants(t, d, key, tr).value;
    forall lang | lang in t.languages
      ensures r[VariantKey(t, key, lang)] == FieldValue(t, d, key, lang, tr).value
    {
      var j :| 0 <= j < n && t.languages[j] == lang;
      assert keys[j] == VariantKey(t, key, lang);
      assert vals[j] == FieldValue(t, d, key, lang, tr);
    }
    forall x | x in d && x !in AllVariantKeys(t, key)
      ensures r[x] == d[x]
    {
      assert x !in keys;
    }
  }

  /** A failing loop raises the failure of the first locale that fails. */
  lemma WriteVariantsFailure(t: LocaleTable, d: Record, key: string, tr: Translator)
    requires WellFormed(t) && WriteVariants(t, d, key, tr).Err?
    ensures exists lang :: lang in t.languages && FieldValue(t, d, key, lang, tr) == Err(WriteVariants(t, d, key, tr).failure)
  {
    ExpandFieldFailure(t, d, key, tr);
    var j :| 0 <= j < |t.languages| && FieldValue(t, d, key, t.languages[j], tr) == Err(ExpandField(t, d, key, tr).failure);
    assert t.languages[j] in t.languages;
  }

  /** When the first locale fails, the loop raises its failure. */
  lemma WriteVariantsFirstFails(t: LocaleTable, d: Record, key: string, tr: Translator)
    requires |t.languages| > 0 && FieldValue(t, d, key, t.languages[0], tr).Err?
    ensures WriteVariants(t, d, key, tr) == Err(FieldValue(t, d, key, t.languages[0], tr).failure)
  {
    FieldRunStoppedStays(t, d, key, tr, 1, |t.languages|);
  }

  // ---------------------------------------------------------------------
  // Properties of the outer loop

  /** Keys with distinct initials: no key's variant is another key. */
  ghost predicate InitialsApart(keys: seq<string>)
  {
    && (forall i :: 0 <= i < |keys| ==> keys[i] != "")
    && forall i, j :: 0 <= i < j < |keys| ==> keys[i][0] != keys[j][0]
  }

  /** `x` is none of the keys' variants. */
  ghost predicate Untouched(t: LocaleTable, keys: seq<string>, x: string)
  {
    forall i :: 0 <= i < |keys| ==> x !in AllVariantKeys(t, keys[i])
  }

  lemma InitialsApartTail(keys: seq<string>)
    requires InitialsApart(keys) && keys != []
    ensures InitialsApart(keys[1..])
  {
    var rest := keys[1..];
    forall i, j | 0 <= i < j < |rest|
      ensures rest[i][0] != rest[j][0]
    {
      assert rest[i] == keys[i + 1] && rest[j] == keys[j + 1];
    }
  }

  /** After the first key's loop, every later key reads what it would have
      read in the original record. */
  lemma NextSameSources(t: LocaleTable, d: Record, keys: seq<string>, tr: Translator, i: nat)
    requires WellFormed(t) && InitialsApart(keys) && 1 <= i < |keys|
    requires WriteVariants(t, d, keys[0], tr).Ok?
    ensures SameSources(WriteVariants(t, d, keys[0], tr).value, d, keys[i])
  {
    WriteVariantsContents(t, d, keys[0], tr);
    LanguageNotVariantKey(t, keys[0]);
    NotVariantByInitial(t, keys[0], keys[i]);
  }

  /** The selector is none of a key's variants. */
  lemma LanguageNotVariantKey(t: LocaleTable, key: string)
    requires WellFormed(t)
    ensures "language" !in AllVariantKeys(t, key)
  {
    forall lang | lang in t.languages
      ensures VariantKey(t, key, lang) != "language"
    {
      VariantKeysApart(t, key, lang);
    }
  }

  /** The outer loop succeeds exactly when every key's every locale can be
      computed from the original record. */
  lemma {:induction false} VariantsFoldOk(t: LocaleTable, d: Record, keys: seq<string>, tr: Translator)
    requires WellFormed(t) && InitialsApart(keys)
    ensures VariantsFold(t, d, keys, tr).Ok? <==>
      forall i, lang :: 0 <= i < |keys| && lang in t.languages ==> FieldValue(t, d, keys[i], lang, tr).Ok?
    decreases |keys|
  {
    if keys != [] {
      WriteVariantsOk(t, d, keys[0], tr);
      if WriteVariants(t, d, keys[0], tr).Ok? {
        var next := WriteVariants(t, d, keys[0], tr).value;
        var rest := keys[1..];
        InitialsApartTail(keys);
        VariantsFoldOk(t, next, rest, tr);
        forall i, lang | 1 <= i < |keys| && lang in t.languages
          ensures FieldValue(t, next, keys[i], lang, tr) == FieldValue(t, d, keys[i], lang, tr)
        {
          NextSameSources(t, d, keys, tr, i);
          FieldValueFrame(t, next, d, keys[i], lang, tr);
        }
        forall i, lang | 0 <= i < |rest| && lang in t.languages
          ensures FieldValue(t, next, rest[i], lang, tr) == FieldValue(t, d, keys[i + 1], lang, tr)
        {
          assert rest[i] == keys[i + 1];
        }
      } else {
        var lang :| lang in t.languages && FieldValue(t, d, keys[0], lang, tr).Err?;
      }
    }
  }

  /** On success every variant of every key holds the value computed from
      the original record, and every key that is no variant keeps its
      presence and its value. */
  lemma {:induction false} VariantsFoldContents(t: LocaleTable, d: Record, keys: seq<string>, tr: Translator)
    requires WellFormed(t) && InitialsApart(keys) && VariantsFold(t, d, keys, tr).Ok?
    ensures forall i, lang :: 0 <= i < |keys| && lang in t.languages ==> FieldValue(t, d, keys[i], lang, tr).Ok?
    ensures forall i, lang :: 0 <= i < |keys| && lang in t.languages ==>
      && VariantKey(t, keys[i], lang) in VariantsFold(t, d, keys, tr).value
      && VariantsFold(t, d, keys, tr).value[VariantKey(t, keys[i], lang)] == FieldValue(t, d, keys[i], lang, tr).value
    ensures forall x :: Untouched(t, keys, x) ==>
      && (x in VariantsFold(t, d, keys, tr).value <==> x in d)
      && (x in d ==> VariantsFold(t, d, keys, tr).value[x] == d[x])
    decreases |keys|
  {
    VariantsFoldOk(t, d, keys, tr);
    if keys != [] {
      var next := WriteVariants(t, d, keys[0], tr).value;
      var rest := keys[1..];
      var r := VariantsFold(t, d, keys, tr).value;
      assert r == VariantsFold(t, next, rest, tr).value;
      WriteVariantsContents(t, d, keys[0], tr);
      InitialsApartTail(keys);
      VariantsFoldContents(t, next, rest, tr);
      forall i, lang | 0 <= i < |keys| && lang in t.languages
        ensures VariantKey(t, keys[i], lang) in r && r[VariantKey(t, keys[i], lang)] == FieldValue(t, d, keys[i], lang, tr).value
      {
        if i == 0 {
          var k := VariantKey(t, keys[0], lang);
          assert k in AllVariantKeys(t, keys[0]);
          forall j | 0 <= j < |rest|
            ensures k !in AllVariantKeys(t, rest[j])
          {
            assert rest[j] == keys[j + 1];
            assert k[0] == keys[0][0];
            NotVariantByInitial(t, rest[j], k);
          }
        } else {
          assert rest[i - 1] == keys[i];
          NextSameSources(t, d, keys, tr, i);
          FieldValueFrame(t, next, d, keys[i], lang, tr);
        }
      }
      forall x | Untouched(t, keys, x)
        ensures (x in r <==> x in d) && (x in d ==> r[x] == d[x])
      {
        assert x !in AllVariantKeys(t, keys[0]);
        forall j | 0 <= j < |rest|
          ensures x !in AllVariantKeys(t, rest[j])
        {
          assert rest[j] == keys[j + 1];
        }
      }
    }
  }

  // ---------------------------------------------------------------------
  // Properties of translate_json

  lemma LegacyKeysApart()
    ensures InitialsApart(LegacyKeys)
  {
  }

  /** A successful run: every `<key>_<lang>` holds the value computed from
      the request, the selector and the three keys are gone, and every
      other key of the request is kept as it was. */
  lemma LegacyContents(t: LocaleTable, d: Record, tr: Translator)
    requires WellFormed(t) && VariantsFold(t, d, LegacyKeys, tr).Ok?
    ensures LegacyTranslation(t, d, tr).Ok?
    ensures forall i, lang :: 0 <= i < |LegacyKeys| && lang in t.languages ==>
      && FieldValue(t, d, LegacyKeys[i], lang, tr).Ok?
      && VariantKey(t, LegacyKeys[i], lang) in LegacyTranslation(t, d, tr).value
      && LegacyTranslation(t, d, tr).value[VariantKey(t, LegacyKeys[i], lang)] == FieldValue(t, d, LegacyKeys[i], lang, tr).value
    ensures forall x :: x !in Dropped && Untouched(t, LegacyKeys, x) ==>
      && (x in LegacyTranslation(t, d, tr).value <==> x in d)
      && (x in d ==> LegacyTranslation(t, d, tr).value[x] == d[x])
  {
    LegacyKeysApart();
    VariantsFoldContents(t, d, LegacyKeys, tr);
    var written := VariantsFold(t, d, LegacyKeys, tr).value;
    assert LegacyTranslation(t, d, tr) == Ok(written - Dropped);
    forall i, lang | 0 <= i < |LegacyKeys| && lang in t.languages
      ensures VariantKey(t, LegacyKeys[i], lang) !in Dropped
    {
      VariantNotDropped(t, i, lang);
    }
  }

  /** No variant of the three keys is one of the deleted keys. */
  lemma VariantNotDropped(t: LocaleTable, i: nat, lang: string)
    requires WellFormed(t) && i < |LegacyKeys| && lang in t.languages
    ensures VariantKey(t, LegacyKeys[i], lang) !in Dropped
  {
    var k := VariantKey(t, LegacyKeys[i], lang);
    VariantKeysApart(t, LegacyKeys[i], lang);
    assert k[0] == LegacyKeys[i][0];
  }

  /** With a selector that has a model code, the three keys as strings and
      a translator that always answers, the run succeeds. */
  lemma LegacyAllText(t: LocaleTable, d: Record, tr: Translator)
    requires WellFormed(t) && "language" in d && d["language"].Str? && d["language"].s in t.codes
    requires forall k :: k in LegacyKeys ==> k in d && d[k].Str?
    requires forall s, a, b :: tr(s, a, b).Text?
    ensures VariantsFold(t, d, LegacyKeys, tr).Ok?
    ensures LegacyTranslation(t, d, tr).Ok?
  {
    LegacyKeysApart();
    forall i, lang | 0 <= i < |LegacyKeys| && lang in t.languages
      ensures FieldValue(t, d, LegacyKeys[i], lang, tr).Ok?
    {
      assert LegacyKeys[i] in LegacyKeys;
    }
    VariantsFoldOk(t, d, LegacyKeys, tr);
  }

  /** Without the empty shortcut, the source locale's variant is the text
      verbatim and every other locale's variant is the model's translation,
      an empty text included. */
  lemma LegacyVariantValue(t: LocaleTable, d: Record, tr: Translator, i: nat, lang: string)
    requires WellFormed(t) && !t.emptyShortcut && VariantsFold(t, d, LegacyKeys, tr).Ok?
    requires i < |LegacyKeys| && lang in t.languages
    ensures "language" in d && LegacyKeys[i] in d && d[LegacyKeys[i]].Str?
    ensures VariantKey(t, LegacyKeys[i], lang) in LegacyTranslation(t, d, tr).value
    ensures d["language"] == Str(lang) ==>
      LegacyTranslation(t, d, tr).value[VariantKey(t, LegacyKeys[i], lang)] == d[LegacyKeys[i]]
    ensures d["language"] != Str(lang) ==>
      && d["language"].Str? && d["language"].s in t.codes
      && tr(d[LegacyKeys[i]].s, t.codes[d["language"].s], t.codes[lang]).Text?
      && LegacyTranslation(t, d, tr).value[VariantKey(t, LegacyKeys[i], lang)]
         == Str(tr(d[LegacyKeys[i]].s, t.codes[d["language"].s], t.codes[lang]).text)
  {
    LegacyContents(t, d, tr);
  }

  /** The KeyErrors: no selector; a selector with no model code (whether or
      not the keys are there); a missing `title`. */
  lemma LegacyKeyErrors(t: LocaleTable, d: Record, tr: Translator)
    requires WellFormed(t) && |t.languages| > 0 && !t.emptyShortcut
    ensures "language" !in d ==> LegacyTranslation(t, d, tr) == Ok(ErrorRecord(MissingKeyMessage("language")))
    ensures "language" in d && d["language"].Str? && d["language"].s !in t.codes ==>
      LegacyTranslation(t, d, tr) == Ok(ErrorRecord(MissingKeyMessage(d["language"].s)))
    ensures "language" in d && d["language"].Str? && d["language"].s in t.codes && "title" !in d ==>
      LegacyTranslation(t, d, tr) == Ok(ErrorRecord(MissingKeyMessage("title")))
  {
    if "language" in d && d["language"].Str? && d["language"].s !in t.codes {
      assert d["language"] != Str(t.languages[0]);
    }
    if "language" !in d || (d["language"].Str? && d["language"].s !in t.codes) || (d["language"].Str? && "title" !in d) {
      WriteVariantsFirstFails(t, d, "title", tr);
    }
  }

  /** A translation model that raises ValueError makes the run return the
      `Invalid JSON data` record, even for an empty title. */
  lemma LegacyModelFails(t: LocaleTable, d: Record, tr: Translator, detail: string, other: string)
    requires WellFormed(t) && !t.emptyShortcut
    requires "language" in d && d["language"].Str? && d["language"].s in t.codes
    requires other in t.languages && d["language"] != Str(other)
    requires "title" in d && d["title"].Str?
    requires forall s, a, b :: tr(s, a, b) == RaisesValueError(detail)
    ensures LegacyTranslation(t, d, tr) == Ok(ErrorRecord(InvalidDataMessage(detail)))
  {
    WriteVariantsOk(t, d, "title", tr);
    assert FieldValue(t, d, "title", other, tr).Err?;
    WriteVariantsFailure(t, d, "title", tr);
  }

  /** The service's table: the variants of a key are `<key>_pl` and `<key>_eng`. */
  lemma LegacyVariantKeys(key: string)
    ensures AllVariantKeys(LegacyTable, key) == {key + "_pl", key + "_eng"}
  {
    var t := LegacyTable;
    forall k | k in AllVariantKeys(t, key)
      ensures k in {key + "_pl", key + "_eng"}
    {
      var lang :| lang in t.languages && k == VariantKey(t, key, lang);
      assert lang == "pl" || lang == "eng";
      assert k == key + "_" + lang;
      assert "_" + "pl" == "_pl" && "_" + "eng" == "_eng";
      assert key + "_" + lang == key + ("_" + lang);
    }
    assert t.languages[0] == "pl" && t.languages[1] == "eng";
    assert VariantKey(t, key, "pl") == key + ("_" + "pl") && VariantKey(t, key, "pl") in AllVariantKeys(t, key);
    assert VariantKey(t, key, "eng") == key + ("_" + "eng") && VariantKey(t, key, "eng") in AllVariantKeys(t, key);
  }
}
