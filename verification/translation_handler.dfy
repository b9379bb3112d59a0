/** The translation handler: folds the expanders over configured field
    lists on a copy of the request, appends the AI note to the translated
    variants, drops the language selector, and turns KeyError and
    ValueError into error dicts. */
module TranslationHandlers {
  import opened Json
  import opened Locales
  import opened Expansion
  import opened TranslationUtil

  // ---------------------------------------------------------------------
  // Specification

  /** `translate_field` applied to each of `fields` in turn. */
  function ExpandFields(t: LocaleTable, d: Record, fields: seq<string>, tr: Translator): Result<Record>
    decreases |fields|
  {
    if fields == [] then Ok(d)
    else
      var next :- ExpandField(t, d, fields[0], tr);
      ExpandFields(t, next, fields[1..], tr)
  }

  /** `translate_array` applied to each of `arrays` in turn. */
  function ExpandArrays(t: LocaleTable, d: Record, arrays: seq<string>, tr: Translator): Result<Record>
    decreases |arrays|
  {
    if arrays == [] then Ok(d)
    else
      var next :- ExpandArray(t, d, arrays[0], tr);
      ExpandArrays(t, next, arrays[1..], tr)
  }

  /** `language_delete`: the record without its selector. */
  function WithoutLanguage(d: Record): (r: Record)
    ensures "language" !in r
    ensures forall k :: k != "language" ==> (k in r <==> k in d)
    ensures forall k :: k in r ==> r[k] == d[k]
  {
    d - {"language"}
  }

  /** `value += " " + note`: a string is extended; a list of strings is
      extended by the note's characters, as Python's list `+=` does. */
  function WithNote(v: Value, note: string): (r: Result<Value>)
    ensures v.Str? ==> r == Ok(Str(v.s + " " + note))
    ensures v.StrList? ==> r.Ok? && r.value.StrList? && |r.value.items| == |v.items| + |note| + 1
    ensures v.RecordList? ==> r == Err(Crash)
  {
    match v
    case Str(s) => Ok(Str(s + " " + note))
    case StrList(xs) => Ok(StrList(xs + Chars(" " + note)))
    case RecordList(_) => Err(Crash)
  }

  /** On a list of strings the note is appended character by character,
      after a one-space item, and the old items are kept in front. */
  lemma WithNoteList(items: seq<string>, note: string)
    ensures WithNote(StrList(items), note).Ok?
    ensures var r := WithNote(StrList(items), note).value.items;
      && |r| == |items| + 1 + |note|
      && r[..|items|] == items && r[|items|] == " "
      && forall i :: 0 <= i < |note| ==> r[|items| + 1 + i] == [note[i]]
  {
    var r := WithNote(StrList(items), note).value.items;
    assert r == items + Chars(" " + note);
    forall i | 0 <= i < |note|
      ensures r[|items| + 1 + i] == [note[i]]
    {
      assert (" " + note)[1 + i] == note[i];
    }
  }

  /** One iteration of `add_info_about_ai` for `lang`, reading `d`: None when
      `lang` is the source locale (nothing is written), the new value of the
      variant otherwise. `notes` is None when the note table is absent, as in
      the tool as written, where reading it raises AttributeError. */
  function NoteValue(t: LocaleTable, d: Record, field: string, notes: Option<map<string, string>>, lang: string)
    : Result<Option<Value>>
  {
    if "language" !in d then Err(KeyMissing("language"))
    else if d["language"] == Str(lang) then Ok(None)
    else
      var key := VariantKey(t, field, lang);
      if key !in d then Err(KeyMissing(key))
      else if notes.None? then Err(Crash)
      else if lang !in notes.value then Err(KeyMissing(lang))
      else
        var v :- WithNote(d[key], notes.value[lang]);
        Ok(Some(v))
  }

  /** The first `n` iterations of `add_info_about_ai`'s loop. */
  function NoteRun(t: LocaleTable, d: Record, field: string, notes: Option<map<string, string>>, n: nat): Progress
    requires n <= |t.languages|
  {
    if n == 0 then Progress(d, None)
    else
      var p := NoteRun(t, d, field, notes, n - 1);
      if p.stopped.Some? then p
      else
        var lang := t.languages[n - 1];
        match NoteValue(t, p.rec, field, notes, lang)
        case Ok(None) => p
        case Ok(Some(v)) => Progress(p.rec[VariantKey(t, field, lang) := v], None)
        case Err(f) => Progress(p.rec, Some(f))
  }

  /** The body of `add_info_about_ai`'s `try`. */
  function AddNote(t: LocaleTable, d: Record, field: string, notes: Option<map<string, string>>): Result<Record>
  {
    var p := NoteRun(t, d, field, notes, |t.languages|);
    if p.stopped.Some? then Err(p.stopped.value) else Ok(p.rec)
  }

  /** The values the loop computes from the original record. */
  function NoteValues(t: LocaleTable, d: Record, field: string, notes: Option<map<string, string>>)
    : (vals: seq<Result<Option<Value>>>)
    ensures |vals| == |t.languages|
  {
    seq(|t.languages|, j requires 0 <= j < |t.languages| => NoteValue(t, d, field, notes, t.languages[j]))
  }

  /** A write loop that stops at the first failure and skips the steps with
      nothing to write: the note loop once its reads are known not to change. */
  function PatchRun(d: Record, keys: seq<string>, vals: seq<Result<Option<Value>>>, n: nat): Progress
    requires n <= |keys| == |vals|
  {
    if n == 0 then Progress(d, None)
    else
      var p := PatchRun(d, keys, vals, n - 1);
      if p.stopped.Some? then p
      else match vals[n - 1]
        case Ok(None) => p
        case Ok(Some(v)) => Progress(p.rec[keys[n - 1] := v], None)
        case Err(f) => Progress(p.rec, Some(f))
  }

  // ---------------------------------------------------------------------
  // Properties of the field and array folds

  /** A key that no expansion touches keeps its presence and value. */
  lemma {:induction false} ExpandFieldsKeeps(t: LocaleTable, d: Record, fields: seq<string>, tr: Translator, k: string)
    requires WellFormed(t) && ExpandFields(t, d, fields, tr).Ok?
    requires k !in fields && forall f :: f in fields ==> k !in AllVariantKeys(t, f)
    ensures k in ExpandFields(t, d, fields, tr).value <==> k in d
    ensures k in d ==> ExpandFields(t, d, fields, tr).value[k] == d[k]
    decreases |fields|
  {
    if fields != [] {
      ExpandFieldContents(t, d, fields[0], tr);
      var next := ExpandField(t, d, fields[0], tr).value;
      assert forall f :: f in fields[1..] ==> f in fields;
      ExpandFieldsKeeps(t, next, fields[1..], tr, k);
    }
  }

  /** A key that is present stays present unless a later field deletes it. */
  lemma {:induction false} ExpandFieldsPresent(t: LocaleTable, d: Record, fields: seq<string>, tr: Translator, k: string)
    requires WellFormed(t) && ExpandFields(t, d, fields, tr).Ok?
    requires k in d && k !in fields
    ensures k in ExpandFields(t, d, fields, tr).value
    decreases |fields|
  {
    if fields != [] {
      ExpandFieldContents(t, d, fields[0], tr);
      var next := ExpandField(t, d, fields[0], tr).value;
      assert k in next;
      assert k !in fields[1..];
      ExpandFieldsPresent(t, next, fields[1..], tr, k);
    }
  }

  /** A key that is absent and that no expansion writes stays absent. */
  lemma {:induction false} ExpandFieldsAbsent(t: LocaleTable, d: Record, fields: seq<string>, tr: Translator, k: string)
    requires WellFormed(t) && ExpandFields(t, d, fields, tr).Ok?
    requires k !in d && forall f :: f in fields ==> k !in AllVariantKeys(t, f)
    ensures k !in ExpandFields(t, d, fields, tr).value
    decreases |fields|
  {
    if fields != [] {
      ExpandFieldContents(t, d, fields[0], tr);
      var next := ExpandField(t, d, fields[0], tr).value;
      assert forall f :: f in fields[1..] ==> f in fields;
      ExpandFieldsAbsent(t, next, fields[1..], tr, k);
    }
  }

  /** No later field of the list has `fields[i]` among its variants. */
  ghost predicate NotRecreated(t: LocaleTable, fields: seq<string>, i: int)
    requires 0 <= i < |fields|
  {
    forall f :: f in fields[i + 1..] ==> fields[i] !in AllVariantKeys(t, f)
  }

  /** After a successful fold every variant of every field is present
      (unless a later field of the list deletes it), and every field is
      gone (unless a later field's variant recreates it). */
  lemma {:induction false} ExpandFieldsKeys(t: LocaleTable, d: Record, fields: seq<string>, tr: Translator)
    requires WellFormed(t) && ExpandFields(t, d, fields, tr).Ok?
    ensures forall i, lang :: 0 <= i < |fields| && lang in t.languages && VariantKey(t, fields[i], lang) !in fields[i + 1..] ==>
      VariantKey(t, fields[i], lang) in ExpandFields(t, d, fields, tr).value
    ensures forall i :: 0 <= i < |fields| && NotRecreated(t, fields, i) ==>
      fields[i] !in ExpandFields(t, d, fields, tr).value
    decreases |fields|
  {
    if fields != [] {
      ExpandFieldContents(t, d, fields[0], tr);
      var next := ExpandField(t, d, fields[0], tr).value;
      var rest := fields[1..];
      var r := ExpandFields(t, d, fields, tr).value;
      assert r == ExpandFields(t, next, rest, tr).value;
      ExpandFieldsKeys(t, next, rest, tr);
      forall i, lang | 0 <= i < |fields| && lang in t.languages && VariantKey(t, fields[i], lang) !in fields[i + 1..]
        ensures VariantKey(t, fields[i], lang) in r
      {
        if i == 0 {
          assert VariantKey(t, fields[0], lang) in AllVariantKeys(t, fields[0]);
          assert fields[1..] == rest;
          ExpandFieldsPresent(t, next, rest, tr, VariantKey(t, fields[0], lang));
        } else {
          assert fields[i] == rest[i - 1] && fields[i + 1..] == rest[i..];
        }
      }
      forall i | 0 <= i < |fields| && NotRecreated(t, fields, i)
        ensures fields[i] !in r
      {
        if i == 0 {
          assert fields[1..] == rest;
          ExpandFieldsAbsent(t, next, rest, tr, fields[0]);
        } else {
          assert fields[i] == rest[i - 1] && fields[i + 1..] == rest[i..];
        }
      }
    }
  }

  /** The selector is never a variant key, so a fold that succeeds keeps it. */
  lemma LanguageNotVariant(t: LocaleTable, field: string)
    requires WellFormed(t)
    ensures "language" !in AllVariantKeys(t, field)
  {
    FieldKeysDistinct(t, field);
    if "language" in AllVariantKeys(t, field) {
      var lang :| lang in t.languages && "language" == VariantKey(t, field, lang);
      VariantKeysApart(t, field, lang);
    }
  }

  /** A field fold fails at its first failing field, and one with no
      selector fails with that KeyError. */
  lemma ExpandFieldsNoLanguage(t: LocaleTable, d: Record, fields: seq<string>, tr: Translator)
    requires WellFormed(t) && |t.languages| > 0 && fields != [] && "language" !in d
    ensures ExpandFields(t, d, fields, tr) == Err(KeyMissing("language"))
  {
    ExpandFieldErrors(t, d, fields[0], tr);
  }

  // ---------------------------------------------------------------------
  // Properties of the AI note

  lemma {:induction false} PatchRunStops(d: Record, keys: seq<string>, vals: seq<Result<Option<Value>>>, n: nat)
    requires n <= |keys| == |vals|
    ensures PatchRun(d, keys, vals, n).stopped.None? <==> forall j :: 0 <= j < n ==> vals[j].Ok?
    ensures PatchRun(d, keys, vals, n).stopped.Some? ==>
      exists j :: 0 <= j < n && vals[j] == Err(PatchRun(d, keys, vals, n).stopped.value) &&
        forall i :: 0 <= i < j ==> vals[i].Ok?
  {
    if n > 0 {
      PatchRunStops(d, keys, vals, n - 1);
    }
  }

  lemma {:induction false} PatchRunWrites(d: Record, keys: seq<string>, vals: seq<Result<Option<Value>>>, n: nat)
    requires n <= |keys| == |vals|
    requires forall i, j :: 0 <= i < j < n ==> keys[i] != keys[j]
    requires forall j :: 0 <= j < n ==> vals[j].Ok? && (vals[j].value.Some? ==> keys[j] in d)
    ensures PatchRun(d, keys, vals, n).stopped.None?
    ensures PatchRun(d, keys, vals, n).rec.Keys == d.Keys
    ensures forall j :: 0 <= j < n && vals[j].value.Some? ==> PatchRun(d, keys, vals, n).rec[keys[j]] == vals[j].value.value
    ensures forall k :: k in d && k !in keys[..n] ==> PatchRun(d, keys, vals, n).rec[k] == d[k]
    ensures forall j :: 0 <= j < n && vals[j].value.None? && keys[j] in d ==> PatchRun(d, keys, vals, n).rec[keys[j]] == d[keys[j]]
  {
    if n > 0 {
      PatchRunWrites(d, keys, vals, n - 1);
      var p := PatchRun(d, keys, vals, n - 1);
      var q := PatchRun(d, keys, vals, n);
      assert keys[..n] == keys[..n - 1] + [keys[n - 1]];
      forall j | 0 <= j < n - 1
        ensures keys[j] != keys[n - 1]
      {
      }
      match vals[n - 1]
      case Ok(None) =>
        assert q == p;
      case Ok(Some(v)) =>
        assert q.rec == p.rec[keys[n - 1] := v];
    }
  }

  /** A key the loop never names keeps its presence and value. */
  lemma {:induction false} PatchRunFrame(d: Record, keys: seq<string>, vals: seq<Result<Option<Value>>>, n: nat, k: string)
    requires n <= |keys| == |vals| && forall j :: 0 <= j < n ==> keys[j] != k
    ensures k in PatchRun(d, keys, vals, n).rec <==> k in d
    ensures k in d ==> PatchRun(d, keys, vals, n).rec[k] == d[k]
  {
    if n > 0 {
      PatchRunFrame(d, keys, vals, n - 1, k);
    }
  }

  /** The note step reads only the selector and its own variant. */
  lemma NoteValueFrame(t: LocaleTable, a: Record, b: Record, field: string, notes: Option<map<string, string>>, lang: string)
    requires "language" in a <==> "language" in b
    requires "language" in a ==> a["language"] == b["language"]
    requires VariantKey(t, field, lang) in a <==> VariantKey(t, field, lang) in b
    requires VariantKey(t, field, lang) in a ==> a[VariantKey(t, field, lang)] == b[VariantKey(t, field, lang)]
    ensures NoteValue(t, a, field, notes, lang) == NoteValue(t, b, field, notes, lang)
  {
  }

  /** Before step `n` the patch loop has not touched the selector or the
      variant step `n` reads, so that step sees the original values. */
  lemma NoteValueUnread(t: LocaleTable, d: Record, field: string, notes: Option<map<string, string>>, n: nat)
    requires WellFormed(t) && 0 < n <= |t.languages|
    ensures var p := PatchRun(d, FieldKeys(t, field), NoteValues(t, d, field, notes), n - 1);
      NoteValue(t, p.rec, field, notes, t.languages[n - 1]) == NoteValues(t, d, field, notes)[n - 1]
  {
    var keys, vals := FieldKeys(t, field), NoteValues(t, d, field, notes);
    var p := PatchRun(d, keys, vals, n - 1);
    FieldKeysDistinct(t, field);
    var lang := t.languages[n - 1];
    assert keys[n - 1] == VariantKey(t, field, lang);
    assert forall j :: 0 <= j < n - 1 ==> keys[j] in keys;
    PatchRunFrame(d, keys, vals, n - 1, keys[n - 1]);
    PatchRunFrame(d, keys, vals, n - 1, "language");
    NoteValueFrame(t, p.rec, d, field, notes, lang);
  }

  /** The note loop never rewrites the selector or a variant it has not
      reached, so it is the patch loop over the values computed from the
      original record. */
  lemma {:induction false} NoteRunIsPatchRun(t: LocaleTable, d: Record, field: string, notes: Option<map<string, string>>, n: nat)
    requires WellFormed(t) && n <= |t.languages|
    ensures NoteRun(t, d, field, notes, n) == PatchRun(d, FieldKeys(t, field), NoteValues(t, d, field, notes), n)
  {
    if n > 0 {
      NoteRunIsPatchRun(t, d, field, notes, n - 1);
      var keys, vals := FieldKeys(t, field), NoteValues(t, d, field, notes);
      var p := PatchRun(d, keys, vals, n - 1);
      if p.stopped.None? {
        NoteValueUnread(t, d, field, notes, n);
        var lang := t.languages[n - 1];
        assert keys[n - 1] == VariantKey(t, field, lang);
        assert NoteValue(t, p.rec, field, notes, lang) == vals[n - 1];
      }
    }
  }

  /** The note step succeeds exactly when every locale's step succeeds on
      the original record, and otherwise fails with the first failing one. */
  lemma AddNoteOk(t: LocaleTable, d: Record, field: string, notes: Option<map<string, string>>)
    requires WellFormed(t)
    ensures AddNote(t, d, field, notes).Ok? <==>
      forall lang :: lang in t.languages ==> NoteValue(t, d, field, notes, lang).Ok?
    ensures AddNote(t, d, field, notes).Ok? && t.languages != [] ==> "language" in d
    ensures AddNote(t, d, field, notes).Err? ==>
      exists j :: 0 <= j < |t.languages|
        && (forall i :: 0 <= i < j ==> NoteValue(t, d, field, notes, t.languages[i]).Ok?)
        && NoteValue(t, d, field, notes, t.languages[j]) == Err(AddNote(t, d, field, notes).failure)
  {
    var n := |t.languages|;
    var keys, vals := FieldKeys(t, field), NoteValues(t, d, field, notes);
    NoteRunIsPatchRun(t, d, field, notes, n);
    PatchRunStops(d, keys, vals, n);
    var r := AddNote(t, d, field, notes);
    if forall lang :: lang in t.languages ==> NoteValue(t, d, field, notes, lang).Ok? {
      forall j | 0 <= j < n
        ensures vals[j].Ok?
      {
        assert vals[j] == NoteValue(t, d, field, notes, t.languages[j]);
      }
    }
    if r.Ok? {
      forall lang | lang in t.languages
        ensures NoteValue(t, d, field, notes, lang).Ok?
      {
        var j :| 0 <= j < n && t.languages[j] == lang;
        assert vals[j] == NoteValue(t, d, field, notes, lang);
      }
      if n > 0 {
        assert NoteValue(t, d, field, notes, t.languages[0]).Ok?;
      }
    } else {
      var j :| 0 <= j < n && vals[j] == Err(r.failure) && forall i :: 0 <= i < j ==> vals[i].Ok?;
      forall i | 0 <= i < j
        ensures NoteValue(t, d, field, notes, t.languages[i]).Ok?
      {
        assert vals[i] == NoteValue(t, d, field, notes, t.languages[i]);
      }
      assert vals[j] == NoteValue(t, d, field, notes, t.languages[j]);
    }
  }

  /** A successful note step is the patch loop with every value computed. */
  lemma AddNoteIsPatch(t: LocaleTable, d: Record, field: string, notes: Option<map<string, string>>)
    requires WellFormed(t) && AddNote(t, d, field, notes).Ok?
    ensures var keys, vals := FieldKeys(t, field), NoteValues(t, d, field, notes);
      && (forall j :: 0 <= j < |t.languages| ==> vals[j].Ok? && (vals[j].value.Some? ==> keys[j] in d))
      && AddNote(t, d, field, notes).value == PatchRun(d, keys, vals, |t.languages|).rec
  {
    var n := |t.languages|;
    var keys, vals := FieldKeys(t, field), NoteValues(t, d, field, notes);
    AddNoteOk(t, d, field, notes);
    NoteRunIsPatchRun(t, d, field, notes, n);
    forall j | 0 <= j < n
      ensures vals[j].Ok? && (vals[j].value.Some? ==> keys[j] in d)
    {
      assert vals[j] == NoteValue(t, d, field, notes, t.languages[j]);
    }
  }

  /** A successful note step appends each locale's note to that locale's
      variant, except the source locale's, and changes nothing else. */
  lemma AddNoteContents(t: LocaleTable, d: Record, field: string, notes: Option<map<string, string>>)
    requires WellFormed(t) && AddNote(t, d, field, notes).Ok? && "language" in d
    ensures AddNote(t, d, field, notes).value.Keys == d.Keys
    ensures forall lang :: lang in t.languages && d["language"] != Str(lang) ==>
      VariantKey(t, field, lang) in d && notes.Some? && lang in notes.value &&
      WithNote(d[VariantKey(t, field, lang)], notes.value[lang]).Ok? &&
      AddNote(t, d, field, notes).value[VariantKey(t, field, lang)]
      == WithNote(d[VariantKey(t, field, lang)], notes.value[lang]).value
    ensures forall k :: k in d && (forall lang :: lang in t.languages && d["language"] != Str(lang) ==> k != VariantKey(t, field, lang)) ==>
      AddNote(t, d, field, notes).value[k] == d[k]
  {
    var n := |t.languages|;
    var keys, vals := FieldKeys(t, field), NoteValues(t, d, field, notes);
    AddNoteIsPatch(t, d, field, notes);
    FieldKeysDistinct(t, field);
    PatchRunWrites(d, keys, vals, n);
    assert keys[..n] == keys;
    var r := AddNote(t, d, field, notes).value;
    forall lang | lang in t.languages && d["language"] != Str(lang)
      ensures VariantKey(t, field, lang) in d && notes.Some? && lang in notes.value
      ensures WithNote(d[VariantKey(t, field, lang)], notes.value[lang]).Ok?
      ensures r[VariantKey(t, field, lang)] == WithNote(d[VariantKey(t, field, lang)], notes.value[lang]).value
    {
      var j :| 0 <= j < n && t.languages[j] == lang;
      assert vals[j] == NoteValue(t, d, field, notes, lang);
      assert keys[j] == VariantKey(t, field, lang);
    }
    forall k | k in d && (forall lang :: lang in t.languages && d["language"] != Str(lang) ==> k != VariantKey(t, field, lang))
      ensures r[k] == d[k]
    {
      if k in keys {
        var j :| 0 <= j < n && keys[j] == k;
        assert t.languages[j] in t.languages;
        assert vals[j] == NoteValue(t, d, field, notes, t.languages[j]);
      }
    }
  }

  /** `add_info_about_ai` succeeds exactly when every locale's step can be
      taken on the original record; it then appends each locale's note to
      that locale's variant, except the source locale's, and changes nothing
      else; otherwise it raises the first failing locale's exception. */
  lemma AddNoteSpec(t: LocaleTable, d: Record, field: string, notes: Option<map<string, string>>)
    requires WellFormed(t)
    ensures AddNote(t, d, field, notes).Ok? <==>
      forall lang :: lang in t.languages ==> NoteValue(t, d, field, notes, lang).Ok?
    ensures AddNote(t, d, field, notes).Ok? && t.languages != [] ==> "language" in d
    ensures AddNote(t, d, field, notes).Ok? ==> AddNote(t, d, field, notes).value.Keys == d.Keys
    ensures AddNote(t, d, field, notes).Ok? && "language" in d ==>
      && (forall lang :: lang in t.languages && d["language"] != Str(lang) ==>
            VariantKey(t, field, lang) in d && notes.Some? && lang in notes.value &&
            WithNote(d[VariantKey(t, field, lang)], notes.value[lang]).Ok? &&
            AddNote(t, d, field, notes).value[VariantKey(t, field, lang)]
            == WithNote(d[VariantKey(t, field, lang)], notes.value[lang]).value)
      && (forall k :: k in d && (forall lang :: lang in t.languages && d["language"] != Str(lang) ==> k != VariantKey(t, field, lang)) ==>
            AddNote(t, d, field, notes).value[k] == d[k])
    ensures AddNote(t, d, field, notes).Err? ==>
      exists j :: 0 <= j < |t.languages|
        && (forall i :: 0 <= i < j ==> NoteValue(t, d, field, notes, t.languages[i]).Ok?)
        && NoteValue(t, d, field, notes, t.languages[j]) == Err(AddNote(t, d, field, notes).failure)
  {
    AddNoteOk(t, d, field, notes);
    if AddNote(t, d, field, notes).Ok? {
      if "language" in d {
        AddNoteContents(t, d, field, notes);
      } else {
        var n := |t.languages|;
        AddNoteIsPatch(t, d, field, notes);
        PatchRunWrites(d, FieldKeys(t, field), NoteValues(t, d, field, notes), n);
      }
    }
  }

  /** On a record without a selector -- an error dict, say -- the note step
      raises KeyError('language'). */
  lemma AddNoteNoLanguage(t: LocaleTable, d: Record, field: string, notes: Option<map<string, string>>)
    requires WellFormed(t) && |t.languages| > 0 && "language" !in d
    ensures AddNote(t, d, field, notes) == Err(KeyMissing("language"))
  {
    AddNoteSpec(t, d, field, notes);
    assert NoteValue(t, d, field, notes, t.languages[0]).Err?;
  }

  /** As written, the tool has no note table: once the selector and the
      variants are in place, the first locale other than the source one
      raises AttributeError, which no handler catches. */
  lemma AddNoteWithoutNotes(t: LocaleTable, d: Record, field: string)
    requires WellFormed(t) && "language" in d
    requires forall lang :: lang in t.languages ==> VariantKey(t, field, lang) in d
    requires exists lang :: lang in t.languages && d["language"] != Str(lang)
    ensures AddNote(t, d, field, None) == Err(Crash)
  {
    AddNoteSpec(t, d, field, None);
    var lang :| lang in t.languages && d["language"] != Str(lang);
    assert NoteValue(t, d, field, None, lang) == Err(Crash);
    var j :| 0 <= j < |t.languages|
      && (forall i :: 0 <= i < j ==> NoteValue(t, d, field, None, t.languages[i]).Ok?)
      && NoteValue(t, d, field, None, t.languages[j]) == Err(AddNote(t, d, field, None).failure);
    assert NoteValue(t, d, field, None, t.languages[j]).Err?;
  }

  /** Deleting the selector twice is deleting it once. */
  lemma WithoutLanguageIdempotent(d: Record)
    ensures WithoutLanguage(WithoutLanguage(d)) == WithoutLanguage(d)
  {
    assert WithoutLanguage(WithoutLanguage(d)).Keys == WithoutLanguage(d).Keys;
  }

  lemma {:induction false} NoteRunStoppedStays(t: LocaleTable, d: Record, field: string, notes: Option<map<string, string>>, i: nat, n: nat)
    requires i <= n <= |t.languages| && NoteRun(t, d, field, notes, i).stopped.Some?
    ensures NoteRun(t, d, field, notes, n) == NoteRun(t, d, field, notes, i)
    decreases n - i
  {
    if i < n {
      NoteRunStoppedStays(t, d, field, notes, i, n - 1);
    }
  }

  // ---------------------------------------------------------------------
  // Requests that go through

  /** With a translator that always answers, a record whose selector has a
      model code and whose field is a string expands, into string variants. */
  lemma ExpandFieldAllText(t: LocaleTable, d: Record, field: string, tr: Translator)
    requires WellFormed(t) && "language" in d && d["language"].Str? && d["language"].s in t.codes
    requires field in d && d[field].Str?
    requires forall s, a, b :: tr(s, a, b).Text?
    ensures ExpandField(t, d, field, tr).Ok?
    ensures forall lang :: lang in t.languages ==>
      VariantKey(t, field, lang) in ExpandField(t, d, field, tr).value &&
      ExpandField(t, d, field, tr).value[VariantKey(t, field, lang)].Str?
  {
    forall lang | lang in t.languages
      ensures FieldValue(t, d, field, lang, tr).Ok? && FieldValue(t, d, field, lang, tr).value.Str?
    {
      FieldValueStr(t, d, field, lang, tr);
    }
    ExpandFieldSpec(t, d, field, tr);
  }

  /** A string no expansion deletes stays a string. */
  lemma {:induction false} ExpandFieldsStr(t: LocaleTable, d: Record, fields: seq<string>, tr: Translator, k: string)
    requires WellFormed(t) && ExpandFields(t, d, fields, tr).Ok?
    requires k in d && d[k].Str? && k !in fields
    ensures k in ExpandFields(t, d, fields, tr).value && ExpandFields(t, d, fields, tr).value[k].Str?
    decreases |fields|
  {
    if fields != [] {
      ExpandFieldContents(t, d, fields[0], tr);
      var next := ExpandField(t, d, fields[0], tr).value;
      if k in AllVariantKeys(t, fields[0]) {
        var lang :| lang in t.languages && k == VariantKey(t, fields[0], lang);
        assert next[k] == FieldValue(t, d, fields[0], lang, tr).value;
        FieldValueStr(t, d, fields[0], lang, tr);
      }
      assert k !in fields[1..];
      ExpandFieldsStr(t, next, fields[1..], tr, k);
    }
  }

  /** A field fold over distinct string fields, none of which an earlier
      field's variants overwrite, goes through with a translator that always
      answers; it keeps the selector and leaves every variant a string. */
  lemma {:induction false} ExpandFieldsAllText(t: LocaleTable, d: Record, fields: seq<string>, tr: Translator)
    requires WellFormed(t) && "language" in d && d["language"].Str? && d["language"].s in t.codes
    requires "language" !in fields
    requires forall f :: f in fields ==> f in d && d[f].Str?
    requires forall i, j :: 0 <= i < j < |fields| ==> fields[i] != fields[j] && fields[j] !in AllVariantKeys(t, fields[i])
    requires forall s, a, b :: tr(s, a, b).Text?
    ensures ExpandFields(t, d, fields, tr).Ok?
    ensures "language" in ExpandFields(t, d, fields, tr).value
    ensures ExpandFields(t, d, fields, tr).value["language"] == d["language"]
    ensures forall i, lang :: 0 <= i < |fields| && lang in t.languages && VariantKey(t, fields[i], lang) !in fields[i + 1..] ==>
      VariantKey(t, fields[i], lang) in ExpandFields(t, d, fields, tr).value &&
      ExpandFields(t, d, fields, tr).value[VariantKey(t, fields[i], lang)].Str?
    decreases |fields|
  {
    if fields != [] {
      var f, rest := fields[0], fields[1..];
      ExpandFieldAllText(t, d, f, tr);
      ExpandFieldContents(t, d, f, tr);
      LanguageNotVariant(t, f);
      var next := ExpandField(t, d, f, tr).value;
      forall g | g in rest
        ensures g in next && next[g] == d[g]
      {
        var j :| 0 <= j < |rest| && rest[j] == g;
        assert fields[j + 1] == g;
      }
      forall i, j | 0 <= i < j < |rest|
        ensures rest[i] != rest[j] && rest[j] !in AllVariantKeys(t, rest[i])
      {
        assert rest[i] == fields[i + 1] && rest[j] == fields[j + 1];
      }
      ExpandFieldsAllText(t, next, rest, tr);
      var r := ExpandFields(t, d, fields, tr).value;
      assert r == ExpandFields(t, next, rest, tr).value;
      forall i, lang | 0 <= i < |fields| && lang in t.languages && VariantKey(t, fields[i], lang) !in fields[i + 1..]
        ensures VariantKey(t, fields[i], lang) in r && r[VariantKey(t, fields[i], lang)].Str?
      {
        if i == 0 {
          assert fields[1..] == rest;
          ExpandFieldsStr(t, next, rest, tr, VariantKey(t, f, lang));
        } else {
          assert fields[i] == rest[i - 1] && fields[i + 1..] == rest[i..];
        }
      }
    }
  }

  /** With string variants and a note for every locale, the note step goes
      through and keeps the record's keys. */
  lemma AddNoteAllText(t: LocaleTable, d: Record, field: string, notes: map<string, string>)
    requires WellFormed(t) && "language" in d
    requires forall lang :: lang in t.languages ==>
      VariantKey(t, field, lang) in d && d[VariantKey(t, field, lang)].Str? && lang in notes
    ensures AddNote(t, d, field, Some(notes)).Ok?
    ensures AddNote(t, d, field, Some(notes)).value.Keys == d.Keys
  {
    AddNoteSpec(t, d, field, Some(notes));
  }

  // ---------------------------------------------------------------------
  // The handler

  class TranslationHandler {
    const fieldsToTranslate: seq<string>
    /** None when the handler is built without arrays. */
    const arraysToTranslate: Option<seq<string>>
    const translationTool: TranslationTool

    ghost predicate Valid()
    {
      translationTool.Valid()
    }

    constructor (fieldsToTranslate: seq<string>, arraysToTranslate: Option<seq<string>>,
                 translate: Translator, aiGeneratedText: map<string, string>)
      ensures Valid() && translationTool.table == MainTable
      ensures this.fieldsToTranslate == fieldsToTranslate && this.arraysToTranslate == arraysToTranslate
      ensures translationTool.translate == translate && translationTool.aiGeneratedText == aiGeneratedText
    {
      this.fieldsToTranslate := fieldsToTranslate;
      this.arraysToTranslate := arraysToTranslate;
      translationTool := new TranslationTool(translate, aiGeneratedText);
    }

    /** `process_field_translation`: the field fold on a copy of the
        request, with KeyError and ValueError turned into error dicts. The
        request itself is not modified. */
    method ProcessFieldTranslation(json: JsonDict) returns (out: Result<JsonDict>)
      requires Valid()
      ensures Entries(out) == Caught(ExpandFields(translationTool.table, json.entries, fieldsToTranslate, translationTool.translate))
      ensures out.Ok? ==> fresh(out.value)
    {
      var dataDict := new JsonDict(json.entries);
      var i := 0;
      while i < |fieldsToTranslate|
        invariant 0 <= i <= |fieldsToTranslate| && fresh(dataDict)
        invariant ExpandFields(translationTool.table, json.entries, fieldsToTranslate, translationTool.translate)
               == ExpandFields(translationTool.table, dataDict.entries, fieldsToTranslate[i..], translationTool.translate)
      {
        ghost var before := dataDict.entries;
        var raised := translationTool.TranslateField(fieldsToTranslate[i], dataDict);
        assert fieldsToTranslate[i..][1..] == fieldsToTranslate[i + 1..];
        if raised.Some? {
          out := CatchFailure(raised.value);
          return;
        }
        i := i + 1;
      }
      return Ok(dataDict);
    }

    /** `process_array_translation`: the array fold on a copy of the
        request; without an array list the loop raises TypeError. */
    method ProcessArrayTranslation(json: JsonDict) returns (out: Result<JsonDict>)
      requires Valid()
      ensures arraysToTranslate.None? ==> out == Err(Crash)
      ensures arraysToTranslate.Some? ==>
        Entries(out) == Caught(ExpandArrays(translationTool.table, json.entries, arraysToTranslate.value, translationTool.translate))
      ensures out.Ok? ==> fresh(out.value)
    {
      var dataDict := new JsonDict(json.entries);
      if arraysToTranslate.None? {
        return Err(Crash);
      }
      var arrays := arraysToTranslate.value;
      var i := 0;
      while i < |arrays|
        invariant 0 <= i <= |arrays| && fresh(dataDict)
        invariant ExpandArrays(translationTool.table, json.entries, arrays, translationTool.translate)
               == ExpandArrays(translationTool.table, dataDict.entries, arrays[i..], translationTool.translate)
      {
        var raised := translationTool.TranslateArray(arrays[i], dataDict);
        assert arrays[i..][1..] == arrays[i + 1..];
        if raised.Some? {
          out := CatchFailure(raised.value);
          return;
        }
        i := i + 1;
      }
      return Ok(dataDict);
    }

    /** `language_delete`: drops the selector in place and returns the same dict. */
    method LanguageDelete(dictionary: JsonDict) returns (result: JsonDict)
      modifies dictionary
      ensures result == dictionary
      ensures dictionary.entries == WithoutLanguage(old(dictionary.entries))
    {
      if "language" in dictionary.entries {
        dictionary.entries := dictionary.entries - {"language"};
      }
      return dictionary;
    }

    /** The body of `add_info_about_ai`'s loop for one locale, reading the
        dict as it stands: nothing to do for the source locale, the new
        variant otherwise, or the exception raised. */
    method NoteStep(field: string, lang: string, d: Record) returns (r: Result<Option<Value>>)
      ensures r == NoteValue(translationTool.table, d, field, Some(translationTool.aiGeneratedText), lang)
    {
      var notes := translationTool.aiGeneratedText;
      var langKey := field + translationTool.table.separator + lang;
      if "language" !in d {
        return Err(KeyMissing("language"));
      }
      if d["language"] == Str(lang) {
        return Ok(None);
      }
      if langKey !in d {
        return Err(KeyMissing(langKey));
      }
      // the note table is read after the variant
      if lang !in notes {
        return Err(KeyMissing(lang));
      }
      match d[langKey]
      case Str(s) => return Ok(Some(Str(s + " " + notes[lang])));
      case StrList(xs) => return Ok(Some(StrList(xs + Chars(" " + notes[lang]))));
      case RecordList(_) => return Err(Crash);
    }

    /** `add_info_about_ai`: appends the note to every variant of `field`
        other than the source locale's, in place. On success the same dict
        is returned; a caught exception returns a new error dict and leaves
        the variants written so far in the given one. */
    method AddInfoAboutAi(json: JsonDict, field: string) returns (out: Result<JsonDict>)
      modifies json
      ensures Entries(out) == Caught(AddNote(translationTool.table, old(json.entries), field, Some(translationTool.aiGeneratedText)))
      ensures AddNote(translationTool.table, old(json.entries), field, Some(translationTool.aiGeneratedText)).Ok? ==> out == Ok(json)
      ensures out.Ok? && out.value != json ==> fresh(out.value)
      ensures json.entries
           == NoteRun(translationTool.table, old(json.entries), field, Some(translationTool.aiGeneratedText), |translationTool.table.languages|).rec
    {
      var failure := NoteLoop(json, field);
      if failure.Some? {
        out := CatchFailure(failure.value);
      } else {
        out := Ok(json);
      }
    }

    /** The loop of `add_info_about_ai` over the locales. */
    method NoteLoop(json: JsonDict, field: string) returns (failure: Option<Failure>)
      modifies json
      ensures NoteRun(translationTool.table, old(json.entries), field, Some(translationTool.aiGeneratedText), |translationTool.table.languages|)
           == Progress(json.entries, failure)
    {
      var languages := translationTool.table.languages;
      var notes := translationTool.aiGeneratedText;
      ghost var d0 := json.entries;
      var i := 0;
      while i < |languages|
        invariant 0 <= i <= |languages|
        invariant NoteRun(translationTool.table, d0, field, Some(notes), i) == Progress(json.entries, None)
      {
        var lang := languages[i];
        var step := NoteStep(field, lang, json.entries);
        match step {
          case Ok(None) =>
          case Ok(Some(v)) => json.entries := json.entries[field + translationTool.table.separator + lang := v];
          case Err(f) =>
            NoteRunStoppedStays(translationTool.table, d0, field, Some(notes), i + 1, |languages|);
            return Some(f);
        }
        i := i + 1;
      }
      failure := None;
    }
  }
}
