/** Requests that the field and array steps of the handlers accept: a
    selector with a model code, string fields, a list of strings as the
    array, and a model that always answers. */
module Expandable {
  import opened Json
  import opened Locales
  import opened Expansion
  import opened TranslationHandlers

  /** A translator that always answers. */
  ghost predicate AlwaysAnswers(tr: Translator)
  {
    forall s, a, b :: tr(s, a, b).Text?
  }

  /** Distinct fields, none of which is an earlier field's variant. */
  ghost predicate FieldsApart(t: LocaleTable, fields: seq<string>)
  {
    forall i, j :: 0 <= i < j < |fields| ==> fields[i] != fields[j] && fields[j] !in AllVariantKeys(t, fields[i])
  }

  /** The conditions under which the field step succeeds on every field:
      a selector with a model code, distinct string fields none of which is
      an earlier field's variant, and a translator that always answers. */
  ghost predicate FieldsExpandable(t: LocaleTable, d: Record, fields: seq<string>, tr: Translator)
  {
    && WellFormed(t)
    && "language" in d && d["language"].Str? && d["language"].s in t.codes
    && fields != [] && "language" !in fields
    && (forall f :: f in fields ==> f in d && d[f].Str?)
    && FieldsApart(t, fields)
    && AlwaysAnswers(tr)
  }

  /** Two fields with different initials are apart. */
  lemma TwoFieldsApart(t: LocaleTable, a: string, b: string)
    requires a != "" && b != "" && a[0] != b[0]
    ensures FieldsApart(t, [a, b])
  {
    NotVariantByInitial(t, a, b);
  }

  /** The field step then keeps the selector and leaves every variant of the
      last field in place, as a string. */
  lemma LastFieldExpanded(t: LocaleTable, d: Record, fields: seq<string>, tr: Translator)
    requires FieldsExpandable(t, d, fields, tr)
    ensures ExpandFields(t, d, fields, tr).Ok?
    ensures "language" in ExpandFields(t, d, fields, tr).value
    ensures ExpandFields(t, d, fields, tr).value["language"] == d["language"]
    ensures forall lang :: lang in t.languages ==>
      && VariantKey(t, fields[|fields| - 1], lang) in ExpandFields(t, d, fields, tr).value
      && ExpandFields(t, d, fields, tr).value[VariantKey(t, fields[|fields| - 1], lang)].Str?
  {
    ExpandFieldsAllText(t, d, fields, tr);
    var fielded := ExpandFields(t, d, fields, tr).value;
    var i := |fields| - 1;
    forall lang | lang in t.languages
      ensures VariantKey(t, fields[i], lang) in fielded && fielded[VariantKey(t, fields[i], lang)].Str?
    {
      assert fields[i + 1..] == [];
    }
  }

  lemma NotNameOrDescriptionVariant(t: LocaleTable, k: string)
    requires k != "" && k[0] != 'n' && k[0] != 'd'
    ensures k !in AllVariantKeys(t, "name") && k !in AllVariantKeys(t, "description")
  {
    NotVariantByInitial(t, "name", k);
    NotVariantByInitial(t, "description", k);
  }

  /** The event fields under FieldsExpandable: all variants of the first
      field are there. */
  lemma FirstFieldExpanded(t: LocaleTable, d: Record, fields: seq<string>, tr: Translator)
    requires FieldsExpandable(t, d, fields, tr) && |fields| == 2
    ensures ExpandFields(t, d, fields, tr).Ok?
    ensures forall lang :: lang in t.languages ==> VariantKey(t, fields[0], lang) in ExpandFields(t, d, fields, tr).value
  {
    ExpandFieldsAllText(t, d, fields, tr);
    assert fields[1..] == [fields[1]];
    forall lang | lang in t.languages
      ensures VariantKey(t, fields[0], lang) in ExpandFields(t, d, fields, tr).value
    {
      assert VariantKey(t, fields[0], lang) !in fields[0 + 1..];
    }
  }

  /** Two fields expanded in turn: the variants of both are there, and so is
      any other key that neither writes. */
  lemma TwoFieldsExpanded(t: LocaleTable, d: Record, fields: seq<string>, tr: Translator, k: string)
    requires FieldsExpandable(t, d, fields, tr) && |fields| == 2
    requires k in d && k !in fields && k !in AllVariantKeys(t, fields[0]) && k !in AllVariantKeys(t, fields[1])
    ensures ExpandFields(t, d, fields, tr).Ok?
    ensures var fielded := ExpandFields(t, d, fields, tr).value;
      && "language" in fielded && fielded["language"] == d["language"]
      && k in fielded && fielded[k] == d[k]
      && (forall lang :: lang in t.languages ==> VariantKey(t, fields[0], lang) in fielded)
      && forall lang :: lang in t.languages ==>
           VariantKey(t, fields[1], lang) in fielded && fielded[VariantKey(t, fields[1], lang)].Str?
  {
    LastFieldExpanded(t, d, fields, tr);
    FirstFieldExpanded(t, d, fields, tr);
    assert forall f :: f in fields ==> f == fields[0] || f == fields[1];
    ExpandFieldsKeeps(t, d, fields, tr, k);
  }

  /** translate_array on a record whose selector has a model code and whose
      array is a list of strings, with a translator that always answers. */
  lemma ArrayExpandedAllText(t: LocaleTable, d: Record, name: string, tr: Translator, items: seq<string>)
    requires WellFormed(t) && name != ShiftTranslations
    requires "language" in d && d["language"].Str? && d["language"].s in t.codes
    requires name in d && d[name] == StrList(items)
    requires AlwaysAnswers(tr)
    ensures ExpandArray(t, d, name, tr).Ok?
    ensures var r := ExpandArray(t, d, name, tr).value;
      && r.Keys == (d.Keys + {ShiftTranslations}) - {name}
      && (forall k :: k in d && k != name && k != ShiftTranslations ==> r[k] == d[k])
      && r[ShiftTranslations].RecordList?
      && |r[ShiftTranslations].records| == |items|
      && forall i :: 0 <= i < |items| ==> r[ShiftTranslations].records[i].Keys == ItemKeys(t)
  {
    assert ArrayItems(t, d, d[name]) == Ok(items);
    forall i, lang | 0 <= i < |items| && lang in t.languages
      ensures ItemValue(t, d, items[i], lang, tr).Ok?
    {
    }
    ExpandArraySpec(t, d, name, tr);
  }
}
