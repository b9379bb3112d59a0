/** The event matrix of the recommender: a table with one 0/1 column per
    category, district and organisation, and one row per event. */
module Recommendation {
  import opened Json
  import Locales

  const Categories := ["Kultura", "Sport", "Edukacja", "Ekologia", "Pomoc", "Podstawowa"]
  const Districts := ["Wrzeszcz", "Centrum", "Przymorze", "Chelm", "Zaspa", "Oliwa", "Orunia"]
  const Organisations := ["Wesoly Senior", "Przedszkole Tecza", "ChessMaster", "Fundacja Druga Szansa",
                          "PJATK", "Kwiatuszek", "Bananek", "Pieski i kotki"]

  /** The three lists flattened, in order. */
  const AllColumns := Categories + Districts + Organisations

  /** An event as the events API describes it; `district`, `organisation`
      and `categories` may be missing from the JSON object. */
  datatype Event = Event(
    id: int,
    organisation: Option<string>,
    district: Option<string>,
    categories: Option<seq<string>>)

  /** `event.get('categories', [])` */
  function CategoriesOf(e: Event): seq<string>
  {
    if e.categories.Some? then e.categories.value else []
  }

  /** Every name whose column an event's row marks. */
  function Names(e: Event): seq<string>
    requires e.district.Some? && e.organisation.Some?
  {
    CategoriesOf(e) + [e.district.value, e.organisation.value]
  }

  /** `columns.get_loc(name)`: the position of `name`, KeyError when it is no
      column. */
  function ColumnIndex(columns: seq<string>, name: string): (r: Result<nat>)
    ensures r.Ok? ==> r.value < |columns| && columns[r.value] == name
    ensures r.Ok? ==> forall j :: 0 <= j < r.value ==> columns[j] != name
    ensures r.Err? <==> name !in columns
    ensures r.Err? ==> r.failure == KeyMissing(name)
  {
    if columns == [] then Err(KeyMissing(name))
    else if columns[0] == name then Ok(0)
    else
      var i :- ColumnIndex(columns[1..], name);
      Ok(i + 1)
  }

  function Zeros(n: nat): (r: seq<int>)
    ensures |r| == n && forall i :: 0 <= i < n ==> r[i] == 0
  {
    seq(n, _ => 0)
  }

  /** Sets the bit of each name in turn, failing at the first name that is
      no column. */
  function SetBits(columns: seq<string>, row: seq<int>, names: seq<string>): Result<seq<int>>
    requires |row| == |columns|
    decreases |names|
  {
    if names == [] then Ok(row)
    else
      var i :- ColumnIndex(columns, names[0]);
      SetBits(columns, row[i := 1], names[1..])
  }

  /** `event[key]` read and its bit set. */
  function SetField(columns: seq<string>, row: seq<int>, field: Option<string>, key: string): Result<seq<int>>
    requires |row| == |columns|
  {
    if field.None? then Err(KeyMissing(key)) else SetBits(columns, row, [field.value])
  }

  /** The row `insert_events` builds for one event: the categories' bits,
      then the district's, then the organisation's. */
  function EventRow(columns: seq<string>, e: Event): Result<seq<int>>
  {
    var withCategories :- SetBits(columns, Zeros(|columns|), CategoriesOf(e));
    SetBitsLength(columns, Zeros(|columns|), CategoriesOf(e));
    var withDistrict :- SetField(columns, withCategories, e.district, "district");
    SetBitsLength(columns, withCategories, [e.district.value]);
    SetField(columns, withDistrict, e.organisation, "organisation")
  }

  /** The reference row: 1 exactly at the columns named, 0 elsewhere. */
  function OneHot(columns: seq<string>, names: seq<string>): (r: seq<int>)
    ensures |r| == |columns|
  {
    seq(|columns|, i requires 0 <= i < |columns| => if columns[i] in names then 1 else 0)
  }

  /** How far `insert_events` got: the rows the table holds and the
      exception that stopped it, if any. */
  datatype Insertion = Insertion(rows: seq<seq<int>>, raised: Option<Failure>)

  /** The loop of `insert_events`: each event's row appended in turn; a row
      that cannot be built raises, and the rows appended before it stay. */
  function InsertRun(columns: seq<string>, rows: seq<seq<int>>, events: seq<Event>): Insertion
    decreases |events|
  {
    if events == [] then Insertion(rows, None)
    else
      match EventRow(columns, events[0])
      case Err(f) => Insertion(rows, Some(f))
      case Ok(row) => InsertRun(columns, rows + [row], events[1..])
  }

  /** The pandas table: its column labels and its rows, in index order. */
  class DataFrame {
    const columns: seq<string>
    var rows: seq<seq<int>>

    /** Every row has one cell per column. */
    ghost predicate Valid()
      reads this
    {
      forall i :: 0 <= i < |rows| ==> |rows[i]| == |columns|
    }

    constructor (columns: seq<string>)
      ensures this.columns == columns && rows == [] && Valid()
    {
      this.columns := columns;
      rows := [];
    }
  }

  /** `prepare_matrix`: a table with every column and no row. */
  method PrepareMatrix() returns (df: DataFrame)
    ensures fresh(df) && df.columns == AllColumns && df.rows == [] && df.Valid()
  {
    var allColumns := [Categories, Districts, Organisations];
    var flat := allColumns[0] + allColumns[1] + allColumns[2];
    df := new DataFrame(flat);
  }

  /** The inner part of `insert_events` for one event: a zero row whose bits
      are set in place. */
  method BuildRow(columns: seq<string>, e: Event) returns (r: Result<seq<int>>)
    ensures r == EventRow(columns, e)
  {
    var rowData := new int[|columns|](_ => 0);
    assert rowData[..] == Zeros(|columns|);
    var categories := CategoriesOf(e);
    var k := 0;
    while k < |categories|
      invariant 0 <= k <= |categories|
      invariant SetBits(columns, Zeros(|columns|), categories) == SetBits(columns, rowData[..], categories[k..])
    {
      assert categories[k..][0] == categories[k] && categories[k..][1..] == categories[k + 1..];
      var i := ColumnIndex(columns, categories[k]);
      if i.Err? {
        return Err(i.failure);
      }
      rowData[i.value] := 1;
      k := k + 1;
    }
    assert categories[k..] == [];
    SetBitsLength(columns, Zeros(|columns|), categories);
    if e.district.None? {
      return Err(KeyMissing("district"));
    }
    var d := ColumnIndex(columns, e.district.value);
    if d.Err? {
      return Err(d.failure);
    }
    SetOneBit(columns, rowData[..], e.district.value);
    rowData[d.value] := 1;
    if e.organisation.None? {
      return Err(KeyMissing("organisation"));
    }
    var o := ColumnIndex(columns, e.organisation.value);
    if o.Err? {
      return Err(o.failure);
    }
    SetOneBit(columns, rowData[..], e.organisation.value);
    rowData[o.value] := 1;
    r := Ok(rowData[..]);
  }

  /** `insert_events`: appends one row per event to `df` in place; an event
      that cannot be encoded raises, leaving the rows appended so far. */
  method InsertEvents(events: seq<Event>, df: DataFrame) returns (raised: Option<Failure>)
    requires df.Valid()
    modifies df
    ensures Insertion(df.rows, raised) == InsertRun(df.columns, old(df.rows), events)
    ensures df.Valid()
  {
    InsertRunWidths(df.columns, df.rows, events);
    var k := 0;
    while k < |events|
      invariant 0 <= k <= |events|
      invariant InsertRun(df.columns, old(df.rows), events) == InsertRun(df.columns, df.rows, events[k..])
    {
      assert events[k..][0] == events[k] && events[k..][1..] == events[k + 1..];
      var row := BuildRow(df.columns, events[k]);
      if row.Err? {
        return Some(row.failure);
      }
      df.rows := df.rows + [row.value];
      k := k + 1;
    }
    assert events[k..] == [];
    raised := None;
  }

  /** Lines 25-30 of `recommend`: the user's matrix, and the matrix of the
      user's events followed by the upcoming ones. */
  method EventMatrices(userEvents: seq<Event>, upcomingEvents: seq<Event>)
    returns (userMatrix: DataFrame, allMatrix: DataFrame, raised: Option<Failure>)
    ensures fresh(userMatrix) && fresh(allMatrix)
    ensures raised.None? ==>
      && InsertRun(AllColumns, [], userEvents) == Insertion(userMatrix.rows, None)
      && InsertRun(AllColumns, userMatrix.rows, upcomingEvents) == Insertion(allMatrix.rows, None)
    ensures InsertRun(AllColumns, [], userEvents).raised.Some? ==> raised == InsertRun(AllColumns, [], userEvents).raised
    ensures InsertRun(AllColumns, [], userEvents).raised.None? ==>
      raised == InsertRun(AllColumns, InsertRun(AllColumns, [], userEvents).rows, upcomingEvents).raised
  {
    userMatrix := PrepareMatrix();
    raised := InsertEvents(userEvents, userMatrix);
    allMatrix := PrepareMatrix();
    if raised.Some? {
      return;
    }
    raised := InsertEvents(userEvents, allMatrix);
    if raised.Some? {
      return;
    }
    raised := InsertEvents(upcomingEvents, allMatrix);
  }

  // ---------------------------------------------------------------------
  // Lemmas

  lemma {:induction false} SetBitsLength(columns: seq<string>, row: seq<int>, names: seq<string>)
    requires |row| == |columns|
    ensures SetBits(columns, row, names).Ok? ==> |SetBits(columns, row, names).value| == |columns|
    decreases |names|
  {
    if names != [] && ColumnIndex(columns, names[0]).Ok? {
      SetBitsLength(columns, row[ColumnIndex(columns, names[0]).value := 1], names[1..]);
    }
  }

  /** Setting one column's bit. */
  lemma SetOneBit(columns: seq<string>, row: seq<int>, name: string)
    requires |row| == |columns| && name in columns
    ensures SetBits(columns, row, [name]) == Ok(row[ColumnIndex(columns, name).value := 1])
  {
    assert [name][1..] == [];
  }

  /** In distinct columns a column's label finds that column. */
  lemma IndexOfColumn(columns: seq<string>, i: nat)
    requires Locales.Distinct(columns) && i < |columns|
    ensures ColumnIndex(columns, columns[i]) == Ok(i)
  {
  }

  /** Setting the bits of `names` succeeds exactly when every name is a
      column; it then sets exactly the named columns and keeps the rest. */
  lemma {:induction false} SetBitsSpec(columns: seq<string>, row: seq<int>, names: seq<string>)
    requires Locales.Distinct(columns) && |row| == |columns|
    ensures SetBits(columns, row, names).Ok? <==> forall n :: n in names ==> n in columns
    ensures SetBits(columns, row, names).Ok? ==>
      && |SetBits(columns, row, names).value| == |columns|
      && forall i :: 0 <= i < |columns| ==>
           SetBits(columns, row, names).value[i] == if columns[i] in names then 1 else row[i]
    decreases |names|
  {
    if names != [] {
      var c := ColumnIndex(columns, names[0]);
      if c.Ok? {
        var next := row[c.value := 1];
        SetBitsSpec(columns, next, names[1..]);
        assert forall n :: n in names <==> n == names[0] || n in names[1..];
        if SetBits(columns, row, names).Ok? {
          forall i | 0 <= i < |columns|
            ensures SetBits(columns, row, names).value[i] == if columns[i] in names then 1 else row[i]
          {
            if columns[i] == names[0] {
              IndexOfColumn(columns, i);
            }
          }
        }
      }
    }
  }

  /** A failing `SetBits` raises the KeyError of the first name that is no
      column. */
  lemma {:induction false} SetBitsFailure(columns: seq<string>, row: seq<int>, names: seq<string>)
    requires |row| == |columns| && SetBits(columns, row, names).Err?
    ensures exists k :: (0 <= k < |names| && names[k] !in columns
      && (forall j :: 0 <= j < k ==> names[j] in columns)
      && SetBits(columns, row, names).failure == KeyMissing(names[k]))
    decreases |names|
  {
    var c := ColumnIndex(columns, names[0]);
    if c.Ok? {
      var rest := names[1..];
      SetBitsFailure(columns, row[c.value := 1], rest);
      var k :| 0 <= k < |rest| && rest[k] !in columns
        && (forall j :: 0 <= j < k ==> rest[j] in columns)
        && SetBits(columns, row[c.value := 1], rest).failure == KeyMissing(rest[k]);
      assert names[k + 1] == rest[k];
      forall j | 0 <= j < k + 1
        ensures names[j] in columns
      {
        if j > 0 {
          assert names[j] == rest[j - 1];
        }
      }
    } else {
      assert names[0] !in columns;
    }
  }

  /** A row can be built exactly when the event has a district and an
      organisation and every name it carries is a column; the row is then
      1 exactly at the columns it names and 0 elsewhere. */
  lemma EventRowSpec(columns: seq<string>, e: Event)
    requires Locales.Distinct(columns)
    ensures EventRow(columns, e).Ok? <==>
      e.district.Some? && e.organisation.Some? && forall n :: n in Names(e) ==> n in columns
    ensures EventRow(columns, e).Ok? ==> EventRow(columns, e).value == OneHot(columns, Names(e))
  {
    var zeros := Zeros(|columns|);
    var cats := CategoriesOf(e);
    SetBitsSpec(columns, zeros, cats);
    if SetBits(columns, zeros, cats).Ok? && e.district.Some? {
      var r1 := SetBits(columns, zeros, cats).value;
      SetBitsSpec(columns, r1, [e.district.value]);
      if SetBits(columns, r1, [e.district.value]).Ok? && e.organisation.Some? {
        var r2 := SetBits(columns, r1, [e.district.value]).value;
        SetBitsSpec(columns, r2, [e.organisation.value]);
        var names := Names(e);
        assert forall n :: n in names <==> n in cats || n == e.district.value || n == e.organisation.value;
        if EventRow(columns, e).Ok? {
          var r := EventRow(columns, e).value;
          forall i | 0 <= i < |columns|
            ensures r[i] == OneHot(columns, names)[i]
          {
          }
        }
      }
    }
  }

  /** The exceptions: a missing `district` or `organisation` raises its
      KeyError once the categories are set, and any other failure is the
      KeyError of a name the event carries that is no column. */
  lemma EventRowFailure(columns: seq<string>, e: Event)
    requires EventRow(columns, e).Err?
    ensures var f := EventRow(columns, e).failure;
      || (f == KeyMissing("district") && e.district.None?)
      || (f == KeyMissing("organisation") && e.organisation.None?)
      || (f.KeyMissing? && f.key !in columns
          && (f.key in CategoriesOf(e) || Some(f.key) == e.district || Some(f.key) == e.organisation))
  {
    var zeros := Zeros(|columns|);
    var cats := CategoriesOf(e);
    if SetBits(columns, zeros, cats).Err? {
      SetBitsFailure(columns, zeros, cats);
    } else if e.district.Some? {
      var r1 := SetBits(columns, zeros, cats).value;
      SetBitsLength(columns, zeros, cats);
      if SetBits(columns, r1, [e.district.value]).Err? {
        SetBitsFailure(columns, r1, [e.district.value]);
      } else if e.organisation.Some? {
        var r2 := SetBits(columns, r1, [e.district.value]).value;
        SetBitsLength(columns, r1, [e.district.value]);
        SetBitsFailure(columns, r2, [e.organisation.value]);
      }
    }
  }

  /** An event without `categories` marks only its district and its
      organisation. */
  lemma NoCategoriesRow(columns: seq<string>, e: Event)
    requires Locales.Distinct(columns) && e.categories.None? && EventRow(columns, e).Ok?
    ensures e.district.Some? && e.organisation.Some? && |EventRow(columns, e).value| == |columns|
    ensures forall i :: 0 <= i < |columns| ==>
      EventRow(columns, e).value[i] == if columns[i] == e.district.value || columns[i] == e.organisation.value then 1 else 0
  {
    EventRowSpec(columns, e);
    assert Names(e) == [e.district.value, e.organisation.value];
  }

  /** Whether `insert_events` can encode an event under these columns. */
  ghost predicate Encodable(columns: seq<string>, e: Event)
  {
    e.district.Some? && e.organisation.Some? && forall n :: n in Names(e) ==> n in columns
  }

  /** `insert_events` never changes the rows already there and appends at
      most one row per event. */
  lemma {:induction false} InsertRunKeeps(columns: seq<string>, rows: seq<seq<int>>, events: seq<Event>)
    ensures |rows| <= |InsertRun(columns, rows, events).rows| <= |rows| + |events|
    ensures InsertRun(columns, rows, events).rows[..|rows|] == rows
    decreases |events|
  {
    if events != [] && EventRow(columns, events[0]).Ok? {
      var next := rows + [EventRow(columns, events[0]).value];
      InsertRunKeeps(columns, next, events[1..]);
      var out := InsertRun(columns, next, events[1..]).rows;
      assert out[..|next|][..|rows|] == out[..|rows|];
    }
  }

  /** It runs to the end exactly when every event can be encoded. */
  lemma {:induction false} InsertRunOk(columns: seq<string>, rows: seq<seq<int>>, events: seq<Event>)
    requires Locales.Distinct(columns)
    ensures InsertRun(columns, rows, events).raised.None? <==> forall k :: 0 <= k < |events| ==> Encodable(columns, events[k])
    decreases |events|
  {
    if events != [] {
      EventRowSpec(columns, events[0]);
      var row := EventRow(columns, events[0]);
      if row.Ok? {
        var rest := events[1..];
        InsertRunOk(columns, rows + [row.value], rest);
        forall k | 1 <= k < |events|
          ensures events[k] == rest[k - 1]
        {
        }
      }
    }
  }

  /** A run to the end appends each event's one-hot row, in event order. */
  lemma {:induction false} InsertRunRows(columns: seq<string>, rows: seq<seq<int>>, events: seq<Event>)
    requires Locales.Distinct(columns) && InsertRun(columns, rows, events).raised.None?
    ensures |InsertRun(columns, rows, events).rows| == |rows| + |events|
    ensures forall k :: 0 <= k < |events| ==>
      && Encodable(columns, events[k])
      && InsertRun(columns, rows, events).rows[|rows| + k] == OneHot(columns, Names(events[k]))
    decreases |events|
  {
    if events != [] {
      EventRowSpec(columns, events[0]);
      var rest := events[1..];
      var next := rows + [EventRow(columns, events[0]).value];
      InsertRunRows(columns, next, rest);
      InsertRunKeeps(columns, next, rest);
      var out := InsertRun(columns, next, rest).rows;
      forall k | 0 <= k < |events|
        ensures Encodable(columns, events[k]) && out[|rows| + k] == OneHot(columns, Names(events[k]))
      {
        if k == 0 {
          assert out[|rows|] == out[..|next|][|rows|];
        } else {
          assert events[k] == rest[k - 1];
        }
      }
    }
  }

  /** Events that can all be encoded are all inserted. */
  lemma InsertRunAll(columns: seq<string>, rows: seq<seq<int>>, events: seq<Event>)
    requires Locales.Distinct(columns)
    requires forall k :: 0 <= k < |events| ==> Encodable(columns, events[k])
    ensures InsertRun(columns, rows, events).raised.None?
    ensures |InsertRun(columns, rows, events).rows| == |rows| + |events|
  {
    InsertRunOk(columns, rows, events);
    InsertRunRows(columns, rows, events);
  }

  /** Every row `insert_events` appends has one cell per column. */
  lemma {:induction false} InsertRunWidths(columns: seq<string>, rows: seq<seq<int>>, events: seq<Event>)
    requires forall i :: 0 <= i < |rows| ==> |rows[i]| == |columns|
    ensures forall i :: 0 <= i < |InsertRun(columns, rows, events).rows| ==>
      |InsertRun(columns, rows, events).rows[i]| == |columns|
    decreases |events|
  {
    if events != [] && EventRow(columns, events[0]).Ok? {
      EventRowLength(columns, events[0]);
      InsertRunWidths(columns, rows + [EventRow(columns, events[0]).value], events[1..]);
    }
  }

  lemma EventRowLength(columns: seq<string>, e: Event)
    requires EventRow(columns, e).Ok?
    ensures |EventRow(columns, e).value| == |columns|
  {
    var zeros := Zeros(|columns|);
    var cats := CategoriesOf(e);
    SetBitsLength(columns, zeros, cats);
    var r1 := SetBits(columns, zeros, cats).value;
    SetBitsLength(columns, r1, [e.district.value]);
    var r2 := SetBits(columns, r1, [e.district.value]).value;
    SetBitsLength(columns, r2, [e.organisation.value]);
  }

  /** Two lists with no label in common. */
  ghost predicate Apart(a: seq<string>, b: seq<string>)
  {
    forall i, j :: 0 <= i < |a| && 0 <= j < |b| ==> a[i] != b[j]
  }

  lemma DistinctConcat(a: seq<string>, b: seq<string>)
    requires Locales.Distinct(a) && Locales.Distinct(b) && Apart(a, b)
    ensures Locales.Distinct(a + b)
  {
    var ab := a + b;
    forall i, j | 0 <= i < j < |ab|
      ensures ab[i] != ab[j]
    {
      if j < |a| {
        assert ab[i] == a[i] && ab[j] == a[j];
      } else if i < |a| {
        assert ab[i] == a[i] && ab[j] == b[j - |a|];
      } else {
        assert ab[i] == b[i - |a|] && ab[j] == b[j - |a|];
      }
    }
  }

  lemma ListsDistinct()
    ensures Locales.Distinct(Categories) && Locales.Distinct(Districts) && Locales.Distinct(Organisations)
  {
  }

  lemma ListsApart()
    ensures Apart(Categories, Districts) && Apart(Categories + Districts, Organisations)
  {
    var cd := Categories + Districts;
    forall i, j | 0 <= i < |cd| && 0 <= j < |Organisations|
      ensures cd[i] != Organisations[j]
    {
      if i < |Categories| {
        assert cd[i] == Categories[i];
      } else {
        assert cd[i] == Districts[i - |Categories|];
      }
    }
  }

  /** The table `prepare_matrix` builds: 21 distinct columns, the 6
      categories, then the 7 districts, then the 8 organisations. */
  lemma AllColumnsLayout()
    ensures |AllColumns| == 21
    ensures AllColumns[..6] == Categories && AllColumns[6..13] == Districts && AllColumns[13..] == Organisations
    ensures Locales.Distinct(AllColumns)
  {
    assert AllColumns[..6] == Categories;
    assert AllColumns[6..13] == Districts;
    assert AllColumns[13..] == Organisations;
    ListsDistinct();
    ListsApart();
    DistinctConcat(Categories, Districts);
    DistinctConcat(Categories + Districts, Organisations);
  }
}
