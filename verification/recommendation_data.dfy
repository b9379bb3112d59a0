/** The fixed events that stand in for the events API: the user's past
    events and the upcoming ones. */
module RecommendationData {
  import opened Json
  import opened Recommendation

  /** `get_users_events` */
  const UserEvents := [
    Event(9, Some("PJATK"), Some("Orunia"), Some(["Sport"])),
    Event(10, Some("PJATK"), Some("Centrum"), Some(["Sport"])),
    Event(11, Some("Kwiatuszek"), Some("Wrzeszcz"), Some(["Ekologia", "Pomoc"]))
  ]

  /** `get_upcoming_events` */
  const UpcomingEvents := [
    Event(1, Some("Kwiatuszek"), Some("Wrzeszcz"), Some(["Sport"])),
    Event(2, Some("Bananek"), Some("Przymorze"), Some(["Edukacja"])),
    Event(3, Some("PJATK"), Some("Orunia"), Some(["Sport", "Pomoc"])),
    Event(4, Some("PJATK"), Some("Centrum"), Some(["Sport"])),
    Event(5, Some("Bananek"), Some("Wrzeszcz"), Some(["Kultura"])),
    Event(6, Some("Kwiatuszek"), Some("Wrzeszcz"), Some(["Ekologia", "Pomoc"])),
    Event(7, Some("Pieski i kotki"), Some("Orunia"), Some(["Ekologia", "Pomoc"])),
    Event(8, Some("Bananek"), Some("Przymorze"), Some(["Kultura"]))
  ]

  /** Every name the fixed events use is a column. */
  lemma NamesAreColumns()
    ensures forall n :: n in ["Kultura", "Sport", "Edukacja", "Ekologia", "Pomoc"] ==> n in AllColumns
    ensures forall n :: n in ["Wrzeszcz", "Centrum", "Przymorze", "Orunia"] ==> n in AllColumns
    ensures forall n :: n in ["PJATK", "Kwiatuszek", "Bananek", "Pieski i kotki"] ==> n in AllColumns
  {
    assert AllColumns[0] == "Kultura" && AllColumns[1] == "Sport" && AllColumns[2] == "Edukacja";
    assert AllColumns[3] == "Ekologia" && AllColumns[4] == "Pomoc";
    assert AllColumns[6] == "Wrzeszcz" && AllColumns[7] == "Centrum" && AllColumns[8] == "Przymorze";
    assert AllColumns[12] == "Orunia";
    assert AllColumns[17] == "PJATK" && AllColumns[18] == "Kwiatuszek";
    assert AllColumns[19] == "Bananek" && AllColumns[20] == "Pieski i kotki";
  }

  lemma UserEventsEncodable()
    ensures forall k :: 0 <= k < |UserEvents| ==> Encodable(AllColumns, UserEvents[k])
  {
    NamesAreColumns();
  }

  lemma UpcomingEventsEncodable()
    ensures forall k :: 0 <= k < |UpcomingEvents| ==> Encodable(AllColumns, UpcomingEvents[k])
  {
    NamesAreColumns();
  }

  /** Inserting the user's events into an empty table succeeds with 3 rows. */
  lemma UserMatrixRows()
    ensures InsertRun(AllColumns, [], UserEvents).raised.None?
    ensures |InsertRun(AllColumns, [], UserEvents).rows| == 3
  {
    AllColumnsLayout();
    UserEventsEncodable();
    InsertRunAll(AllColumns, [], UserEvents);
  }

  /** Inserting the upcoming events after any rows succeeds with 8 more. */
  lemma UpcomingRows(rows: seq<seq<int>>)
    ensures InsertRun(AllColumns, rows, UpcomingEvents).raised.None?
    ensures |InsertRun(AllColumns, rows, UpcomingEvents).rows| == |rows| + 8
  {
    AllColumnsLayout();
    UpcomingEventsEncodable();
    InsertRunAll(AllColumns, rows, UpcomingEvents);
  }

  /** The matrices `recommend` builds from the fixed events: 3 rows for the
      user, and 3 + 8 rows for all events, the user's first. */
  lemma DummyMatrices()
    ensures InsertRun(AllColumns, [], UserEvents).raised.None?
    ensures |InsertRun(AllColumns, [], UserEvents).rows| == 3
    ensures InsertRun(AllColumns, InsertRun(AllColumns, [], UserEvents).rows, UpcomingEvents).raised.None?
    ensures |InsertRun(AllColumns, InsertRun(AllColumns, [], UserEvents).rows, UpcomingEvents).rows| == 11
  {
    UserMatrixRows();
    UpcomingRows(InsertRun(AllColumns, [], UserEvents).rows);
  }
}
