/** The request bodies of the application's unit tests, with the facts about
    them that the route lemmas use. */
module UnitRequests {
  import opened Json

  const InvalidRequest: Record := map["invalidField" := Str("Invalid data")]

  const ReportRequest: Record := map["language" := Str("EN"), "report" := Str("This is a sample report.")]

  const OrganisationRequest: Record :=
    map["language" := Str("EN"), "description" := Str("This is a sample organisation description.")]

  const FaqRequest: Record :=
    map["language" := Str("EN"), "question" := Str("What is this?"), "answer" := Str("This is a FAQ answer.")]

  const EventRequest: Record := map[
    "language" := Str("EN"),
    "name" := Str("Sample Event"),
    "description" := Str("This is a sample event."),
    "shiftDirections" := StrList(["Sample directions", ""])]

  lemma InvalidRequestShape()
    ensures "language" !in InvalidRequest
  {
  }

  lemma ReportRequestShape()
    ensures "language" in ReportRequest && ReportRequest["language"] == Str("EN")
    ensures "report" in ReportRequest && ReportRequest["report"].Str?
  {
  }

  lemma OrganisationRequestShape()
    ensures "language" in OrganisationRequest && OrganisationRequest["language"] == Str("EN")
    ensures "description" in OrganisationRequest && OrganisationRequest["description"].Str?
  {
  }

  lemma FaqRequestShape()
    ensures "language" in FaqRequest && FaqRequest["language"] == Str("EN")
    ensures "question" in FaqRequest && FaqRequest["question"].Str?
    ensures "answer" in FaqRequest && FaqRequest["answer"].Str?
  {
  }

  lemma EventRequestShape()
    ensures "language" in EventRequest && EventRequest["language"] == Str("EN")
    ensures "name" in EventRequest && EventRequest["name"].Str?
    ensures "description" in EventRequest && EventRequest["description"].Str?
    ensures "shiftDirections" in EventRequest && EventRequest["shiftDirections"] == StrList(["Sample directions", ""])
  {
  }
}
