/**
 * The event document (backend/apps/models/eventModel.js): a required title
 * and start date, optional description, location, end date and image
 * fields, and a status from "draft", "upcoming", "cancelled" and
 * "completed" ("draft" by default). A pre-save hook refuses an event whose
 * end date lies before its start date. Paths outside the schema are not
 * stored.
 */
module EventModel {
  import opened Wrappers

  datatype Event = Event(
    title: string,
    description: Option<string>,
    location: Option<string>,
    startDate: Option<nat>,
    endDate: Option<nat>,
    imageUrl: Option<string>,
    imageName: Option<string>,
    status: string)

  const Statuses: seq<string> := ["draft", "upcoming", "cancelled", "completed"]

  /** Why `save()` refused an event: failing validators, or the pre-save date check. */
  datatype SaveError = Invalid(paths: seq<string>) | EndBeforeStart

  /** The paths whose validator fails against a list of allowed statuses. */
  function ViolationsAgainst(e: Event, statuses: seq<string>): (paths: seq<string>)
    ensures paths == [] <==> e.title != "" && e.startDate.Some? && e.status in statuses
  {
    (if e.title == "" then ["title"] else [])
    + (if e.startDate.None? then ["startDate"] else [])
    + (if e.status !in statuses then ["status"] else [])
  }

  /** The paths whose validator fails under the schema's statuses. */
  function Violations(e: Event): (paths: seq<string>)
    ensures paths == [] <==> e.title != "" && e.startDate.Some? && e.status in Statuses
  {
    ViolationsAgainst(e, Statuses)
  }

  /** The pre-save check fails only when an end date is given and the start lies after it. */
  predicate EndsBeforeStart(e: Event) {
    e.endDate.Some? && e.startDate.Some? && e.startDate.value > e.endDate.value
  }

  /** `save()` under a list of allowed statuses: validation, then the pre-save hook. */
  function SaveAgainst(e: Event, statuses: seq<string>): (r: Result<Event, SaveError>)
    ensures r.Ok? <==> ViolationsAgainst(e, statuses) == [] && !EndsBeforeStart(e)
    ensures r.Ok? ==> r.value == e
    ensures r.Err? && r.error.Invalid? ==> r.error.paths == ViolationsAgainst(e, statuses) && r.error.paths != []
    ensures r == Err(EndBeforeStart) <==> ViolationsAgainst(e, statuses) == [] && EndsBeforeStart(e)
  {
    if ViolationsAgainst(e, statuses) != [] then Err(Invalid(ViolationsAgainst(e, statuses)))
    else if EndsBeforeStart(e) then Err(EndBeforeStart)
    else Ok(e)
  }

  /** `save()` as the schema defines it. */
  function Save(e: Event): (r: Result<Event, SaveError>)
    ensures r.Ok? <==> Violations(e) == [] && !EndsBeforeStart(e)
    ensures r.Ok? ==> r.value == e
  {
    SaveAgainst(e, Statuses)
  }

  /** An event without an end date, or one that ends when it starts, passes the date check. */
  lemma OpenOrSameDayEventSaves(e: Event)
    requires Violations(e) == []
    requires e.endDate.None? || e.endDate == e.startDate
    ensures Save(e) == Ok(e)
  {
  }

  /** Every event `save()` accepts starts no later than it ends. */
  lemma SavedEventInOrder(e: Event)
    requires Save(e).Ok?
    ensures Save(e).value.startDate.Some?
    ensures Save(e).value.endDate.Some? ==> Save(e).value.startDate.value <= Save(e).value.endDate.value
  {
  }
}
