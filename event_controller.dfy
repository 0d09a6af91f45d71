/**
 * The event handlers (backend/apps/controllers/eventController.js):
 * creation with an optional image, attaching an image, the public listing,
 * update and deletion.
 *
 * The public listing selects status "published", which the schema's status
 * list does not contain: `save()` never writes such an event, so only an
 * update (which runs no validator) can make one listable. The corrected
 * status list, with "published" in it, sits beside the schema's.
 */
module EventController {
  import opened Wrappers
  import Query
  import Store
  import Http
  import UploadMiddleware
  import Attachments
  import opened EventModel

  /** The fields `createEvent` reads from the body; `None` is an undefined field, dates already parsed. */
  datatype EventBody = EventBody(
    title: Option<string>,
    description: Option<string>,
    location: Option<string>,
    startDate: Option<nat>,
    endDate: Option<nat>,
    status: Option<string>)

  /**
   * `eventData`: the schema's keys plus `createdBy`, and `originalFileName`
   * and `fileType` with a file; the last three are outside the schema.
   */
  datatype EventData = EventData(
    title: Option<string>,
    description: Option<string>,
    location: Option<string>,
    startDate: Option<nat>,
    endDate: Option<nat>,
    status: string,
    createdBy: string,
    imageUrl: Option<string>,
    originalFileName: Option<string>,
    fileType: Option<string>)

  /** The creator: the requester's id when it is a non-empty string, "Unknown" otherwise. */
  function CreatedBy(requester: Option<string>): (who: string)
    ensures who == "Unknown" <==> requester.None? || requester == Some("") || requester == Some("Unknown")
    ensures who != "Unknown" ==> requester == Some(who)
  {
    if requester.Some? && requester.value != "" then requester.value else "Unknown"
  }

  /** `createEvent`'s data: status "draft" unless a non-empty one is given, the image keys with a file. */
  function CreateData(body: EventBody, requester: Option<string>, file: Option<UploadMiddleware.MulterFile>): (d: EventData)
    ensures d.title == body.title && d.description == body.description && d.location == body.location
    ensures d.startDate == body.startDate && d.endDate == body.endDate
    ensures d.status == (if body.status.None? || body.status == Some("") then "draft" else body.status.value)
    ensures d.createdBy == CreatedBy(requester)
    ensures file.None? ==> d.imageUrl.None? && d.originalFileName.None? && d.fileType.None?
    ensures file.Some? ==>
              && d.imageUrl == Some(Attachments.PublicUrl(UploadMiddleware.EventsDir, file.value.filename))
              && d.originalFileName == Some(file.value.originalname)
              && d.fileType == Some("uploaded")
  {
    var status := if body.status.None? || body.status == Some("") then "draft" else body.status.value;
    var base := EventData(body.title, body.description, body.location, body.startDate, body.endDate,
                          status, CreatedBy(requester), None, None, None);
    match file
    case None => base
    case Some(f) =>
      base.(imageUrl := Some(Attachments.PublicUrl(UploadMiddleware.EventsDir, f.filename)),
            originalFileName := Some(f.originalname), fileType := Some("uploaded"))
  }

  /** `new Event(data)`: the schema's keys are kept, the others dropped. */
  function ToDocument(d: EventData): (e: Event)
    ensures e.description == d.description && e.location == d.location
    ensures e.startDate == d.startDate && e.endDate == d.endDate
    ensures e.imageUrl == d.imageUrl && e.imageName.None? && e.status == d.status
    ensures (e.title == "" <==> d.title.None? || d.title == Some(""))
    ensures d.title.Some? ==> e.title == d.title.value
  {
    Event(d.title.GetOr(""), d.description, d.location, d.startDate, d.endDate, d.imageUrl, None, d.status)
  }

  /**
   * `createEvent`: the event is saved under `newId` (201); a validation or
   * date-order failure is answered 400 and stores nothing.
   */
  method CreateEvent(events: Store.Collection<Event>, body: EventBody, requester: Option<string>,
                     file: Option<UploadMiddleware.MulterFile>, newId: Store.Id)
    returns (reply: Http.Reply<Event>)
    requires events.Valid() && newId !in events.docs
    modifies events
    ensures events.Valid()
    ensures var e := ToDocument(CreateData(body, requester, file));
            if Save(e).Ok? then
              reply == Http.Success(201, e) && events.docs == old(events.docs)[newId := e]
              && events.order == old(events.order) + [newId]
            else
              reply == Http.Failure(400) && events.docs == old(events.docs) && events.order == old(events.order)
  {
    var saved := Save(ToDocument(CreateData(body, requester, file)));
    if saved.Err? {
      return Http.Failure(400);
    }
    events.Insert(newId, saved.value);
    reply := Http.Success(201, saved.value);
  }

  /**
   * A body whose end date lies before its start date is refused, whatever
   * else it holds; one without an end date is accepted whenever its title,
   * start date and status are.
   */
  lemma CreateChecksDateOrder(body: EventBody, requester: Option<string>, file: Option<UploadMiddleware.MulterFile>)
    ensures body.startDate.Some? && body.endDate.Some? && body.startDate.value > body.endDate.value ==>
              Save(ToDocument(CreateData(body, requester, file))).Err?
    ensures body.endDate.None? && body.title.Some? && body.title != Some("") && body.startDate.Some?
            && (body.status.None? || body.status == Some("")) ==>
              Save(ToDocument(CreateData(body, requester, file))).Ok?
  {
  }

  /**
   * `uploadEventFile`: 400 without a file, 404 for an unknown id; otherwise
   * the image URL is set (the original name and file type are outside the
   * schema and are dropped) and the event saved again: 200, or 500 when the
   * stored event no longer passes `save()`.
   */
  method UploadEventFile(events: Store.Collection<Event>, id: Store.Id, file: Option<UploadMiddleware.MulterFile>)
    returns (reply: Http.Reply<Event>)
    requires events.Valid()
    modifies events
    ensures events.Valid() && events.order == old(events.order)
    ensures file.None? ==> reply == Http.Failure(400) && events.docs == old(events.docs)
    ensures file.Some? && id !in old(events.docs) ==> reply == Http.Failure(404) && events.docs == old(events.docs)
    ensures file.Some? && id in old(events.docs) ==>
              var e := old(events.docs[id]).(imageUrl := Some(Attachments.PublicUrl(UploadMiddleware.EventsDir, file.value.filename)));
              if Save(e).Ok? then reply == Http.Success(200, e) && events.docs == old(events.docs)[id := e]
              else reply == Http.Failure(500) && events.docs == old(events.docs)
  {
    if file.None? {
      return Http.Failure(400);
    }
    if id !in events.docs {
      return Http.Failure(404);
    }
    var e := events.docs[id].(imageUrl := Some(Attachments.PublicUrl(UploadMiddleware.EventsDir, file.value.filename)));
    var saved := Save(e);
    if saved.Err? {
      return Http.Failure(500);
    }
    events.Put(id, saved.value);
    reply := Http.Success(200, saved.value);
  }

  predicate IsPublished(e: Event) {
    e.status == "published"
  }

  /** `getPublishedEvents`: the events whose status is "published", in the store's order. */
  function ListPublished(events: Store.Collection<Event>): (r: seq<Event>)
    reads events
    requires events.Valid()
    ensures forall e :: e in r <==> e in events.Oldest() && e.status == "published"
    ensures forall e :: multiset(r)[e] == if e.status == "published" then multiset(events.Oldest())[e] else 0
    ensures Query.IsSubsequence(r, events.Oldest())
  {
    Query.Filter(events.Oldest(), IsPublished)
  }

  /** `findByIdAndUpdate(id, body)`'s keys: every schema path of the body, `None` when undefined. */
  datatype EventPatch = EventPatch(
    title: Option<string>,
    description: Option<string>,
    location: Option<string>,
    startDate: Option<nat>,
    endDate: Option<nat>,
    imageUrl: Option<string>,
    imageName: Option<string>,
    status: Option<string>)

  /** The stored event after an update: given keys replace, undefined keys keep; no validator, no hook. */
  function ApplyPatch(e: Event, p: EventPatch): (r: Event)
    ensures r.title == (if p.title.Some? then p.title.value else e.title)
    ensures r.description == (if p.description.Some? then p.description else e.description)
    ensures r.location == (if p.location.Some? then p.location else e.location)
    ensures r.startDate == (if p.startDate.Some? then p.startDate else e.startDate)
    ensures r.endDate == (if p.endDate.Some? then p.endDate else e.endDate)
    ensures r.imageUrl == (if p.imageUrl.Some? then p.imageUrl else e.imageUrl)
    ensures r.imageName == (if p.imageName.Some? then p.imageName else e.imageName)
    ensures r.status == (if p.status.Some? then p.status.value else e.status)
  {
    Event(
      if p.title.Some? then p.title.value else e.title,
      if p.description.Some? then p.description else e.description,
      if p.location.Some? then p.location else e.location,
      if p.startDate.Some? then p.startDate else e.startDate,
      if p.endDate.Some? then p.endDate else e.endDate,
      if p.imageUrl.Some? then p.imageUrl else e.imageUrl,
      if p.imageName.Some? then p.imageName else e.imageName,
      if p.status.Some? then p.status.value else e.status)
  }

  /** An update with no keys leaves the event as it was. */
  lemma EmptyPatchChangesNothing(e: Event)
    ensures ApplyPatch(e, EventPatch(None, None, None, None, None, None, None, None)) == e
  {
  }

  /** Since an update skips the hook, it can store an event that ends before it starts. */
  lemma UpdateSkipsDateCheck(e: Event)
    requires Save(e).Ok?
    ensures var u := ApplyPatch(e, EventPatch(None, None, None, Some(2), Some(1), None, None, None));
            EndsBeforeStart(u) && Save(u).Err?
  {
  }

  /** `updateEvent`: 404 for an unknown id; otherwise the updated event (200). */
  method UpdateEvent(events: Store.Collection<Event>, id: Store.Id, patch: EventPatch)
    returns (reply: Http.Reply<Event>)
    requires events.Valid()
    modifies events
    ensures events.Valid() && events.order == old(events.order)
    ensures id !in old(events.docs) ==> reply == Http.Failure(404) && events.docs == old(events.docs)
    ensures id in old(events.docs) ==>
              var u := ApplyPatch(old(events.docs[id]), patch);
              reply == Http.Success(200, u) && events.docs == old(events.docs)[id := u]
  {
    if id !in events.docs {
      return Http.Failure(404);
    }
    var updated := ApplyPatch(events.docs[id], patch);
    events.Put(id, updated);
    reply := Http.Success(200, updated);
  }

  /** `deleteEvent`: 404 for an unknown id; otherwise the event is removed (200). */
  method DeleteEvent(events: Store.Collection<Event>, id: Store.Id) returns (reply: Http.Reply<()>)
    requires events.Valid()
    modifies events
    ensures events.Valid()
    ensures id !in old(events.docs) ==>
              reply == Http.Failure(404) && events.docs == old(events.docs) && events.order == old(events.order)
    ensures id in old(events.docs) ==>
              reply == Http.Success(200, ()) && events.docs == old(events.docs) - {id}
              && events.order == Store.Without(old(events.order), id)
  {
    if id !in events.docs {
      return Http.Failure(404);
    }
    events.Remove(id);
    reply := Http.Success(200, ());
  }

  // The published status the listing expects.

  /**
   * As written: `save()` refuses every event whose status is "published",
   * so neither `createEvent` nor `uploadEventFile` can write one.
   */
  lemma PublishedNeverSaved(e: Event)
    requires e.status == "published"
    ensures Save(e).Err?
    ensures Save(e).error.Invalid? && "status" in Save(e).error.paths
  {
  }

  /** As written: a body asking for status "published" is always refused by `createEvent`. */
  lemma PublishedCreationRefused(body: EventBody, requester: Option<string>, file: Option<UploadMiddleware.MulterFile>)
    requires body.status == Some("published")
    ensures Save(ToDocument(CreateData(body, requester, file))).Err?
  {
    PublishedNeverSaved(ToDocument(CreateData(body, requester, file)));
  }

  /**
   * As written: while every stored event is one `save()` accepted, the
   * public listing is empty.
   */
  lemma SavedEventsNeverListed(events: Store.Collection<Event>)
    requires events.Valid()
    requires forall id :: id in events.docs ==> Save(events.docs[id]).Ok?
    ensures ListPublished(events) == []
  {
    forall i | 0 <= i < |events.order|
      ensures events.Oldest()[i].status != "published"
    {
      SavedEventUnpublished(events, i);
    }
    NoneStoredNoneListed(events);
  }

  /** With no published event stored, the listing is empty. */
  lemma NoneStoredNoneListed(events: Store.Collection<Event>)
    requires events.Valid()
    requires forall i :: 0 <= i < |events.order| ==> events.Oldest()[i].status != "published"
    ensures ListPublished(events) == []
  {
  }

  /** The `i`-th stored event, accepted by `save()`, is not published. */
  lemma SavedEventUnpublished(events: Store.Collection<Event>, i: nat)
    requires events.Valid() && i < |events.order|
    requires forall id :: id in events.docs ==> Save(events.docs[id]).Ok?
    ensures events.Oldest()[i].status != "published"
  {
    var id := events.order[i];
    assert events.Oldest()[i] == events.docs[id];
    if events.docs[id].status == "published" {
      PublishedNeverSaved(events.docs[id]);
    }
  }

  /** The corrected status list: the schema's statuses and "published", the one the listing selects. */
  const IntendedStatuses: seq<string> := Statuses + ["published"]

  /** `save()` with the corrected status list. */
  function SaveIntended(e: Event): (r: Result<Event, SaveError>)
    ensures r.Ok? <==> ViolationsAgainst(e, IntendedStatuses) == [] && !EndsBeforeStart(e)
    ensures r.Ok? ==> r.value == e
  {
    SaveAgainst(e, IntendedStatuses)
  }

  /** The correction only widens the statuses: every event `save()` accepted is still accepted. */
  lemma IntendedAcceptsSaved(e: Event)
    requires Save(e).Ok?
    ensures SaveIntended(e) == Save(e)
  {
  }

  /**
   * Corrected: a published event with a title, a start date and dates in
   * order is saved, and once stored it is in the public listing.
   */
  lemma PublishedEventListed(events: Store.Collection<Event>, creation: EventBody, requester: Option<string>,
                             file: Option<UploadMiddleware.MulterFile>, id: Store.Id)
    requires events.Valid()
    requires creation.status == Some("published") && creation.title.Some? && creation.title != Some("")
    requires creation.startDate.Some?
    requires creation.endDate.None? || creation.startDate.value <= creation.endDate.value
    requires id in events.docs && events.docs[id] == ToDocument(CreateData(creation, requester, file))
    ensures SaveIntended(events.docs[id]).Ok?
    ensures events.docs[id] in ListPublished(events)
  {
    var i :| 0 <= i < |events.order| && events.order[i] == id;
    assert events.Oldest()[i] == events.docs[id];
  }
}
