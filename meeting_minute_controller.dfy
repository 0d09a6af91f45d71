/**
 * The meeting-minute handlers
 * (backend/apps/controllers/meetingMinuteController.js): creation with a
 * conditionally attached file, the two listings, publication, update with a
 * file, attaching a file later, and deletion.
 *
 * An update through `findByIdAndUpdate` runs no validator, leaves out keys
 * whose value is undefined and drops keys outside the schema (`filename`,
 * `isUploaded`).
 */
module MeetingMinuteController {
  import opened Wrappers
  import Query
  import Store
  import Http
  import UploadMiddleware
  import Attachments
  import opened MeetingMinuteModel

  /** The fields of a create or update request; `None` is an undefined field. */
  datatype MeetingBody = MeetingBody(
    title: Option<string>,
    note: Option<string>,
    status: Option<string>,
    meetingDate: Option<nat>,
    isUploaded: Option<string>)

  /** `meetingData`: the object the handlers build, keys outside the schema included. */
  datatype MeetingData = MeetingData(
    title: Option<string>,
    note: Option<string>,
    status: Option<string>,
    meetingDate: Option<nat>,
    fileUrl: Option<string>,
    filename: Option<string>,
    isUploaded: Option<string>)

  /** A file is attached when one was uploaded and the body does not say `isUploaded: "false"`. */
  predicate Attaches(body: MeetingBody, file: Option<UploadMiddleware.MulterFile>) {
    file.Some? && body.isUploaded != Some("false")
  }

  /**
   * `meetingData` as the handlers build it: title, note and status from the
   * body and, when a file is attached, its URL, its original name and
   * `isUploaded: "true"`. The meeting date is not copied.
   */
  function BuildData(body: MeetingBody, file: Option<UploadMiddleware.MulterFile>): (d: MeetingData)
    ensures d.title == body.title && d.note == body.note && d.status == body.status
    ensures d.meetingDate.None?
    ensures Attaches(body, file) ==>
              d.fileUrl == Some(Attachments.PublicUrl(UploadMiddleware.MeetingMinutesDir, file.value.filename))
              && d.filename == Some(file.value.originalname) && d.isUploaded == Some("true")
    ensures !Attaches(body, file) ==> d.fileUrl.None? && d.filename.None? && d.isUploaded.None?
  {
    var d := MeetingData(body.title, body.note, body.status, None, None, None, None);
    if Attaches(body, file) then
      d.(fileUrl := Some(Attachments.PublicUrl(UploadMiddleware.MeetingMinutesDir, file.value.filename)),
         filename := Some(file.value.originalname), isUploaded := Some("true"))
    else d
  }

  /** The evidently intended `meetingData` of a creation: the same, plus the body's meeting date. */
  function BuildDataWithDate(body: MeetingBody, file: Option<UploadMiddleware.MulterFile>): (d: MeetingData)
    ensures d.meetingDate == body.meetingDate
    ensures d.(meetingDate := None) == BuildData(body, file)
  {
    BuildData(body, file).(meetingDate := body.meetingDate)
  }

  /** `new MeetingMinute(data)`: schema paths only, "draft" as the default status. */
  function ToDocument(d: MeetingData): (m: MeetingMinute)
    ensures m.note == d.note && m.meetingDate == d.meetingDate
    ensures m.status == d.status.GetOr("draft")
    ensures (m.title == "" <==> d.title.None? || d.title == Some(""))
    ensures (m.fileUrl == "" <==> d.fileUrl.None? || d.fileUrl == Some(""))
    ensures d.title.Some? ==> m.title == d.title.value
    ensures d.fileUrl.Some? ==> m.fileUrl == d.fileUrl.value
  {
    MeetingMinute(d.title.GetOr(""), d.meetingDate, d.note, d.fileUrl.GetOr(""), d.status.GetOr("draft"))
  }

  /** As written, a creation never carries the required meeting date, so its save always fails. */
  lemma CreationAlwaysRejected(body: MeetingBody, file: Option<UploadMiddleware.MulterFile>)
    ensures Save(ToDocument(BuildData(body, file))).Err?
    ensures "meetingDate" in Violations(ToDocument(BuildData(body, file)))
  {
  }

  /**
   * With the date copied, a creation with a title, a date, an attached file
   * and no invalid status is accepted, and without an attached file it is
   * still refused (the file URL is required).
   */
  lemma DatedCreationAccepted(body: MeetingBody, file: Option<UploadMiddleware.MulterFile>)
    requires body.title.Some? && body.title.value != "" && body.meetingDate.Some?
    requires body.status.None? || body.status.value in Statuses
    ensures Save(ToDocument(BuildDataWithDate(body, file))).Ok? <==> Attaches(body, file)
  {
    if Attaches(body, file) {
      assert Attachments.PublicUrl(UploadMiddleware.MeetingMinutesDir, file.value.filename) != "";
    }
  }

  /** `createMeeting` as written: the save fails, so the answer is 500 and nothing is stored. */
  method CreateMeeting(minutes: Store.Collection<MeetingMinute>, body: MeetingBody, file: Option<UploadMiddleware.MulterFile>,
                       newId: Store.Id)
    returns (reply: Http.Reply<MeetingMinute>)
    requires minutes.Valid() && newId !in minutes.docs
    modifies minutes
    ensures minutes.Valid()
    ensures reply == Http.Failure(500) && minutes.docs == old(minutes.docs) && minutes.order == old(minutes.order)
  {
    var saved := Save(ToDocument(BuildData(body, file)));
    CreationAlwaysRejected(body, file);
    if saved.Ok? {
      // the save that would store the document under `newId` cannot succeed
      assert false;
    }
    reply := Http.Failure(500);
  }

  /** `createMeeting` with the meeting date copied: the document is saved (201) or refused (500). */
  method CreateDatedMeeting(minutes: Store.Collection<MeetingMinute>, body: MeetingBody,
                            file: Option<UploadMiddleware.MulterFile>, newId: Store.Id)
    returns (reply: Http.Reply<MeetingMinute>)
    requires minutes.Valid() && newId !in minutes.docs
    modifies minutes
    ensures minutes.Valid()
    ensures var m := ToDocument(BuildDataWithDate(body, file));
            if Violations(m) == [] then
              reply == Http.Success(201, m) && minutes.docs == old(minutes.docs)[newId := m]
              && minutes.order == old(minutes.order) + [newId]
            else
              reply == Http.Failure(500) && minutes.docs == old(minutes.docs) && minutes.order == old(minutes.order)
  {
    var saved := Save(ToDocument(BuildDataWithDate(body, file)));
    if saved.Err? {
      return Http.Failure(500);
    }
    minutes.Insert(newId, saved.value);
    reply := Http.Success(201, saved.value);
  }

  predicate IsPublished(m: MeetingMinute) {
    m.status == "published"
  }

  /** `getPublishedMeeting`: exactly the published minutes, latest meeting first. */
  function ListPublished(minutes: Store.Collection<MeetingMinute>): (r: seq<MeetingMinute>)
    reads minutes
    requires minutes.Valid()
    ensures Query.SortedDesc(r, DateKey)
    ensures multiset(r) == multiset(Query.Filter(minutes.Oldest(), IsPublished))
    ensures forall m :: m in r <==> m in minutes.Oldest() && m.status == "published"
  {
    var published := Query.Filter(minutes.Oldest(), IsPublished);
    var r := Query.SortDesc(published, DateKey);
    assert forall m :: m in r <==> m in multiset(r);
    assert forall m :: m in published <==> m in multiset(published);
    r
  }

  /** `getAllMeetings`: every minute, latest meeting first. */
  function ListAll(minutes: Store.Collection<MeetingMinute>): (r: seq<MeetingMinute>)
    reads minutes
    requires minutes.Valid()
    ensures Query.SortedDesc(r, DateKey)
    ensures multiset(r) == multiset(minutes.Oldest())
  {
    Query.SortDesc(minutes.Oldest(), DateKey)
  }

  /** The published listing is the full listing restricted to published minutes, as a multiset. */
  lemma PublishedWithinAll(minutes: Store.Collection<MeetingMinute>)
    requires minutes.Valid()
    ensures forall m :: multiset(ListPublished(minutes))[m] == if IsPublished(m) then multiset(ListAll(minutes))[m] else 0
  {
  }

  /** `publishMeeting`: 404 for an unknown id; otherwise the minute becomes published (200). */
  method PublishMeeting(minutes: Store.Collection<MeetingMinute>, id: Store.Id) returns (reply: Http.Reply<MeetingMinute>)
    requires minutes.Valid()
    modifies minutes
    ensures minutes.Valid() && minutes.order == old(minutes.order)
    ensures id !in old(minutes.docs) ==> reply == Http.Failure(404) && minutes.docs == old(minutes.docs)
    ensures id in old(minutes.docs) ==>
              var u := old(minutes.docs[id]).(status := "published");
              reply == Http.Success(200, u) && minutes.docs == old(minutes.docs)[id := u]
  {
    if id !in minutes.docs {
      return Http.Failure(404);
    }
    var published := minutes.docs[id].(status := "published");
    minutes.Put(id, published);
    reply := Http.Success(200, published);
  }

  /**
   * The stored minute after `findByIdAndUpdate(id, data)`: each schema key
   * with a value replaces the stored one, undefined keys leave theirs, and
   * keys outside the schema are dropped.
   */
  function ApplyData(m: MeetingMinute, d: MeetingData): (r: MeetingMinute)
    ensures r.title == (if d.title.Some? then d.title.value else m.title)
    ensures r.note == (if d.note.Some? then d.note else m.note)
    ensures r.status == (if d.status.Some? then d.status.value else m.status)
    ensures r.meetingDate == (if d.meetingDate.Some? then d.meetingDate else m.meetingDate)
    ensures r.fileUrl == (if d.fileUrl.Some? then d.fileUrl.value else m.fileUrl)
  {
    MeetingMinute(
      if d.title.Some? then d.title.value else m.title,
      if d.meetingDate.Some? then d.meetingDate else m.meetingDate,
      if d.note.Some? then d.note else m.note,
      if d.fileUrl.Some? then d.fileUrl.value else m.fileUrl,
      if d.status.Some? then d.status.value else m.status)
  }

  /** Without an attached file the update keeps the stored file URL and meeting date. */
  lemma UpdateWithoutFileKeepsFile(m: MeetingMinute, body: MeetingBody, file: Option<UploadMiddleware.MulterFile>)
    requires !Attaches(body, file)
    ensures ApplyData(m, BuildData(body, file)).fileUrl == m.fileUrl
    ensures ApplyData(m, BuildData(body, file)).meetingDate == m.meetingDate
  {
  }

  /**
   * `updateMeetingWithFile`: the minute is updated with `meetingData` and
   * the answer is 200 with the result, which is `null` for an unknown id
   * (nothing changes then).
   */
  method UpdateMeetingWithFile(minutes: Store.Collection<MeetingMinute>, id: Store.Id, body: MeetingBody,
                               file: Option<UploadMiddleware.MulterFile>)
    returns (reply: Http.Reply<Option<MeetingMinute>>)
    requires minutes.Valid()
    modifies minutes
    ensures minutes.Valid() && minutes.order == old(minutes.order)
    ensures id !in old(minutes.docs) ==> reply == Http.Success(200, None) && minutes.docs == old(minutes.docs)
    ensures id in old(minutes.docs) ==>
              var u := ApplyData(old(minutes.docs[id]), BuildData(body, file));
              reply == Http.Success(200, Some(u)) && minutes.docs == old(minutes.docs)[id := u]
  {
    if id !in minutes.docs {
      return Http.Success(200, None);
    }
    var updated := ApplyData(minutes.docs[id], BuildData(body, file));
    minutes.Put(id, updated);
    reply := Http.Success(200, Some(updated));
  }

  /**
   * `uploadFile`: 400 without a file and 404 for an unknown id; otherwise
   * the minute gets the file's URL (the original name is not a schema path)
   * and is saved (200), or fails validation (500) and stays as it was.
   */
  method UploadFile(minutes: Store.Collection<MeetingMinute>, id: Store.Id, file: Option<UploadMiddleware.MulterFile>)
    returns (reply: Http.Reply<MeetingMinute>)
    requires minutes.Valid()
    modifies minutes
    ensures minutes.Valid() && minutes.order == old(minutes.order)
    ensures file.None? ==> reply == Http.Failure(400) && minutes.docs == old(minutes.docs)
    ensures file.Some? && id !in old(minutes.docs) ==> reply == Http.Failure(404) && minutes.docs == old(minutes.docs)
    ensures file.Some? && id in old(minutes.docs) ==>
              var u := old(minutes.docs[id]).(fileUrl := Attachments.PublicUrl(UploadMiddleware.MeetingMinutesDir, file.value.filename));
              if Violations(u) == [] then reply == Http.Success(200, u) && minutes.docs == old(minutes.docs)[id := u]
              else reply == Http.Failure(500) && minutes.docs == old(minutes.docs)
  {
    if file.None? {
      return Http.Failure(400);
    }
    if id !in minutes.docs {
      return Http.Failure(404);
    }
    var updated := minutes.docs[id].(fileUrl := Attachments.PublicUrl(UploadMiddleware.MeetingMinutesDir, file.value.filename));
    var saved := Save(updated);
    if saved.Err? {
      return Http.Failure(500);
    }
    minutes.Put(id, saved.value);
    reply := Http.Success(200, saved.value);
  }

  /** `deleteMeeting`: 404 for an unknown id; otherwise the minute is removed (200). */
  method DeleteMeeting(minutes: Store.Collection<MeetingMinute>, id: Store.Id) returns (reply: Http.Reply<()>)
    requires minutes.Valid()
    modifies minutes
    ensures minutes.Valid()
    ensures id !in old(minutes.docs) ==>
              reply == Http.Failure(404) && minutes.docs == old(minutes.docs) && minutes.order == old(minutes.order)
    ensures id in old(minutes.docs) ==>
              reply == Http.Success(200, ()) && minutes.docs == old(minutes.docs) - {id}
              && minutes.order == Store.Without(old(minutes.order), id)
  {
    if id !in minutes.docs {
      return Http.Failure(404);
    }
    minutes.Remove(id);
    reply := Http.Success(200, ());
  }
}
