/**
 * The meeting-minute document (backend/apps/models/meetingMinuteModel.js):
 * `title`, `meetingDate` and `fileUrl` are required, `note` is optional and
 * `status` is "draft" or "published", "draft" by default. Paths outside the
 * schema are not stored.
 */
module MeetingMinuteModel {
  import opened Wrappers

  datatype MeetingMinute = MeetingMinute(
    title: string,
    meetingDate: Option<nat>,
    note: Option<string>,
    fileUrl: string,
    status: string)

  const Statuses: seq<string> := ["draft", "published"]

  /** The paths whose validator fails; a required string fails on "" as on undefined. */
  function Violations(m: MeetingMinute): (paths: seq<string>)
    ensures paths == [] <==> m.title != "" && m.meetingDate.Some? && m.fileUrl != "" && m.status in Statuses
  {
    (if m.title == "" then ["title"] else [])
    + (if m.meetingDate.None? then ["meetingDate"] else [])
    + (if m.fileUrl == "" then ["fileUrl"] else [])
    + (if m.status !in Statuses then ["status"] else [])
  }

  /** `save()`: the document, or the failing paths. */
  function Save(m: MeetingMinute): (r: Result<MeetingMinute, seq<string>>)
    ensures r.Ok? <==> Violations(m) == []
    ensures r.Ok? ==> r.value == m
    ensures r.Err? ==> r.error == Violations(m) && r.error != []
  {
    if Violations(m) == [] then Ok(m) else Err(Violations(m))
  }

  /** The sort key of `sort({meetingDate: -1})`: a missing date sorts below every date. */
  function DateKey(m: MeetingMinute): int {
    if m.meetingDate.Some? then m.meetingDate.value else -1
  }
}
