/**
 * The uploaded-file registry's request handlers
 * (backend/apps/controllers/fileUploadController.js): single and multiple
 * uploads, the filtered and paginated listing, lookup, metadata update, soft
 * and permanent deletion, restore, and the per-category statistics.
 *
 * The registry is a `Store.Collection<FileRecord>`; fresh document ids, the
 * clock and the disk's answer to `unlinkSync` are parameters.
 */
module FileUploadController {
  import opened Wrappers
  import opened Text
  import Js
  import Query
  import Store
  import Http
  import UploadMiddleware
  import Services
  import opened UploadedFileModel

  /** The authenticated requester; `roleName` is `None` when the user has no populated role. */
  datatype Principal = Principal(id: string, roleName: Option<string>)

  /** The outcome of the owner-or-admin check. */
  datatype Access = Allowed | Forbidden | RoleMissing

  /**
   * The requester may change a record they uploaded; anyone else needs a
   * role name containing "admin". The role is only looked at for a
   * non-owner, and a missing role then throws (`RoleMissing`).
   */
  function Authorize(r: FileRecord, who: Principal): (a: Access)
    ensures a == Allowed <==> r.uploadedBy == who.id || (who.roleName.Some? && Contains(who.roleName.value, "admin"))
    ensures a == RoleMissing <==> r.uploadedBy != who.id && who.roleName.None?
  {
    if r.uploadedBy == who.id then Allowed
    else if who.roleName.None? then RoleMissing
    else if Contains(who.roleName.value, "admin") then Allowed
    else Forbidden
  }

  /** The status a refused check answers with: 403, or 500 for the thrown `TypeError`. */
  function RefusalStatus(a: Access): nat {
    if a == RoleMissing then 500 else 403
  }

  /**
   * The tags of a new record: `[]` when absent or the empty string, the
   * comma-separated parts of a string, an array as given.
   */
  function UploadTags(t: Js.TagsInput): (tags: seq<string>)
    ensures t.NoTags? || t == Js.TagText("") ==> tags == []
    ensures t.TagText? && t.text != "" ==>
              Join(tags, ',') == t.text && forall i :: 0 <= i < |tags| ==> ',' !in tags[i]
    ensures t.TagList? ==> tags == t.list
  {
    match t
    case NoTags => []
    case TagText(s) =>
      if s == "" then []
      else
        JoinSplit(s, ',');
        Split(s, ',')
    case TagList(l) => l
  }

  /**
   * The tags an update assigns: `None` (unchanged) when absent, the
   * comma-separated parts of any string (the empty string gives `[""]`),
   * an array as given.
   */
  function UpdateTags(t: Js.TagsInput): (tags: Option<seq<string>>)
    ensures tags.None? <==> t.NoTags?
    ensures t.TagText? ==> Join(tags.value, ',') == t.text && forall i :: 0 <= i < |tags.value| ==> ',' !in tags.value[i]
    ensures t.TagList? ==> tags == Some(t.list)
  {
    match t
    case NoTags => None
    case TagText(s) =>
      JoinSplit(s, ',');
      Some(Split(s, ','))
    case TagList(l) => Some(l)
  }

  /** Upload and update read tags alike, except for the empty string. */
  lemma TagParsersAgree(t: Js.TagsInput)
    requires !t.NoTags?
    ensures UpdateTags(t) == Some(UploadTags(t)) <==> t != Js.TagText("")
  {
    if t == Js.TagText("") {
      assert Split("", ',') == [""];
    }
  }

  /** The metadata fields of an upload request. */
  datatype UploadBody = UploadBody(
    category: Option<string>,
    description: Option<string>,
    tags: Js.TagsInput,
    associatedModel: Option<string>,
    associatedId: Option<string>)

  /**
   * The draft of a record for one processed file: the service's fields
   * (its `uploadedAt` is not a schema path and is dropped), the requester as
   * uploader, and the request's metadata.
   */
  function Draft(p: Services.ProcessedFile, who: Principal, body: UploadBody): (d: FileDraft)
    ensures d.filename == p.filename && d.originalName == p.originalName
    ensures d.relativePath == p.relativePath && d.url == p.url && d.size == p.size && d.mimetype == p.mimetype
    ensures d.category == p.category && d.uploadedBy == who.id
    ensures d.description == body.description && d.tags == UploadTags(body.tags)
    ensures d.associatedModel == body.associatedModel && d.associatedId == body.associatedId
  {
    FileDraft(p.filename, p.originalName, p.relativePath, p.url, p.size, p.mimetype, p.category,
              who.id, body.associatedModel, body.associatedId, UploadTags(body.tags), body.description)
  }

  /**
   * `uploadSingleFile`: 400 without a file; otherwise the record built from
   * the file and the body is saved under `newId` (201), or validation fails
   * (500) and nothing is stored.
   */
  method UploadSingleFile(files: Store.Collection<FileRecord>, service: Services.FileService,
                          file: Option<UploadMiddleware.MulterFile>, body: UploadBody, who: Principal,
                          newId: Store.Id, now: nat)
    returns (reply: Http.Reply<FileRecord>)
    requires files.Valid() && newId !in files.docs
    requires file.Some? ==> service.Inside(file.value.path)
    modifies files
    ensures files.Valid()
    ensures file.None? ==> reply == Http.Failure(400) && files.docs == old(files.docs) && files.order == old(files.order)
    ensures file.Some? ==>
      var created := Create(Draft(service.ProcessUploadedFile(file, body.category, now).value, who, body));
      if created.Ok? then
        reply == Http.Success(201, created.value)
        && files.docs == old(files.docs)[newId := created.value] && files.order == old(files.order) + [newId]
      else
        reply == Http.Failure(500) && files.docs == old(files.docs) && files.order == old(files.order)
  {
    if file.None? {
      return Http.Failure(400);
    }
    var processed := service.ProcessUploadedFile(file, body.category, now).value;
    var created := Create(Draft(processed, who, body));
    if created.Err? {
      return Http.Failure(500);
    }
    files.Insert(newId, created.value);
    reply := Http.Success(201, created.value);
  }

  /** What saving a draft gives: the stored record, or the failing paths. */
  type Outcome = Result<FileRecord, seq<string>>

  /** The validation outcome of each draft, in order. */
  function Outcomes(drafts: seq<FileDraft>): (rs: seq<Outcome>)
    ensures |rs| == |drafts| && forall i :: 0 <= i < |drafts| ==> rs[i] == Create(drafts[i])
  {
    seq(|drafts|, i requires 0 <= i < |drafts| => Create(drafts[i]))
  }

  /** The ids, among `ids`, whose outcome of the same position is a record, in order. */
  function SavedIds(ids: seq<Store.Id>, rs: seq<Outcome>): (r: seq<Store.Id>)
    requires |ids| == |rs|
  {
    if |ids| == 0 then []
    else
      var n := |ids| - 1;
      SavedIds(ids[..n], rs[..n]) + (if rs[n].Ok? then [ids[n]] else [])
  }

  /** `docs` with every record of `rs` stored under the id of its position. */
  function WithSaved(docs: map<Store.Id, FileRecord>, ids: seq<Store.Id>, rs: seq<Outcome>): map<Store.Id, FileRecord>
    requires |ids| == |rs|
  {
    if |ids| == 0 then docs
    else
      var n := |ids| - 1;
      var before := WithSaved(docs, ids[..n], rs[..n]);
      if rs[n].Ok? then before[ids[n] := rs[n].value] else before
  }

  /** Every outcome is a record. */
  predicate AllOk(rs: seq<Outcome>) {
    forall i :: 0 <= i < |rs| ==> rs[i].Ok?
  }

  function Records(rs: seq<Outcome>): (records: seq<FileRecord>)
    requires AllOk(rs)
    ensures |records| == |rs| && forall i :: 0 <= i < |rs| ==> records[i] == rs[i].value
  {
    seq(|rs|, i requires 0 <= i < |rs| && AllOk(rs) => rs[i].value)
  }

  /** When every draft validates, every id is saved, in order. */
  lemma {:induction false} SavedIdsAllOk(ids: seq<Store.Id>, rs: seq<Outcome>)
    requires |ids| == |rs| && AllOk(rs)
    ensures SavedIds(ids, rs) == ids
  {
    if |ids| > 0 {
      var n := |ids| - 1;
      assert AllOk(rs[..n]) by {
        assert forall i :: 0 <= i < n ==> rs[..n][i] == rs[i];
      }
      SavedIdsAllOk(ids[..n], rs[..n]);
      assert ids[..n] + [ids[n]] == ids;
    }
  }

  /**
   * Saved ids are a subsequence of the fresh ids, so distinct, and the
   * stored ids are the old ones plus the saved ones.
   */
  lemma {:induction false} SavedIdsFresh(ids: seq<Store.Id>, rs: seq<Outcome>, docs: map<Store.Id, FileRecord>)
    requires |ids| == |rs| && Store.Distinct(ids) && forall i :: 0 <= i < |ids| ==> ids[i] !in docs
    ensures Store.Distinct(SavedIds(ids, rs))
    ensures forall k :: k in SavedIds(ids, rs) ==> k in ids
    ensures forall k :: k in WithSaved(docs, ids, rs) <==> k in docs || k in SavedIds(ids, rs)
  {
    if |ids| > 0 {
      var n := |ids| - 1;
      assert Store.Distinct(ids[..n]);
      SavedIdsFresh(ids[..n], rs[..n], docs);
      assert ids[n] !in ids[..n];
    }
  }

  /** The drafts for the processed files of a multiple upload, one per file, in order. */
  function Drafts(processed: seq<Services.ProcessedFile>, who: Principal, body: UploadBody): (ds: seq<FileDraft>)
    ensures |ds| == |processed| && forall i :: 0 <= i < |ds| ==> ds[i] == Draft(processed[i], who, body)
  {
    seq(|processed|, i requires 0 <= i < |processed| => Draft(processed[i], who, body))
  }

  /**
   * `uploadMultipleFiles`: 400 without files; otherwise one record per
   * file, in order, each saved under the id of the same position. The answer
   * is 201 with all records when every record validates and 500 otherwise;
   * the records that did validate are stored either way.
   */
  method UploadMultipleFiles(files: Store.Collection<FileRecord>, service: Services.FileService,
                             uploads: Option<seq<UploadMiddleware.MulterFile>>, body: UploadBody, who: Principal,
                             newIds: seq<Store.Id>, now: nat)
    returns (reply: Http.Reply<seq<FileRecord>>)
    requires files.Valid()
    requires uploads.Some? ==> |newIds| == |uploads.value| && forall i :: 0 <= i < |uploads.value| ==> service.Inside(uploads.value[i].path)
    requires Store.Distinct(newIds) && forall i :: 0 <= i < |newIds| ==> newIds[i] !in files.docs
    modifies files
    ensures files.Valid()
    ensures uploads.None? || uploads.value == [] ==>
              reply == Http.Failure(400) && files.docs == old(files.docs) && files.order == old(files.order)
    ensures uploads.Some? && uploads.value != [] ==>
      var rs := Outcomes(Drafts(service.ProcessUploadedFiles(uploads, body.category, now), who, body));
      && files.docs == WithSaved(old(files.docs), newIds, rs)
      && files.order == old(files.order) + SavedIds(newIds, rs)
      && (if AllOk(rs) then reply == Http.Success(201, Records(rs)) else reply == Http.Failure(500))
  {
    if uploads.None? || uploads.value == [] {
      return Http.Failure(400);
    }
    var processed := service.ProcessUploadedFiles(uploads, body.category, now);
    var rs := Outcomes(Drafts(processed, who, body));
    var allSaved := SaveAll(files, newIds, rs);
    if allSaved {
      reply := Http.Success(201, Records(rs));
    } else {
      reply := Http.Failure(500);
    }
  }

  /**
   * The loop of `uploadMultipleFiles`: each outcome is saved in turn under
   * the id of its position when it is a record, skipped otherwise, and any
   * skip is reported through `allSaved`.
   */
  method SaveAll(files: Store.Collection<FileRecord>, newIds: seq<Store.Id>, rs: seq<Outcome>)
    returns (allSaved: bool)
    requires files.Valid() && |newIds| == |rs|
    requires Store.Distinct(newIds) && forall i :: 0 <= i < |newIds| ==> newIds[i] !in files.docs
    modifies files
    ensures files.Valid()
    ensures files.docs == WithSaved(old(files.docs), newIds, rs)
    ensures files.order == old(files.order) + SavedIds(newIds, rs)
    ensures allSaved <==> AllOk(rs)
  {
    ghost var docs0, order0 := files.docs, files.order;
    allSaved := true;
    for i := 0 to |rs|
      invariant files.Valid()
      invariant files.docs == WithSaved(docs0, newIds[..i], rs[..i])
      invariant files.order == order0 + SavedIds(newIds[..i], rs[..i])
      invariant allSaved <==> AllOk(rs[..i])
    {
      ghost var ids', rs' := newIds[..i + 1], rs[..i + 1];
      assert ids'[..i] == newIds[..i] && rs'[..i] == rs[..i];
      assert ids'[i] == newIds[i] && rs'[i] == rs[i];
      assert AllOk(rs') <==> AllOk(rs[..i]) && rs[i].Ok? by {
        assert forall j :: 0 <= j < i ==> rs'[j] == rs[..i][j];
      }
      SavedIdsFresh(newIds[..i], rs[..i], docs0);
      if rs[i].Ok? {
        assert newIds[i] !in newIds[..i];
        files.Insert(newIds[i], rs[i].value);
      } else {
        allSaved := false;
      }
    }
    assert newIds[..|rs|] == newIds && rs[..|rs|] == rs;
  }

  /** Every record of a fully saved multiple upload carries the request's shared metadata. */
  lemma MultipleUploadSharesMetadata(processed: seq<Services.ProcessedFile>, who: Principal, body: UploadBody)
    requires AllOk(Outcomes(Drafts(processed, who, body)))
    ensures var records := Records(Outcomes(Drafts(processed, who, body)));
            |records| == |processed| &&
            forall i :: 0 <= i < |records| ==>
              records[i].filename == processed[i].filename
              && records[i].uploadedBy == who.id && records[i].tags == UploadTags(body.tags)
              && records[i].description == body.description
              && records[i].associatedModel == body.associatedModel
              && records[i].associatedId == body.associatedId
              && CategoryName(records[i].category) == processed[i].category
              && records[i].isActive
  {
  }

  /** The query string of `getFiles`; the empty string stands for an absent optional filter. */
  datatype FileQuery = FileQuery(
    category: string,
    page: Option<int>,
    limit: Option<int>,
    associatedModel: string,
    associatedId: string,
    tags: string,
    uploadedBy: string,
    isActive: Option<string>)

  /** The listing's filter: `isActive` must equal `param === 'true'`; each given filter must hold. */
  predicate Matches(q: FileQuery, r: FileRecord) {
    && r.isActive == (q.isActive == Some("true"))
    && (q.category == "" || CategoryName(r.category) == q.category)
    && (q.associatedModel == "" || r.associatedModel == Some(q.associatedModel))
    && (q.associatedId == "" || r.associatedId == Some(q.associatedId))
    && (q.uploadedBy == "" || r.uploadedBy == q.uploadedBy)
    && (q.tags == "" || exists t :: t in Split(q.tags, ',') && t in r.tags)
  }

  /** The matching records, newest first. */
  function Selected(files: Store.Collection<FileRecord>, q: FileQuery): (r: seq<FileRecord>)
    reads files
    requires files.Valid()
    ensures forall x :: x in r <==> x in files.Newest() && Matches(q, x)
    ensures forall x :: multiset(r)[x] == if Matches(q, x) then multiset(files.Newest())[x] else 0
    ensures Query.IsSubsequence(r, files.Newest())
  {
    Query.Filter(files.Newest(), x => Matches(q, x))
  }

  /** The number of records `getFiles` skips: `(page - 1) * limit`, page 1 and limit 50 by default. */
  function Skip(q: FileQuery): int {
    (q.page.GetOr(1) - 1) * q.limit.GetOr(50)
  }

  /**
   * `getFiles`: page 1 and limit 50 by default, `Skip(q)` records skipped
   * (a negative skip is refused by the store: 500), at most `limit` records
   * newest first, the total number of matching records, and the page count.
   */
  function ListFiles(files: Store.Collection<FileRecord>, q: FileQuery): (r: Http.Reply<Query.Page<FileRecord>>)
    reads files
    requires files.Valid()
    ensures r.Failure? <==> Skip(q) < 0
    ensures r.Failure? ==> r.status == 500
    ensures r.Success? ==> r.status == 200 && Query.IsPageOf(r.body, Selected(files, q), q.page.GetOr(1), q.limit.GetOr(50))
    ensures r.Success? ==> forall x :: x in r.body.items ==> Matches(q, x) && x in files.Newest()
  {
    if Skip(q) < 0 then Http.Failure(500)
    else
      var page, limit := q.page.GetOr(1), q.limit.GetOr(50);
      assert (page - 1) * limit == Skip(q);
      Http.Success(200, Query.Paged(Selected(files, q), page, limit))
  }

  /**
   * With a positive limit and a page from 1 on, the listing answers, and its
   * page is non-empty exactly when the page number is within the page count.
   */
  lemma ListedPageNonEmptyIffWithinCount(files: Store.Collection<FileRecord>, q: FileQuery)
    requires files.Valid() && q.limit.GetOr(50) > 0 && q.page.GetOr(1) >= 1
    ensures ListFiles(files, q).Success?
    ensures |ListFiles(files, q).body.items| > 0 <==> q.page.GetOr(1) <= ListFiles(files, q).body.pages.value
  {
    var page, limit := q.page.GetOr(1), q.limit.GetOr(50);
    Query.PagedNonEmptyIffWithinCount(Selected(files, q), page, limit);
    assert ListFiles(files, q) == Http.Success(200, Query.Paged(Selected(files, q), page, limit));
  }

  /** Without an `isActive` parameter, the listing returns only inactive (trashed) records. */
  lemma OmittedActivityListsTrash(files: Store.Collection<FileRecord>, q: FileQuery)
    requires files.Valid() && q.isActive.None?
    ensures ListFiles(files, q).Success? ==> forall x :: x in ListFiles(files, q).body.items ==> !x.isActive
  {
  }

  /**
   * The evidently intended reading of `isActive = true`: an omitted
   * parameter stands for "true"; a given one is kept.
   */
  function WithActivityDefault(q: FileQuery): (d: FileQuery)
    ensures d.isActive == Some(q.isActive.GetOr("true"))
    ensures d.(isActive := q.isActive) == q
  {
    q.(isActive := Some(q.isActive.GetOr("true")))
  }

  /**
   * With the default applied, an omitted `isActive` lists what an explicit
   * "true" lists: active records only.
   */
  lemma DefaultedListingShowsActive(files: Store.Collection<FileRecord>, q: FileQuery)
    requires files.Valid() && q.isActive.None?
    ensures ListFiles(files, WithActivityDefault(q)) == ListFiles(files, q.(isActive := Some("true")))
    ensures ListFiles(files, WithActivityDefault(q)).Success? ==>
              forall x :: x in ListFiles(files, WithActivityDefault(q)).body.items ==> x.isActive
  {
  }

  /**
   * A stored record is selected exactly when it matches the query: once
   * soft-deleted it leaves the `isActive=true` selection and joins the
   * `isActive=false` one, and once restored it is back.
   */
  lemma StoredRecordSelected(files: Store.Collection<FileRecord>, id: Store.Id, q: FileQuery)
    requires files.Valid() && id in files.docs
    ensures files.docs[id] in Selected(files, q) <==> Matches(q, files.docs[id])
  {
    files.StoredNewest(id);
  }

  /** `getFileById`: the record, or 404. */
  function GetFileById(files: Store.Collection<FileRecord>, id: Store.Id): (r: Http.Reply<FileRecord>)
    reads files
    ensures r.Success? <==> id in files.docs
    ensures r.Success? ==> r == Http.Success(200, files.docs[id])
    ensures r.Failure? ==> r.status == 404
  {
    if id in files.docs then Http.Success(200, files.docs[id]) else Http.Failure(404)
  }

  /** The metadata fields of an update request. */
  datatype UpdateBody = UpdateBody(
    description: Option<string>,
    tags: Js.TagsInput,
    associatedModel: Option<string>,
    associatedId: Option<string>)

  /**
   * The record after `updateFile`'s assignments: each of the four metadata
   * fields takes the request's value when one is given, and every other
   * field keeps its value.
   */
  function ApplyUpdate(r: FileRecord, body: UpdateBody): (u: FileRecord)
    ensures u.description == if body.description.Some? then body.description else r.description
    ensures u.tags == UpdateTags(body.tags).GetOr(r.tags)
    ensures u.associatedModel == if body.associatedModel.Some? then body.associatedModel else r.associatedModel
    ensures u.associatedId == if body.associatedId.Some? then body.associatedId else r.associatedId
    ensures u.(description := r.description, tags := r.tags,
               associatedModel := r.associatedModel, associatedId := r.associatedId) == r
  {
    var u := r;
    var u := if body.description.Some? then u.(description := body.description) else u;
    var u := if UpdateTags(body.tags).Some? then u.(tags := UpdateTags(body.tags).value) else u;
    var u := if body.associatedModel.Some? then u.(associatedModel := body.associatedModel) else u;
    if body.associatedId.Some? then u.(associatedId := body.associatedId) else u
  }

  /** An update with no fields leaves the record as it was. */
  lemma EmptyUpdateChangesNothing(r: FileRecord)
    ensures ApplyUpdate(r, UpdateBody(None, Js.NoTags, None, None)) == r
  {
  }

  /**
   * `updateFile`: 404 for an unknown id, 403 (500 without a role) when the
   * requester may not change the record, and otherwise the updated record
   * (200).
   */
  method UpdateFile(files: Store.Collection<FileRecord>, id: Store.Id, who: Principal, body: UpdateBody)
    returns (reply: Http.Reply<FileRecord>)
    requires files.Valid()
    modifies files
    ensures files.Valid() && files.order == old(files.order)
    ensures id !in old(files.docs) ==> reply == Http.Failure(404) && files.docs == old(files.docs)
    ensures id in old(files.docs) && Authorize(old(files.docs[id]), who) != Allowed ==>
              reply == Http.Failure(RefusalStatus(Authorize(old(files.docs[id]), who))) && files.docs == old(files.docs)
    ensures id in old(files.docs) && Authorize(old(files.docs[id]), who) == Allowed ==>
              var u := ApplyUpdate(old(files.docs[id]), body);
              reply == Http.Success(200, u) && files.docs == old(files.docs)[id := u]
  {
    if id !in files.docs {
      return Http.Failure(404);
    }
    var record := files.docs[id];
    var access := Authorize(record, who);
    if access != Allowed {
      return Http.Failure(RefusalStatus(access));
    }
    var updated := ApplyUpdate(record, body);
    files.Put(id, updated);
    reply := Http.Success(200, updated);
  }

  /**
   * `deleteFile`: 404 for an unknown id, 403 (500 without a role) for a
   * requester who may not, and otherwise, when `permanent` is exactly
   * "true", the file is unlinked and only then the record removed (200),
   * with 500 and nothing changed when the disk delete reports failure;
   * for any other `permanent` the record is soft-deleted and the disk
   * untouched (200).
   */
  method DeleteFile(files: Store.Collection<FileRecord>, service: Services.FileService, id: Store.Id,
                    who: Principal, permanent: Option<string>, unlinkFails: bool)
    returns (reply: Http.Reply<()>)
    requires files.Valid()
    modifies files, service.fs
    ensures files.Valid()
    ensures id !in old(files.docs) ==>
              reply == Http.Failure(404) && files.docs == old(files.docs) && files.order == old(files.order)
              && service.fs.files == old(service.fs.files)
    ensures id in old(files.docs) && Authorize(old(files.docs[id]), who) != Allowed ==>
              reply == Http.Failure(RefusalStatus(Authorize(old(files.docs[id]), who)))
              && files.docs == old(files.docs) && files.order == old(files.order)
              && service.fs.files == old(service.fs.files)
    ensures id in old(files.docs) && Authorize(old(files.docs[id]), who) == Allowed && permanent == Some("true") ==>
              var full := service.FullPath(old(files.docs[id]).relativePath);
              if full in old(service.fs.files) && !unlinkFails then
                reply == Http.Success(200, ()) && service.fs.files == old(service.fs.files) - {full}
                && files.docs == old(files.docs) - {id} && files.order == Store.Without(old(files.order), id)
              else
                reply == Http.Failure(500) && service.fs.files == old(service.fs.files)
                && files.docs == old(files.docs) && files.order == old(files.order)
    ensures id in old(files.docs) && Authorize(old(files.docs[id]), who) == Allowed && permanent != Some("true") ==>
              reply == Http.Success(200, ()) && service.fs.files == old(service.fs.files)
              && files.docs == old(files.docs)[id := old(files.docs[id]).(isActive := false)]
              && files.order == old(files.order)
  {
    if id !in files.docs {
      return Http.Failure(404);
    }
    var record := files.docs[id];
    var access := Authorize(record, who);
    if access != Allowed {
      return Http.Failure(RefusalStatus(access));
    }
    if permanent == Some("true") {
      var deleted := service.DeleteFile(record.relativePath, unlinkFails);
      if deleted {
        files.Remove(id);
        reply := Http.Success(200, ());
      } else {
        reply := Http.Failure(500);
      }
    } else {
      SoftDelete(files, id);
      reply := Http.Success(200, ());
    }
  }

  /**
   * `restoreFile`: 404 for an unknown id, 403 (500 without a role) for a
   * requester who may not, and otherwise the record becomes active whatever
   * it was (200).
   */
  method RestoreFile(files: Store.Collection<FileRecord>, id: Store.Id, who: Principal)
    returns (reply: Http.Reply<FileRecord>)
    requires files.Valid()
    modifies files
    ensures files.Valid() && files.order == old(files.order)
    ensures id !in old(files.docs) ==> reply == Http.Failure(404) && files.docs == old(files.docs)
    ensures id in old(files.docs) && Authorize(old(files.docs[id]), who) != Allowed ==>
              reply == Http.Failure(RefusalStatus(Authorize(old(files.docs[id]), who))) && files.docs == old(files.docs)
    ensures id in old(files.docs) && Authorize(old(files.docs[id]), who) == Allowed ==>
              var u := old(files.docs[id]).(isActive := true);
              reply == Http.Success(200, u) && files.docs == old(files.docs)[id := u]
  {
    if id !in files.docs {
      return Http.Failure(404);
    }
    var record := files.docs[id];
    var access := Authorize(record, who);
    if access != Allowed {
      return Http.Failure(RefusalStatus(access));
    }
    var restored := record.(isActive := true);
    files.Put(id, restored);
    reply := Http.Success(200, restored);
  }

  /** One row of `getFileStats`: a category, its number of active records and their total size. */
  datatype CategoryStat = CategoryStat(category: Category, count: nat, totalSize: nat)

  datatype FileStatsReport = FileStatsReport(categories: seq<CategoryStat>, files: nat, size: nat)

  function StatCount(st: CategoryStat): int {
    st.count
  }

  function StatSize(st: CategoryStat): int {
    st.totalSize
  }

  /** Number of active records of category `c`. */
  function CountIn(s: seq<FileRecord>, c: Category): nat {
    if |s| == 0 then 0 else (if s[0].isActive && s[0].category == c then 1 else 0) + CountIn(s[1..], c)
  }

  /** Total size of the active records of category `c`. */
  function SizeIn(s: seq<FileRecord>, c: Category): nat {
    if |s| == 0 then 0 else (if s[0].isActive && s[0].category == c then s[0].size else 0) + SizeIn(s[1..], c)
  }

  /** Number of active records (`countDocuments({isActive: true})`). */
  function CountActive(s: seq<FileRecord>): nat {
    if |s| == 0 then 0 else (if s[0].isActive then 1 else 0) + CountActive(s[1..])
  }

  /** Total size of the active records. */
  function SizeActive(s: seq<FileRecord>): nat {
    if |s| == 0 then 0 else (if s[0].isActive then s[0].size else 0) + SizeActive(s[1..])
  }

  /** The `$group` stage over `cats`: one row per category that has active records. */
  function Group(s: seq<FileRecord>, cats: seq<Category>): seq<CategoryStat> {
    if |cats| == 0 then []
    else
      (if CountIn(s, cats[0]) > 0 then [CategoryStat(cats[0], CountIn(s, cats[0]), SizeIn(s, cats[0]))] else [])
      + Group(s, cats[1..])
  }

  /** Sum over `cats` of the per-category counts and sizes. */
  function CountOver(s: seq<FileRecord>, cats: seq<Category>): nat {
    if |cats| == 0 then 0 else CountIn(s, cats[0]) + CountOver(s, cats[1..])
  }

  function SizeOver(s: seq<FileRecord>, cats: seq<Category>): nat {
    if |cats| == 0 then 0 else SizeIn(s, cats[0]) + SizeOver(s, cats[1..])
  }

  lemma {:induction false} SumOfConcat(a: seq<CategoryStat>, b: seq<CategoryStat>, f: CategoryStat -> int)
    ensures Query.SumOf(a + b, f) == Query.SumOf(a, f) + Query.SumOf(b, f)
  {
    if |a| > 0 {
      assert (a + b)[0] == a[0];
      assert (a + b)[1..] == a[1..] + b;
      SumOfConcat(a[1..], b, f);
    } else {
      assert a + b == b;
    }
  }

  lemma {:induction false} GroupSums(s: seq<FileRecord>, cats: seq<Category>)
    ensures Query.SumOf(Group(s, cats), StatCount) == CountOver(s, cats)
    ensures Query.SumOf(Group(s, cats), StatSize) == SizeOver(s, cats)
  {
    if |cats| > 0 {
      GroupSums(s, cats[1..]);
      var head := if CountIn(s, cats[0]) > 0 then [CategoryStat(cats[0], CountIn(s, cats[0]), SizeIn(s, cats[0]))] else [];
      SumOfConcat(head, Group(s, cats[1..]), StatCount);
      SumOfConcat(head, Group(s, cats[1..]), StatSize);
      if CountIn(s, cats[0]) == 0 {
        SizeInWithoutRecords(s, cats[0]);
      }
    }
  }

  lemma {:induction false} SizeInWithoutRecords(s: seq<FileRecord>, c: Category)
    requires CountIn(s, c) == 0
    ensures SizeIn(s, c) == 0
  {
    if |s| > 0 {
      SizeInWithoutRecords(s[1..], c);
    }
  }

  /** Adding one record to the front adds it to the sum over distinct categories at most once. */
  lemma {:induction false} OverCons(r: FileRecord, s: seq<FileRecord>, cats: seq<Category>)
    requires forall i, j :: 0 <= i < j < |cats| ==> cats[i] != cats[j]
    ensures CountOver([r] + s, cats) == (if r.isActive && r.category in cats then 1 else 0) + CountOver(s, cats)
    ensures SizeOver([r] + s, cats) == (if r.isActive && r.category in cats then r.size else 0) + SizeOver(s, cats)
  {
    assert ([r] + s)[1..] == s;
    if |cats| > 0 {
      OverCons(r, s, cats[1..]);
      assert r.category in cats <==> r.category == cats[0] || r.category in cats[1..];
    }
  }

  /** Summed over every category, the per-category rows count every active record. */
  lemma {:induction false} OverAllCategories(s: seq<FileRecord>)
    ensures CountOver(s, AllCategories) == CountActive(s)
    ensures SizeOver(s, AllCategories) == SizeActive(s)
  {
    if |s| > 0 {
      OverAllCategories(s[1..]);
      assert s == [s[0]] + s[1..];
      AllCategoriesDistinct();
      OverCons(s[0], s[1..], AllCategories);
      CategoryListed(s[0].category);
    } else {
      OverEmpty(AllCategories);
    }
  }

  lemma {:induction false} OverEmpty(cats: seq<Category>)
    ensures CountOver([], cats) == 0 && SizeOver([], cats) == 0
  {
    if |cats| > 0 {
      OverEmpty(cats[1..]);
    }
  }

  lemma {:induction false} GroupRows(s: seq<FileRecord>, cats: seq<Category>)
    ensures forall st :: st in Group(s, cats) ==>
              st.category in cats && st.count == CountIn(s, st.category) > 0 && st.totalSize == SizeIn(s, st.category)
    ensures forall c :: c in cats && CountIn(s, c) > 0 ==> exists st :: st in Group(s, cats) && st.category == c
  {
    if |cats| > 0 {
      GroupRows(s, cats[1..]);
      var head := if CountIn(s, cats[0]) > 0 then [CategoryStat(cats[0], CountIn(s, cats[0]), SizeIn(s, cats[0]))] else [];
      assert Group(s, cats) == head + Group(s, cats[1..]);
      forall c | c in cats && CountIn(s, c) > 0
        ensures exists st :: st in Group(s, cats) && st.category == c
      {
        if c == cats[0] {
          assert head[0] in Group(s, cats);
        } else {
          assert c in cats[1..];
        }
      }
    }
  }

  /**
   * `getFileStats`: one row per category with active records (its count
   * and total size), largest count first; the totals count every active
   * record and add up every active size, and so equal the sums of the rows.
   */
  function FileStats(files: Store.Collection<FileRecord>): (r: FileStatsReport)
    reads files
    requires files.Valid()
    ensures Query.SortedDesc(r.categories, StatCount)
    ensures forall st :: st in r.categories ==>
              st.count == CountIn(files.Oldest(), st.category) > 0 && st.totalSize == SizeIn(files.Oldest(), st.category)
    ensures forall c :: CountIn(files.Oldest(), c) > 0 ==> exists st :: st in r.categories && st.category == c
    ensures r.files == CountActive(files.Oldest()) == Query.SumOf(r.categories, StatCount)
    ensures r.size == SizeActive(files.Oldest()) == Query.SumOf(r.categories, StatSize)
  {
    var all := files.Oldest();
    var rows := Group(all, AllCategories);
    var sorted := Query.SortDesc(rows, StatCount);
    GroupRows(all, AllCategories);
    GroupSums(all, AllCategories);
    OverAllCategories(all);
    Query.SumOfSortDesc(rows, StatCount, StatCount);
    Query.SumOfSortDesc(rows, StatCount, StatSize);
    assert forall st :: st in sorted <==> st in rows by {
      assert forall st :: st in sorted <==> st in multiset(sorted);
      assert forall st :: st in rows <==> st in multiset(rows);
    }
    forall c: Category
      ensures c in AllCategories
    {
      CategoryListed(c);
    }
    FileStatsReport(sorted, CountActive(all), Query.SumOf(sorted, StatSize))
  }
}
