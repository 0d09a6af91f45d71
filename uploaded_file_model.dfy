/**
 * The uploaded-file registry's record (backend/apps/models/uploadedFileModel.js):
 * its fields, which of them are required, the category enumeration, the
 * `isActive` default, the `extension` virtual, the two finders and
 * `softDelete`.
 */
module UploadedFileModel {
  import opened Wrappers
  import opened Text
  import Query
  import Store

  datatype Category = Images | Pdfs | Documents | Gallery | Projects | MeetingMinutes | General

  /** Every category, in the order the schema lists them. */
  const AllCategories: seq<Category> := [Images, Pdfs, Documents, Gallery, Projects, MeetingMinutes, General]

  lemma CategoryListed(c: Category)
    ensures c in AllCategories
  {
    match c
    case Images => assert AllCategories[0] == c;
    case Pdfs => assert AllCategories[1] == c;
    case Documents => assert AllCategories[2] == c;
    case Gallery => assert AllCategories[3] == c;
    case Projects => assert AllCategories[4] == c;
    case MeetingMinutes => assert AllCategories[5] == c;
    case General => assert AllCategories[6] == c;
  }

  lemma AllCategoriesDistinct()
    ensures forall i, j :: 0 <= i < j < |AllCategories| ==> AllCategories[i] != AllCategories[j]
  {
  }

  function CategoryName(c: Category): string {
    match c
    case Images => "images"
    case Pdfs => "pdfs"
    case Documents => "documents"
    case Gallery => "gallery"
    case Projects => "projects"
    case MeetingMinutes => "meeting-minutes"
    case General => "general"
  }

  /** The enum validator: a category string names exactly one category or none. */
  function ParseCategory(s: string): (c: Option<Category>)
    ensures c.Some? ==> CategoryName(c.value) == s
    ensures c.None? ==> forall k: Category :: CategoryName(k) != s
  {
    if s == "images" then Some(Images)
    else if s == "pdfs" then Some(Pdfs)
    else if s == "documents" then Some(Documents)
    else if s == "gallery" then Some(Gallery)
    else if s == "projects" then Some(Projects)
    else if s == "meeting-minutes" then Some(MeetingMinutes)
    else if s == "general" then Some(General)
    else None
  }

  lemma CategoryRoundTrip(c: Category)
    ensures ParseCategory(CategoryName(c)) == Some(c)
  {
  }

  /** A stored file record. */
  datatype FileRecord = FileRecord(
    filename: string,
    originalName: string,
    relativePath: string,
    url: string,
    size: nat,
    mimetype: string,
    category: Category,
    uploadedBy: Store.Id,
    associatedModel: Option<string>,
    associatedId: Option<string>,
    tags: seq<string>,
    isActive: bool,
    description: Option<string>)

  /** The fields given to `new UploadedFile({...})`; `isActive` is left to its default. */
  datatype FileDraft = FileDraft(
    filename: string,
    originalName: string,
    relativePath: string,
    url: string,
    size: nat,
    mimetype: string,
    category: string,
    uploadedBy: string,
    associatedModel: Option<string>,
    associatedId: Option<string>,
    tags: seq<string>,
    description: Option<string>)

  /** The schema paths whose validator fails, in schema order (a required string fails on ""). */
  function Violations(d: FileDraft): (paths: seq<string>)
    ensures paths == [] <==>
      d.filename != "" && d.originalName != "" && d.relativePath != "" && d.url != ""
      && d.mimetype != "" && ParseCategory(d.category).Some? && d.uploadedBy != ""
  {
    (if d.filename == "" then ["filename"] else [])
    + (if d.originalName == "" then ["originalName"] else [])
    + (if d.relativePath == "" then ["relativePath"] else [])
    + (if d.url == "" then ["url"] else [])
    + (if d.mimetype == "" then ["mimetype"] else [])
    + (if ParseCategory(d.category).None? then ["category"] else [])
    + (if d.uploadedBy == "" then ["uploadedBy"] else [])
  }

  /**
   * Validation on `save()`: the record the draft becomes, active by
   * default, or the failing paths.
   */
  function Create(d: FileDraft): (r: Result<FileRecord, seq<string>>)
    ensures r.Ok? <==> Violations(d) == []
    ensures r.Err? ==> r.error == Violations(d) && r.error != []
    ensures r.Ok? ==>
      && r.value.isActive
      && CategoryName(r.value.category) == d.category
      && r.value.filename == d.filename && r.value.originalName == d.originalName
      && r.value.relativePath == d.relativePath && r.value.url == d.url
      && r.value.size == d.size && r.value.mimetype == d.mimetype
      && r.value.uploadedBy == d.uploadedBy && r.value.associatedModel == d.associatedModel
      && r.value.associatedId == d.associatedId && r.value.tags == d.tags
      && r.value.description == d.description
  {
    if Violations(d) != [] then Err(Violations(d))
    else
      Ok(FileRecord(d.filename, d.originalName, d.relativePath, d.url, d.size, d.mimetype,
                    ParseCategory(d.category).value, d.uploadedBy, d.associatedModel,
                    d.associatedId, d.tags, true, d.description))
  }

  /**
   * The `extension` virtual: the text after the last '.' of the original
   * name, lower-cased; the whole name, lower-cased, when it has no '.'.
   */
  function Extension(originalName: string): (ext: string)
    ensures '.' !in ext
    ensures exists after :: TextAfterLast(originalName, '.', after) && ext == Lower(after)
    ensures '.' !in originalName ==> ext == Lower(originalName)
  {
    var parts := Split(originalName, '.');
    SplitLastPart(originalName, '.');
    assert LastPart(parts) == parts[|parts| - 1];
    Lower(parts[|parts| - 1])
  }

  /** A record matches a finder when it has the given field value and the wanted `isActive`. */
  predicate InCategory(r: FileRecord, category: string, isActive: bool) {
    CategoryName(r.category) == category && r.isActive == isActive
  }

  predicate ByUser(r: FileRecord, userId: string, isActive: bool) {
    r.uploadedBy == userId && r.isActive == isActive
  }

  /**
   * `findByCategory(category, isActive = true)`: exactly the records of
   * that category and activity, newest first.
   */
  function FindByCategory(files: Store.Collection<FileRecord>, category: string, isActive: Option<bool>): (r: seq<FileRecord>)
    reads files
    requires files.Valid()
    ensures forall x :: x in r <==> x in files.Newest() && InCategory(x, category, isActive.GetOr(true))
    ensures forall x :: multiset(r)[x] == if InCategory(x, category, isActive.GetOr(true)) then multiset(files.Newest())[x] else 0
    ensures Query.IsSubsequence(r, files.Newest())
  {
    var wanted := isActive.GetOr(true);
    Query.Filter(files.Newest(), x => InCategory(x, category, wanted))
  }

  /**
   * `findByUser(userId, isActive = true)`: exactly the records that user
   * uploaded with that activity, newest first.
   */
  function FindByUser(files: Store.Collection<FileRecord>, userId: string, isActive: Option<bool>): (r: seq<FileRecord>)
    reads files
    requires files.Valid()
    ensures forall x :: x in r <==> x in files.Newest() && ByUser(x, userId, isActive.GetOr(true))
    ensures forall x :: multiset(r)[x] == if ByUser(x, userId, isActive.GetOr(true)) then multiset(files.Newest())[x] else 0
    ensures Query.IsSubsequence(r, files.Newest())
  {
    var wanted := isActive.GetOr(true);
    Query.Filter(files.Newest(), x => ByUser(x, userId, wanted))
  }

  /** `file.softDelete()`: the record becomes inactive and nothing else in the store changes. */
  method SoftDelete(files: Store.Collection<FileRecord>, id: Store.Id)
    requires files.Valid() && id in files.docs
    modifies files
    ensures files.Valid()
    ensures files.docs == old(files.docs)[id := old(files.docs[id]).(isActive := false)]
    ensures files.order == old(files.order)
  {
    var record := files.docs[id];
    files.Put(id, record.(isActive := false));
  }
}
