# Pyrmont Action uploads and content handlers, modelled in Dafny

This project models the file-handling core of the Pyrmont Action community website. The backend is Express with Mongoose; the frontend is Vue. The model covers:

- **Upload middleware** (`backend/apps/middlewares/fileUpload.js`): the per-feature directories, how stored file names are built, the MIME filters, the per-file size limit and the per-request count limit.
- **Backend file service** (`backend/apps/services/fileService.js`): relative paths, public `/uploads/...` URLs, deleting and probing files, and the description of an uploaded file.
- **Uploaded-file registry** (`uploadedFileModel.js`, `fileUploadController.js`): single and multiple uploads, the filtered and paged listing, lookup, metadata update, the owner-or-admin check, soft and permanent deletion, restore, and the per-category statistics.
- **Entity controllers and schemas** that attach uploads to blogs, meeting minutes, projects and events: creation, listings, update, publication and deletion, with each schema's validators, defaults and hooks.
- **Client helpers** (`frontend/src/services/fileService.js`, `frontend/src/services/imageResolver.js`, `frontend/src/utils/dateUtils.js`): the multipart forms and endpoints the upload helpers build, image URL resolution, the static-asset table, CSS image styles, and local time-zone offsets.

## How the model is built

- **Documents are values.** Each one is a `datatype`.
- **Collections are objects.** Each Mongoose model is a `Store.Collection<T>`, a class holding documents by id (`docs`) and their insertion order (`order`).
  - `find()` lists documents oldest first (`Oldest`).
  - `sort({createdAt: -1})` lists them newest first (`Newest`).
  - `save()` of a new document is `Insert`; `save()` of a loaded document and `findByIdAndUpdate` are `Put`; `findByIdAndDelete` is `Remove`.
  - Handlers are methods on a collection. Their `modifies` clause names it, and their `ensures` give the whole new state and the HTTP reply (`Http.Reply`: a status code plus the JSON payload for successes).
- **The environment is passed in as parameters:**
  - the clock (`now`, `Date.now()`);
  - `Math.random()`, as an already rounded number;
  - fresh document ids;
  - the set of files on disk (`Services.FileSystem`);
  - whether `unlinkSync` fails;
  - `getTimezoneOffset()`;
  - the configured API URL;
  - the bundler's glob listings;
  - the browser's locale formatting.
- **Mongoose behaviour as the model states it:**
  - Validation runs on `save()`. A required string counts as missing when it is `""`. The pre-save hooks run only on a valid document.
  - Paths outside a schema are not stored (strict mode).
  - `findByIdAndUpdate` runs no validator and no hook, and leaves out keys whose value is undefined.
  - A negative `skip` is refused by the store, which the handler answers with 500.
  - A limit of 0 means "no limit". `Math.ceil(total / 0)` has no page count (`None`).
  - A negative limit `-n` returns at most `n` documents in one batch. The reported page count `Math.ceil(total / -n)` is then zero or negative.
- **JavaScript values** (`Js.Value`) carry JavaScript truthiness. `Js.Dict` keeps insertion order for plain objects used as dictionaries, including spread (`{...a, ...b}`).

### Where the model follows the code rather than the intended design

- **Listing default:** `getFiles` gives `isActive` the boolean default `true` and then compares it with the string `'true'`. Without the parameter it therefore lists only inactive records (`OmittedActivityListsTrash`). The corrected default is a finding below.
- **No pagination checks:** `page` and `limit` are not range-checked. A page below 1 with a positive limit gives a negative skip and a 500; a limit of 0 lists everything.
- **Permanent delete of a missing file:** when the file is already gone, `fileService.deleteFile` returns `false` and the handler answers 500 without removing the record. Permanent deletion is never idempotent.
- **Restore:** `restoreFile` sets `isActive` and saves even when the record is already active, answering 200.
- **Authorization:** the requester may act when they uploaded the record or when their role name contains `admin` as a substring. A non-owner without a populated role makes the check throw (500).
- **Multiple uploads:** `uploadMultipleFiles` saves every record that validates, even when another fails and the answer is 500.
- **Image styles:** `getImageStyle` sets `backgroundImage` only for a truthy URL, so an empty resolved URL gives no background.

## Model

| member | source | states |
|---|---|---|
| UploadMiddleware.DirName | backend/apps/middlewares/fileUpload.js:6-12 | each feature directory name is non-empty and contains no path separator |
| UploadMiddleware.StripTrailingSlashes | backend/apps/middlewares/fileUpload.js:25 | `path.basename` ignores trailing slashes: the result is a prefix of the path and does not end with '/' |
| UploadMiddleware.Basename | backend/apps/middlewares/fileUpload.js:25 | the last path component contains no '/' |
| UploadMiddleware.ComponentExt | backend/apps/middlewares/fileUpload.js:24 | a component's extension is a suffix that is empty or starts at its last '.', and it is never the whole component (dot-files and ".." have no extension) |
| UploadMiddleware.Extname | backend/apps/middlewares/fileUpload.js:24 | `path.extname` is a '/'-free suffix of the basename that starts at its last '.' or is empty |
| UploadMiddleware.Stem | backend/apps/middlewares/fileUpload.js:25 | the basename is exactly the stem followed by the extension |
| UploadMiddleware.StoredName | backend/apps/middlewares/fileUpload.js:22-27 | the stored name keeps the original extension and contains no '/' |
| UploadMiddleware.StoredNameInjective | backend/apps/middlewares/fileUpload.js:23-26 | two uploads of the same original name get the same stored name only when their timestamp and random number are both equal |
| UploadMiddleware.StoredNameChars | backend/apps/middlewares/fileUpload.js:23-26 | the stored name introduces no character other than '-' and digits |
| UploadMiddleware.StoredNameDropsDirectories | backend/apps/middlewares/fileUpload.js:24-25 | directory components of the client's file name never reach the stored name |
| UploadMiddleware.AfterLastOfSuffix | backend/apps/middlewares/fileUpload.js:25 | after a '/'-terminated prefix, the last component is the file name itself |
| UploadMiddleware.RunFilter | backend/apps/middlewares/fileUpload.js:31-76 | each of the four filters accepts exactly its listed MIME types and otherwise rejects with its own message |
| UploadMiddleware.MixedIsImageOrDocument | backend/apps/middlewares/fileUpload.js:63-76 | the mixed filter accepts exactly what the image filter or the document filter accepts |
| UploadMiddleware.FilterInclusions | backend/apps/middlewares/fileUpload.js:31-60 | every PDF is a document, and no type is both an image and a document |
| UploadMiddleware.CheckPart | backend/apps/middlewares/fileUpload.js:79-128 | a part passes exactly when its configuration's filter accepts it and it is within the size limit; the filter is consulted first |
| UploadMiddleware.Admit | backend/apps/middlewares/fileUpload.js:79-128 | a request passes exactly when every part passes; otherwise the error is that of the first refused part |
| UploadMiddleware.AdmittedWithinLimits | backend/apps/middlewares/fileUpload.js:79-128 | an admitted request respects the configuration's count, field name, filter and size limit for every file |
| UploadMiddleware.Store | backend/apps/middlewares/fileUpload.js:20-28 | an admitted part is stored as `<root>/<feature dir>/<stored name>` and keeps its field, name, type and size |
| UploadMiddleware.StoredPathsDistinct | backend/apps/middlewares/fileUpload.js:20-28 | two files stored from the same original name with different stamps never share a path |
| UploadMiddleware.StoreAll | backend/apps/middlewares/fileUpload.js:20-28 | an admitted request yields one stored file per part, in order |
| Services.FileSystem.constructor | backend/apps/services/fileService.js:1 | the disk starts with exactly the given files |
| Services.GetFileURL | backend/apps/services/fileService.js:23-25 | a file's URL is "/uploads/" followed by its relative path |
| Services.FileService.constructor | backend/apps/services/fileService.js:5-7 | the service works under the given uploads root and disk |
| Services.FileService.FullPath | backend/apps/services/fileService.js:34 | joining a relative path onto the root gives a path under the root |
| Services.FileService.GetRelativePath | backend/apps/services/fileService.js:14-16 | the relative path is what follows the root, with every backslash turned into '/' |
| Services.FileService.FullPathOfRelative | backend/apps/services/fileService.js:14-16 | joining the root back onto a relative path recovers the original path when no backslash follows the root |
| Services.FileService.RelativeOfFullPath | backend/apps/services/fileService.js:14-16 | a backslash-free relative path survives a join to the root and back |
| Services.FileService.BackslashRelocates | backend/apps/services/fileService.js:15 | a backslash after the root makes the relative path name a different file |
| Services.FileService.FileExists | backend/apps/services/fileService.js:51-54 | true exactly when the joined path is on disk |
| Services.FileService.DeleteFile | backend/apps/services/fileService.js:32-44 | reports success exactly when the file existed and unlinking did not fail; only then is the file gone, and otherwise the disk is unchanged |
| Services.FileService.ProcessUploadedFile | backend/apps/services/fileService.js:87-103 | null for no file; otherwise the multer fields plus the relative path, its URL, the category ("general" by default) and the upload time |
| Services.FileService.ProcessUploadedFiles | backend/apps/services/fileService.js:111-114 | `[]` when there is no array; otherwise one description per file, in order |
| Services.FileService.StoredFileRelativePath | backend/apps/services/fileService.js:14-16 | a file the middleware stored has the relative path `<dir>/<stored name>`, which joins back to the file on disk |
| Attachments.PublicUrl | backend/apps/controllers/blogController.js:22 | the URL an entity records for an attached file is the file service's URL of `<dir>/<stored name>` |
| Attachments.PublicUrlIsServed | backend/apps/controllers/eventController.js:22 | the URL the entity controllers record is the URL under which the file service publishes the stored file |
| UploadedFileModel.CategoryListed | backend/apps/models/uploadedFileModel.js:13 | every category appears in the schema's enumeration |
| UploadedFileModel.AllCategoriesDistinct | backend/apps/models/uploadedFileModel.js:13 | the enumeration lists each category once |
| UploadedFileModel.ParseCategory | backend/apps/models/uploadedFileModel.js:10-14 | the enum validator maps a string to the one category with that name, or to none |
| UploadedFileModel.CategoryRoundTrip | backend/apps/models/uploadedFileModel.js:10-14 | every category's name parses back to that category |
| UploadedFileModel.Violations | backend/apps/models/uploadedFileModel.js:4-19 | there are no failing paths exactly when the required fields are present and the category is in the enumeration |
| UploadedFileModel.Create | backend/apps/models/uploadedFileModel.js:3-25 | a valid draft becomes an active record with the draft's fields; an invalid one yields its failing paths |
| UploadedFileModel.Extension | backend/apps/models/uploadedFileModel.js:33-35 | the extension is the lower-cased text after the last '.', or the whole lower-cased name when there is no '.' |
| UploadedFileModel.FindByCategory | backend/apps/models/uploadedFileModel.js:38-40 | exactly the records of that category and activity (active by default), each as often as it is stored, newest first |
| UploadedFileModel.FindByUser | backend/apps/models/uploadedFileModel.js:43-45 | exactly that user's records with that activity (active by default), each as often as it is stored, newest first |
| UploadedFileModel.SoftDelete | backend/apps/models/uploadedFileModel.js:48-51 | the record becomes inactive and nothing else in the store changes |
| FileUploadController.Authorize | backend/apps/controllers/fileUploadController.js:158-160 | allowed exactly for the uploader or for a role name containing "admin"; a non-owner without a role throws |
| FileUploadController.UploadTags | backend/apps/controllers/fileUploadController.js:24 | no tags give `[]`; a string is split on ',' into comma-free parts that join back to it; an array is kept |
| FileUploadController.UpdateTags | backend/apps/controllers/fileUploadController.js:163 | absent tags leave the record's tags alone; any string is split so that its parts join back to it; an array is kept |
| FileUploadController.TagParsersAgree | backend/apps/controllers/fileUploadController.js:24 | upload and update read given tags identically except for the empty string |
| FileUploadController.Draft | backend/apps/controllers/fileUploadController.js:20-27 | the record draft carries the processed file's fields, the requester as uploader, and the request's metadata |
| FileUploadController.UploadSingleFile | backend/apps/controllers/fileUploadController.js:10-39 | 400 without a file; otherwise the record is stored under a fresh id (201), or validation fails (500) and the store is unchanged |
| FileUploadController.Outcomes | backend/apps/controllers/fileUploadController.js:54-66 | one validation outcome per draft, in order |
| FileUploadController.Records | backend/apps/controllers/fileUploadController.js:68-71 | when all drafts validate, the reply lists every record in order |
| FileUploadController.SavedIdsAllOk | backend/apps/controllers/fileUploadController.js:54-66 | when every draft validates, every fresh id is used, in order |
| FileUploadController.SavedIdsFresh | backend/apps/controllers/fileUploadController.js:54-66 | saved ids are distinct fresh ids, and the store holds exactly the old ids plus the saved ones |
| FileUploadController.Drafts | backend/apps/controllers/fileUploadController.js:55-63 | one draft per processed file, in order, all with the same shared metadata |
| FileUploadController.UploadMultipleFiles | backend/apps/controllers/fileUploadController.js:44-76 | 400 without files; otherwise each valid record is stored under its id, giving 201 with all records when all validate and 500 otherwise |
| FileUploadController.SaveAll | backend/apps/controllers/fileUploadController.js:54-66 | the save loop stores exactly the valid outcomes, in order, and reports whether all were valid |
| FileUploadController.MultipleUploadSharesMetadata | backend/apps/controllers/fileUploadController.js:56-63 | every record of a multiple upload has its own file's fields and the request's shared uploader, tags, description and association |
| FileUploadController.Selected | backend/apps/controllers/fileUploadController.js:94-100 | exactly the records matching every given filter and the `isActive === 'true'` comparison, each as often as it is stored, newest first |
| FileUploadController.ListFiles | backend/apps/controllers/fileUploadController.js:81-124 | 500 exactly when the skip is negative; otherwise exactly the slice of the selection that starts at `(page - 1) * limit` (page 1 and limit 50 by default), with the number of matching records and `Math.ceil(total / limit)` |
| FileUploadController.ListedPageNonEmptyIffWithinCount | backend/apps/controllers/fileUploadController.js:102-117 | with a positive limit and a page from 1 on, the listing answers, and its page is non-empty exactly when the page number is within the reported page count |
| FileUploadController.OmittedActivityListsTrash | backend/apps/controllers/fileUploadController.js:91-94 | without an `isActive` parameter, only inactive records are listed |
| FileUploadController.WithActivityDefault | backend/apps/controllers/fileUploadController.js:91 | the corrected default: an omitted `isActive` reads as "true" and no other parameter changes |
| FileUploadController.DefaultedListingShowsActive | backend/apps/controllers/fileUploadController.js:91-94 | with the corrected default, an omitted `isActive` lists exactly what `isActive=true` lists, which is active records only |
| FileUploadController.StoredRecordSelected | backend/apps/controllers/fileUploadController.js:94-107 | a stored record is selected exactly when it matches the query, so soft deletion and restore move it between the active and inactive listings |
| FileUploadController.GetFileById | backend/apps/controllers/fileUploadController.js:129-143 | the stored record (200) exactly when the id is stored, and 404 otherwise |
| FileUploadController.ApplyUpdate | backend/apps/controllers/fileUploadController.js:162-165 | each metadata field that is given is replaced, and every other field keeps its value |
| FileUploadController.EmptyUpdateChangesNothing | backend/apps/controllers/fileUploadController.js:162-165 | an update with no fields leaves the record as it was |
| FileUploadController.UpdateFile | backend/apps/controllers/fileUploadController.js:148-177 | 404 for an unknown id; 403 (500 without a role) for a requester who may not; otherwise the updated record is stored (200) |
| FileUploadController.DeleteFile | backend/apps/controllers/fileUploadController.js:182-214 | 404 and 403 as for update; with `permanent=true`, the record is removed only after the file is unlinked (200), and otherwise 500 with nothing changed; without it, a soft delete that leaves the disk alone |
| FileUploadController.RestoreFile | backend/apps/controllers/fileUploadController.js:219-242 | 404 and 403 as for update; otherwise the record becomes active (200) |
| FileUploadController.GroupSums | backend/apps/controllers/fileUploadController.js:252-256 | summing the grouped rows gives the per-category counts and sizes summed over the grouped categories |
| FileUploadController.OverAllCategories | backend/apps/controllers/fileUploadController.js:261-262 | summed over every category, the counts and sizes cover every active record |
| FileUploadController.GroupRows | backend/apps/controllers/fileUploadController.js:250-257 | each row is a category's active count (positive) and total size, and every category that has active records has a row |
| FileUploadController.FileStats | backend/apps/controllers/fileUploadController.js:247-275 | rows sorted by count, largest first; the file total counts the active records and equals the sum of the row counts; the size total equals the sum of the row sizes and of the active sizes |
| BlogModel.FromDraft | backend/apps/models/blogModel.js:4-22 | `new Blog(data)` fills in the defaults (static image type, draft status, no views, no date) and keeps the given fields |
| BlogModel.Violations | backend/apps/models/blogModel.js:4-20 | no failing paths exactly when title, content and author are present and both enumerations hold |
| BlogModel.PreSave | backend/apps/models/blogModel.js:26-31 | a published post without a date is dated now, and changes nothing else; every other post is left alone |
| BlogModel.PreSaveIdempotent | backend/apps/models/blogModel.js:26-31 | running the hook a second time changes nothing |
| BlogModel.Save | backend/apps/models/blogModel.js:3-31 | succeeds exactly for a valid post, with the hook applied; otherwise yields the failing paths |
| BlogModel.SavedPublishedHasDate | backend/apps/models/blogModel.js:26-31 | every published post that `save()` writes carries a date, and an existing date is kept |
| BlogController.TrimAll | backend/apps/controllers/blogController.js:15 | every tag is trimmed, in order |
| BlogController.NormaliseTags | backend/apps/controllers/blogController.js:15 | an array is kept; absent or empty tags give `[]`; a string gives, for each comma-separated part in order, that part with its surrounding whitespace removed |
| BlogController.NormaliseTagsRoundTrip | backend/apps/controllers/blogController.js:15 | trimmed, comma-free tags sent as one comma-joined string come back unchanged |
| BlogController.UpdateTags | backend/apps/controllers/blogController.js:168-170 | absent tags are untouched; an empty string reaches the store as `[""]`; other tags are normalised as on creation |
| BlogController.CreateDraft | backend/apps/controllers/blogController.js:7-25 | the post data has the body's fields, normalised tags, "draft" unless a status is given, and the uploaded image's URL, name and "uploaded" type when there is a file |
| BlogController.CreateBlog | backend/apps/controllers/blogController.js:5-38 | the post is stored under a fresh id (201), or validation fails (500) and nothing is stored; a new post has no views and gets a date exactly when published |
| BlogController.WithImage | backend/apps/controllers/blogController.js:55-57 | sets the three image fields from the file and changes nothing else |
| BlogController.UploadBlogImage | backend/apps/controllers/blogController.js:41-68 | 400 without a file, 404 for an unknown post; otherwise the post with the image is saved (200), or 500 with the post unchanged |
| BlogController.PublishedSelection | backend/apps/controllers/blogController.js:74-91 | exactly the published posts carrying the tag (when one is given), latest publication first |
| BlogController.ListPublished | backend/apps/controllers/blogController.js:71-107 | 500 exactly for a negative skip; otherwise exactly the slice of the published selection that starts at `(page - 1) * limit` (limit 10, page 1 by default), with the total and `Math.ceil(total / limit)`, holding only published posts with the tag |
| BlogController.AllSelection | backend/apps/controllers/blogController.js:113-123 | all posts, or those with the given status, each as often as it is stored, newest first |
| BlogController.ListAll | backend/apps/controllers/blogController.js:110-139 | 500 exactly for a negative skip; otherwise exactly the slice of the selection that starts at `(page - 1) * limit`, with the total and the page count |
| BlogController.GetBlogById | backend/apps/controllers/blogController.js:142-160 | 404 for an unknown post; a published post gains exactly one view and is saved with its hook; any other post is returned untouched |
| BlogController.ApplyPatch | backend/apps/controllers/blogController.js:172 | every field the body holds replaces the stored one, and every other field stays; no validator and no hook runs |
| BlogController.EmptyPatchChangesNothing | backend/apps/controllers/blogController.js:172 | an empty update leaves the post as it was |
| BlogController.PatchPublishesWithoutDate | backend/apps/controllers/blogController.js:172 | as written, a draft updated to "published" ends up published without a date |
| BlogController.ApplyPatchStamped | backend/apps/models/blogModel.js:25-31 | the corrected update always dates a published post and otherwise equals the plain update |
| BlogController.StampedPatchDatesPublication | backend/apps/models/blogModel.js:25-31 | with the corrected update, publishing an undated post dates it with the update's time |
| BlogController.UpdateBlog | backend/apps/controllers/blogController.js:163-185 | 404 for an unknown post; otherwise the patched post is stored (200) |
| BlogController.DeleteBlog | backend/apps/controllers/blogController.js:188-202 | 404 for an unknown post; otherwise it is removed (200) |
| BlogController.PublishBlog | backend/apps/controllers/blogController.js:205-224 | 404 for an unknown post; otherwise it becomes published, dated now (200) |
| MeetingMinuteModel.Violations | backend/apps/models/meetingMinuteModel.js:5-9 | no failing paths exactly when title, meeting date and file URL are present and the status is in the enumeration |
| MeetingMinuteModel.Save | backend/apps/models/meetingMinuteModel.js:3-11 | succeeds exactly for a valid minute; otherwise yields its failing paths |
| MeetingMinuteController.BuildData | backend/apps/controllers/meetingMinuteController.js:10-21 | title, note and status from the body, plus the file's URL, name and `isUploaded` exactly when a file is attached; the meeting date is never copied |
| MeetingMinuteController.BuildDataWithDate | backend/apps/controllers/meetingMinuteController.js:10-13 | corrected: the same data plus the body's meeting date |
| MeetingMinuteController.ToDocument | backend/apps/controllers/meetingMinuteController.js:23 | keeps only the schema's paths, with "draft" as the default status |
| MeetingMinuteController.CreationAlwaysRejected | backend/apps/controllers/meetingMinuteController.js:10-24 | as written, every creation fails validation on the meeting date |
| MeetingMinuteController.DatedCreationAccepted | backend/apps/models/meetingMinuteModel.js:5-9 | corrected: a titled, dated creation with a valid status is saved exactly when a file is attached |
| MeetingMinuteController.CreateMeeting | backend/apps/controllers/meetingMinuteController.js:6-30 | as written, the answer is always 500 and nothing is stored |
| MeetingMinuteController.CreateDatedMeeting | backend/apps/controllers/meetingMinuteController.js:6-30 | corrected: the dated minute is stored under a fresh id (201), or refused (500) with nothing stored |
| MeetingMinuteController.ListPublished | backend/apps/controllers/meetingMinuteController.js:34-37 | exactly the published minutes, latest meeting first |
| MeetingMinuteController.ListAll | backend/apps/controllers/meetingMinuteController.js:40-43 | every minute, latest meeting first |
| MeetingMinuteController.PublishedWithinAll | backend/apps/controllers/meetingMinuteController.js:34-43 | the published listing is the full listing restricted to published minutes, counting multiplicity |
| MeetingMinuteController.PublishMeeting | backend/apps/controllers/meetingMinuteController.js:47-55 | 404 for an unknown id; otherwise the minute becomes published (200) |
| MeetingMinuteController.ApplyData | backend/apps/controllers/meetingMinuteController.js:90 | each given schema key replaces the stored value; undefined and non-schema keys change nothing |
| MeetingMinuteController.UpdateWithoutFileKeepsFile | backend/apps/controllers/meetingMinuteController.js:83-90 | without an attached file, an update keeps the stored file URL and meeting date |
| MeetingMinuteController.UpdateMeetingWithFile | backend/apps/controllers/meetingMinuteController.js:75-95 | updates a stored minute (200 with it); an unknown id gives 200 with null and nothing changes |
| MeetingMinuteController.UploadFile | backend/apps/controllers/meetingMinuteController.js:98-120 | 400 without a file, 404 for an unknown id; otherwise the minute gets the file URL and is saved (200), or 500 with the minute unchanged |
| MeetingMinuteController.DeleteMeeting | backend/apps/controllers/meetingMinuteController.js:123-131 | 404 for an unknown id; otherwise the minute is removed (200) |
| ProjectModel.Violations | backend/apps/models/projectModel.js:4-6 | no failing paths exactly when the name is present and the type is "open" or "closed" |
| ProjectModel.Save | backend/apps/models/projectModel.js:3-11 | succeeds exactly for a valid project; otherwise yields its failing paths |
| ProjectController.WithFile | backend/apps/controllers/projectController.js:18-22 | a file sets exactly the image URL and name; no file changes nothing |
| ProjectController.CreateData | backend/apps/controllers/projectController.js:9-25 | name and description from the body, "open" unless a type is given, image keys with a file, and the date only when given |
| ProjectController.ToDocument | backend/apps/controllers/projectController.js:27 | the schema defaults fill the undefined keys: type "open", `isUploaded` "false", date now |
| ProjectController.CreateProject | backend/apps/controllers/projectController.js:5-34 | the project is stored under a fresh id (201), or refused (500) with nothing stored |
| ProjectController.ListAll | backend/apps/controllers/projectController.js:39-46 | every project, latest project date first |
| ProjectController.ListOfType | backend/apps/controllers/projectController.js:51 | exactly the projects of the given type, each as often as it is stored, in natural order |
| ProjectController.OpenProjects | backend/apps/controllers/projectController.js:49-57 | exactly the open projects, each as often as it is stored, in natural order, tagged "open" (200) |
| ProjectController.ClosedProjects | backend/apps/controllers/projectController.js:59-67 | exactly the closed projects, each as often as it is stored, in natural order, tagged "closed" (200) |
| ProjectController.OpenAndClosedDisjoint | backend/apps/controllers/projectController.js:49-67 | no project is in both listings |
| ProjectController.ApplyData | backend/apps/controllers/projectController.js:88-92 | each given key replaces the stored value and undefined keys keep theirs |
| ProjectController.UpdateData | backend/apps/controllers/projectController.js:85-90 | name, description, type, image name and date exactly as the body gives them |
| ProjectController.UpdateDataWithFile | backend/apps/controllers/projectController.js:107-115 | name, description and type as given, image keys with a file, and no date |
| ProjectController.UpdateKeepsUntypedType | backend/apps/controllers/projectController.js:107-117 | an update with a file and no type keeps the stored type and date, unlike creation |
| ProjectController.UpdateProject | backend/apps/controllers/projectController.js:81-100 | 404 for an unknown id; otherwise the updated project (200) |
| ProjectController.UpdateProjectWithFile | backend/apps/controllers/projectController.js:103-122 | updates a stored project (200 with it); an unknown id gives 200 with null and nothing changes |
| ProjectController.DeleteProject | backend/apps/controllers/projectController.js:125-133 | 404 for an unknown id; otherwise the project is removed (200) |
| EventModel.ViolationsAgainst | backend/apps/models/eventModel.js:5-12 | no failing paths exactly when the title and start date are present and the status is allowed |
| EventModel.Violations | backend/apps/models/eventModel.js:5-12 | the same check under the schema's status enumeration |
| EventModel.SaveAgainst | backend/apps/models/eventModel.js:17-22 | succeeds exactly for a valid event that does not end before it starts; the two errors are told apart |
| EventModel.Save | backend/apps/models/eventModel.js:3-22 | the schema's `save()`: validators, then the date-order hook |
| EventModel.OpenOrSameDayEventSaves | backend/apps/models/eventModel.js:17-22 | a valid event without an end date, or ending when it starts, is saved |
| EventModel.SavedEventInOrder | backend/apps/models/eventModel.js:17-22 | every saved event has a start date no later than its end date |
| EventController.CreatedBy | backend/apps/controllers/eventController.js:16 | the requester's id when it is a non-empty string, otherwise "Unknown" |
| EventController.CreateData | backend/apps/controllers/eventController.js:6-25 | the body's fields, "draft" unless a status is given, the creator, and the image keys with a file |
| EventController.ToDocument | backend/apps/controllers/eventController.js:27 | keeps the schema keys and drops `createdBy`, `originalFileName` and `fileType` |
| EventController.CreateEvent | backend/apps/controllers/eventController.js:4-34 | the event is stored under a fresh id (201), or refused (400) with nothing stored |
| EventController.CreateChecksDateOrder | backend/apps/models/eventModel.js:17-22 | a creation that ends before it starts is refused; a titled, dated, open-ended draft is accepted |
| EventController.UploadEventFile | backend/apps/controllers/eventController.js:37-64 | 400 without a file, 404 for an unknown id; otherwise the image URL is set and saved (200), or 500 with the event unchanged |
| EventController.ListPublished | backend/apps/controllers/eventController.js:67-70 | exactly the events with status "published", each as often as it is stored, in natural order |
| EventController.ApplyPatch | backend/apps/controllers/eventController.js:75 | given schema keys replace the stored ones and the rest stay; no validator and no hook runs |
| EventController.EmptyPatchChangesNothing | backend/apps/controllers/eventController.js:75 | an empty update leaves the event as it was |
| EventController.UpdateSkipsDateCheck | backend/apps/controllers/eventController.js:75 | an update can store an event that ends before it starts, which `save()` would refuse |
| EventController.UpdateEvent | backend/apps/controllers/eventController.js:73-81 | 404 for an unknown id; otherwise the updated event (200) |
| EventController.DeleteEvent | backend/apps/controllers/eventController.js:84-92 | 404 for an unknown id; otherwise the event is removed (200) |
| EventController.NoneStoredNoneListed | backend/apps/controllers/eventController.js:67-70 | when no stored event has status "published", the public listing is empty |
| EventController.SavedEventUnpublished | backend/apps/models/eventModel.js:12 | as written, no event that `save()` accepted has status "published" |
| EventController.PublishedNeverSaved | backend/apps/models/eventModel.js:12 | as written, `save()` refuses every published event because its status is not in the enumeration |
| EventController.PublishedCreationRefused | backend/apps/controllers/eventController.js:15-28 | as written, a creation asking for "published" is always refused |
| EventController.SavedEventsNeverListed | backend/apps/controllers/eventController.js:67-70 | as written, while every stored event is one `save()` accepted, the public listing is empty |
| EventController.SaveIntended | backend/apps/models/eventModel.js:12 | corrected `save()`: "published" is among the allowed statuses |
| EventController.IntendedAcceptsSaved | backend/apps/models/eventModel.js:12 | the correction only widens: it accepts everything the schema already accepted |
| EventController.PublishedEventListed | backend/apps/controllers/eventController.js:67-70 | corrected: a well-formed published creation is saved, and once stored it is publicly listed |
| ImageResolver.ServerOf | frontend/src/services/imageResolver.js:4 | the configured API URL when it is non-empty, otherwise the local default server |
| ImageResolver.AssetKeyIsLastSegment | frontend/src/services/imageResolver.js:34 | a path has a key exactly when it does not end with a separator, and the key is its final separator-free segment |
| ImageResolver.AssetsOf | frontend/src/services/imageResolver.js:31-42 | the table built from a listing is a well-formed ordered dictionary |
| ImageResolver.AssetsOfDefined | frontend/src/services/imageResolver.js:34 | the table exists exactly when every path has a key |
| ImageResolver.AssetsOfStatic | frontend/src/services/imageResolver.js:35-39 | every asset in the table is static under the listing's category |
| ImageResolver.AssetsOfLastWins | frontend/src/services/imageResolver.js:33-40 | a key holds the URL of the last entry with that key |
| ImageResolver.ProcessAssetModules | frontend/src/services/imageResolver.js:31-42 | the loop builds exactly the table `AssetsOf` describes |
| ImageResolver.Resolver.constructor | frontend/src/services/imageResolver.js:3-9 | the server from the configuration, then the gallery table spread with the projects table, or an empty table |
| ImageResolver.Resolver.LoadStaticAssets | frontend/src/services/imageResolver.js:11-29 | the gallery and projects tables merged with projects overriding, or the old table when a listing throws |
| ImageResolver.ProjectsOverrideGallery | frontend/src/services/imageResolver.js:22-25 | a project asset replaces a gallery asset with the same name; other gallery assets remain; no other keys appear |
| ImageResolver.OrElse | frontend/src/services/imageResolver.js:73 | `a \|\| b` on strings: `a` unless it is empty |
| ImageResolver.FirstPartialMatch | frontend/src/services/imageResolver.js:126-129 | the first key, in insertion order, whose lower-cased form contains, or is contained in, the lower-cased name |
| ImageResolver.CleanPath | frontend/src/services/imageResolver.js:115 | one leading "/uploads/" is dropped and no backslash remains |
| ImageResolver.Px | frontend/src/services/imageResolver.js:159-160 | a length is its decimal rendering followed by "px" |
| ImageResolver.Resolver.GetUploadedFileUrl | frontend/src/services/imageResolver.js:113-117 | the server, "/uploads/", then the cleaned path, with no backslash |
| ImageResolver.Resolver.UploadedPrefixDropped | frontend/src/services/imageResolver.js:115 | a single leading "/uploads/" makes no difference |
| ImageResolver.Resolver.GetStaticAssetUrl | frontend/src/services/imageResolver.js:119-136 | an exact key first, then the first partial match, then the fallback; any other result is some asset's URL |
| ImageResolver.Resolver.ResolveFromString | frontend/src/services/imageResolver.js:93-111 | a full URL is kept; an "/uploads/" path is prefixed with the server; a relative path with '/' becomes an upload URL; anything else is a static lookup |
| ImageResolver.Resolver.ResolveFromObject | frontend/src/services/imageResolver.js:65-91 | a preview's `src`, else an upload's `url` or `relativePath`, else a record's image name as an upload or a static asset, else the fallback |
| ImageResolver.Resolver.Resolve | frontend/src/services/imageResolver.js:50-63 | a falsy or non-string, non-object reference gives the fallback; strings and objects are dispatched to their resolvers |
| ImageResolver.UploadPathShape | frontend/src/services/imageResolver.js:105 | a stored upload's relative path takes the resolver's relative-upload branch |
| ImageResolver.Resolver.UploadReferencesAgree | frontend/src/services/imageResolver.js:93-117 | a stored upload's relative path, its served URL and an object with that path all resolve to the same URL |
| ImageResolver.Resolver.RelativePathResolves | frontend/src/services/imageResolver.js:105-106 | a relative upload path resolves to the server followed by its served URL |
| ImageResolver.Resolver.UploadObjectResolves | frontend/src/services/imageResolver.js:72-73 | an uploaded-file object resolves to the server followed by its served URL |
| ImageResolver.Resolver.ServedUrlResolves | frontend/src/services/imageResolver.js:100-101 | the URL the server reports resolves to the server followed by that URL |
| ImageResolver.Resolver.GetImageStyle | frontend/src/services/imageResolver.js:144-174 | the given or default sizes and decoration, and a background image exactly when the reference resolves to a non-empty URL |
| ClientFileService.DefinedPairs | frontend/src/services/fileService.js:10-14 | at most one pair per entry, and none exactly when no entry is defined |
| ClientFileService.DefinedPairsExactly | frontend/src/services/fileService.js:10-14 | every defined entry is appended as a string, and nothing else is |
| ClientFileService.AppendDefined | frontend/src/services/fileService.js:10-14 | the loop appends exactly the defined pairs after the existing ones |
| ClientFileService.UploadSingle | frontend/src/services/fileService.js:5-62 | the helper's endpoint, its file under the helper's part name, then the defined metadata |
| ClientFileService.UploadMultipleImages | frontend/src/services/fileService.js:34-48 | each file under "images", in order, then the defined metadata |
| ClientFileService.PairText | frontend/src/services/fileService.js:73 | a pair renders as `key=value` |
| ClientFileService.Serialize | frontend/src/services/fileService.js:73 | the query string is empty exactly when there are no pairs, and starts with the first pair |
| ClientFileService.PairTexts | frontend/src/services/fileService.js:73 | one `key=value` text per pair, in order |
| ClientFileService.SerializeIsJoin | frontend/src/services/fileService.js:73 | the query string is the pairs' `key=value` texts joined with `&` |
| ClientFileService.SerializeSplits | frontend/src/services/fileService.js:73 | without `&` in keys and values, the query string splits on `&` back into exactly the pairs' texts, in order |
| ClientFileService.FilesQueryCarriesFilters | frontend/src/services/fileService.js:65-75 | the listing's query holds every defined filter as `key=value` and nothing else, when no key or value contains `&` |
| ClientFileService.GetFilesEndpoint | frontend/src/services/fileService.js:65-75 | "api/files" exactly when no filter is defined, and otherwise followed by "?" and the query |
| ClientFileService.DeleteEndpoint | frontend/src/services/fileService.js:88-91 | "?permanent=true" is appended exactly when `permanent` is truthy |
| ClientFileService.GetFileUrl | frontend/src/services/fileService.js:104-107 | the server, "/uploads/" and the path without normalisation |
| ClientFileService.ResolveImageUrl | frontend/src/services/fileService.js:110-136 | null for falsy input, full URLs kept, "/uploads/" paths prefixed, slash or backslash paths made upload URLs, a preview's `src`, anything else unchanged |
| ClientFileService.ResolversAgreeOnUploads | frontend/src/services/fileService.js:119-127 | this helper and the image resolver give the same URL for served and backslash-free relative upload paths |
| ClientFileService.BackslashKeptByFileService | frontend/src/services/fileService.js:125-126 | a backslash path keeps its backslash here, where the image resolver would change it |
| ClientFileService.ValidateFileType | frontend/src/services/fileService.js:139-141 | true exactly when the file's type is in the given list or the default image list |
| ClientFileService.ValidateFileSize | frontend/src/services/fileService.js:144-147 | true exactly when the size is at most the limit in MiB (5 by default) |
| ClientFileService.DefaultSizeBoundInclusive | frontend/src/services/fileService.js:144-147 | exactly 5 MiB passes and one byte more fails |
| DateUtils.TwoDigitsValue | frontend/src/utils/dateUtils.js:25-26 | below 100, the padded rendering is two digits that read back as the number |
| DateUtils.OffsetSign | frontend/src/utils/dateUtils.js:24 | "-" exactly for zones behind UTC (a positive offset) |
| DateUtils.FormattedReadsBack | frontend/src/utils/dateUtils.js:27 | `±HH:MM` built from hours and minutes below 100 reads back as the signed total |
| DateUtils.LocalOffsetRoundTrip | frontend/src/utils/dateUtils.js:22-28 | the corrected offset is six characters that read back as the zone's distance from UTC |
| DateUtils.AsWrittenAgreesWhenExact | frontend/src/utils/dateUtils.js:25 | as written, the offset is right for zones behind UTC and for whole-hour zones |
| DateUtils.IndiaOffsetAsWritten | frontend/src/utils/dateUtils.js:25 | as written, -330 minutes gives "+06:30" where the correction gives "+05:30" |
| DateUtils.AsWrittenOneHourOff | frontend/src/utils/dateUtils.js:25 | as written, every fractional zone ahead of UTC reads back one hour further ahead than it is |
| DateUtils.FloorOfFractionalNegative | frontend/src/utils/dateUtils.js:25 | for such an offset, the floored hours exceed the truncated hours by one |
| DateUtils.DateTimeStr | frontend/src/utils/dateUtils.js:31-34 | the date, "T", the time, ":00", then the offset as written |
| DateUtils.LocalDateTimeStr | frontend/src/utils/dateUtils.js:31-34 | the same timestamp with the corrected offset |
| DateUtils.FormatDate | frontend/src/utils/dateUtils.js:2-10 | "" for a falsy input, otherwise the locale rendering |
| Store.Collection.constructor | backend/apps/models/uploadedFileModel.js:52 | a new collection is empty |
| Store.Collection.Oldest | backend/apps/controllers/eventController.js:68 | `find()` lists every stored document in creation order |
| Store.Collection.Newest | backend/apps/controllers/fileUploadController.js:105 | `sort({createdAt: -1})` lists every stored document in reverse creation order |
| Store.Collection.StoredNewest | backend/apps/controllers/fileUploadController.js:105 | every stored document appears in the newest-first listing |
| Store.Collection.Insert | backend/apps/controllers/fileUploadController.js:29 | saving a new document adds it under its fresh id, last |
| Store.Collection.Put | backend/apps/controllers/fileUploadController.js:167 | saving a loaded document replaces it and keeps the order |
| Store.Collection.Remove | backend/apps/controllers/fileUploadController.js:200 | `findByIdAndDelete` removes the document and its id, and nothing else |
| Store.Without | backend/apps/controllers/fileUploadController.js:200 | the ids other than the removed one, in their order |
| Js.EmptyDict | frontend/src/services/imageResolver.js:32 | `{}` is a well-formed dictionary with no keys |
| Js.SpreadKeys | frontend/src/services/imageResolver.js:22-25 | appending the keys new to the left dictionary keeps the key listing well formed, with the old keys first |
| Js.Assign | frontend/src/services/imageResolver.js:35 | `d[k] = v`: a new key goes last, an existing key keeps its place |
| Js.Spread | frontend/src/services/imageResolver.js:22-25 | `{...d, ...e}`: the keys of `d`, then the new keys of `e`, with `e`'s values winning |
| Query.Filter | backend/apps/controllers/eventController.js:68 | `find(query)` keeps exactly the matching documents, in order, counting multiplicity |
| Query.FilterIdempotent | backend/apps/controllers/eventController.js:68 | filtering twice by the same query is filtering once |
| Query.FilterConjunction | backend/apps/controllers/fileUploadController.js:94-100 | filtering by two conditions in turn is filtering by their conjunction |
| Query.CountIsFilterLength | backend/apps/controllers/fileUploadController.js:109 | `countDocuments(query)` is the length of `find(query)` |
| Query.InsertDesc | backend/apps/controllers/projectController.js:41 | inserting into a descending list keeps it descending and adds exactly that element |
| Query.SortDesc | backend/apps/controllers/projectController.js:41 | `sort({key: -1})` gives a descending permutation |
| Query.SumOfSortDesc | backend/apps/controllers/fileUploadController.js:258-262 | sorting the statistics rows does not change their sums |
| Query.PageSlice | backend/apps/controllers/fileUploadController.js:106-107 | `skip(s).limit(l)` gives the items from position `s`: exactly `min(abs(l), remaining)` of them, or all remaining when `l` is 0 |
| Query.PageCount | backend/apps/controllers/fileUploadController.js:117 | `Math.ceil(total / limit)`: for a positive limit the least page count covering the total; for a negative limit `-n`, minus the number of whole batches of `n`; none for a zero limit |
| Query.Paged | backend/apps/controllers/fileUploadController.js:102-117 | a page reports its number, limit, total and page count, and holds exactly the slice starting at `(page - 1) * limit` |
| Query.PageNonEmptyIffWithinCount | backend/apps/controllers/fileUploadController.js:102-117 | a page of positive size is non-empty exactly when its number is within the page count |
| Query.PagedNonEmptyIffWithinCount | backend/apps/controllers/fileUploadController.js:102-117 | a whole page of positive size, from page 1 on, is non-empty exactly when its number is within its reported page count |
| Query.ItemOnItsPage | backend/apps/controllers/fileUploadController.js:102-107 | item `k` is at position `k mod limit` of page `k / limit + 1` |
| Text.Split | backend/apps/controllers/fileUploadController.js:24 | `split(',')` gives comma-free parts |
| Text.JoinSplit | backend/apps/controllers/fileUploadController.js:24 | joining the parts of a split with the separator gives back the string |
| Text.SplitJoin | backend/apps/controllers/blogController.js:15 | splitting a join of separator-free parts gives back the parts |
| Text.SplitWithoutSeparator | backend/apps/controllers/blogController.js:15 | a string with no separator splits into itself alone |
| Text.SplitAtFirst | backend/apps/controllers/fileUploadController.js:24 | splitting at the first separator gives the text before it, then the split of the rest |
| Text.TrimStart | backend/apps/controllers/blogController.js:15 | a suffix of the text whose dropped prefix is all whitespace and which does not start with whitespace |
| Text.TrimEnd | backend/apps/controllers/blogController.js:15 | a prefix of the text whose dropped suffix is all whitespace and which does not end with whitespace |
| Text.TrimTrimmed | backend/apps/controllers/blogController.js:15 | a text with no surrounding whitespace is its own trim |
| Text.Trim | backend/apps/controllers/blogController.js:15 | `trim()` removes exactly the surrounding JavaScript whitespace |
| Text.TrimIdempotent | backend/apps/controllers/blogController.js:15 | trimming twice is trimming once |
| Text.Contains | backend/apps/controllers/fileUploadController.js:158 | `includes` is true exactly when the text occurs at some position |
| Text.Lower | backend/apps/models/uploadedFileModel.js:34 | lower-casing keeps the length and maps each character |
| Text.ReplaceChar | backend/apps/services/fileService.js:15 | `replace(/\\/g, '/')` keeps the length, puts the replacement where the character was, and changes nothing else |
| Text.NatToStringRoundTrip | backend/apps/middlewares/fileUpload.js:23 | a decimal rendering is all digits and reads back as the number |
| Text.NatToStringInjective | backend/apps/middlewares/fileUpload.js:23 | different numbers render differently |
| Text.PadStart | frontend/src/utils/dateUtils.js:25-26 | `padStart` pads to the given length on the left and keeps the text as a suffix |
| Text.AfterLast | frontend/src/services/imageResolver.js:34 | the longest suffix without a separator |
| Text.SplitLastPart | backend/apps/models/uploadedFileModel.js:34 | `split('.').pop()` is the text after the last '.' |

## Left out

- Parsing of multipart bodies and streaming to disk: the model starts from the parts multer sees and the files it describes. Cleanup of partial files and the HTTP status that multer's errors are later mapped to are not modelled; `UploadMiddleware.Admit` returns the error kind.
- Directory creation at load time (`fs.mkdirSync`, backend/apps/middlewares/fileUpload.js:15-17): a side effect at start-up, assumed to succeed.
- `getFileInfo` (backend/apps/services/fileService.js:61-79): it reads `fs.statSync` metadata (birth time, modification time) that the disk model does not carry.
- `updateMeeting` (backend/apps/controllers/meetingMinuteController.js:57-72) and `getProject` (backend/apps/controllers/projectController.js:69-78): outside the handlers this model covers. `updateMeetingWithFile` stands for the minute update; the project lookup answers 200 with the project or null.
- The author filter `new RegExp(author, 'i')` of the blog listings: regular expressions are not modelled, so the listings take no author filter.
- Error messages and the JSON wrapper objects (`message`, `blog`, `file`): only status codes and payloads are modelled.
- Populate of `uploadedBy` in `getFiles`/`getFileById`: the record is returned with the uploader's id.
- Timestamps (`createdAt`/`updatedAt`): the store's insertion order stands for creation time.
- `Promise.all` concurrency in `uploadMultipleFiles`: the saves are modelled one after another, in file order.
- `toLowerCase` maps ASCII letters only; Unicode case mapping is not modelled.
- `URLSearchParams` percent-encoding: `ClientFileService.Serialize` joins raw `key=value` pairs.
- JavaScript key ordering for integer-like keys, and lookups that reach `Object.prototype` (a file name such as `constructor`): not modelled in `Js.Dict`.
- `parseInt` of non-numeric or fractional text, and `NaN` pages or limits: query numbers are integers (negative ones included) or absent.
- `fileService.getFile`/`updateFile`/`restoreFile`/`getFileStats` in the client, and `formatFileSize`: fixed endpoints handed to the API client, and floating-point formatting.
- `getPlaceholder`, `preloadImages` and `imageExists` in the image resolver: they create browser `Image` objects, which are I/O.
- `timeRange` and `isValidTimeRange` in frontend/src/utils/dateUtils.js: browser locale time formatting and `Date` parsing.
- DateUtils.FormatDate: the non-empty case is the browser's `toLocaleDateString`, passed in as a function.
- `import.meta.glob` and `import.meta.env`: the asset listings and the API URL are parameters.
- ClientFileService.ValidateFileSize: `maxSizeMB` is a natural number; fractional megabyte limits are not modelled.
- Authentication middleware, routes, and the gallery and user controllers: they are outside the file-handling core.
- Services.FileService.GetRelativePath: specified for paths under the uploads root only, which is where multer stores files; `path.relative` for paths outside the root (with `..` components) is not modelled.
- The clock reading that dates uploads, posts and projects (`new Date()`, `Date.now()`) is passed in as `now`.

## Findings

| source | as written | input that shows it | evidently intended | confidence | as-written member | corrected member |
|---|---|---|---|---|---|---|
| frontend/src/utils/dateUtils.js:25 | the hours are `Math.abs(Math.floor(offset / 60))`, which floors a negative offset before taking its absolute value | `getTimezoneOffset()` of -330 (India) gives "+06:30" | the zone's distance from UTC, "+05:30" | not executed; high | DateUtils.IndiaOffsetAsWritten | DateUtils.LocalOffsetRoundTrip |
| backend/apps/controllers/meetingMinuteController.js:10-13 | `createMeeting` copies only title, note and status, never the `meetingDate` the schema requires (backend/apps/models/meetingMinuteModel.js:6) | any creation, even one with a title, a meeting date and a PDF, fails validation and answers 500 | the body's meeting date is stored and a complete creation is saved (201) | not executed; high | MeetingMinuteController.CreationAlwaysRejected | MeetingMinuteController.DatedCreationAccepted |
| backend/apps/controllers/eventController.js:68 | the public listing selects status "published", which the status enumeration (backend/apps/models/eventModel.js:12) does not contain | a creation with status "published" answers 400, and while every stored event was saved the listing is empty | "published" is an allowed status, so published events are saved and listed | not executed; medium | EventController.SavedEventsNeverListed | EventController.PublishedEventListed |
| backend/apps/controllers/blogController.js:172 | `updateBlog` goes through `findByIdAndUpdate`, which skips the pre-save hook that dates publication (backend/apps/models/blogModel.js:25-31) | a draft updated with the body `{status: "published"}` is published with no `publishedAt`, so it sorts after every dated post | a post that becomes published is dated | not executed; medium | BlogController.PatchPublishesWithoutDate | BlogController.StampedPatchDatesPublication |
| backend/apps/controllers/fileUploadController.js:91-94 | the default of `isActive` is the boolean `true`, which is then compared with the string `'true'` | `GET /api/files` without `isActive` lists only inactive records | an omitted `isActive` lists active records | not executed; high | FileUploadController.OmittedActivityListsTrash | FileUploadController.DefaultedListingShowsActive |

The handlers are modelled as written. Each corrected definition sits beside its as-written counterpart: `DateUtils.LocalOffset` and `DateUtils.LocalDateTimeStr`; `MeetingMinuteController.BuildDataWithDate` and `CreateDatedMeeting`; `EventController.SaveIntended`; `BlogController.ApplyPatchStamped`; `FileUploadController.WithActivityDefault`.
