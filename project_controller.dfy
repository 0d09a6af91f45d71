/**
 * The project handlers (backend/apps/controllers/projectController.js):
 * creation with an optional image, the full listing and the open and closed
 * listings, update, update with an image, and deletion.
 *
 * An update through `findByIdAndUpdate` runs no validator and leaves out
 * keys whose value is undefined.
 */
module ProjectController {
  import opened Wrappers
  import Query
  import Store
  import Http
  import UploadMiddleware
  import Attachments
  import opened ProjectModel

  /** The fields of a request; `None` is an undefined field, `date` a parsed `project_date`. */
  datatype ProjectBody = ProjectBody(
    name: Option<string>,
    description: Option<string>,
    projectType: Option<string>,
    image: Option<string>,
    date: Option<nat>)

  /** `projectData`: the keys a handler passes to the store; `None` is a key left undefined. */
  datatype ProjectData = ProjectData(
    name: Option<string>,
    description: Option<string>,
    projectType: Option<string>,
    image: Option<string>,
    imageUrl: Option<string>,
    date: Option<nat>)

  /** The image keys of an uploaded file: its URL under the projects directory and its original name. */
  function WithFile(d: ProjectData, file: Option<UploadMiddleware.MulterFile>): (r: ProjectData)
    ensures file.Some? ==>
              r.imageUrl == Some(Attachments.PublicUrl(UploadMiddleware.ProjectsDir, file.value.filename))
              && r.image == Some(file.value.originalname)
    ensures file.Some? ==> r.(image := d.image, imageUrl := d.imageUrl) == d
    ensures file.None? ==> r == d
  {
    match file
    case None => d
    case Some(f) => d.(imageUrl := Some(Attachments.PublicUrl(UploadMiddleware.ProjectsDir, f.filename)),
                       image := Some(f.originalname))
  }

  /**
   * `createProject`'s data: name, description, the type ("open" unless a
   * non-empty one is given), the image keys with a file, and the date only
   * when the body gives one.
   */
  function CreateData(body: ProjectBody, file: Option<UploadMiddleware.MulterFile>): (d: ProjectData)
    ensures d.name == body.name && d.description == body.description && d.date == body.date
    ensures d.projectType == Some(if body.projectType.None? || body.projectType == Some("") then "open" else body.projectType.value)
    ensures file.None? ==> d.image.None? && d.imageUrl.None?
    ensures file.Some? ==> d.imageUrl == Some(Attachments.PublicUrl(UploadMiddleware.ProjectsDir, file.value.filename))
                           && d.image == Some(file.value.originalname)
  {
    var kind := if body.projectType.None? || body.projectType == Some("") then "open" else body.projectType.value;
    WithFile(ProjectData(body.name, body.description, Some(kind), None, None, body.date), file)
  }

  /** `new Project(data)` at time `now`: the schema defaults fill the undefined keys. */
  function ToDocument(d: ProjectData, now: nat): (p: Project)
    ensures p.description == d.description && p.image == d.image && p.imageUrl == d.imageUrl
    ensures p.projectType == d.projectType.GetOr("open") && p.isUploaded == "false"
    ensures p.date == d.date.GetOr(now)
    ensures (p.name == "" <==> d.name.None? || d.name == Some(""))
    ensures d.name.Some? ==> p.name == d.name.value
  {
    Project(d.name.GetOr(""), d.description, d.projectType.GetOr("open"), d.image, d.imageUrl, "false", d.date.GetOr(now))
  }

  /**
   * `createProject`: the project is saved under `newId` (201), or refused
   * (500) and nothing is stored. A project created without a date is dated
   * now, and one created without a type is open.
   */
  method CreateProject(projects: Store.Collection<Project>, body: ProjectBody, file: Option<UploadMiddleware.MulterFile>,
                       newId: Store.Id, now: nat)
    returns (reply: Http.Reply<Project>)
    requires projects.Valid() && newId !in projects.docs
    modifies projects
    ensures projects.Valid()
    ensures var p := ToDocument(CreateData(body, file), now);
            if Violations(p) == [] then
              reply == Http.Success(201, p) && projects.docs == old(projects.docs)[newId := p]
              && projects.order == old(projects.order) + [newId]
            else
              reply == Http.Failure(500) && projects.docs == old(projects.docs) && projects.order == old(projects.order)
    ensures reply.Success? ==>
              && reply.body.date == body.date.GetOr(now)
              && (body.projectType.None? ==> reply.body.projectType == "open")
              && reply.body.projectType in ProjectTypes
  {
    var saved := Save(ToDocument(CreateData(body, file), now));
    if saved.Err? {
      return Http.Failure(500);
    }
    projects.Insert(newId, saved.value);
    reply := Http.Success(201, saved.value);
  }

  /** `getAllProjects`: every project, latest project date first. */
  function ListAll(projects: Store.Collection<Project>): (r: seq<Project>)
    reads projects
    requires projects.Valid()
    ensures Query.SortedDesc(r, DateKey)
    ensures multiset(r) == multiset(projects.Oldest())
  {
    Query.SortDesc(projects.Oldest(), DateKey)
  }

  /** The answer of the open and closed listings: the projects and the type they were selected by. */
  datatype TypedList = TypedList(projects: seq<Project>, projectType: string)

  predicate OfType(kind: string, p: Project) {
    p.projectType == kind
  }

  /** The projects of one type, in the store's natural order. */
  function ListOfType(projects: Store.Collection<Project>, kind: string): (r: TypedList)
    reads projects
    requires projects.Valid()
    ensures r.projectType == kind
    ensures forall p :: p in r.projects <==> p in projects.Oldest() && p.projectType == kind
    ensures forall p :: multiset(r.projects)[p] == if p.projectType == kind then multiset(projects.Oldest())[p] else 0
    ensures Query.IsSubsequence(r.projects, projects.Oldest())
  {
    TypedList(Query.Filter(projects.Oldest(), p => OfType(kind, p)), kind)
  }

  /** `openProjects`: exactly the open projects, tagged "open" (200). */
  function OpenProjects(projects: Store.Collection<Project>): (r: Http.Reply<TypedList>)
    reads projects
    requires projects.Valid()
    ensures r.Success? && r.status == 200 && r.body.projectType == "open"
    ensures forall p :: p in r.body.projects <==> p in projects.Oldest() && p.projectType == "open"
    ensures forall p :: multiset(r.body.projects)[p] == if p.projectType == "open" then multiset(projects.Oldest())[p] else 0
    ensures Query.IsSubsequence(r.body.projects, projects.Oldest())
  {
    Http.Success(200, ListOfType(projects, "open"))
  }

  /** `closedProjects`: exactly the closed projects, tagged "closed" (200). */
  function ClosedProjects(projects: Store.Collection<Project>): (r: Http.Reply<TypedList>)
    reads projects
    requires projects.Valid()
    ensures r.Success? && r.status == 200 && r.body.projectType == "closed"
    ensures forall p :: p in r.body.projects <==> p in projects.Oldest() && p.projectType == "closed"
    ensures forall p :: multiset(r.body.projects)[p] == if p.projectType == "closed" then multiset(projects.Oldest())[p] else 0
    ensures Query.IsSubsequence(r.body.projects, projects.Oldest())
  {
    Http.Success(200, ListOfType(projects, "closed"))
  }

  /** No project is listed both as open and as closed. */
  lemma OpenAndClosedDisjoint(projects: Store.Collection<Project>)
    requires projects.Valid()
    ensures forall p :: !(p in OpenProjects(projects).body.projects && p in ClosedProjects(projects).body.projects)
  {
  }

  /**
   * The stored project after `findByIdAndUpdate(id, data)`: each key with a
   * value replaces the stored one and undefined keys leave theirs.
   */
  function ApplyData(p: Project, d: ProjectData): (r: Project)
    ensures r.name == (if d.name.Some? then d.name.value else p.name)
    ensures r.description == (if d.description.Some? then d.description else p.description)
    ensures r.projectType == (if d.projectType.Some? then d.projectType.value else p.projectType)
    ensures r.image == (if d.image.Some? then d.image else p.image)
    ensures r.imageUrl == (if d.imageUrl.Some? then d.imageUrl else p.imageUrl)
    ensures r.date == (if d.date.Some? then d.date.value else p.date)
    ensures r.isUploaded == p.isUploaded
  {
    Project(
      if d.name.Some? then d.name.value else p.name,
      if d.description.Some? then d.description else p.description,
      if d.projectType.Some? then d.projectType.value else p.projectType,
      if d.image.Some? then d.image else p.image,
      if d.imageUrl.Some? then d.imageUrl else p.imageUrl,
      p.isUploaded,
      if d.date.Some? then d.date.value else p.date)
  }

  /** `updateProject`'s keys: name, description, type, image name and date, as given. */
  function UpdateData(body: ProjectBody): (d: ProjectData)
    ensures d.name == body.name && d.description == body.description && d.projectType == body.projectType
    ensures d.image == body.image && d.date == body.date && d.imageUrl.None?
  {
    ProjectData(body.name, body.description, body.projectType, body.image, None, body.date)
  }

  /**
   * `updateProjectWithFile`'s keys: name, description and type as given
   * (an undefined type is left out, so the stored type stays), plus the
   * image keys with a file.
   */
  function UpdateDataWithFile(body: ProjectBody, file: Option<UploadMiddleware.MulterFile>): (d: ProjectData)
    ensures d.name == body.name && d.description == body.description && d.projectType == body.projectType
    ensures d.date.None?
    ensures file.None? ==> d.image.None? && d.imageUrl.None?
    ensures file.Some? ==> d.imageUrl == Some(Attachments.PublicUrl(UploadMiddleware.ProjectsDir, file.value.filename))
                           && d.image == Some(file.value.originalname)
  {
    WithFile(ProjectData(body.name, body.description, body.projectType, None, None, None), file)
  }

  /** Unlike creation, an update with a file and no type keeps the stored type, whatever it is. */
  lemma UpdateKeepsUntypedType(p: Project, body: ProjectBody, file: Option<UploadMiddleware.MulterFile>)
    requires body.projectType.None?
    ensures ApplyData(p, UpdateDataWithFile(body, file)).projectType == p.projectType
    ensures ApplyData(p, UpdateDataWithFile(body, file)).date == p.date
  {
  }

  /** `updateProject`: 404 for an unknown id; otherwise the updated project (200). */
  method UpdateProject(projects: Store.Collection<Project>, id: Store.Id, body: ProjectBody)
    returns (reply: Http.Reply<Project>)
    requires projects.Valid()
    modifies projects
    ensures projects.Valid() && projects.order == old(projects.order)
    ensures id !in old(projects.docs) ==> reply == Http.Failure(404) && projects.docs == old(projects.docs)
    ensures id in old(projects.docs) ==>
              var u := ApplyData(old(projects.docs[id]), UpdateData(body));
              reply == Http.Success(200, u) && projects.docs == old(projects.docs)[id := u]
  {
    if id !in projects.docs {
      return Http.Failure(404);
    }
    var updated := ApplyData(projects.docs[id], UpdateData(body));
    projects.Put(id, updated);
    reply := Http.Success(200, updated);
  }

  /**
   * `updateProjectWithFile`: the project is updated and the answer is 200
   * with the result, which is `null` for an unknown id (nothing changes).
   */
  method UpdateProjectWithFile(projects: Store.Collection<Project>, id: Store.Id, body: ProjectBody,
                               file: Option<UploadMiddleware.MulterFile>)
    returns (reply: Http.Reply<Option<Project>>)
    requires projects.Valid()
    modifies projects
    ensures projects.Valid() && projects.order == old(projects.order)
    ensures id !in old(projects.docs) ==> reply == Http.Success(200, None) && projects.docs == old(projects.docs)
    ensures id in old(projects.docs) ==>
              var u := ApplyData(old(projects.docs[id]), UpdateDataWithFile(body, file));
              reply == Http.Success(200, Some(u)) && projects.docs == old(projects.docs)[id := u]
  {
    if id !in projects.docs {
      return Http.Success(200, None);
    }
    var updated := ApplyData(projects.docs[id], UpdateDataWithFile(body, file));
    projects.Put(id, updated);
    reply := Http.Success(200, Some(updated));
  }

  /** `deleteProject`: 404 for an unknown id; otherwise the project is removed (200). */
  method DeleteProject(projects: Store.Collection<Project>, id: Store.Id) returns (reply: Http.Reply<()>)
    requires projects.Valid()
    modifies projects
    ensures projects.Valid()
    ensures id !in old(projects.docs) ==>
              reply == Http.Failure(404) && projects.docs == old(projects.docs) && projects.order == old(projects.order)
    ensures id in old(projects.docs) ==>
              reply == Http.Success(200, ()) && projects.docs == old(projects.docs) - {id}
              && projects.order == Store.Without(old(projects.order), id)
  {
    if id !in projects.docs {
      return Http.Failure(404);
    }
    projects.Remove(id);
    reply := Http.Success(200, ());
  }
}
