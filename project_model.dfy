/**
 * The project document (backend/apps/models/projectModel.js): a required
 * name, an optional description, the type "open" or "closed" ("open" by
 * default), the image's original name and URL, the `isUploaded` flag
 * ("false" by default) and the project date (the creation time by default).
 */
module ProjectModel {
  import opened Wrappers

  datatype Project = Project(
    name: string,
    description: Option<string>,
    projectType: string,
    image: Option<string>,
    imageUrl: Option<string>,
    isUploaded: string,
    date: nat)

  const ProjectTypes: seq<string> := ["open", "closed"]

  /** The paths whose validator fails; a required string fails on "" as on undefined. */
  function Violations(p: Project): (paths: seq<string>)
    ensures paths == [] <==> p.name != "" && p.projectType in ProjectTypes
  {
    (if p.name == "" then ["project_name"] else [])
    + (if p.projectType !in ProjectTypes then ["project_type"] else [])
  }

  /** `save()`: the document, or the failing paths. */
  function Save(p: Project): (r: Result<Project, seq<string>>)
    ensures r.Ok? <==> Violations(p) == []
    ensures r.Ok? ==> r.value == p
    ensures r.Err? ==> r.error == Violations(p) && r.error != []
  {
    if Violations(p) == [] then Ok(p) else Err(Violations(p))
  }

  /** The sort key of `sort({project_date: -1})`. */
  function DateKey(p: Project): int {
    p.date
  }
}
