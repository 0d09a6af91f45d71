/**
 * The blog post document (backend/apps/models/blogModel.js): required
 * fields, the `imageType` and `status` enumerations with their defaults, the
 * view counter, and the pre-save hook that stamps `publishedAt`.
 *
 * `status` and `imageType` are strings: the enumerations are checked by
 * `save()`, but an update that bypasses validation can store any string.
 * Dates are clock readings (`nat`).
 */
module BlogModel {
  import opened Wrappers

  datatype Blog = Blog(
    title: string,
    content: string,
    excerpt: Option<string>,
    author: string,
    featuredImage: Option<string>,
    originalFileName: Option<string>,
    imageType: string,
    tags: seq<string>,
    status: string,
    publishedAt: Option<nat>,
    views: nat)

  const ImageTypes: seq<string> := ["static", "uploaded"]
  const Statuses: seq<string> := ["draft", "published", "archived"]

  /**
   * The fields a new post is built from; `None` is a field left undefined,
   * which then takes its schema default (`imageType` "static", `status`
   * "draft") or, for a required field, fails validation.
   */
  datatype BlogDraft = BlogDraft(
    title: Option<string>,
    content: Option<string>,
    excerpt: Option<string>,
    author: Option<string>,
    featuredImage: Option<string>,
    originalFileName: Option<string>,
    imageType: Option<string>,
    tags: seq<string>,
    status: Option<string>)

  /** The document `new Blog(draft)` builds, before validation: defaults filled in, no views yet. */
  function FromDraft(d: BlogDraft): (b: Blog)
    ensures b.imageType == d.imageType.GetOr("static") && b.status == d.status.GetOr("draft")
    ensures b.views == 0 && b.publishedAt.None?
    ensures b.tags == d.tags && b.excerpt == d.excerpt
    ensures b.featuredImage == d.featuredImage && b.originalFileName == d.originalFileName
    ensures (b.title == "" <==> d.title.None? || d.title == Some(""))
    ensures (b.content == "" <==> d.content.None? || d.content == Some(""))
    ensures (b.author == "" <==> d.author.None? || d.author == Some(""))
  {
    Blog(d.title.GetOr(""), d.content.GetOr(""), d.excerpt, d.author.GetOr(""), d.featuredImage,
         d.originalFileName, d.imageType.GetOr("static"), d.tags, d.status.GetOr("draft"), None, 0)
  }

  /** The paths whose validator fails: a required string fails on "" as on undefined. */
  function Violations(b: Blog): (paths: seq<string>)
    ensures paths == [] <==>
      b.title != "" && b.content != "" && b.author != "" && b.imageType in ImageTypes && b.status in Statuses
  {
    (if b.title == "" then ["title"] else [])
    + (if b.content == "" then ["content"] else [])
    + (if b.author == "" then ["author"] else [])
    + (if b.imageType !in ImageTypes then ["imageType"] else [])
    + (if b.status !in Statuses then ["status"] else [])
  }

  /** Every post that passes validation has values from its enumerations. */
  predicate Valid(b: Blog) {
    Violations(b) == []
  }

  /**
   * The pre-save hook: a published post without a publication date gets the
   * current time; nothing else changes.
   */
  function PreSave(b: Blog, now: nat): (r: Blog)
    ensures r.status == "published" ==> r.publishedAt.Some?
    ensures b.publishedAt.Some? ==> r == b
    ensures b.status != "published" ==> r == b
    ensures b.status == "published" && b.publishedAt.None? ==> r == b.(publishedAt := Some(now))
  {
    if b.status == "published" && b.publishedAt.None? then b.(publishedAt := Some(now)) else b
  }

  /** Running the hook on a post it has already processed changes nothing. */
  lemma PreSaveIdempotent(b: Blog, t1: nat, t2: nat)
    ensures PreSave(PreSave(b, t1), t2) == PreSave(b, t1)
  {
  }

  /**
   * `save()`: validation first (the hooks only run on a valid document),
   * then the pre-save hook; the saved post or the failing paths.
   */
  function Save(b: Blog, now: nat): (r: Result<Blog, seq<string>>)
    ensures r.Ok? <==> Valid(b)
    ensures r.Err? ==> r.error == Violations(b)
    ensures r.Ok? ==> Valid(r.value) && r.value == PreSave(b, now)
  {
    if Violations(b) != [] then Err(Violations(b)) else Ok(PreSave(b, now))
  }

  /** Every post written by `save()` that is published carries a publication date. */
  lemma SavedPublishedHasDate(b: Blog, now: nat)
    requires Save(b, now).Ok? && Save(b, now).value.status == "published"
    ensures Save(b, now).value.publishedAt.Some?
    ensures b.publishedAt.Some? ==> Save(b, now).value.publishedAt == b.publishedAt
  {
  }
}
