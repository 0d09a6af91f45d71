/**
 * The blog handlers (backend/apps/controllers/blogController.js): creation
 * with an optional featured image, attaching an image later, the published
 * and the administrative listings, reading a post (which counts a view),
 * update, deletion and publication.
 *
 * The posts are a `Store.Collection<Blog>`; fresh ids and the clock are
 * parameters.
 */
module BlogController {
  import opened Wrappers
  import opened Text
  import Js
  import Query
  import Store
  import Http
  import UploadMiddleware
  import Attachments
  import opened BlogModel

  /** Every part trimmed, in order. */
  function TrimAll(parts: seq<string>): (r: seq<string>)
    ensures |r| == |parts| && forall i :: 0 <= i < |parts| ==> r[i] == Trim(parts[i])
  {
    seq(|parts|, i requires 0 <= i < |parts| => Trim(parts[i]))
  }

  /**
   * Tag normalisation: an array is kept, a non-empty string becomes its
   * comma-separated parts with surrounding whitespace removed, and absent
   * tags (or the empty string) become `[]`.
   */
  function NormaliseTags(t: Js.TagsInput): (tags: seq<string>)
    ensures t.NoTags? || t == Js.TagText("") ==> tags == []
    ensures t.TagList? ==> tags == t.list
    ensures t.TagText? && t.text != "" ==>
              |tags| == |Split(t.text, ',')|
              && forall i :: 0 <= i < |tags| ==> tags[i] == Trim(Split(t.text, ',')[i]) && Trimmed(tags[i]) && ',' !in tags[i]
  {
    match t
    case NoTags => []
    case TagText(s) =>
      if s == "" then []
      else
        var parts := Split(s, ',');
        forall i | 0 <= i < |parts|
          ensures ',' !in Trim(parts[i])
        {
          TrimExcludes(parts[i], ',');
        }
        TrimAll(parts)
    case TagList(l) => l
  }

  /** A list of trimmed, comma-free tags survives being sent as one comma-joined string. */
  lemma NormaliseTagsRoundTrip(tags: seq<string>)
    requires |tags| >= 1 && forall i :: 0 <= i < |tags| ==> Trimmed(tags[i]) && ',' !in tags[i]
    requires Join(tags, ',') != ""
    ensures NormaliseTags(Js.TagText(Join(tags, ','))) == tags
  {
    SplitJoin(tags, ',');
    forall i | 0 <= i < |tags|
      ensures Trim(tags[i]) == tags[i]
    {
      TrimTrimmed(tags[i]);
    }
  }

  /**
   * The tags an update stores: unchanged when absent, normalised when
   * truthy, and the empty string passed on to the store, which casts it to
   * the one-element array `[""]`.
   */
  function UpdateTags(t: Js.TagsInput): (tags: Option<seq<string>>)
    ensures tags.None? <==> t.NoTags?
    ensures t == Js.TagText("") ==> tags == Some([""])
    ensures t != Js.TagText("") && !t.NoTags? ==> tags == Some(NormaliseTags(t))
  {
    if t.NoTags? then None
    else if t == Js.TagText("") then Some([""])
    else Some(NormaliseTags(t))
  }

  /** The body of a create request. */
  datatype CreateBody = CreateBody(
    title: Option<string>,
    content: Option<string>,
    excerpt: Option<string>,
    author: Option<string>,
    tags: Js.TagsInput,
    status: Option<string>)

  /**
   * `blogData`: the body's fields, normalised tags, status "draft" unless a
   * non-empty one is given, and, with a file, the featured image fields.
   */
  function CreateDraft(body: CreateBody, file: Option<UploadMiddleware.MulterFile>): (d: BlogDraft)
    ensures d.title == body.title && d.content == body.content && d.excerpt == body.excerpt && d.author == body.author
    ensures d.tags == NormaliseTags(body.tags)
    ensures d.status == Some(if body.status.None? || body.status == Some("") then "draft" else body.status.value)
    ensures file.Some? ==>
              d.featuredImage == Some(Attachments.PublicUrl(UploadMiddleware.BlogsDir, file.value.filename))
              && d.originalFileName == Some(file.value.originalname) && d.imageType == Some("uploaded")
    ensures file.None? ==> d.featuredImage.None? && d.originalFileName.None? && d.imageType.None?
  {
    var status := if body.status.None? || body.status == Some("") then "draft" else body.status.value;
    var d := BlogDraft(body.title, body.content, body.excerpt, body.author, None, None, None,
                       NormaliseTags(body.tags), Some(status));
    match file
    case None => d
    case Some(f) =>
      d.(featuredImage := Some(Attachments.PublicUrl(UploadMiddleware.BlogsDir, f.filename)),
         originalFileName := Some(f.originalname), imageType := Some("uploaded"))
  }

  /**
   * `createBlog`: the post built from the body (and the file) is saved
   * under `newId` (201), or validation fails (500) and nothing is stored.
   * A new post has no views, its image type is "static" without a file, and
   * one created as published is dated now.
   */
  method CreateBlog(blogs: Store.Collection<Blog>, body: CreateBody, file: Option<UploadMiddleware.MulterFile>,
                    newId: Store.Id, now: nat)
    returns (reply: Http.Reply<Blog>)
    requires blogs.Valid() && newId !in blogs.docs
    modifies blogs
    ensures blogs.Valid()
    ensures var saved := Save(FromDraft(CreateDraft(body, file)), now);
            if saved.Ok? then
              reply == Http.Success(201, saved.value)
              && blogs.docs == old(blogs.docs)[newId := saved.value] && blogs.order == old(blogs.order) + [newId]
            else
              reply == Http.Failure(500) && blogs.docs == old(blogs.docs) && blogs.order == old(blogs.order)
    ensures reply.Success? ==>
              && reply.body.views == 0 && Valid(reply.body)
              && (file.None? ==> reply.body.imageType == "static")
              && (reply.body.status == "published" ==> reply.body.publishedAt == Some(now))
              && (reply.body.status != "published" ==> reply.body.publishedAt.None?)
  {
    var saved := Save(FromDraft(CreateDraft(body, file)), now);
    if saved.Err? {
      return Http.Failure(500);
    }
    blogs.Insert(newId, saved.value);
    reply := Http.Success(201, saved.value);
  }

  /** The post with the stored file as its featured image. */
  function WithImage(b: Blog, file: UploadMiddleware.MulterFile): (r: Blog)
    ensures r.featuredImage == Some(Attachments.PublicUrl(UploadMiddleware.BlogsDir, file.filename))
    ensures r.originalFileName == Some(file.originalname) && r.imageType == "uploaded"
    ensures r.(featuredImage := b.featuredImage, originalFileName := b.originalFileName, imageType := b.imageType) == b
  {
    b.(featuredImage := Some(Attachments.PublicUrl(UploadMiddleware.BlogsDir, file.filename)),
       originalFileName := Some(file.originalname), imageType := "uploaded")
  }

  /**
   * `uploadBlogImage`: 400 without a file and 404 for an unknown post, both
   * before anything changes; otherwise the post gets the image and is saved
   * (200), or fails validation (500) and stays as it was.
   */
  method UploadBlogImage(blogs: Store.Collection<Blog>, id: Store.Id, file: Option<UploadMiddleware.MulterFile>, now: nat)
    returns (reply: Http.Reply<Blog>)
    requires blogs.Valid()
    modifies blogs
    ensures blogs.Valid() && blogs.order == old(blogs.order)
    ensures file.None? ==> reply == Http.Failure(400) && blogs.docs == old(blogs.docs)
    ensures file.Some? && id !in old(blogs.docs) ==> reply == Http.Failure(404) && blogs.docs == old(blogs.docs)
    ensures file.Some? && id in old(blogs.docs) ==>
              var saved := Save(WithImage(old(blogs.docs[id]), file.value), now);
              if saved.Ok? then reply == Http.Success(200, saved.value) && blogs.docs == old(blogs.docs)[id := saved.value]
              else reply == Http.Failure(500) && blogs.docs == old(blogs.docs)
  {
    if file.None? {
      return Http.Failure(400);
    }
    if id !in blogs.docs {
      return Http.Failure(404);
    }
    var saved := Save(WithImage(blogs.docs[id], file.value), now);
    if saved.Err? {
      return Http.Failure(500);
    }
    blogs.Put(id, saved.value);
    reply := Http.Success(200, saved.value);
  }

  /** The sort key of `sort({publishedAt: -1})`: a missing date sorts below every date. */
  function PublishedKey(b: Blog): int {
    if b.publishedAt.Some? then b.publishedAt.value else -1
  }

  /** The published listing's filter: published, and carrying `tag` when one is given. */
  predicate Listed(tag: string, b: Blog) {
    b.status == "published" && (tag == "" || tag in b.tags)
  }

  /** The posts the published listing pages through: exactly the listed ones, latest publication first. */
  function PublishedSelection(blogs: Store.Collection<Blog>, tag: string): (r: seq<Blog>)
    reads blogs
    requires blogs.Valid()
    ensures Query.SortedDesc(r, PublishedKey)
    ensures multiset(r) == multiset(Query.Filter(blogs.Oldest(), b => Listed(tag, b)))
    ensures forall b :: b in r <==> b in blogs.Oldest() && Listed(tag, b)
  {
    var listed := Query.Filter(blogs.Oldest(), b => Listed(tag, b));
    var r := Query.SortDesc(listed, PublishedKey);
    assert forall b :: b in r <==> b in multiset(r);
    assert forall b :: b in listed <==> b in multiset(listed);
    r
  }

  /**
   * `getPublishedBlogs`: limit 10 and page 1 by default; a negative skip is
   * refused by the store (500); otherwise the page of the published
   * selection at that skip, with the total and the page count.
   */
  function ListPublished(blogs: Store.Collection<Blog>, tag: string, page: Option<int>, limit: Option<int>)
    : (r: Http.Reply<Query.Page<Blog>>)
    reads blogs
    requires blogs.Valid()
    ensures r.Failure? <==> (page.GetOr(1) - 1) * limit.GetOr(10) < 0
    ensures r.Failure? ==> r.status == 500
    ensures r.Success? ==>
              r.status == 200 && Query.IsPageOf(r.body, PublishedSelection(blogs, tag), page.GetOr(1), limit.GetOr(10))
    ensures r.Success? ==> forall b :: b in r.body.items ==> b.status == "published" && (tag == "" || tag in b.tags)
  {
    var p, l := page.GetOr(1), limit.GetOr(10);
    if (p - 1) * l < 0 then Http.Failure(500)
    else
      var selection := PublishedSelection(blogs, tag);
      var pg := Query.Paged(selection, p, l);
      assert forall b :: b in pg.items ==> b in selection;
      Http.Success(200, pg)
  }

  /** The administrative listing's filter: the given status, when one is given. */
  predicate HasStatus(status: string, b: Blog) {
    status == "" || b.status == status
  }

  function AllSelection(blogs: Store.Collection<Blog>, status: string): (r: seq<Blog>)
    reads blogs
    requires blogs.Valid()
    ensures forall b :: b in r <==> b in blogs.Newest() && HasStatus(status, b)
    ensures forall b :: multiset(r)[b] == if HasStatus(status, b) then multiset(blogs.Newest())[b] else 0
    ensures Query.IsSubsequence(r, blogs.Newest())
  {
    Query.Filter(blogs.Newest(), b => HasStatus(status, b))
  }

  /**
   * `getAllBlogs`: every post, or those of the given status, newest first,
   * paged like the published listing.
   */
  function ListAll(blogs: Store.Collection<Blog>, status: string, page: Option<int>, limit: Option<int>)
    : (r: Http.Reply<Query.Page<Blog>>)
    reads blogs
    requires blogs.Valid()
    ensures r.Failure? <==> (page.GetOr(1) - 1) * limit.GetOr(10) < 0
    ensures r.Failure? ==> r.status == 500
    ensures r.Success? ==>
              r.status == 200 && Query.IsPageOf(r.body, AllSelection(blogs, status), page.GetOr(1), limit.GetOr(10))
  {
    var p, l := page.GetOr(1), limit.GetOr(10);
    if (p - 1) * l < 0 then Http.Failure(500)
    else Http.Success(200, Query.Paged(AllSelection(blogs, status), p, l))
  }

  /**
   * `getBlogById`: 404 for an unknown post; a published post counts one
   * more view and is saved (which also runs the hooks), answering 500 and
   * staying unchanged when that save fails; any other post is returned
   * untouched.
   */
  method GetBlogById(blogs: Store.Collection<Blog>, id: Store.Id, now: nat) returns (reply: Http.Reply<Blog>)
    requires blogs.Valid()
    modifies blogs
    ensures blogs.Valid() && blogs.order == old(blogs.order)
    ensures id !in old(blogs.docs) ==> reply == Http.Failure(404) && blogs.docs == old(blogs.docs)
    ensures id in old(blogs.docs) && old(blogs.docs[id]).status != "published" ==>
              reply == Http.Success(200, old(blogs.docs[id])) && blogs.docs == old(blogs.docs)
    ensures id in old(blogs.docs) && old(blogs.docs[id]).status == "published" ==>
              var viewed := old(blogs.docs[id]).(views := old(blogs.docs[id]).views + 1);
              if Valid(viewed) then
                reply == Http.Success(200, PreSave(viewed, now)) && blogs.docs == old(blogs.docs)[id := PreSave(viewed, now)]
              else
                reply == Http.Failure(500) && blogs.docs == old(blogs.docs)
    ensures reply.Success? ==>
              reply.body.views == old(blogs.docs[id]).views + (if old(blogs.docs[id]).status == "published" then 1 else 0)
  {
    if id !in blogs.docs {
      return Http.Failure(404);
    }
    var blog := blogs.docs[id];
    if blog.status != "published" {
      return Http.Success(200, blog);
    }
    var saved := Save(blog.(views := blog.views + 1), now);
    if saved.Err? {
      return Http.Failure(500);
    }
    blogs.Put(id, saved.value);
    reply := Http.Success(200, saved.value);
  }

  /** The fields of an update request; `None` is a field the body does not hold. */
  datatype BlogPatch = BlogPatch(
    title: Option<string>,
    content: Option<string>,
    excerpt: Option<string>,
    author: Option<string>,
    featuredImage: Option<string>,
    originalFileName: Option<string>,
    imageType: Option<string>,
    tags: Js.TagsInput,
    status: Option<string>,
    publishedAt: Option<nat>,
    views: Option<nat>)

  /** The given value, if any, else the current one. */
  function Or<T>(given: Option<T>, current: T): T {
    if given.Some? then given.value else current
  }

  /**
   * `findByIdAndUpdate(id, body)`: every field the body holds replaces the
   * stored one and every other field stays; no validator and no hook runs.
   */
  function ApplyPatch(b: Blog, p: BlogPatch): (r: Blog)
    ensures r.title == Or(p.title, b.title) && r.content == Or(p.content, b.content)
    ensures r.author == Or(p.author, b.author) && r.imageType == Or(p.imageType, b.imageType)
    ensures r.status == Or(p.status, b.status) && r.views == Or(p.views, b.views)
    ensures r.excerpt == (if p.excerpt.Some? then p.excerpt else b.excerpt)
    ensures r.featuredImage == (if p.featuredImage.Some? then p.featuredImage else b.featuredImage)
    ensures r.originalFileName == (if p.originalFileName.Some? then p.originalFileName else b.originalFileName)
    ensures r.publishedAt == (if p.publishedAt.Some? then p.publishedAt else b.publishedAt)
    ensures r.tags == UpdateTags(p.tags).GetOr(b.tags)
  {
    Blog(Or(p.title, b.title), Or(p.content, b.content),
         if p.excerpt.Some? then p.excerpt else b.excerpt,
         Or(p.author, b.author),
         if p.featuredImage.Some? then p.featuredImage else b.featuredImage,
         if p.originalFileName.Some? then p.originalFileName else b.originalFileName,
         Or(p.imageType, b.imageType), UpdateTags(p.tags).GetOr(b.tags), Or(p.status, b.status),
         if p.publishedAt.Some? then p.publishedAt else b.publishedAt,
         Or(p.views, b.views))
  }

  /** An update with an empty body leaves the post as it was. */
  lemma EmptyPatchChangesNothing(b: Blog)
    ensures ApplyPatch(b, BlogPatch(None, None, None, None, None, None, None, Js.NoTags, None, None, None)) == b
  {
  }

  /**
   * Because the update skips the pre-save hook, a draft updated to
   * "published" is published without a publication date.
   */
  lemma PatchPublishesWithoutDate(b: Blog)
    requires b.status == "draft" && b.publishedAt.None?
    ensures var p := BlogPatch(None, None, None, None, None, None, None, Js.NoTags, Some("published"), None, None);
            ApplyPatch(b, p).status == "published" && ApplyPatch(b, p).publishedAt.None?
  {
  }

  /** The update as the hook's comment intends it: the patch, then the pre-save hook. */
  function ApplyPatchStamped(b: Blog, p: BlogPatch, now: nat): (r: Blog)
    ensures r.status == "published" ==> r.publishedAt.Some?
    ensures ApplyPatch(b, p).publishedAt.Some? ==> r == ApplyPatch(b, p)
    ensures r.status == ApplyPatch(b, p).status
  {
    PreSave(ApplyPatch(b, p), now)
  }

  /** A stamped update to "published" dates a post that had no date with the time of the update. */
  lemma StampedPatchDatesPublication(b: Blog, p: BlogPatch, now: nat)
    requires p.status == Some("published") && p.publishedAt.None? && b.publishedAt.None?
    ensures ApplyPatchStamped(b, p, now).publishedAt == Some(now)
  {
  }

  /** `updateBlog`: 404 for an unknown post; otherwise the patched post (200). */
  method UpdateBlog(blogs: Store.Collection<Blog>, id: Store.Id, patch: BlogPatch) returns (reply: Http.Reply<Blog>)
    requires blogs.Valid()
    modifies blogs
    ensures blogs.Valid() && blogs.order == old(blogs.order)
    ensures id !in old(blogs.docs) ==> reply == Http.Failure(404) && blogs.docs == old(blogs.docs)
    ensures id in old(blogs.docs) ==>
              var u := ApplyPatch(old(blogs.docs[id]), patch);
              reply == Http.Success(200, u) && blogs.docs == old(blogs.docs)[id := u]
  {
    if id !in blogs.docs {
      return Http.Failure(404);
    }
    var updated := ApplyPatch(blogs.docs[id], patch);
    blogs.Put(id, updated);
    reply := Http.Success(200, updated);
  }

  /** `deleteBlog`: 404 for an unknown post; otherwise the post is removed (200). */
  method DeleteBlog(blogs: Store.Collection<Blog>, id: Store.Id) returns (reply: Http.Reply<()>)
    requires blogs.Valid()
    modifies blogs
    ensures blogs.Valid()
    ensures id !in old(blogs.docs) ==>
              reply == Http.Failure(404) && blogs.docs == old(blogs.docs) && blogs.order == old(blogs.order)
    ensures id in old(blogs.docs) ==>
              reply == Http.Success(200, ()) && blogs.docs == old(blogs.docs) - {id}
              && blogs.order == Store.Without(old(blogs.order), id)
  {
    if id !in blogs.docs {
      return Http.Failure(404);
    }
    blogs.Remove(id);
    reply := Http.Success(200, ());
  }

  /**
   * `publishBlog`: 404 for an unknown post; otherwise the post becomes
   * published and dated now, replacing any earlier date (200).
   */
  method PublishBlog(blogs: Store.Collection<Blog>, id: Store.Id, now: nat) returns (reply: Http.Reply<Blog>)
    requires blogs.Valid()
    modifies blogs
    ensures blogs.Valid() && blogs.order == old(blogs.order)
    ensures id !in old(blogs.docs) ==> reply == Http.Failure(404) && blogs.docs == old(blogs.docs)
    ensures id in old(blogs.docs) ==>
              var u := old(blogs.docs[id]).(status := "published", publishedAt := Some(now));
              reply == Http.Success(200, u) && blogs.docs == old(blogs.docs)[id := u]
  {
    if id !in blogs.docs {
      return Http.Failure(404);
    }
    var published := blogs.docs[id].(status := "published", publishedAt := Some(now));
    blogs.Put(id, published);
    reply := Http.Success(200, published);
  }
}
