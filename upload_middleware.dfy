/**
 * The upload middleware: where each feature's files are stored, how the
 * stored file name is built, which MIME types each feature admits, and the
 * per-file size and per-request count limits
 * (backend/apps/middlewares/fileUpload.js).
 *
 * Paths follow Node's POSIX `path` module: only '/' separates directories.
 */
module UploadMiddleware {
  import opened Wrappers
  import opened Text

  /** An incoming multipart file part, as the multipart parser sees it. */
  datatype Part = Part(fieldname: string, originalname: string, mimetype: string, size: nat)

  /** The file description multer hands to the controllers (`req.file`). */
  datatype MulterFile = MulterFile(
    fieldname: string,
    originalname: string,
    mimetype: string,
    size: nat,
    filename: string,
    path: string)

  /** The feature directories under the uploads root (`uploadDirs`). */
  datatype UploadDir = MeetingMinutesDir | GalleryDir | ProjectsDir | EventsDir | BlogsDir

  function DirName(d: UploadDir): (name: string)
    ensures name != "" && '/' !in name && '\\' !in name
  {
    match d
    case MeetingMinutesDir => "meeting-minutes"
    case GalleryDir => "gallery"
    case ProjectsDir => "projects"
    case EventsDir => "events"
    case BlogsDir => "blogs"
  }

  function StripTrailingSlashes(p: string): (r: string)
    ensures StartsWith(p, r)
    ensures |r| > 0 ==> r[|r| - 1] != '/'
  {
    if |p| > 0 && p[|p| - 1] == '/' then StripTrailingSlashes(p[..|p| - 1]) else p
  }

  /** `path.basename(p)`: the last path component, trailing slashes ignored. */
  function Basename(p: string): (r: string)
    ensures '/' !in r
  {
    AfterLast(StripTrailingSlashes(p), {'/'})
  }

  /**
   * The extension of one path component: from its last '.' to its end, or ""
   * when it has no '.', when its last '.' is its first character, or when it
   * is "..".
   */
  function ComponentExt(c: string): (ext: string)
    ensures EndsWith(c, ext)
    ensures ext == "" || (ext[0] == '.' && '.' !in ext[1..] && |ext| < |c|)
  {
    var tail := AfterLast(c, {'.'});
    if |tail| == |c| then ""
    else
      var dot := |c| - |tail| - 1;
      if dot == 0 || c == ".." then ""
      else
        assert c[dot..] == [c[dot]] + tail;
        c[dot..]
  }

  /** `path.extname(p)`: the extension of the last component. */
  function Extname(p: string): (ext: string)
    ensures EndsWith(Basename(p), ext)
    ensures ext == "" || (ext[0] == '.' && '.' !in ext[1..] && |ext| < |Basename(p)|)
    ensures '/' !in ext
  {
    var c := Basename(p);
    var ext := ComponentExt(c);
    assert forall i :: 0 <= i < |ext| ==> ext[i] == c[|c| - |ext| + i];
    ext
  }

  /** `path.basename(p, path.extname(p))`: the last component without its extension. */
  function Stem(p: string): (r: string)
    ensures Basename(p) == r + Extname(p)
    ensures '/' !in r
  {
    var c := Basename(p);
    var ext := Extname(p);
    SuffixSplit(c, ext);
    c[..|c| - |ext|]
  }

  /**
   * The stored file name `${name}-${Date.now()}-${Math.round(Math.random() * 1E9)}${ext}`;
   * the clock reading and the rounded random number are inputs.
   */
  function StoredName(originalname: string, timestamp: nat, random: nat): (name: string)
    ensures EndsWith(name, Extname(originalname))
    ensures '/' !in name
  {
    var stem, ext := Stem(originalname), Extname(originalname);
    var d1, d2 := NatToString(timestamp), NatToString(random);
    DigitsExclude(timestamp, '/');
    DigitsExclude(random, '/');
    var front := stem + "-" + (d1 + "-" + d2);
    assert '/' !in front;
    assert (front + ext)[|front|..] == ext;
    front + ext
  }

  /** The part before the first '-' is determined when neither candidate holds a '-'. */
  lemma SplitAtDash(x: string, y: string, x': string, y': string)
    requires '-' !in x && '-' !in x'
    requires x + "-" + y == x' + "-" + y'
    ensures x == x' && y == y'
  {
    var s := x + "-" + y;
    assert s[|x|] == '-' && s[|x'|] == '-';
    if |x| < |x'| {
      assert false;
    } else if |x'| < |x| {
      assert false;
    }
    assert x == s[..|x|] == x';
    assert y == s[|x| + 1..] == y';
  }

  lemma MiddleDetermined(b: string, m1: string, m2: string, e: string)
    requires b + m1 + e == b + m2 + e
    ensures m1 == m2
  {
    var s := b + m1 + e;
    assert |m1| == |m2|;
    assert m1 == s[|b|..|b| + |m1|];
  }

  /** A decimal rendering holds no character other than a digit. */
  lemma DigitsExclude(n: nat, ch: char)
    requires !IsDigit(ch)
    ensures ch !in NatToString(n)
  {
    var s := NatToString(n);
    assert forall i :: 0 <= i < |s| ==> IsDigit(s[i]);
  }

  /**
   * Two uploads of the same original name get different stored names
   * whenever their (timestamp, random) pairs differ.
   */
  lemma StoredNameInjective(originalname: string, t1: nat, r1: nat, t2: nat, r2: nat)
    requires StoredName(originalname, t1, r1) == StoredName(originalname, t2, r2)
    ensures t1 == t2 && r1 == r2
  {
    var b, e := Stem(originalname) + "-", Extname(originalname);
    var m1 := NatToString(t1) + "-" + NatToString(r1);
    var m2 := NatToString(t2) + "-" + NatToString(r2);
    assert StoredName(originalname, t1, r1) == b + m1 + e;
    assert StoredName(originalname, t2, r2) == b + m2 + e;
    MiddleDetermined(b, m1, m2, e);
    DigitsExclude(t1, '-');
    DigitsExclude(t2, '-');
    SplitAtDash(NatToString(t1), NatToString(r1), NatToString(t2), NatToString(r2));
    NatToStringInjective(t1, t2);
    NatToStringInjective(r1, r2);
  }

  /** A character that is neither in the original name, nor '-', nor a digit, is not in the stored name. */
  lemma StoredNameChars(originalname: string, timestamp: nat, random: nat, ch: char)
    requires ch !in originalname && ch != '-' && !IsDigit(ch)
    ensures ch !in StoredName(originalname, timestamp, random)
  {
    var q := StripTrailingSlashes(originalname);
    assert q == originalname[..|q|];
    var c := Basename(originalname);
    assert c == q[|q| - |c|..];
    var stem, ext := Stem(originalname), Extname(originalname);
    assert stem == c[..|stem|];
    assert ext == c[|stem|..];
    DigitsExclude(timestamp, ch);
    DigitsExclude(random, ch);
    var mid := NatToString(timestamp) + "-" + NatToString(random);
    assert ch !in mid;
    assert ch !in stem + "-";
    assert ch !in stem + "-" + mid + ext;
    assert StoredName(originalname, timestamp, random) == stem + "-" + mid + ext;
  }

  /** Directory components of the client's file name do not reach the stored name. */
  lemma StoredNameDropsDirectories(dir: string, file: string, timestamp: nat, random: nat)
    requires file != "" && '/' !in file
    ensures StoredName(dir + "/" + file, timestamp, random) == StoredName(file, timestamp, random)
  {
    var p := dir + "/" + file;
    assert StripTrailingSlashes(p) == p;
    assert StripTrailingSlashes(file) == file;
    AfterLastOfSuffix(dir + "/", file);
  }

  lemma AfterLastOfSuffix(prefix: string, file: string)
    requires '/' !in file && |prefix| > 0 && prefix[|prefix| - 1] == '/'
    ensures AfterLast(prefix + file, {'/'}) == AfterLast(file, {'/'}) == file
  {
    var s := prefix + file;
    assert s[|s| - |file|..] == file && s[|s| - |file| - 1] == '/';
    AfterLastUnique(s, {'/'}, file);
    AfterLastUnique(file, {'/'}, file);
  }

  /** The MIME types `imageFilter` admits. */
  const ImageTypes: seq<string> := ["image/jpeg", "image/jpg", "image/png", "image/gif", "image/webp"]

  /** The MIME types `documentFilter` admits. */
  const DocumentTypes: seq<string> := [
    "application/pdf",
    "application/msword",
    "application/vnd.openxmlformats-officedocument.wordprocessingml.document",
    "text/plain"
  ]

  /** The MIME types `mixedContentFilter` admits, as the source lists them. */
  const MixedTypes: seq<string> := [
    "image/jpeg", "image/jpg", "image/png", "image/gif", "image/webp",
    "application/pdf",
    "application/msword",
    "application/vnd.openxmlformats-officedocument.wordprocessingml.document",
    "text/plain"
  ]

  datatype FilterKind = ImageFilter | PdfFilter | DocumentFilter | MixedContentFilter

  datatype FilterOutcome = Accept | Reject(message: string)

  /** Runs one of the four file filters on a declared MIME type. */
  function RunFilter(kind: FilterKind, mimetype: string): (r: FilterOutcome)
    ensures r.Accept? <==> match kind
      case ImageFilter => mimetype in ImageTypes
      case PdfFilter => mimetype == "application/pdf"
      case DocumentFilter => mimetype in DocumentTypes
      case MixedContentFilter => mimetype in MixedTypes
  {
    match kind
    case ImageFilter =>
      if mimetype in ImageTypes then Accept
      else Reject("Only image files (JPEG, PNG, GIF, WebP) are allowed")
    case PdfFilter =>
      if mimetype == "application/pdf" then Accept
      else Reject("Only PDF files are allowed")
    case DocumentFilter =>
      if mimetype in DocumentTypes then Accept
      else Reject("Only document files (PDF, DOC, DOCX, TXT) are allowed")
    case MixedContentFilter =>
      if mimetype in MixedTypes then Accept
      else Reject("Only image and document files are allowed")
  }

  /** The mixed-content filter admits exactly what the image or the document filter admits. */
  lemma MixedIsImageOrDocument(mimetype: string)
    ensures RunFilter(MixedContentFilter, mimetype).Accept?
        <==> RunFilter(ImageFilter, mimetype).Accept? || RunFilter(DocumentFilter, mimetype).Accept?
  {
    assert MixedTypes == ImageTypes + DocumentTypes;
  }

  /** Whatever the PDF filter admits the document filter admits, and no image type is a document type. */
  lemma FilterInclusions(mimetype: string)
    ensures RunFilter(PdfFilter, mimetype).Accept? ==> RunFilter(DocumentFilter, mimetype).Accept?
    ensures !(RunFilter(ImageFilter, mimetype).Accept? && RunFilter(DocumentFilter, mimetype).Accept?)
  {
  }

  /** How many files a configuration takes from its field: `.single(field)` or `.array(field, max)`. */
  datatype Arity = Single | Array(maxCount: nat)

  datatype UploadConfig = UploadConfig(
    dir: UploadDir,
    maxFileSize: nat,
    filter: FilterKind,
    field: string,
    arity: Arity)

  const MB: nat := 1024 * 1024

  const ProjectImage := UploadConfig(ProjectsDir, 5 * MB, ImageFilter, "projectImage", Single)
  const GalleryImages := UploadConfig(GalleryDir, 5 * MB, ImageFilter, "galleryImages", Array(10))
  const GalleryImage := UploadConfig(GalleryDir, 5 * MB, ImageFilter, "galleryImage", Single)
  const MeetingMinuteFile := UploadConfig(MeetingMinutesDir, 15 * MB, PdfFilter, "file", Single)
  const EventFile := UploadConfig(EventsDir, 10 * MB, MixedContentFilter, "eventFile", Single)
  const BlogImage := UploadConfig(BlogsDir, 5 * MB, ImageFilter, "blogImage", Single)
  const BlogImages := UploadConfig(BlogsDir, 5 * MB, ImageFilter, "blogImages", Array(5))

  function MaxCount(a: Arity): nat {
    match a
    case Single => 1
    case Array(n) => n
  }

  /** The clock reading and the rounded random number drawn for one stored file. */
  datatype Stamp = Stamp(time: nat, random: nat)

  /** Why the middleware refuses a request. */
  datatype UploadError =
    | UnexpectedFile(field: string)   // multer's LIMIT_UNEXPECTED_FILE: wrong field or too many files
    | Filtered(message: string)       // the file filter's error
    | FileTooLarge                    // multer's LIMIT_FILE_SIZE

  /**
   * The verdict on one part whose field and position are acceptable: the
   * filter runs first, then the size limit.
   */
  function CheckPart(config: UploadConfig, part: Part): (r: Option<UploadError>)
    ensures r.None? <==> RunFilter(config.filter, part.mimetype).Accept? && part.size <= config.maxFileSize
    ensures RunFilter(config.filter, part.mimetype).Reject? ==> r == Some(Filtered(RunFilter(config.filter, part.mimetype).message))
    ensures RunFilter(config.filter, part.mimetype).Accept? && part.size > config.maxFileSize ==> r == Some(FileTooLarge)
  {
    match RunFilter(config.filter, part.mimetype)
    case Reject(message) => Some(Filtered(message))
    case Accept => if part.size > config.maxFileSize then Some(FileTooLarge) else None
  }

  /**
   * The verdict on the part that arrives at position `pos` of a request: a
   * part for another field, or one beyond the configured count, is
   * unexpected; any other part is checked by `CheckPart`.
   */
  function PartVerdict(config: UploadConfig, part: Part, pos: nat): Option<UploadError> {
    if part.fieldname != config.field || pos >= MaxCount(config.arity) then Some(UnexpectedFile(part.fieldname))
    else CheckPart(config, part)
  }

  /**
   * Runs the middleware over the parts of one request, in arrival order, with
   * `seen` files already taken: the first refused part fails the whole
   * request with its error, and `None` means every part was admitted.
   */
  function Admit(config: UploadConfig, parts: seq<Part>, seen: nat): (r: Option<UploadError>)
    ensures r.None? <==> forall i :: 0 <= i < |parts| ==> PartVerdict(config, parts[i], seen + i).None?
    ensures r.Some? ==> exists k :: 0 <= k < |parts| && r == PartVerdict(config, parts[k], seen + k)
                          && forall i :: 0 <= i < k ==> PartVerdict(config, parts[i], seen + i).None?
  {
    if |parts| == 0 then None
    else
      var v := PartVerdict(config, parts[0], seen);
      if v.Some? then
        assert v == PartVerdict(config, parts[0], seen + 0);
        v
      else
        var r := Admit(config, parts[1..], seen + 1);
        assert forall i :: 1 <= i < |parts| ==> parts[i] == parts[1..][i - 1];
        if r.Some? then
          var k :| 0 <= k < |parts| - 1 && r == PartVerdict(config, parts[1..][k], seen + 1 + k)
                   && forall i :: 0 <= i < k ==> PartVerdict(config, parts[1..][i], seen + 1 + i).None?;
          assert r == PartVerdict(config, parts[k + 1], seen + (k + 1));
          r
        else
          r
  }

  /**
   * An admitted request stays within the configured count, and each of its
   * files was sent under the configured field, passed the filter and is
   * within the size limit.
   */
  lemma AdmittedWithinLimits(config: UploadConfig, parts: seq<Part>)
    requires Admit(config, parts, 0).None?
    ensures |parts| <= MaxCount(config.arity)
    ensures forall i :: 0 <= i < |parts| ==>
              parts[i].fieldname == config.field && RunFilter(config.filter, parts[i].mimetype).Accept?
              && parts[i].size <= config.maxFileSize
  {
    if |parts| > 0 {
      assert PartVerdict(config, parts[|parts| - 1], |parts| - 1).None?;
    }
  }

  /** The description of an admitted part, stored as `<uploadsRoot>/<dir>/<stored name>`. */
  function Store(config: UploadConfig, uploadsRoot: string, part: Part, stamp: Stamp): (file: MulterFile)
    ensures file.filename == StoredName(part.originalname, stamp.time, stamp.random)
    ensures file.path == uploadsRoot + "/" + (DirName(config.dir) + "/" + file.filename)
    ensures file.fieldname == part.fieldname && file.originalname == part.originalname
            && file.mimetype == part.mimetype && file.size == part.size
  {
    var name := StoredName(part.originalname, stamp.time, stamp.random);
    MulterFile(part.fieldname, part.originalname, part.mimetype, part.size, name,
               uploadsRoot + "/" + (DirName(config.dir) + "/" + name))
  }

  /** Two files stored from one original name with different stamps never share a path. */
  lemma StoredPathsDistinct(config: UploadConfig, uploadsRoot: string, part: Part, s1: Stamp, s2: Stamp)
    requires s1 != s2
    ensures Store(config, uploadsRoot, part, s1).path != Store(config, uploadsRoot, part, s2).path
  {
    var f1, f2 := Store(config, uploadsRoot, part, s1), Store(config, uploadsRoot, part, s2);
    var root, dir := uploadsRoot + "/", DirName(config.dir) + "/";
    if f1.path == f2.path {
      assert f1.filename == f1.path[|root|..][|dir|..];
      assert f2.filename == f2.path[|root|..][|dir|..];
      StoredNameInjective(part.originalname, s1.time, s1.random, s2.time, s2.random);
    }
  }

  /** The files multer hands over for a request it admitted. */
  function StoreAll(config: UploadConfig, uploadsRoot: string, parts: seq<Part>, stamps: seq<Stamp>): (files: seq<MulterFile>)
    requires |stamps| == |parts|
    ensures |files| == |parts| && forall i :: 0 <= i < |parts| ==> files[i] == Store(config, uploadsRoot, parts[i], stamps[i])
  {
    seq(|parts|, i requires 0 <= i < |parts| => Store(config, uploadsRoot, parts[i], stamps[i]))
  }
}
