/**
 * The backend file service (backend/apps/services/fileService.js): path
 * bookkeeping between multer's absolute paths, the paths stored relative to
 * the uploads root, and the public `/uploads/...` URLs; deleting and probing
 * files on disk; and the standard description of an uploaded file.
 *
 * Paths are POSIX paths. `path.join(root, rel)` is modelled as
 * `root + "/" + rel` and `path.relative(root, p)` as the suffix of `p` after
 * `root + "/"`, which is what Node computes for already-normalised paths.
 */
module Services {
  import opened Wrappers
  import opened Text
  import UploadMiddleware

  /** The disk: the set of absolute paths of existing files. */
  class FileSystem {
    var files: set<string>

    constructor (files0: set<string>)
      ensures files == files0
    {
      files := files0;
    }
  }

  /** `processUploadedFile`'s result; `uploadedAt` is the clock reading passed in. */
  datatype ProcessedFile = ProcessedFile(
    filename: string,
    originalName: string,
    relativePath: string,
    url: string,
    size: nat,
    mimetype: string,
    category: string,
    uploadedAt: nat)

  /** The URL path under which the server publishes a stored file. */
  function GetFileURL(relativePath: string): (url: string)
    ensures StartsWith(url, "/uploads/") && url[|"/uploads/"|..] == relativePath
  {
    "/uploads/" + relativePath
  }

  class FileService {
    /** The uploads root (`path.join(__dirname, '../uploads')`). */
    const uploadsDir: string
    /** The disk the service works on. */
    const fs: FileSystem

    constructor (uploadsDir: string, fs: FileSystem)
      ensures this.uploadsDir == uploadsDir && this.fs == fs
    {
      this.uploadsDir := uploadsDir;
      this.fs := fs;
    }

    /** `filePath` lies under the uploads root. */
    predicate Inside(filePath: string) {
      StartsWith(filePath, uploadsDir + "/")
    }

    /** `path.join(uploadsDir, relativePath)` */
    function FullPath(relativePath: string): (p: string)
      ensures Inside(p)
    {
      var p := uploadsDir + "/" + relativePath;
      assert p[..|uploadsDir + "/"|] == uploadsDir + "/";
      p
    }

    /**
     * `path.relative(uploadsDir, filePath)` with every backslash turned into
     * '/': the part of `filePath` after the root, in forward-slash form.
     */
    function GetRelativePath(filePath: string): (rel: string)
      requires Inside(filePath)
      ensures '\\' !in rel
      ensures |rel| == |filePath| - |uploadsDir| - 1
      ensures forall i :: 0 <= i < |rel| ==>
                rel[i] == if filePath[|uploadsDir| + 1 + i] == '\\' then '/' else filePath[|uploadsDir| + 1 + i]
    {
      ReplaceChar(filePath[|uploadsDir| + 1..], '\\', '/')
    }

    /** Joining the root back onto a relative path gives the original path when no backslash follows the root. */
    lemma FullPathOfRelative(filePath: string)
      requires Inside(filePath) && '\\' !in filePath[|uploadsDir| + 1..]
      ensures FullPath(GetRelativePath(filePath)) == filePath
    {
      var rel := GetRelativePath(filePath);
      assert rel == filePath[|uploadsDir| + 1..];
      assert filePath == filePath[..|uploadsDir| + 1] + filePath[|uploadsDir| + 1..];
    }

    /** The relative path of a joined path is the joined relative path, when it holds no backslash. */
    lemma RelativeOfFullPath(relativePath: string)
      requires '\\' !in relativePath
      ensures GetRelativePath(FullPath(relativePath)) == relativePath
    {
      assert FullPath(relativePath)[|uploadsDir| + 1..] == relativePath;
    }

    /**
     * A backslash after the root, an ordinary character of a POSIX file
     * name, becomes a directory separator: the relative path then names a
     * different file.
     */
    lemma BackslashRelocates(filePath: string)
      requires Inside(filePath) && '\\' in filePath[|uploadsDir| + 1..]
      ensures FullPath(GetRelativePath(filePath)) != filePath
    {
      var rest := filePath[|uploadsDir| + 1..];
      var i :| 0 <= i < |rest| && rest[i] == '\\';
      var p := FullPath(GetRelativePath(filePath));
      assert p[|uploadsDir| + 1 + i] == '/';
      assert filePath[|uploadsDir| + 1 + i] == '\\';
    }

    /** `fs.existsSync(path.join(uploadsDir, relativePath))` */
    function FileExists(relativePath: string): (exists_: bool)
      reads fs
      ensures exists_ <==> FullPath(relativePath) in fs.files
    {
      uploadsDir + "/" + relativePath in fs.files
    }

    /**
     * Removes the file at `relativePath` when it exists; `unlinkFails` is the
     * environment's answer to `unlinkSync` (a permission error, say), which
     * the service reports as `false`.
     */
    method DeleteFile(relativePath: string, unlinkFails: bool) returns (deleted: bool)
      modifies fs
      ensures deleted <==> old(FileExists(relativePath)) && !unlinkFails
      ensures fs.files == if deleted then old(fs.files) - {FullPath(relativePath)} else old(fs.files)
    {
      var fullPath := FullPath(relativePath);
      if fullPath in fs.files {
        if unlinkFails {
          deleted := false;
        } else {
          fs.files := fs.files - {fullPath};
          deleted := true;
        }
      } else {
        deleted := false;
      }
    }

    /**
     * The service's description of a multer file: `None` for no file, and
     * otherwise the multer fields plus the relative path, its URL and the
     * category (`"general"` when none is given).
     */
    function ProcessUploadedFile(file: Option<UploadMiddleware.MulterFile>, category: Option<string>, now: nat): (r: Option<ProcessedFile>)
      requires file.Some? ==> Inside(file.value.path)
      ensures r.None? <==> file.None?
      ensures r.Some? ==>
        && r.value.relativePath == GetRelativePath(file.value.path)
        && r.value.url == GetFileURL(r.value.relativePath)
        && r.value.category == category.GetOr("general")
        && r.value.filename == file.value.filename && r.value.originalName == file.value.originalname
        && r.value.size == file.value.size && r.value.mimetype == file.value.mimetype
        && r.value.uploadedAt == now
    {
      match file
      case None => None
      case Some(f) =>
        var relativePath := GetRelativePath(f.path);
        Some(ProcessedFile(f.filename, f.originalname, relativePath, GetFileURL(relativePath),
                           f.size, f.mimetype, category.GetOr("general"), now))
    }

    /**
     * `processUploadedFiles`: `[]` when `files` is not an array, and otherwise
     * one description per file, in order.
     */
    function ProcessUploadedFiles(files: Option<seq<UploadMiddleware.MulterFile>>, category: Option<string>, now: nat): (r: seq<ProcessedFile>)
      requires files.Some? ==> forall i :: 0 <= i < |files.value| ==> Inside(files.value[i].path)
      ensures files.None? ==> r == []
      ensures files.Some? ==> |r| == |files.value| && forall i :: 0 <= i < |r| ==>
                Some(r[i]) == ProcessUploadedFile(Some(files.value[i]), category, now)
    {
      match files
      case None => []
      case Some(fs) =>
        seq(|fs|, i requires 0 <= i < |fs| => ProcessUploadedFile(Some(fs[i]), category, now).value)
    }

    /**
     * A file the middleware stored under this root gets the relative path
     * `<dir>/<stored name>`, and, when its original name holds no backslash,
     * that path joins back to the file on disk.
     */
    lemma StoredFileRelativePath(config: UploadMiddleware.UploadConfig, part: UploadMiddleware.Part, stamp: UploadMiddleware.Stamp)
      requires '\\' !in part.originalname
      ensures var file := UploadMiddleware.Store(config, uploadsDir, part, stamp);
              Inside(file.path)
              && GetRelativePath(file.path) == UploadMiddleware.DirName(config.dir) + "/" + file.filename
              && FullPath(GetRelativePath(file.path)) == file.path
    {
      var file := UploadMiddleware.Store(config, uploadsDir, part, stamp);
      UploadMiddleware.StoredNameChars(part.originalname, stamp.time, stamp.random, '\\');
      RelativeOfFullPath(UploadMiddleware.DirName(config.dir) + "/" + file.filename);
    }
  }
}
