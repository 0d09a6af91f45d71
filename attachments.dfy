/**
 * The public URL the entity controllers (blogs, meeting minutes, projects,
 * events) record for a file the upload middleware stored in their
 * directory: `/uploads/<directory>/<stored name>`.
 */
module Attachments {
  import opened Text
  import UploadMiddleware
  import Services

  /** The URL recorded for the stored file `filename` of directory `dir`. */
  function PublicUrl(dir: UploadMiddleware.UploadDir, filename: string): (url: string)
    ensures StartsWith(url, "/uploads/")
    ensures url == Services.GetFileURL(UploadMiddleware.DirName(dir) + "/" + filename)
  {
    "/uploads/" + (UploadMiddleware.DirName(dir) + "/" + filename)
  }

  /**
   * The recorded URL of a file the middleware stored is the URL under which
   * the file service publishes that file (its relative path under
   * `/uploads/`), when the original name holds no backslash.
   */
  lemma PublicUrlIsServed(service: Services.FileService, config: UploadMiddleware.UploadConfig,
                          part: UploadMiddleware.Part, stamp: UploadMiddleware.Stamp)
    requires '\\' !in part.originalname
    ensures var file := UploadMiddleware.Store(config, service.uploadsDir, part, stamp);
            PublicUrl(config.dir, file.filename) == Services.GetFileURL(service.GetRelativePath(file.path))
  {
    service.StoredFileRelativePath(config, part, stamp);
  }
}
