/**
 * The client's file service (frontend/src/services/fileService.js): the
 * multipart forms of the upload helpers, the endpoints of the listing and
 * deletion calls, the URL of an uploaded file, image-URL resolution, and
 * the type and size checks run before an upload.
 *
 * The HTTP calls themselves are not modelled: each helper is modelled by
 * the endpoint and form it hands to the API client.
 */
module ClientFileService {
  import opened Wrappers
  import opened Text
  import Js
  import ImageResolver

  /** A file picked in the browser: its name, MIME type and size in bytes. */
  datatype ClientFile = ClientFile(name: string, fileType: string, size: nat)

  /**
   * A multipart form: its file parts and its text parts, each in append
   * order. Every helper appends all of its files before any text part.
   */
  datatype Form = Form(files: seq<(string, ClientFile)>, fields: seq<(string, string)>)

  /**
   * The pairs a `forEach` over `entries` appends: each key whose value is
   * neither undefined nor null, with the value converted to a string, in
   * key order.
   */
  function DefinedPairs(entries: seq<(string, Js.Value)>): (r: seq<(string, string)>)
    ensures |r| <= |entries|
    ensures r == [] <==> forall i :: 0 <= i < |entries| ==> !Js.IsDefined(entries[i].1)
  {
    if entries == [] then []
    else
      var front := entries[..|entries| - 1];
      var last := entries[|entries| - 1];
      assert forall i :: 0 <= i < |front| ==> front[i] == entries[i];
      DefinedPairs(front) + (if Js.IsDefined(last.1) then [(last.0, Js.ToJsString(last.1))] else [])
  }

  /**
   * Exactly the defined entries are appended: each one, rendered as a
   * string, and nothing else.
   */
  lemma {:induction false} DefinedPairsExactly(entries: seq<(string, Js.Value)>)
    ensures forall i :: 0 <= i < |entries| && Js.IsDefined(entries[i].1) ==>
              (entries[i].0, Js.ToJsString(entries[i].1)) in DefinedPairs(entries)
    ensures forall p :: p in DefinedPairs(entries) ==>
              exists i :: 0 <= i < |entries| && Js.IsDefined(entries[i].1) && p == (entries[i].0, Js.ToJsString(entries[i].1))
  {
    if entries != [] {
      var front := entries[..|entries| - 1];
      assert forall i :: 0 <= i < |front| ==> front[i] == entries[i];
      DefinedPairsExactly(front);
    }
  }

  /** The `forEach` loop: appends the defined entries of `entries` to `pairs`. */
  method AppendDefined(pairs: seq<(string, string)>, entries: seq<(string, Js.Value)>)
    returns (r: seq<(string, string)>)
    ensures r == pairs + DefinedPairs(entries)
  {
    r := pairs;
    var i := 0;
    while i < |entries|
      invariant 0 <= i <= |entries|
      invariant r == pairs + DefinedPairs(entries[..i])
    {
      assert entries[..i + 1][..i] == entries[..i];
      if Js.IsDefined(entries[i].1) {
        r := r + [(entries[i].0, Js.ToJsString(entries[i].1))];
      }
      i := i + 1;
    }
    assert entries[..i] == entries;
  }

  /** The upload helpers and the part name each gives its file. */
  datatype UploadKind = Image | Pdf | ProjectImage

  function FieldName(kind: UploadKind): string {
    match kind
    case Image => "image"
    case Pdf => "pdf"
    case ProjectImage => "projectImage"
  }

  function UploadEndpoint(kind: UploadKind): string {
    match kind
    case Image => "api/files/single/image"
    case Pdf => "api/files/single/pdf"
    case ProjectImage => "api/files/project/image"
  }

  /**
   * `uploadImage`, `uploadPDF` and `uploadProjectImage`: the file under
   * the helper's part name, then every defined metadata entry as text.
   */
  method UploadSingle(kind: UploadKind, file: ClientFile, metadata: seq<(string, Js.Value)>)
    returns (endpoint: string, form: Form)
    ensures endpoint == UploadEndpoint(kind)
    ensures form.files == [(FieldName(kind), file)]
    ensures form.fields == DefinedPairs(metadata)
  {
    var fields := AppendDefined([], metadata);
    form := Form([(FieldName(kind), file)], fields);
    endpoint := UploadEndpoint(kind);
  }

  /** `uploadMultipleImages`: each file under "images", in order, then the defined metadata. */
  method UploadMultipleImages(files: seq<ClientFile>, metadata: seq<(string, Js.Value)>)
    returns (endpoint: string, form: Form)
    ensures endpoint == "api/files/multiple/images"
    ensures |form.files| == |files| && forall i :: 0 <= i < |files| ==> form.files[i] == ("images", files[i])
    ensures form.fields == DefinedPairs(metadata)
  {
    var parts: seq<(string, ClientFile)> := [];
    var i := 0;
    while i < |files|
      invariant 0 <= i <= |files|
      invariant |parts| == i && forall j :: 0 <= j < i ==> parts[j] == ("images", files[j])
    {
      parts := parts + [("images", files[i])];
      i := i + 1;
    }
    var fields := AppendDefined([], metadata);
    form := Form(parts, fields);
    endpoint := "api/files/multiple/images";
  }

  /** `key=value` */
  function PairText(p: (string, string)): (t: string)
    ensures t != "" && t == p.0 + "=" + p.1
  {
    p.0 + "=" + p.1
  }

  /**
   * `params.toString()`: the pairs as `key=value`, joined with `&`; empty
   * exactly when there are no pairs.
   */
  function Serialize(pairs: seq<(string, string)>): (q: string)
    ensures q == "" <==> pairs == []
    ensures pairs != [] ==> StartsWith(q, PairText(pairs[0]))
  {
    if pairs == [] then ""
    else if |pairs| == 1 then PairText(pairs[0])
    else PairText(pairs[0]) + "&" + Serialize(pairs[1..])
  }

  /** The `key=value` texts of the pairs, in order. */
  function PairTexts(pairs: seq<(string, string)>): (r: seq<string>)
    ensures |r| == |pairs| && forall i :: 0 <= i < |pairs| ==> r[i] == PairText(pairs[i])
  {
    seq(|pairs|, i requires 0 <= i < |pairs| => PairText(pairs[i]))
  }

  /** The query string is the pairs' texts joined with `&`. */
  lemma {:induction false} SerializeIsJoin(pairs: seq<(string, string)>)
    ensures Serialize(pairs) == Join(PairTexts(pairs), '&')
  {
    if |pairs| > 1 {
      SerializeIsJoin(pairs[1..]);
      assert PairTexts(pairs)[1..] == PairTexts(pairs[1..]);
    }
  }

  /**
   * When no key or value contains `&`, the query string splits on `&` back
   * into exactly the `key=value` texts, in order.
   */
  lemma SerializeSplits(pairs: seq<(string, string)>)
    requires pairs != []
    requires forall i :: 0 <= i < |pairs| ==> '&' !in pairs[i].0 && '&' !in pairs[i].1
    ensures Split(Serialize(pairs), '&') == PairTexts(pairs)
  {
    SerializeIsJoin(pairs);
    var texts := PairTexts(pairs);
    forall i | 0 <= i < |texts|
      ensures '&' !in texts[i]
    {
      assert texts[i] == pairs[i].0 + "=" + pairs[i].1;
    }
    SplitJoin(texts, '&');
  }

  /**
   * The listing's query carries every defined filter as `key=value` and
   * nothing else, when no key or defined value contains `&`.
   */
  lemma FilesQueryCarriesFilters(filters: seq<(string, Js.Value)>)
    requires exists i :: 0 <= i < |filters| && Js.IsDefined(filters[i].1)
    requires forall i :: 0 <= i < |filters| ==> '&' !in filters[i].0
    requires forall i :: 0 <= i < |filters| && Js.IsDefined(filters[i].1) ==> '&' !in Js.ToJsString(filters[i].1)
    ensures forall i :: 0 <= i < |filters| && Js.IsDefined(filters[i].1) ==>
              filters[i].0 + "=" + Js.ToJsString(filters[i].1) in Split(Serialize(DefinedPairs(filters)), '&')
    ensures forall t :: t in Split(Serialize(DefinedPairs(filters)), '&') ==>
              exists i :: 0 <= i < |filters| && Js.IsDefined(filters[i].1) && t == filters[i].0 + "=" + Js.ToJsString(filters[i].1)
  {
    var pairs := DefinedPairs(filters);
    DefinedPairsExactly(filters);
    assert pairs != [];
    forall i | 0 <= i < |pairs|
      ensures '&' !in pairs[i].0 && '&' !in pairs[i].1
    {
      assert pairs[i] in pairs;
    }
    SerializeSplits(pairs);
    var texts := PairTexts(pairs);
    forall i | 0 <= i < |filters| && Js.IsDefined(filters[i].1)
      ensures filters[i].0 + "=" + Js.ToJsString(filters[i].1) in texts
    {
      var p := (filters[i].0, Js.ToJsString(filters[i].1));
      var k :| 0 <= k < |pairs| && pairs[k] == p;
      assert texts[k] == PairText(p);
    }
    forall t | t in texts
      ensures exists i :: 0 <= i < |filters| && Js.IsDefined(filters[i].1) && t == filters[i].0 + "=" + Js.ToJsString(filters[i].1)
    {
      var k :| 0 <= k < |texts| && texts[k] == t;
      assert pairs[k] in pairs;
    }
  }

  /**
   * `getFiles`' endpoint: "api/files", followed by "?" and the query only
   * when at least one filter is defined.
   */
  method GetFilesEndpoint(filters: seq<(string, Js.Value)>) returns (endpoint: string)
    ensures endpoint == "api/files" <==> forall i :: 0 <= i < |filters| ==> !Js.IsDefined(filters[i].1)
    ensures endpoint != "api/files" ==> endpoint == "api/files?" + Serialize(DefinedPairs(filters))
  {
    var params := AppendDefined([], filters);
    assert params == DefinedPairs(filters);
    var query := Serialize(params);
    if query != "" {
      endpoint := "api/files?" + query;
      assert |endpoint| > |"api/files"|;
    } else {
      endpoint := "api/files";
    }
  }

  /** `deleteFile`'s endpoint: "?permanent=true" is appended exactly when `permanent` is truthy. */
  function DeleteEndpoint(fileId: string, permanent: Js.Value): (endpoint: string)
    ensures StartsWith(endpoint, "api/files/" + fileId)
    ensures endpoint[|"api/files/" + fileId|..] == if Js.Truthy(permanent) then "?permanent=true" else ""
  {
    ("api/files/" + fileId) + (if Js.Truthy(permanent) then "?permanent=true" else "")
  }

  /** `getFileUrl`: the server, "/uploads/" and the path, with no normalisation. */
  function GetFileUrl(server: string, relativePath: string): (url: string)
    ensures StartsWith(url, server + "/uploads/") && url[|server + "/uploads/"|..] == relativePath
  {
    (server + "/uploads/") + relativePath
  }

  /**
   * `resolveImageURL`: null for a falsy input, a full URL as is, an
   * "/uploads/" path prefixed with the server, a string with a slash or a
   * backslash as an uploaded file's URL, a preview object's `src`, and any
   * other input unchanged.
   */
  function ResolveImageUrl(server: string, img: Js.Value): (r: Js.Value)
    ensures !Js.Truthy(img) ==> r == Js.Null
    ensures img.Str? && ImageResolver.IsFullUrl(img.s) ==> r == img
    ensures img.Str? && !ImageResolver.IsFullUrl(img.s) && StartsWith(img.s, "/uploads/") ==>
              r == Js.Str(server + img.s)
    ensures (&& img.Str? && !ImageResolver.IsFullUrl(img.s) && !StartsWith(img.s, "/uploads/")
             && ('/' in img.s || '\\' in img.s)) ==> r == Js.Str(GetFileUrl(server, img.s))
    ensures img.Obj? && Js.Prop(img.props, "src") != "" ==> r == Js.Str(Js.Prop(img.props, "src"))
    ensures r.Str? && r != img ==> StartsWith(r.s, server) || (img.Obj? && r.s == Js.Prop(img.props, "src"))
  {
    if !Js.Truthy(img) then Js.Null
    else
      match img
      case Str(s) =>
        if ImageResolver.IsFullUrl(s) then img
        else if StartsWith(s, "/uploads/") then Js.Str(server + s)
        else if '/' in s || '\\' in s then Js.Str(GetFileUrl(server, s))
        else img
      case Obj(props) => if Js.Prop(props, "src") != "" then Js.Str(Js.Prop(props, "src")) else img
      case _ => img
  }

  /**
   * For the URL the server reports and for a relative path without
   * backslashes, the file service and the image resolver give the same
   * URL; a relative path with backslashes keeps them here but has them
   * turned into slashes by the image resolver.
   */
  lemma ResolversAgreeOnUploads(resolver: ImageResolver.Resolver, rel: string)
    requires resolver.Valid()
    requires rel != "" && '/' in rel && !StartsWith(rel, "/") && !ImageResolver.IsFullUrl(rel)
    ensures '\\' !in rel && !StartsWith(rel, "/uploads/") ==>
              ResolveImageUrl(resolver.server, Js.Str(rel)) == Js.Str(resolver.Resolve(Js.Str(rel), None).value)
    ensures ResolveImageUrl(resolver.server, Js.Str("/uploads/" + rel))
            == Js.Str(resolver.Resolve(Js.Str("/uploads/" + rel), None).value)
  {
    if '\\' !in rel && !StartsWith(rel, "/uploads/") {
      assert ImageResolver.CleanPath(rel) == rel;
    }
    var served := "/uploads/" + rel;
    assert served[0] == '/' && served[..7][0] == served[0] && served[..8][0] == served[0];
    assert !ImageResolver.IsFullUrl(served);
    assert StartsWith(served, "/uploads/");
  }

  /** Where the two resolvers part: a backslash path keeps its backslash here. */
  lemma BackslashKeptByFileService(server: string)
    ensures ResolveImageUrl(server, Js.Str("a\\b")) == Js.Str(server + "/uploads/a\\b")
  {
    assert "a\\b"[1] == '\\';
    assert !StartsWith("a\\b", "/uploads/") && !ImageResolver.IsFullUrl("a\\b");
  }

  /** The image types accepted when no list is given. */
  const DefaultImageTypes: seq<string> := ["image/jpeg", "image/png", "image/gif", "image/webp"]

  /** `validateFileType`: the file's type is one of the allowed types. */
  function ValidateFileType(file: ClientFile, allowedTypes: Option<seq<string>>): (ok: bool)
    ensures ok <==> file.fileType in allowedTypes.GetOr(DefaultImageTypes)
  {
    file.fileType in allowedTypes.GetOr(DefaultImageTypes)
  }

  const BytesPerMB: nat := 1024 * 1024

  /** `validateFileSize`: at most `maxSizeMB` megabytes (5 by default), the limit itself included. */
  function ValidateFileSize(file: ClientFile, maxSizeMB: Option<nat>): (ok: bool)
    ensures ok <==> file.size <= maxSizeMB.GetOr(5) * BytesPerMB
  {
    file.size <= maxSizeMB.GetOr(5) * BytesPerMB
  }

  /** The default bound is 5 MiB exactly: a file of that size passes, one byte more fails. */
  lemma DefaultSizeBoundInclusive(name: string, fileType: string)
    ensures ValidateFileSize(ClientFile(name, fileType, 5242880), None)
    ensures !ValidateFileSize(ClientFile(name, fileType, 5242881), None)
  {
  }
}
