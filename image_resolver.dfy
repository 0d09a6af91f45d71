/**
 * The client's image resolver (frontend/src/services/imageResolver.js):
 * the table of bundled static assets, keyed by file name, and the mapping
 * from an image reference (a URL, an upload path, a file name, or an
 * object carrying one) to the URL the page displays.
 *
 * The bundler's module listings are parameters: each is the sequence of
 * (path, URL) pairs the glob import yields.
 */
module ImageResolver {
  import opened Wrappers
  import opened Text
  import Js
  import UploadMiddleware
  import Services

  /** The server used when no API URL is configured. */
  const DefaultServer: string := "http://localhost:5000"

  /** The server that uploads are fetched from: the configured API URL unless it is empty. */
  function ServerOf(apiUrl: Option<string>): (server: string)
    ensures apiUrl.Some? && apiUrl.value != "" ==> server == apiUrl.value
    ensures apiUrl.None? || apiUrl == Some("") ==> server == DefaultServer
  {
    if apiUrl.Some? && apiUrl.value != "" then apiUrl.value else DefaultServer
  }

  datatype Asset = Asset(url: string, category: string, assetType: string)

  /** One entry of a glob import: the asset's source path and its bundled URL. */
  datatype ModuleEntry = ModuleEntry(path: string, url: string)

  /** The separators of an asset's source path. */
  const PathSeps: set<char> := {'/', '\\'}

  /**
   * The asset key of a path: its last non-empty run of characters other
   * than `/` and `\`; `None` when the path is empty or ends with a
   * separator (the match fails and reading it throws).
   */
  function AssetKey(path: string): Option<string> {
    var last := AfterLast(path, PathSeps);
    if last == "" then None else Some(last)
  }

  /**
   * A path has a key exactly when it does not end with a separator, and
   * the key is its final segment: a non-empty suffix without separators,
   * preceded by one unless it is the whole path.
   */
  lemma AssetKeyIsLastSegment(path: string)
    ensures AssetKey(path).None? <==> |path| == 0 || path[|path| - 1] in PathSeps
    ensures AssetKey(path).Some? ==>
            var k := AssetKey(path).value;
            && k != "" && EndsWith(path, k)
            && (forall i :: 0 <= i < |k| ==> k[i] !in PathSeps)
            && (|k| < |path| ==> path[|path| - |k| - 1] in PathSeps)
  {
  }

  /**
   * The table `processAssetModules` builds from `modules`, entry by entry;
   * `None` when some path has no key.
   */
  function AssetsOf(modules: seq<ModuleEntry>, category: string): (r: Option<Js.Dict<Asset>>)
    ensures r.Some? ==> Js.WellFormed(r.value)
  {
    if modules == [] then Some(Js.EmptyDict())
    else
      var last := modules[|modules| - 1];
      match AssetsOf(modules[..|modules| - 1], category)
      case None => None
      case Some(d) =>
        var key := AssetKey(last.path);
        if key.None? then None else Some(Js.Assign(d, key.value, Asset(last.url, category, "static")))
  }

  /** Every path of the listing has a key. */
  ghost predicate AllKeyed(modules: seq<ModuleEntry>) {
    forall i :: 0 <= i < |modules| ==> AssetKey(modules[i].path).Some?
  }

  /** The table is built exactly when every path has a key. */
  lemma {:induction false} AssetsOfDefined(modules: seq<ModuleEntry>, category: string)
    ensures AssetsOf(modules, category).Some? <==> AllKeyed(modules)
    decreases |modules|
  {
    if modules != [] {
      var n := |modules|;
      var front, last := modules[..n - 1], modules[n - 1];
      AssetsOfDefined(front, category);
      if AssetsOf(front, category).None? {
        var j :| 0 <= j < |front| && AssetKey(front[j].path).None?;
        assert modules[j] == front[j];
        assert !AllKeyed(modules);
      } else if AssetKey(last.path).None? {
        assert !AllKeyed(modules);
      } else {
        forall i | 0 <= i < n
          ensures AssetKey(modules[i].path).Some?
        {
          if i < n - 1 {
            assert modules[i] == front[i];
          }
        }
      }
    }
  }

  /** Every asset of the table is a static asset of the listing's category. */
  lemma {:induction false} AssetsOfStatic(modules: seq<ModuleEntry>, category: string)
    requires AssetsOf(modules, category).Some?
    ensures forall k :: k in AssetsOf(modules, category).value.entries ==>
              AssetsOf(modules, category).value.entries[k].category == category
              && AssetsOf(modules, category).value.entries[k].assetType == "static"
    decreases |modules|
  {
    if modules != [] {
      AssetsOfStatic(modules[..|modules| - 1], category);
    }
  }

  /**
   * Later entries overwrite earlier ones: a key holds the URL of the last
   * entry whose path has that key, and every key comes from some entry.
   */
  lemma {:induction false} AssetsOfLastWins(modules: seq<ModuleEntry>, category: string, i: nat)
    requires AssetsOf(modules, category).Some? && i < |modules|
    requires forall j :: i < j < |modules| ==> AssetKey(modules[j].path) != AssetKey(modules[i].path)
    ensures AssetKey(modules[i].path).Some?
    ensures AssetKey(modules[i].path).value in AssetsOf(modules, category).value.entries
    ensures AssetsOf(modules, category).value.entries[AssetKey(modules[i].path).value].url == modules[i].url
    decreases |modules|
  {
    var n := |modules|;
    var front, last := modules[..n - 1], modules[n - 1];
    AssetsOfDefined(modules, category);
    assert AssetKey(modules[i].path).Some? && AssetKey(last.path).Some?;
    var rest := AssetsOf(front, category);
    assert rest.Some?;
    var key := AssetKey(last.path).value;
    var table := Js.Assign(rest.value, key, Asset(last.url, category, "static"));
    assert AssetsOf(modules, category) == Some(table);
    if i < n - 1 {
      assert front[i] == modules[i];
      assert forall j :: i < j < |front| ==> front[j] == modules[j];
      AssetsOfLastWins(front, category, i);
      assert AssetKey(modules[i].path) != AssetKey(last.path);
    }
  }

  /**
   * `processAssetModules`: fills a fresh table entry by entry, each asset
   * typed "static" under `category`; stops with `None` at a path without
   * a key.
   */
  method ProcessAssetModules(modules: seq<ModuleEntry>, category: string) returns (r: Option<Js.Dict<Asset>>)
    ensures r == AssetsOf(modules, category)
  {
    var assets := Js.EmptyDict();
    var i := 0;
    while i < |modules|
      invariant 0 <= i <= |modules|
      invariant AssetsOf(modules[..i], category) == Some(assets)
    {
      var key := AssetKey(modules[i].path);
      assert modules[..i + 1][..i] == modules[..i];
      if key.None? {
        AssetsOfDefined(modules, category);
        return None;
      }
      assets := Js.Assign(assets, key.value, Asset(modules[i].url, category, "static"));
      i := i + 1;
    }
    assert modules[..i] == modules;
    r := Some(assets);
  }

  /** An absolute http or https URL (`/^https?:\/\//`). */
  predicate IsFullUrl(s: string) {
    StartsWith(s, "http://") || StartsWith(s, "https://")
  }

  /** `a || b` on strings. */
  function OrElse(a: string, b: string): (r: string)
    ensures r == (if a != "" then a else b)
    ensures r == "" <==> a == "" && b == ""
  {
    if a != "" then a else b
  }

  /** A key and a requested name match partially when either, lower-cased, contains the other. */
  predicate PartialMatch(key: string, name: string) {
    Contains(Lower(key), Lower(name)) || Contains(Lower(name), Lower(key))
  }

  /** The index of the first key that matches `name` partially (`keys.find(...)`). */
  function FirstPartialMatch(keys: seq<string>, name: string): (r: Option<nat>)
    ensures r.Some? ==> r.value < |keys| && PartialMatch(keys[r.value], name)
    ensures r.Some? ==> forall j :: 0 <= j < r.value ==> !PartialMatch(keys[j], name)
    ensures r.None? <==> forall j :: 0 <= j < |keys| ==> !PartialMatch(keys[j], name)
  {
    if keys == [] then None
    else if PartialMatch(keys[0], name) then Some(0)
    else
      match FirstPartialMatch(keys[1..], name)
      case None => None
      case Some(i) => Some(i + 1)
  }

  /** The path part of an uploaded file's URL: one leading "/uploads/" dropped, backslashes made slashes. */
  function CleanPath(relativePath: string): (clean: string)
    ensures '\\' !in clean
    ensures !StartsWith(relativePath, "/uploads/") && '\\' !in relativePath ==> clean == relativePath
  {
    var rest := if StartsWith(relativePath, "/uploads/") then relativePath[|"/uploads/"|..] else relativePath;
    ReplaceChar(rest, '\\', '/')
  }

  lemma ReplaceAbsentChar(s: string, from: char, to: char)
    requires from !in s
    ensures ReplaceChar(s, from, to) == s
  {
  }

  /** The style `getImageStyle` returns; `backgroundImage` is absent when nothing resolved. */
  datatype Style = Style(
    width: string,
    height: string,
    borderRadius: string,
    border: string,
    overflow: string,
    backgroundSize: string,
    backgroundPosition: string,
    backgroundColor: string,
    backgroundImage: Option<string>)

  /** The options of `getImageStyle`; `None` takes the default. */
  datatype StyleOptions = StyleOptions(
    width: Option<int>,
    height: Option<int>,
    borderRadius: Option<string>,
    border: Option<string>,
    backgroundSize: Option<string>,
    backgroundPosition: Option<string>,
    backgroundColor: Option<string>,
    fallback: Option<string>)

  /** A CSS pixel length, `${n}px`. */
  function Px(n: int): (s: string)
    ensures EndsWith(s, "px") && s[..|s| - 2] == IntToString(n)
  {
    IntToString(n) + "px"
  }

  class Resolver {
    /** The server uploads are fetched from. */
    const server: string
    /** The bundled static assets by file name, in insertion order. */
    var staticAssets: Js.Dict<Asset>

    ghost predicate Valid()
      reads this
    {
      Js.WellFormed(staticAssets)
    }

    /**
     * `new ImageResolver()`: the server from the configured API URL, then
     * the gallery and project assets loaded into an empty table.
     */
    constructor (apiUrl: Option<string>, gallery: seq<ModuleEntry>, projects: seq<ModuleEntry>)
      ensures Valid() && server == ServerOf(apiUrl)
      ensures var g, p := AssetsOf(gallery, "gallery"), AssetsOf(projects, "projects");
              staticAssets == if g.Some? && p.Some? then Js.Spread(g.value, p.value) else Js.EmptyDict()
    {
      server := ServerOf(apiUrl);
      staticAssets := Js.EmptyDict();
      new;
      LoadStaticAssets(gallery, projects);
    }

    /**
     * `loadStaticAssets`: the gallery table spread with the projects table,
     * so a project asset replaces a gallery asset of the same name; when a
     * listing has a path without a key the error is caught and the table is
     * left as it was.
     */
    method LoadStaticAssets(gallery: seq<ModuleEntry>, projects: seq<ModuleEntry>)
      requires Valid()
      modifies this
      ensures Valid()
      ensures var g, p := AssetsOf(gallery, "gallery"), AssetsOf(projects, "projects");
              staticAssets == if g.Some? && p.Some? then Js.Spread(g.value, p.value) else old(staticAssets)
    {
      var g := ProcessAssetModules(gallery, "gallery");
      if g.None? {
        return;
      }
      var p := ProcessAssetModules(projects, "projects");
      if p.None? {
        return;
      }
      staticAssets := Js.Spread(g.value, p.value);
    }

    /** `getUploadedFileUrl`: the server, "/uploads/", then the cleaned path. */
    function GetUploadedFileUrl(relativePath: string): (url: string)
      ensures StartsWith(url, server + "/uploads/")
      ensures url[|server + "/uploads/"|..] == CleanPath(relativePath)
      ensures '\\' !in url[|server + "/uploads/"|..]
    {
      (server + "/uploads/") + CleanPath(relativePath)
    }

    /** A single leading "/uploads/" makes no difference. */
    lemma UploadedPrefixDropped(relativePath: string)
      requires !StartsWith(relativePath, "/uploads/")
      ensures GetUploadedFileUrl("/uploads/" + relativePath) == GetUploadedFileUrl(relativePath)
    {
      assert ("/uploads/" + relativePath)[|"/uploads/"|..] == relativePath;
    }

    /**
     * `getStaticAssetUrl`: the asset stored under exactly `filename`, else
     * the first asset, in insertion order, whose key matches partially,
     * else the fallback.
     */
    function GetStaticAssetUrl(filename: string, fallback: Option<string>): (r: Option<string>)
      reads this
      requires Valid()
      ensures filename in staticAssets.entries ==> r == Some(staticAssets.entries[filename].url)
      ensures filename !in staticAssets.entries ==>
                match FirstPartialMatch(staticAssets.keys, filename)
                case Some(i) => r == Some(staticAssets.entries[staticAssets.keys[i]].url)
                case None => r == fallback
      ensures r != fallback ==> exists k :: k in staticAssets.entries && r == Some(staticAssets.entries[k].url)
    {
      if filename in staticAssets.entries then Some(staticAssets.entries[filename].url)
      else
        match FirstPartialMatch(staticAssets.keys, filename)
        case Some(i) => Some(staticAssets.entries[staticAssets.keys[i]].url)
        case None => fallback
    }

    /**
     * `resolveFromString`: a full URL is kept, an "/uploads/" path is
     * prefixed with the server, a relative path with a slash becomes an
     * uploaded file's URL, and anything else is looked up as a static asset.
     */
    function ResolveFromString(s: string, fallback: Option<string>): (r: Option<string>)
      reads this
      requires Valid()
      ensures IsFullUrl(s) ==> r == Some(s)
      ensures !IsFullUrl(s) && StartsWith(s, "/uploads/") ==> r == Some(server + s)
      ensures !IsFullUrl(s) && !StartsWith(s, "/uploads/") && '/' in s && !StartsWith(s, "/") ==>
                r == Some(GetUploadedFileUrl(s))
      ensures !IsFullUrl(s) && !StartsWith(s, "/uploads/") && ('/' !in s || StartsWith(s, "/")) ==>
                r == GetStaticAssetUrl(s, fallback)
    {
      if IsFullUrl(s) then Some(s)
      else if StartsWith(s, "/uploads/") then Some(server + s)
      else if '/' in s && !StartsWith(s, "/") then Some(GetUploadedFileUrl(s))
      else GetStaticAssetUrl(s, fallback)
    }

    /**
     * `resolveFromObject`: a preview's `src`; else an uploaded file's `url`
     * or `relativePath`; else a record's image name, as an upload when it is
     * typed "uploaded" and carries an uploaded file id and as a static asset
     * otherwise; else the fallback. A missing property reads as "".
     */
    function ResolveFromObject(props: map<string, string>, fallback: Option<string>): (r: Option<string>)
      reads this
      requires Valid()
      ensures Js.Prop(props, "src") != "" ==> r == Some(Js.Prop(props, "src"))
      ensures var reference := OrElse(Js.Prop(props, "url"), Js.Prop(props, "relativePath"));
              Js.Prop(props, "src") == "" && reference != "" ==> r == Some(GetUploadedFileUrl(reference))
      ensures var name := OrElse(Js.Prop(props, "image_file_name"), Js.Prop(props, "project_image"));
              Js.Prop(props, "src") == "" && Js.Prop(props, "url") == "" && Js.Prop(props, "relativePath") == ""
              && name != "" ==>
                var kind := OrElse(OrElse(Js.Prop(props, "image_type"), Js.Prop(props, "project_image_type")), "static");
                r == if kind == "uploaded" && Js.Prop(props, "uploaded_file_id") != "" then Some(GetUploadedFileUrl(name))
                     else GetStaticAssetUrl(name, fallback)
      ensures (&& Js.Prop(props, "src") == "" && Js.Prop(props, "url") == "" && Js.Prop(props, "relativePath") == ""
               && Js.Prop(props, "image_file_name") == "" && Js.Prop(props, "project_image") == "") ==> r == fallback
    {
      var src := Js.Prop(props, "src");
      var reference := OrElse(Js.Prop(props, "url"), Js.Prop(props, "relativePath"));
      var name := OrElse(Js.Prop(props, "image_file_name"), Js.Prop(props, "project_image"));
      if src != "" then Some(src)
      else if reference != "" then Some(GetUploadedFileUrl(reference))
      else if name != "" then
        var kind := OrElse(OrElse(Js.Prop(props, "image_type"), Js.Prop(props, "project_image_type")), "static");
        if kind == "uploaded" && Js.Prop(props, "uploaded_file_id") != "" then Some(GetUploadedFileUrl(name))
        else GetStaticAssetUrl(name, fallback)
      else fallback
    }

    /**
     * `resolve`: a falsy reference, or one that is neither a string nor an
     * object, gives the fallback.
     */
    function Resolve(reference: Js.Value, fallback: Option<string>): (r: Option<string>)
      reads this
      requires Valid()
      ensures !Js.Truthy(reference) || reference.Bool? || reference.Num? ==> r == fallback
      ensures Js.Truthy(reference) && reference.Str? ==> r == ResolveFromString(reference.s, fallback)
      ensures reference.Obj? ==> r == ResolveFromObject(reference.props, fallback)
    {
      match reference
      case Str(s) => if s == "" then fallback else ResolveFromString(s, fallback)
      case Obj(props) => ResolveFromObject(props, fallback)
      case _ => fallback
    }

    /**
     * The three ways the client refers to a stored upload (the relative
     * path as a string, the URL the server reports, and an uploaded-file
     * object with that path) all resolve to the server followed by the
     * URL the server gives the file.
     */
    lemma UploadReferencesAgree(dir: UploadMiddleware.UploadDir, filename: string, fallback: Option<string>)
      requires Valid()
      requires '\\' !in filename
      ensures var rel := UploadMiddleware.DirName(dir) + "/" + filename;
              var expected := Some(server + Services.GetFileURL(rel));
              && Resolve(Js.Str(rel), fallback) == expected
              && Resolve(Js.Str(Services.GetFileURL(rel)), fallback) == expected
              && Resolve(Js.Obj(map["relativePath" := rel]), fallback) == expected
    {
      var rel := UploadMiddleware.DirName(dir) + "/" + filename;
      UploadPathShape(dir, filename);
      RelativePathResolves(rel, fallback);
      ServedUrlResolves(rel, fallback);
      UploadObjectResolves(rel, fallback);
    }

    /** A relative upload path, given as a string, resolves to the server followed by its URL. */
    lemma RelativePathResolves(rel: string, fallback: Option<string>)
      requires Valid()
      requires rel != "" && '/' in rel && '\\' !in rel && !StartsWith(rel, "/") && !StartsWith(rel, "/uploads/")
      requires !IsFullUrl(rel)
      ensures Resolve(Js.Str(rel), fallback) == Some(server + Services.GetFileURL(rel))
    {
      assert CleanPath(rel) == rel;
      assert (server + "/uploads/") + rel == server + ("/uploads/" + rel);
    }

    /** An uploaded-file object with a relative path resolves to the server followed by its URL. */
    lemma UploadObjectResolves(rel: string, fallback: Option<string>)
      requires Valid()
      requires rel != "" && '\\' !in rel && !StartsWith(rel, "/uploads/")
      ensures Resolve(Js.Obj(map["relativePath" := rel]), fallback) == Some(server + Services.GetFileURL(rel))
    {
      var props := map["relativePath" := rel];
      assert Js.Prop(props, "src") == "" && Js.Prop(props, "url") == "" && Js.Prop(props, "relativePath") == rel;
      assert CleanPath(rel) == rel;
      assert (server + "/uploads/") + rel == server + ("/uploads/" + rel);
    }

    /** The URL the server reports for a relative path resolves to the server followed by it. */
    lemma ServedUrlResolves(rel: string, fallback: Option<string>)
      requires Valid()
      ensures Resolve(Js.Str(Services.GetFileURL(rel)), fallback) == Some(server + Services.GetFileURL(rel))
    {
      var url := Services.GetFileURL(rel);
      assert url[0] == '/' && url[..7][0] == url[0] && url[..8][0] == url[0];
      assert !IsFullUrl(url);
    }
    /**
     * `getImageStyle`: the given or default sizes in pixels and the given or
     * default decoration; a background image exactly when the reference
     * resolves to a non-empty URL.
     */
    function GetImageStyle(reference: Js.Value, options: StyleOptions): (style: Style)
      reads this
      requires Valid()
      ensures style.width == Px(options.width.GetOr(160)) && style.height == Px(options.height.GetOr(96))
      ensures style.borderRadius == options.borderRadius.GetOr("10px")
      ensures style.border == options.border.GetOr("1px solid #ccc")
      ensures style.overflow == "hidden"
      ensures style.backgroundSize == options.backgroundSize.GetOr("cover")
      ensures style.backgroundPosition == options.backgroundPosition.GetOr("center")
      ensures style.backgroundColor == options.backgroundColor.GetOr("#fff")
      ensures var url := Resolve(reference, options.fallback);
              (style.backgroundImage.Some? <==> url.Some? && url.value != "")
              && (style.backgroundImage.Some? ==> style.backgroundImage.value == "url('" + url.value + "')")
    {
      var url := Resolve(reference, options.fallback);
      Style(
        Px(options.width.GetOr(160)),
        Px(options.height.GetOr(96)),
        options.borderRadius.GetOr("10px"),
        options.border.GetOr("1px solid #ccc"),
        "hidden",
        options.backgroundSize.GetOr("cover"),
        options.backgroundPosition.GetOr("center"),
        options.backgroundColor.GetOr("#fff"),
        if url.Some? && url.value != "" then Some("url('" + url.value + "')") else None)
    }
  }

  /** The relative path of a stored upload is a directory, a slash and a file name without backslashes. */
  lemma UploadPathShape(dir: UploadMiddleware.UploadDir, filename: string)
    requires '\\' !in filename
    ensures var rel := UploadMiddleware.DirName(dir) + "/" + filename;
            && rel != "" && '/' in rel && '\\' !in rel
            && !StartsWith(rel, "/") && !StartsWith(rel, "/uploads/") && !IsFullUrl(rel)
  {
    var name := UploadMiddleware.DirName(dir);
    var rel := name + "/" + filename;
    assert rel[|name|] == '/';
    assert '\\' !in name && rel[0] == name[0] && name[0] != '/' && name[0] != 'h';
    assert rel[..1] != "/";
    assert rel[..1] != "h";
  }

  /** A project asset replaces a gallery asset of the same name; other gallery assets stay. */
  lemma ProjectsOverrideGallery(gallery: seq<ModuleEntry>, projects: seq<ModuleEntry>, key: string)
    requires AssetsOf(gallery, "gallery").Some? && AssetsOf(projects, "projects").Some?
    ensures var g, p := AssetsOf(gallery, "gallery").value, AssetsOf(projects, "projects").value;
            var loaded := Js.Spread(g, p);
            && (key in p.entries ==> loaded.entries[key].category == "projects")
            && (key in g.entries && key !in p.entries ==> loaded.entries[key].category == "gallery")
            && (key in loaded.entries <==> key in g.entries || key in p.entries)
  {
    AssetsOfStatic(gallery, "gallery");
    AssetsOfStatic(projects, "projects");
  }
}
