/** The image endpoint of src/app/api/image/route.ts: the `GET` handler's
    decision between a 400, a 403, a 404 and the image itself, with the
    content type looked up from the file extension. The file system is a map
    from absolute paths to entries; the data root is absolute. */
module ImageRoute {
  import opened Common
  import opened PosixPath

  type Bytes = seq<bv8>

  const DefaultMime: string := "application/octet-stream"
  const CacheControl: string := "public, max-age=31536000, immutable"

  /** `MIME_TYPES`: lower-case extension, dot included, to content type. */
  const MimeTypes: map<string, string> := map[
    ".png" := "image/png",
    ".jpg" := "image/jpeg",
    ".jpeg" := "image/jpeg",
    ".gif" := "image/gif",
    ".webp" := "image/webp",
    ".svg" := "image/svg+xml",
    ".ico" := "image/x-icon"
  ]

  /** `MIME_TYPES[ext] || 'application/octet-stream'`: an image type for the
      extensions of the table and the generic type for every other one. */
  function MimeType(ext: string): (r: string)
    ensures ext in MimeTypes ==> StartsWith(r, "image/") && r == MimeTypes[ext]
    ensures r == DefaultMime <==> ext !in MimeTypes
  {
    if ext in MimeTypes then MimeTypes[ext] else DefaultMime
  }

  /** The content type served for a resolved path: by its extension, lower-cased. */
  function ContentType(resolvedPath: string): string {
    MimeType(ToLower(ExtName(resolvedPath)))
  }

  /** The lookup ignores the case of the extension; `.jpg` and `.jpeg` are
      both JPEG, and an extension outside the table gives the generic type. */
  lemma MimeTypeExamples()
    ensures MimeType(ToLower(".PNG")) == "image/png"
    ensures MimeType(".jpg") == MimeType(".jpeg") == "image/jpeg"
    ensures MimeType(".bmp") == DefaultMime
    ensures MimeType("") == DefaultMime
  {
    assert ToLower(".PNG") == ".png" by {
      assert ToLower(".PNG")[1..] == ToLower("PNG");
    }
    assert "" !in MimeTypes;
  }

  /** The type is found from a path: the extension of its last component,
      whatever its case. */
  lemma ContentTypeOfPath()
    ensures ExtName("/data/cat.PNG") == ".PNG"
    ensures ContentType("/data/cat.PNG") == "image/png"
  {
    var p := "/data/cat.PNG";
    assert SkipSlashesBack(p, |p|) == |p|;
    assert p[5] == '/' && forall k :: 5 < k < |p| ==> p[k] != '/';
    assert LastIndexOfChar(p, '/', |p|) == Some(5);
    assert LastComponent(p) == "cat.PNG";
    var b := "cat.PNG";
    assert b[3] == '.' && forall k :: 3 < k < |b| ==> b[k] != '.';
    assert LastIndexOfChar(b, '.', |b|) == Some(3);
    assert "cat.PNG"[3..] == ".PNG";
    MimeTypeExamples();
  }

  /** What the handler returns. */
  datatype Response =
    | Json(status: nat, error: string)
    | Image(body: Bytes, contentType: string, cacheControl: string)
    | Throws  // `readFileSync` on a directory: the framework answers 500

  /** `path.resolve(path.join(dataPath, imagePath))` */
  function Target(dataPath: string, imagePath: string): string
    requires IsAbsolute(dataPath)
  {
    Resolve(Join(dataPath, imagePath))
  }

  /** The handler's security check: the resolved target has the resolved data
      root as a string prefix. */
  predicate PrefixContained(dataPath: string, imagePath: string)
    requires IsAbsolute(dataPath)
  {
    StartsWith(Target(dataPath, imagePath), Resolve(dataPath))
  }

  /** The query parameter is missing or empty (JavaScript falsiness). */
  predicate Missing(imagePath: Option<string>) {
    imagePath.None? || imagePath.value == ""
  }

  /** `GET`: 400 without a path, 403 when the target fails the prefix check,
      404 when nothing exists there, otherwise the file's bytes with the type
      of its extension and a one-year immutable cache header. */
  function Get(imagePath: Option<string>, dataPath: string, files: map<string, FsNode<Bytes>>): (r: Response)
    requires IsAbsolute(dataPath)
    ensures Missing(imagePath) <==> r == Json(400, "Missing path parameter")
    ensures r == Json(403, "Invalid path") <==>
              !Missing(imagePath) && !PrefixContained(dataPath, imagePath.value)
    ensures r == Json(404, "Image not found") <==>
              && !Missing(imagePath) && PrefixContained(dataPath, imagePath.value)
              && Target(dataPath, imagePath.value) !in files
    ensures r.Json? ==>
              r in {Json(400, "Missing path parameter"), Json(403, "Invalid path"), Json(404, "Image not found")}
    ensures r.Image? <==>
              && !Missing(imagePath) && PrefixContained(dataPath, imagePath.value)
              && var target := Target(dataPath, imagePath.value);
              && target in files && files[target].RegularFile?
    ensures r.Image? ==>
              && var target := Target(dataPath, imagePath.value);
              && files[target] == RegularFile(r.body)
              && r.contentType == ContentType(target)
              && r.cacheControl == CacheControl
    ensures r.Throws? <==>
              && !Missing(imagePath) && PrefixContained(dataPath, imagePath.value)
              && var target := Target(dataPath, imagePath.value);
              && target in files && files[target].Directory?
  {
    if Missing(imagePath) then Json(400, "Missing path parameter")
    else
      var resolvedPath := Target(dataPath, imagePath.value);
      var resolvedDataPath := Resolve(dataPath);
      if !StartsWith(resolvedPath, resolvedDataPath) then Json(403, "Invalid path")
      else if resolvedPath !in files then Json(404, "Image not found")
      else match files[resolvedPath]
        case Directory => Throws
        case RegularFile(data) => Image(data, ContentType(resolvedPath), CacheControl)
  }

  /** The 400 and the 403 are decided before the file system is looked at:
      a rejected request gets the same answer whatever the files are. */
  lemma RejectionIgnoresFiles(imagePath: Option<string>, dataPath: string,
                              files: map<string, FsNode<Bytes>>, other: map<string, FsNode<Bytes>>)
    requires IsAbsolute(dataPath)
    requires Get(imagePath, dataPath, files).Json?
    requires Get(imagePath, dataPath, files).status != 404
    ensures Get(imagePath, dataPath, other) == Get(imagePath, dataPath, files)
  {
  }

  // ---------------------------------------------------------------------------
  // Which paths pass the check

  /** A path made of more names under a directory starts with that directory. */
  lemma ExtendedStartsWith(root: seq<string>, more: seq<string>)
    ensures StartsWith("/" + JoinSep(root + more), "/" + JoinSep(root))
  {
    var whole := "/" + JoinSep(root + more);
    if root == [] {
      assert root + more == more;
      assert whole[..1] == "/";
    } else if more == [] {
      assert root + more == root;
    } else {
      JoinSepAppend(root, more);
      assert whole == "/" + JoinSep(root) + ("/" + JoinSep(more));
    }
  }

  /** Segment containment: the resolved target lies in the data root's tree. */
  predicate SegmentContained(dataPath: string, imagePath: string)
    requires IsAbsolute(dataPath)
  {
    ResolvedSegments(dataPath) <= ResolvedSegments(Join(dataPath, imagePath))
  }

  /** A target in the data root's tree passes the prefix check. */
  lemma SegmentContainedPassesPrefix(dataPath: string, imagePath: string)
    requires IsAbsolute(dataPath)
    requires SegmentContained(dataPath, imagePath)
    ensures PrefixContained(dataPath, imagePath)
  {
    var root := ResolvedSegments(dataPath);
    var all := ResolvedSegments(Join(dataPath, imagePath));
    assert all == root + all[|root|..];
    ExtendedStartsWith(root, all[|root|..]);
  }

  /** A non-empty path without `..` segments stays in the data root's tree,
      so it always passes the check. */
  lemma NoParentStaysInside(dataPath: string, imagePath: string)
    requires IsAbsolute(dataPath) && imagePath != ""
    requires ".." !in Split(imagePath)
    ensures SegmentContained(dataPath, imagePath)
    ensures PrefixContained(dataPath, imagePath)
  {
    ResolveJoin(dataPath, imagePath);
    FoldWithoutParent(ResolvedSegments(dataPath), Split(imagePath), false);
    SegmentContainedPassesPrefix(dataPath, imagePath);
  }

  /** `/data` resolves to the single name `data`. */
  lemma DataRootSegments()
    ensures ResolvedSegments("/data") == ["data"]
  {
    ResolveNames(["data"], false);
    assert "/" + JoinSep(["data"]) + "" == "/data";
  }

  /** `../../etc/passwd` under `/data` climbs to `/etc/passwd` and is refused. */
  lemma EscapeSplit()
    ensures Split("../../etc/passwd") == ["..", "..", "etc", "passwd"]
  {
    var segs := ["..", "..", "etc", "passwd"];
    assert JoinSep(segs) == "../../etc/passwd" by {
      assert JoinSep(segs[3..]) == "passwd";
      assert JoinSep(segs[2..]) == "etc/passwd";
      assert JoinSep(segs[1..]) == "../etc/passwd";
    }
    assert forall k :: 0 <= k < |segs| ==> '/' !in segs[k];
    JoinThenSplit(segs);
  }

  lemma EscapeFold()
    ensures Fold(["data"], ["..", "..", "etc", "passwd"], false) == ["etc", "passwd"]
  {
    assert ["..", "..", "etc", "passwd"] == ["..", ".."] + ["etc", "passwd"];
    FoldAppend(["data"], ["..", ".."], ["etc", "passwd"], false);
    assert Fold(["data"], ["..", ".."], false) == [] by {
      assert Step(["data"], "..", false) == [];
      assert ["..", ".."][1..] == [".."];
      assert Step([], "..", false) == [];
      assert [".."][1..] == [];
    }
    FoldNames([], ["etc", "passwd"], false);
  }

  lemma EscapeSegments()
    ensures ResolvedSegments(Join("/data", "../../etc/passwd")) == ["etc", "passwd"]
  {
    EscapeSplit();
    DataRootSegments();
    ResolveJoin("/data", "../../etc/passwd");
    EscapeFold();
  }

  lemma EscapeIsForbidden(files: map<string, FsNode<Bytes>>)
    ensures Get(Some("../../etc/passwd"), "/data", files) == Json(403, "Invalid path")
  {
    EscapeSegments();
    DataRootSegments();
    assert JoinSep(["etc", "passwd"]) == "etc/passwd";
    assert JoinSep(["data"]) == "data";
    var target := Target("/data", "../../etc/passwd");
    assert target == "/etc/passwd";
    assert target[..5] != "/data" by { assert target[1] != "/data"[1]; }
  }

  // ---------------------------------------------------------------------------
  // The prefix check admits sibling directories

  /** `../data2/cat.png` under `/data` resolves to `/data2/cat.png`: outside
      the data root's tree, but it starts with the string `/data`. */
  lemma SiblingSplit()
    ensures Split("../data2/cat.png") == ["..", "data2", "cat.png"]
  {
    var segs := ["..", "data2", "cat.png"];
    assert JoinSep(segs) == "../data2/cat.png" by {
      assert JoinSep(segs[2..]) == "cat.png";
      assert JoinSep(segs[1..]) == "data2/cat.png";
    }
    assert forall k :: 0 <= k < |segs| ==> '/' !in segs[k];
    JoinThenSplit(segs);
  }

  lemma SiblingFold()
    ensures Fold(["data"], ["..", "data2", "cat.png"], false) == ["data2", "cat.png"]
  {
    assert ["..", "data2", "cat.png"] == [".."] + ["data2", "cat.png"];
    FoldAppend(["data"], [".."], ["data2", "cat.png"], false);
    assert Fold(["data"], [".."], false) == [] by {
      assert Step(["data"], "..", false) == [];
      assert [".."][1..] == [];
    }
    FoldNames([], ["data2", "cat.png"], false);
  }

  lemma SiblingSegments()
    ensures ResolvedSegments(Join("/data", "../data2/cat.png")) == ["data2", "cat.png"]
  {
    SiblingSplit();
    DataRootSegments();
    ResolveJoin("/data", "../data2/cat.png");
    SiblingFold();
  }

  /** The sibling is outside the data root's tree. */
  lemma SiblingOutside()
    ensures !SegmentContained("/data", "../data2/cat.png")
  {
    SiblingSegments();
    DataRootSegments();
    assert |"data"| != |"data2"|;
    assert ["data2", "cat.png"][0] != ["data"][0];
  }

  lemma SiblingTarget()
    ensures Target("/data", "../data2/cat.png") == "/data2/cat.png"
  {
    SiblingSegments();
    assert JoinSep(["data2", "cat.png"]) == "data2/cat.png";
  }

  /** As written, the handler serves a file of the sibling directory `/data2`
      to a request under the data root `/data`. */
  lemma SiblingIsServed(files: map<string, FsNode<Bytes>>, body: Bytes)
    requires "/data2/cat.png" in files && files["/data2/cat.png"] == RegularFile(body)
    ensures !SegmentContained("/data", "../data2/cat.png")
    ensures Get(Some("../data2/cat.png"), "/data", files).Image?
    ensures Get(Some("../data2/cat.png"), "/data", files).body == body
  {
    SiblingOutside();
    SiblingTarget();
    DataRootSegments();
    assert JoinSep(["data"]) == "data";
    assert "/data2/cat.png"[..5] == "/data";
  }

  /** The handler with the check it evidently intends: the target must lie in
      the data root's tree, segment by segment. */
  function GetContained(imagePath: Option<string>, dataPath: string, files: map<string, FsNode<Bytes>>): (r: Response)
    requires IsAbsolute(dataPath)
    ensures Missing(imagePath) <==> r == Json(400, "Missing path parameter")
    ensures r == Json(403, "Invalid path") <==>
              !Missing(imagePath) && !SegmentContained(dataPath, imagePath.value)
    ensures r == Json(404, "Image not found") <==>
              && !Missing(imagePath) && SegmentContained(dataPath, imagePath.value)
              && Target(dataPath, imagePath.value) !in files
    ensures r.Json? ==>
              r in {Json(400, "Missing path parameter"), Json(403, "Invalid path"), Json(404, "Image not found")}
    ensures r.Image? <==>
              && !Missing(imagePath) && SegmentContained(dataPath, imagePath.value)
              && var target := Target(dataPath, imagePath.value);
              && target in files && files[target].RegularFile?
    ensures r.Throws? <==>
              && !Missing(imagePath) && SegmentContained(dataPath, imagePath.value)
              && var target := Target(dataPath, imagePath.value);
              && target in files && files[target].Directory?
    ensures r.Image? ==>
              && var target := Target(dataPath, imagePath.value);
              && files[target] == RegularFile(r.body)
              && r.contentType == ContentType(target)
              && r.cacheControl == CacheControl
  {
    if Missing(imagePath) then Json(400, "Missing path parameter")
    else if !SegmentContained(dataPath, imagePath.value) then Json(403, "Invalid path")
    else
      var resolvedPath := Target(dataPath, imagePath.value);
      if resolvedPath !in files then Json(404, "Image not found")
      else match files[resolvedPath]
        case Directory => Throws
        case RegularFile(data) => Image(data, ContentType(resolvedPath), CacheControl)
  }

  /** The corrected handler refuses the sibling, and it agrees with the
      handler as written on every request that stays inside the data root's
      tree; in particular it never serves what the handler as written refuses. */
  lemma GetContainedCorrect(imagePath: Option<string>, dataPath: string, files: map<string, FsNode<Bytes>>)
    requires IsAbsolute(dataPath)
    ensures GetContained(Some("../data2/cat.png"), "/data", files) == Json(403, "Invalid path")
    ensures !Missing(imagePath) && SegmentContained(dataPath, imagePath.value) ==>
              GetContained(imagePath, dataPath, files) == Get(imagePath, dataPath, files)
    ensures Get(imagePath, dataPath, files) == Json(403, "Invalid path") ==>
              GetContained(imagePath, dataPath, files) == Json(403, "Invalid path")
  {
    SiblingOutside();
    if !Missing(imagePath) && SegmentContained(dataPath, imagePath.value) {
      SegmentContainedPassesPrefix(dataPath, imagePath.value);
    }
  }
}
