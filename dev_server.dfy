/**
 * The request handler and the watch filters of `dev-server.js`. The server maps a
 * request URL into the output directory, refuses paths that leave it, picks a
 * content type by extension, and falls back to `index.html` for missing paths
 * without an extension.
 */
module DevServer {
  import opened Wrappers
  import opened Strings
  import opened PosixPath
  import opened Scanner
  import opened Build

  /** `mimeTypes` (note `.jpg` as `image/jpg`). */
  const MimeTypes: map<string, string> := map[
    ".html" := "text/html",
    ".js" := "text/javascript",
    ".css" := "text/css",
    ".json" := "application/json",
    ".png" := "image/png",
    ".jpg" := "image/jpg",
    ".jpeg" := "image/jpeg",
    ".gif" := "image/gif",
    ".svg" := "image/svg+xml",
    ".webp" := "image/webp",
    ".ico" := "image/x-icon"]

  /** `mimeTypes[extname] || 'application/octet-stream'`. */
  function ContentType(ext: string): string {
    if ext in MimeTypes then MimeTypes[ext] else "application/octet-stream"
  }

  /** Every extension the gallery accepts is served with an `image/` type. */
  lemma ImageTypes(ext: string)
    requires ext in ImageExtensions
    ensures StartsWith(ContentType(ext), "image/")
  {
  }

  // ------------------------------------------------------------ requests

  /** What `fs.readFile` gives: the file's bytes or an error code such as `ENOENT`. */
  datatype ReadResult = Content(data: seq<bv8>) | Failure(code: string)

  datatype Body = Data(bytes: seq<bv8>) | Message(text: string)

  /** Status, `Content-Type` header if one is sent, and the body. */
  datatype Response = Response(status: int, contentType: Option<string>, body: Body)

  /** The response, and the files read to produce it, in order. */
  datatype Served = Served(response: Response, readPaths: seq<string>)

  /** A read of a path the disk does not hold fails with `ENOENT`. */
  function Read(disk: map<string, ReadResult>, p: string): ReadResult {
    if p in disk then disk[p] else Failure("ENOENT")
  }

  /** `path.join(DIST_DIR, req.url === '/' ? 'index.html' : req.url)`. */
  function RequestPath(root: seq<string>, url: string): string {
    JoinUnder(DistDir(root), if url == "/" then "index.html" else url)
  }

  /** The traversal check as written: `filePath.startsWith(DIST_DIR)`. */
  predicate GuardAsWritten(filePath: string, dist: string) {
    StartsWith(filePath, dist)
  }

  /** The check that is meant: the path is the output directory or lies below it. */
  predicate Inside(filePath: string, dist: string) {
    filePath == dist || StartsWith(filePath, dist + "/")
  }

  /** What the callback does once the path has passed the traversal check. */
  function Respond(root: seq<string>, filePath: string, disk: map<string, ReadResult>): Served {
    var ext := ToLower(Extname(filePath));
    match Read(disk, filePath)
    case Content(d) => Served(Response(200, Some(ContentType(ext)), Data(d)), [filePath])
    case Failure(code) =>
      if code == "ENOENT" then
        if ext == [] then
          var index := JoinUnder(DistDir(root), "index.html");
          match Read(disk, index)
          case Content(d) => Served(Response(200, Some("text/html"), Data(d)), [filePath, index])
          case Failure(_) => Served(Response(404, None, Message("404 Not Found")), [filePath, index])
        else Served(Response(404, None, Message("404 Not Found")), [filePath])
      else Served(Response(500, None, Message("Server Error: " + code)), [filePath])
  }

  /** The `createServer` callback as written, with the `startsWith` check. */
  function HandleAsWritten(root: seq<string>, url: string, disk: map<string, ReadResult>): Served {
    var filePath := RequestPath(root, url);
    if !GuardAsWritten(filePath, DistDir(root)) then
      Served(Response(403, None, Message("Forbidden")), [])
    else Respond(root, filePath, disk)
  }

  /** The `createServer` callback with the check it is meant to make. */
  function Handle(root: seq<string>, url: string, disk: map<string, ReadResult>): Served {
    var filePath := RequestPath(root, url);
    if !Inside(filePath, DistDir(root)) then
      Served(Response(403, None, Message("Forbidden")), [])
    else Respond(root, filePath, disk)
  }

  /** The response of `Handle`: what it sends and what it read. */
  predicate WellFormed(r: Served, disk: map<string, ReadResult>) {
    var last := if r.readPaths == [] then Failure("") else Read(disk, r.readPaths[|r.readPaths| - 1]);
    r.response.status in {200, 403, 404, 500} &&
    (r.response.status == 200 <==> last.Content?) &&
    (r.response.status == 200 ==> r.response.contentType.Some? && r.response.body == Data(last.data)) &&
    (r.response.status != 200 ==> r.response.contentType == None && r.response.body.Message?)
  }

  /**
   * Every response is one of four statuses. A `200` carries the bytes of the last
   * file read, and only a successful read gives one; any other status has a text
   * body and no `Content-Type`.
   */
  lemma Outcomes(root: seq<string>, url: string, disk: map<string, ReadResult>)
    ensures WellFormed(HandleAsWritten(root, url, disk), disk)
    ensures WellFormed(Handle(root, url, disk), disk)
  {
    var p := RequestPath(root, url);
    RespondOutcomes(root, p, disk);
  }

  /**
   * The code refuses a request exactly when its joined path does not start with
   * `DIST_DIR`, and then sends `403 Forbidden` without reading anything.
   */
  lemma RefusedAsWritten(root: seq<string>, url: string, disk: map<string, ReadResult>)
    ensures var p, r := RequestPath(root, url), HandleAsWritten(root, url, disk);
      (r.response.status == 403 <==> !GuardAsWritten(p, DistDir(root))) &&
      (!GuardAsWritten(p, DistDir(root)) ==> r == Served(Response(403, None, Message("Forbidden")), []))
  {
    RespondOutcomes(root, RequestPath(root, url), disk);
  }

  /** On a path inside the output directory the code's handler and the intended one agree. */
  lemma AsWrittenInside(root: seq<string>, url: string, disk: map<string, ReadResult>)
    requires Inside(RequestPath(root, url), DistDir(root))
    ensures HandleAsWritten(root, url, disk) == Handle(root, url, disk)
  {
    InsideStarts(RequestPath(root, url), DistDir(root));
  }

  lemma RespondOutcomes(root: seq<string>, p: string, disk: map<string, ReadResult>)
    ensures WellFormed(Respond(root, p, disk), disk)
    ensures Respond(root, p, disk).readPaths != [] && Respond(root, p, disk).readPaths[0] == p
    ensures Respond(root, p, disk).response.status != 403
  {
  }

  // ------------------------------------------------------ request paths

  /**
   * A URL that is the text of a list of slash-free segments, ending in a plain one,
   * names what `normalize` makes of those segments below the output directory.
   */
  lemma RequestSegments(root: seq<string>, x: seq<string>)
    requires AllPlain(root) && |x| >= 1 && Plain(x[|x| - 1])
    requires forall k :: 0 <= k < |x| ==> '/' !in x[k]
    ensures AllPlain(root + ["dist"])
    ensures var segs := Fold(root + ["dist"], x);
      RequestPath(root, Abs(x)) == if segs == [] then "/" else Abs(segs)
  {
    var d := root + ["dist"];
    assert AllPlain(d);
    var url := Abs(x);
    AbsLast(x);
    JoinedSegments(d, url);
    SplitAbs(x);
    FoldSkipsEmpty(d, x);
    UntrailedRequest(root, url, Fold(d, x));
  }

  /** A URL that does not end in `/` is joined and normalised without a trailing `/`. */
  lemma UntrailedRequest(root: seq<string>, url: string, segs: seq<string>)
    requires url != [] && url[|url| - 1] != '/'
    requires NormalSegments(DistDir(root) + "/" + url) == segs
    ensures RequestPath(root, url) == if segs == [] then "/" else Abs(segs)
  {
    var p := DistDir(root) + "/" + url;
    NormalizeShape(p);
    assert p[|p| - 1] == url[|url| - 1];
  }

  /** A request for `/a/b/c` with plain segments is the file `dist/a/b/c`. */
  lemma PlainRequest(root: seq<string>, rel: seq<string>)
    requires AllPlain(root) && AllPlain(rel) && rel != []
    ensures RequestPath(root, Abs(rel)) == Abs(root + ["dist"] + rel)
  {
    RequestSegments(root, rel);
    FoldPlain(root + ["dist"], rel);
    assert |root + ["dist"] + rel| > 0;
  }

  /** `/../s/f` climbs out of the output directory into its sibling `s`. */
  lemma TraversalPath(root: seq<string>, s: string, f: string)
    requires AllPlain(root) && Plain(s) && Plain(f)
    ensures Abs(["..", s, f]) == "/../" + s + "/" + f
    ensures RequestPath(root, "/../" + s + "/" + f) == Abs(root + [s, f])
  {
    var x := ["..", s, f];
    TraversalText(x, s, f);
    RequestSegments(root, x);
    TraversalFold(root, x, s, f);
    assert |root + [s, f]| > 0;
  }

  lemma TraversalText(x: seq<string>, s: string, f: string)
    requires x == ["..", s, f]
    ensures Abs(x) == "/../" + s + "/" + f
  {
    assert x == [".."] + [s] + [f];
    AbsSnoc([".."] + [s], f);
    AbsSnoc([".."], s);
    AbsSnoc([], "..");
    assert [] + [".."] == [".."];
    assert "/" + ".." + "/" == "/../";
  }

  /** `..` right below the output directory climbs back to its parent. */
  lemma TraversalFold(root: seq<string>, x: seq<string>, s: string, f: string)
    requires AllPlain(root) && Plain(s) && Plain(f) && x == ["..", s, f]
    ensures AllPlain(root + ["dist"])
    ensures Fold(root + ["dist"], x) == root + [s, f]
  {
    var d := root + ["dist"];
    assert AllPlain(d);
    assert x[1..] == [s, f];
    assert Step(d, x[0]) == root;
    FoldPlain(root, [s, f]);
  }

  // --------------------------------------------------------- the guard

  /** The text `path.join` gives is its normalised segments, with `/` at the end or not. */
  lemma RequestShape(root: seq<string>, url: string)
    requires AllPlain(root)
    ensures var x := if url == "/" then "index.html" else url;
      var p := if x == [] then DistDir(root) else DistDir(root) + "/" + x;
      var segs := NormalSegments(p);
      exists t :: (t == "" || t == "/") && RequestPath(root, url) == Abs(segs) + t
  {
    var x := if url == "/" then "index.html" else url;
    var p := if x == [] then DistDir(root) else DistDir(root) + "/" + x;
    NormalizeShape(p);
    var segs := NormalSegments(p);
    var t := if segs == [] || p[|p| - 1] == '/' then "/" else "";
    assert RequestPath(root, url) == Abs(segs) + t;
  }

  /**
   * The check as written admits exactly the paths whose segments run through the
   * output directory's parent and whose next segment merely begins with `dist`:
   * a sibling such as `dist-old` passes as well.
   */
  lemma GuardAsWrittenAdmits(root: seq<string>, segs: seq<string>, t: string)
    requires AllPlain(root) && AllPlain(segs) && (t == "" || t == "/")
    ensures GuardAsWritten(Abs(segs) + t, DistDir(root)) <==> ExtendsDirName(segs, root + ["dist"])
  {
    assert AllPlain(root + ["dist"]);
    AbsPrefix(segs, root + ["dist"], t);
  }

  /** A path whose last segment is plain ends in a character other than `/`. */
  lemma AbsLast(segs: seq<string>)
    requires segs != [] && Plain(segs[|segs| - 1])
    ensures Abs(segs) != [] && Abs(segs)[|Abs(segs)| - 1] != '/'
  {
    var init := segs[..|segs| - 1];
    var n := segs[|segs| - 1];
    assert segs == init + [n];
    AbsSnoc(init, n);
    assert n[|n| - 1] in n;
  }

  /**
   * The intended check admits exactly the paths whose segments begin with those of
   * the output directory.
   */
  lemma InsideExactly(root: seq<string>, segs: seq<string>, t: string)
    requires AllPlain(root) && AllPlain(segs) && (t == "" || t == "/")
    ensures Inside(Abs(segs) + t, DistDir(root)) <==>
      |segs| >= |root| + 1 && segs[..|root| + 1] == root + ["dist"]
  {
    if |segs| >= |root| + 1 && segs[..|root| + 1] == root + ["dist"] {
      DistIf(root, segs, t);
    }
    if Inside(Abs(segs) + t, DistDir(root)) {
      DistOnlyIf(root, segs, t);
    }
  }

  lemma DistIf(root: seq<string>, segs: seq<string>, t: string)
    requires t == "" || t == "/"
    requires |segs| >= |root| + 1 && segs[..|root| + 1] == root + ["dist"]
    ensures Inside(Abs(segs) + t, DistDir(root))
  {
    InsideIf(root + ["dist"], segs, t);
  }

  lemma DistOnlyIf(root: seq<string>, segs: seq<string>, t: string)
    requires AllPlain(root) && AllPlain(segs) && (t == "" || t == "/")
    requires Inside(Abs(segs) + t, DistDir(root))
    ensures |segs| >= |root| + 1 && segs[..|root| + 1] == root + ["dist"]
  {
    var d := root + ["dist"];
    assert AllPlain(d);
    InsideOnlyIf(d, segs, t);
  }

  /**
   * A request is refused exactly when the segments of its joined path do not begin
   * with those of the output directory.
   */
  lemma RefusedExactly(root: seq<string>, url: string, disk: map<string, ReadResult>)
    requires AllPlain(root)
    ensures var x := if url == "/" then "index.html" else url;
      var segs := NormalSegments(if x == [] then DistDir(root) else DistDir(root) + "/" + x);
      Handle(root, url, disk).response.status == 403 <==>
        !(|segs| >= |root| + 1 && segs[..|root| + 1] == root + ["dist"])
  {
    var x := if url == "/" then "index.html" else url;
    var segs := NormalSegments(if x == [] then DistDir(root) else DistDir(root) + "/" + x);
    RequestShape(root, url);
    var t :| (t == "" || t == "/") && RequestPath(root, url) == Abs(segs) + t;
    InsideExactly(root, segs, t);
    RespondOutcomes(root, RequestPath(root, url), disk);
  }

  /** Every file the server reads lies in the output directory. */
  lemma ReadsInside(root: seq<string>, url: string, disk: map<string, ReadResult>)
    requires AllPlain(root)
    ensures var r := Handle(root, url, disk);
      forall k :: 0 <= k < |r.readPaths| ==> Inside(r.readPaths[k], DistDir(root))
  {
    var p := RequestPath(root, url);
    IndexIsOutput(root);
    if Inside(p, DistDir(root)) {
      RespondReads(root, p, disk);
    }
  }

  /**
   * Every file the code's handler reads starts, as text, with `DIST_DIR`; it may
   * still lie outside that directory (`TraversalCounterexample`).
   */
  lemma ReadsAsWritten(root: seq<string>, url: string, disk: map<string, ReadResult>)
    requires AllPlain(root)
    ensures var r := HandleAsWritten(root, url, disk);
      forall k :: 0 <= k < |r.readPaths| ==> StartsWith(r.readPaths[k], DistDir(root))
  {
    var p := RequestPath(root, url);
    IndexIsOutput(root);
    InsideStarts(OutputFile(root), DistDir(root));
    if GuardAsWritten(p, DistDir(root)) {
      RespondReads(root, p, disk);
    }
  }

  /** The handler reads the path itself, then perhaps the fallback page. */
  lemma RespondReads(root: seq<string>, p: string, disk: map<string, ReadResult>)
    ensures var rp := Respond(root, p, disk).readPaths;
      rp == [p] || rp == [p, JoinUnder(DistDir(root), "index.html")]
  {
  }

  /**
   * With the check as written, `/../s/f` for a sibling `s` of the output directory
   * whose name begins with `dist` reads `s/f`, which lies outside it; the intended
   * check refuses the same request without reading anything.
   */
  lemma TraversalAsWritten(root: seq<string>, s: string, f: string, disk: map<string, ReadResult>)
    requires AllPlain(root) && Plain(s) && Plain(f) && StartsWith(s, "dist") && s != "dist"
    ensures var url := "/../" + s + "/" + f;
      var r := HandleAsWritten(root, url, disk);
      r.readPaths != [] && r.readPaths[0] == Abs(root + [s, f]) &&
      !Inside(r.readPaths[0], DistDir(root)) &&
      Handle(root, url, disk) == Served(Response(403, None, Message("Forbidden")), [])
  {
    var url := "/../" + s + "/" + f;
    TraversalPath(root, s, f);
    SiblingPasses(root, s, f);
    SiblingOutside(root, s, f);
    AdmittedReads(root, url, disk);
    Refused(root, url, disk);
  }

  /** The check as written lets a path in a sibling whose name begins with `dist` through. */
  lemma SiblingPasses(root: seq<string>, s: string, f: string)
    requires AllPlain(root) && Plain(s) && Plain(f) && StartsWith(s, "dist")
    ensures GuardAsWritten(Abs(root + [s, f]), DistDir(root))
  {
    var segs := root + [s, f];
    assert AllPlain(segs);
    GuardAsWrittenAdmits(root, segs, "");
    assert segs[..|root + ["dist"]| - 1] == root;
    assert Abs(segs) + "" == Abs(segs);
    assert segs[|root|] == s;
  }

  /** A path in a sibling of the output directory is not inside it. */
  lemma SiblingOutside(root: seq<string>, s: string, f: string)
    requires AllPlain(root) && Plain(s) && Plain(f) && s != "dist"
    ensures !Inside(Abs(root + [s, f]), DistDir(root))
  {
    var segs := root + [s, f];
    assert AllPlain(segs);
    assert Abs(segs) + "" == Abs(segs);
    InsideExactly(root, segs, "");
    assert segs[|root|] == s;
  }

  /** A request the check as written admits reads the joined path first. */
  lemma AdmittedReads(root: seq<string>, url: string, disk: map<string, ReadResult>)
    requires GuardAsWritten(RequestPath(root, url), DistDir(root))
    ensures var r := HandleAsWritten(root, url, disk);
      r.readPaths != [] && r.readPaths[0] == RequestPath(root, url)
  {
    RespondOutcomes(root, RequestPath(root, url), disk);
  }

  /** A request whose joined path is not inside the output directory is refused. */
  lemma Refused(root: seq<string>, url: string, disk: map<string, ReadResult>)
    requires !Inside(RequestPath(root, url), DistDir(root))
    ensures Handle(root, url, disk) == Served(Response(403, None, Message("Forbidden")), [])
  {
  }

  /** One such request: `/../dist-old/x`, which the check as written lets through. */
  lemma TraversalCounterexample(root: seq<string>, s: string, f: string, disk: map<string, ReadResult>)
    requires AllPlain(root) && s == "dist-old" && f == "x"
    ensures var r := HandleAsWritten(root, "/../" + s + "/" + f, disk);
      r.readPaths != [] && r.readPaths[0] == Abs(root + [s, f]) && !Inside(r.readPaths[0], DistDir(root))
  {
    assert s[..4] == "dist";
    TraversalAsWritten(root, s, f, disk);
  }

  // ------------------------------------------------------------ serving

  /** The fallback file `path.join(DIST_DIR, 'index.html')` is the page the build writes. */
  lemma IndexIsOutput(root: seq<string>)
    requires AllPlain(root)
    ensures JoinUnder(DistDir(root), "index.html") == OutputFile(root)
    ensures Inside(OutputFile(root), DistDir(root))
  {
    DistPaths(root);
    var d := root + ["dist"];
    var o := root + ["dist", "index.html"];
    assert o[..|d|] == d;
    InsideIf(d, o, "");
    assert Abs(o) + "" == OutputFile(root);
  }

  /** `.html`, lower-cased, is `.html`. */
  lemma HtmlType(e: string)
    requires e == ".html"
    ensures ContentType(ToLower(e)) == "text/html"
  {
    assert ToLower(e) == e;
  }

  /** A readable path inside the output directory is answered with its bytes. */
  lemma ServesFile(root: seq<string>, url: string, p: string, disk: map<string, ReadResult>, d: seq<bv8>)
    requires RequestPath(root, url) == p && Inside(p, DistDir(root)) && Read(disk, p) == Content(d)
    ensures Handle(root, url, disk) == Served(Response(200, Some(ContentType(ToLower(Extname(p)))), Data(d)), [p])
    ensures HandleAsWritten(root, url, disk) == Handle(root, url, disk)
  {
    AsWrittenInside(root, url, disk);
  }

  /** The gallery page's extension is `.html`. */
  lemma OutputIsHtml(root: seq<string>)
    ensures Extname(OutputFile(root)) == ".html"
  {
    var name := "index.html";
    HtmlName(name);
    ExtnameChild(root + ["dist"], name);
    assert root + ["dist"] + [name] == root + ["dist", "index.html"];
  }

  lemma HtmlName(name: string)
    requires name == "index.html"
    ensures Plain(name) && Extname(name) == ".html"
  {
    assert name[5] == '.' && name[6..] == "html";
    ExtnameOfName(name, 5);
  }

  /** `/` is answered with the gallery page the build wrote, as HTML. */
  lemma RootServesPage(root: seq<string>, disk: map<string, ReadResult>, page: seq<bv8>)
    requires AllPlain(root) && Read(disk, OutputFile(root)) == Content(page)
    ensures Handle(root, "/", disk) == Served(Response(200, Some("text/html"), Data(page)), [OutputFile(root)])
    ensures HandleAsWritten(root, "/", disk) == Handle(root, "/", disk)
  {
    IndexIsOutput(root);
    ServesFile(root, "/", OutputFile(root), disk, page);
    OutputIsHtml(root);
    HtmlType(Extname(OutputFile(root)));
  }

  lemma ImagePath(root: seq<string>, n: string, i: string)
    requires AllPlain(root) && Plain(n) && i == "images"
    ensures RequestPath(root, "/" + i + "/" + n) == Dest(root, n) == Abs(root + ["dist", i, n])
  {
    var rel := [i, n];
    assert Plain(i);
    assert AllPlain(rel);
    PairText(rel, i, n);
    PlainRequest(root, rel);
    EntryPaths(root, n);
    assert root + ["dist"] + rel == root + ["dist", i, n];
  }

  lemma PairText(rel: seq<string>, i: string, n: string)
    requires rel == [i, n]
    ensures Abs(rel) == "/" + i + "/" + n
  {
    assert rel == [i] + [n];
    AbsSnoc([i], n);
    assert Abs([i]) == "/" + i + Abs([]);
  }

  /** The request `/images/n` names the copy of image `n`. */
  lemma ImageRequest(root: seq<string>, n: string)
    requires AllPlain(root) && Plain(n)
    ensures RequestPath(root, "/images/" + n) == Dest(root, n)
    ensures Inside(Dest(root, n), DistDir(root))
    ensures Extname(Dest(root, n)) == Extname(n)
  {
    var i := "images";
    ImagePath(root, n, i);
    assert "/" + i + "/" + n == "/images/" + n;
    var d := root + ["dist"];
    var segs := root + ["dist", "images", n];
    assert segs[..|d|] == d;
    InsideIf(d, segs, "");
    assert Abs(segs) + "" == Dest(root, n);
    assert segs == (root + ["dist", "images"]) + [n];
    ExtnameChild(root + ["dist", "images"], n);
  }

  /**
   * `/images/n` for an image the build copied is answered with its bytes and an
   * `image/` type chosen by its extension.
   */
  lemma ServesImage(root: seq<string>, n: string, disk: map<string, ReadResult>, d: seq<bv8>)
    requires AllPlain(root) && Plain(n) && IsImageFile(n) && Read(disk, Dest(root, n)) == Content(d)
    ensures var r := Handle(root, "/images/" + n, disk);
      r.readPaths == [Dest(root, n)] && r.response.status == 200 && r.response.body == Data(d) &&
      r.response.contentType == Some(ContentType(ToLower(Extname(n)))) &&
      StartsWith(r.response.contentType.value, "image/")
    ensures HandleAsWritten(root, "/images/" + n, disk) == Handle(root, "/images/" + n, disk)
  {
    ImageRequest(root, n);
    ServesFile(root, "/images/" + n, Dest(root, n), disk, d);
    ImageTypes(ToLower(Extname(n)));
  }

  lemma LowerEmpty(s: string)
    ensures ToLower(s) == [] <==> s == []
  {
    assert |ToLower(s)| == |s|;
  }

  /**
   * A path inside the output directory that cannot be read: a missing file without an
   * extension falls back to the gallery page (or `404` without it), a missing file with
   * one is `404`, and any other failure is `500` with its code.
   */
  lemma ReadFailures(root: seq<string>, url: string, disk: map<string, ReadResult>)
    requires AllPlain(root)
    requires Inside(RequestPath(root, url), DistDir(root)) && Read(disk, RequestPath(root, url)).Failure?
    ensures var p := RequestPath(root, url);
      var code := Read(disk, p).code;
      var r := Handle(root, url, disk);
      var page := Read(disk, OutputFile(root));
      if code != "ENOENT" then
        r == Served(Response(500, None, Message("Server Error: " + code)), [p])
      else if Extname(p) != [] then
        r == Served(Response(404, None, Message("404 Not Found")), [p])
      else
        r.readPaths == [p, OutputFile(root)] &&
        r.response == if page.Content? then Response(200, Some("text/html"), Data(page.data))
                      else Response(404, None, Message("404 Not Found"))
    ensures HandleAsWritten(root, url, disk) == Handle(root, url, disk)
  {
    AsWrittenInside(root, url, disk);
    IndexIsOutput(root);
    LowerEmpty(Extname(RequestPath(root, url)));
  }

  /** A text starts with each of its prefixes. */
  lemma PrefixStarts(p: string, q: string)
    ensures StartsWith(p + q, p)
  {
    assert (p + q)[..|p|] == p;
  }

  /** The directory itself, with or without a trailing `/`, is inside. */
  lemma InsideSelf(x: string, t: string)
    requires t == "" || t == "/"
    ensures Inside(x + t, x)
  {
  }

  /** Whatever follows the directory and a `/` is inside. */
  lemma InsideBelow(x: string, y: string, z: string, t: string)
    requires x == y + z && z != [] && z[0] == '/'
    ensures Inside(x + t, y)
  {
    assert x + t == (y + "/") + (z[1..] + t);
    PrefixStarts(y + "/", z[1..] + t);
  }

  /** A path inside a directory starts with it. */
  lemma InsideStarts(x: string, y: string)
    requires Inside(x, y)
    ensures StartsWith(x, y)
  {
    assert x != y ==> x[..|y|] == (y + "/")[..|y|];
  }

  /** What follows the directory in a path inside it is empty or starts with `/`. */
  lemma InsideSuffix(q: string, m: string)
    requires Inside(q + m, q)
    ensures m == [] || m[0] == '/'
  {
    if m != [] {
      assert (q + m)[|q|] == m[0];
      assert (q + "/")[|q|] == '/';
    }
  }

  lemma NoSlashHead(x: string, r: string)
    requires '/' !in x
    ensures (x + r == [] || (x + r)[0] == '/') ==> x == []
  {
    if x != [] {
      assert (x + r)[0] == x[0];
    }
  }

  /**
   * When a path's word at the directory's depth begins with the directory's name, the
   * path is inside the directory only if that word is the name itself.
   */
  lemma WordInside(a: string, s: string, n: string, l: string, t: string, p: string, q: string)
    requires '/' !in s && (l + t == [] || (l + t)[0] == '/') && StartsWith(s, n)
    requires p == a + "/" + s + l + t && q == a + "/" + n
    requires Inside(p, q)
    ensures s == n
  {
    var x := s[|n|..];
    assert s == n + x;
    assert '/' !in x by {
      assert forall i :: 0 <= i < |x| ==> x[i] == s[|n| + i];
    }
    assert p == q + (x + (l + t));
    InsideSuffix(q, x + (l + t));
    NoSlashHead(x, l + t);
  }

  lemma Decompose(segs: seq<string>, k: nat)
    requires k < |segs|
    ensures segs == (segs[..k] + [segs[k]]) + segs[k + 1..]
  {
  }

  lemma SnocPrefix(segs: seq<string>, a: seq<string>, s: string, later: seq<string>, d: seq<string>)
    requires segs == (a + [s]) + later && d == a + [s]
    ensures |segs| >= |d| && segs[..|d|] == d
  {
  }

  /** The texts of a directory and of a path that agrees with it up to its last word. */
  lemma SegsShape(d: seq<string>, segs: seq<string>, k: nat)
    requires k == |d| - 1 && k < |segs| && segs[..k] == d[..k]
    ensures Abs(d) == Abs(d[..k]) + "/" + d[k]
    ensures Abs(segs) == Abs(d[..k]) + "/" + segs[k] + Abs(segs[k + 1..])
    ensures segs == (d[..k] + [segs[k]]) + segs[k + 1..]
  {
    var a := d[..k];
    assert d == a + [d[k]];
    AbsSnoc(a, d[k]);
    Decompose(segs, k);
    AbsAppend(a + [segs[k]], segs[k + 1..]);
    AbsSnoc(a, segs[k]);
  }

  lemma InsideIf(d: seq<string>, segs: seq<string>, t: string)
    requires d != [] && (t == "" || t == "/")
    requires |segs| >= |d| && segs[..|d|] == d
    ensures Inside(Abs(segs) + t, Abs(d))
  {
    var rest := segs[|d|..];
    assert segs == d + rest;
    AbsAppend(d, rest);
    if rest == [] {
      InsideSelf(Abs(d), t);
    } else {
      assert Abs(rest) != [] && Abs(rest)[0] == '/';
      InsideBelow(Abs(segs), Abs(d), Abs(rest), t);
    }
  }

  lemma InsideOnlyIf(d: seq<string>, segs: seq<string>, t: string)
    requires AllPlain(d) && AllPlain(segs) && d != [] && (t == "" || t == "/")
    requires Inside(Abs(segs) + t, Abs(d))
    ensures |segs| >= |d| && segs[..|d|] == d
  {
    var k := |d| - 1;
    assert k < |segs| && segs[..k] == d[..k] && StartsWith(segs[k], d[k]) && '/' !in segs[k] by {
      WordStart(d, segs, t);
    }
    InsideAtWord(d, segs, t, k);
  }

  /** Inside the directory, a path agrees with it up to its last word, which it starts with. */
  lemma WordStart(d: seq<string>, segs: seq<string>, t: string)
    requires AllPlain(d) && AllPlain(segs) && d != [] && (t == "" || t == "/")
    requires Inside(Abs(segs) + t, Abs(d))
    ensures var k := |d| - 1;
      k < |segs| && segs[..k] == d[..k] && StartsWith(segs[k], d[k]) && '/' !in segs[k]
  {
    InsideStarts(Abs(segs) + t, Abs(d));
    AbsPrefix(segs, d, t);
    assert Plain(segs[|d| - 1]);
  }

  lemma InsideAtWord(d: seq<string>, segs: seq<string>, t: string, k: nat)
    requires k == |d| - 1 && k < |segs| && segs[..k] == d[..k] && StartsWith(segs[k], d[k])
    requires '/' !in segs[k] && (t == "" || t == "/")
    requires Inside(Abs(segs) + t, Abs(d))
    ensures |segs| >= |d| && segs[..|d|] == d
  {
    WordAgrees(d, segs, t, k);
    Decompose(segs, k);
    assert d == d[..k] + [d[k]];
    SnocPrefix(segs, d[..k], segs[k], segs[k + 1..], d);
  }

  lemma WordAgrees(d: seq<string>, segs: seq<string>, t: string, k: nat)
    requires k == |d| - 1 && k < |segs| && segs[..k] == d[..k] && StartsWith(segs[k], d[k])
    requires '/' !in segs[k] && (t == "" || t == "/")
    requires Inside(Abs(segs) + t, Abs(d))
    ensures segs[k] == d[k]
  {
    SegsShape(d, segs, k);
    AbsHead(segs[k + 1..]);
    WordInside(Abs(d[..k]), segs[k], d[k], Abs(segs[k + 1..]), t, Abs(segs) + t, Abs(d));
  }

  // -------------------------------------------------------------- watch

  /** What the dev server's three watchers report. */
  datatype DevEvent =
    | TemplateChange(eventType: string)
    | ImagesChange(filename: Option<string>)
    | BuildScriptChange(eventType: string)

  /**
   * Whether `watchFiles()` calls `rebuild`: the template (watched only if it existed)
   * and `build.js` on `change` events, the images directory on any event that names
   * a file.
   */
  function DevReacts(templateExisted: bool, e: DevEvent): bool {
    match e
    case TemplateChange(t) => templateExisted && t == "change"
    case ImagesChange(f) => f.Some? && f.value != []
    case BuildScriptChange(t) => t == "change"
  }

  /**
   * The dev server rebuilds on every images event the build's own watch mode reacts
   * to, and its template watcher reacts only where the build's would.
   */
  lemma DevCoversBuild(templateExisted: bool, f: Option<string>, t: string)
    ensures BuildReacts(templateExisted, ImageEvent(f)) ==> DevReacts(templateExisted, ImagesChange(f))
    ensures DevReacts(templateExisted, TemplateChange(t)) ==> BuildReacts(templateExisted, TemplateEvent)
  {
    if f.Some? && f.value == [] {
      ExtnameNoDot(f.value);
      assert ToLower([]) == [];
    }
  }

  /** Unlike the build's watch mode, the dev server also rebuilds for a name without an extension. */
  lemma DevWiderThanBuild(templateExisted: bool, n: string)
    requires n != [] && '.' !in n && '/' !in n
    ensures DevReacts(templateExisted, ImagesChange(Some(n)))
    ensures !BuildReacts(templateExisted, ImageEvent(Some(n)))
  {
    ExtnameNoDot(n);
    assert ToLower([]) == [];
  }
}
