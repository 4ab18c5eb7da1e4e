/**
 * The build of `build.js`: the paths it works with, copying the allowed images
 * into the output tree, writing the gallery page, and the watch mode's filters.
 * The file system is a map from normalised absolute paths to file contents.
 */
module Build {
  import opened Wrappers
  import opened Strings
  import opened PosixPath
  import opened Scanner
  import opened Manifest
  import opened Render

  /** What a file holds: the copied images are bytes, the written page is text. */
  datatype FileData = Bytes(bytes: seq<bv8>) | Text(text: string)

  function Lookup(files: map<string, FileData>, k: string): Option<FileData> {
    if k in files then Some(files[k]) else None
  }

  // -------------------------------------------------------------- paths

  /** `IMAGES_DIR`, for the project directory with segments `root`. */
  function ImagesDir(root: seq<string>): (d: string)
    ensures StartsWith(d, "/")
  {
    Abs(root + ["images"])
  }

  /** `TEMPLATE_FILE`. */
  function TemplateFile(root: seq<string>): (d: string)
    ensures StartsWith(d, "/")
  {
    Abs(root + ["index.template.html"])
  }

  /** `DIST_DIR`. */
  function DistDir(root: seq<string>): (d: string)
    ensures StartsWith(d, "/")
  {
    Abs(root + ["dist"])
  }

  /** `DIST_IMAGES_DIR`. */
  function DistImagesDir(root: seq<string>): (d: string)
    ensures StartsWith(d, "/")
  {
    Abs(root + ["dist", "images"])
  }

  /** `OUTPUT_FILE`. */
  function OutputFile(root: seq<string>): (d: string)
    ensures StartsWith(d, "/")
  {
    Abs(root + ["dist", "index.html"])
  }

  /** The three project paths are the `path.join`s of their names onto the project directory. */
  lemma ProjectPaths(root: seq<string>)
    requires |root| >= 1 && AllPlain(root)
    ensures StartsWith(Abs(root), "/")
    ensures ImagesDir(root) == JoinUnder(Abs(root), "images")
    ensures TemplateFile(root) == JoinUnder(Abs(root), "index.template.html")
    ensures DistDir(root) == JoinUnder(Abs(root), "dist")
  {
    ProjectNames();
    JoinPlain(root, "images");
    JoinPlain(root, "index.template.html");
    JoinPlain(root, "dist");
  }

  lemma ProjectNames()
    ensures Plain("images") && Plain("index.template.html") && Plain("dist")
  {
    assert "index.template.html"[5] == '.';
  }

  /** The output paths are the `path.join`s the source writes onto `DIST_DIR`. */
  lemma DistPaths(root: seq<string>)
    requires AllPlain(root)
    ensures DistImagesDir(root) == JoinUnder(DistDir(root), "images")
    ensures OutputFile(root) == JoinUnder(DistDir(root), "index.html")
  {
    var d := root + ["dist"];
    assert AllPlain(d);
    JoinPlain(d, "images");
    JoinPlain(d, "index.html");
    assert d + ["images"] == root + ["dist", "images"];
    assert d + ["index.html"] == root + ["dist", "index.html"];
  }

  /** Where image `n` is copied from: `path.join(IMAGES_DIR, file)`. */
  function Src(root: seq<string>, n: string): string {
    JoinUnder(ImagesDir(root), n)
  }

  /** Where image `n` is copied to: `path.join(DIST_IMAGES_DIR, file)`. */
  function Dest(root: seq<string>, n: string): string {
    JoinUnder(DistImagesDir(root), n)
  }

  /** For a directory entry's name, source and destination are the two directories' children. */
  lemma EntryPaths(root: seq<string>, n: string)
    requires AllPlain(root) && Plain(n)
    ensures Src(root, n) == Abs(root + ["images", n])
    ensures Dest(root, n) == Abs(root + ["dist", "images", n])
  {
    SrcPath(root, n);
    DestPath(root, n);
  }

  lemma SrcPath(root: seq<string>, n: string)
    requires AllPlain(root) && Plain(n)
    ensures Src(root, n) == Abs(root + ["images", n])
  {
    var d := root + ["images"];
    assert AllPlain(d);
    JoinPlain(d, n);
    assert d + [n] == root + ["images", n];
  }

  lemma DestPath(root: seq<string>, n: string)
    requires AllPlain(root) && Plain(n)
    ensures Dest(root, n) == Abs(root + ["dist", "images", n])
  {
    var d := root + ["dist", "images"];
    assert AllPlain(d);
    JoinPlain(d, n);
    assert d + [n] == root + ["dist", "images", n];
  }

  /**
   * No copy writes over a source image, and different images go to different
   * destinations.
   */
  lemma Separation(root: seq<string>, m: string, n: string)
    requires AllPlain(root) && Plain(m) && Plain(n)
    ensures Src(root, m) != Dest(root, n)
    ensures Dest(root, m) == Dest(root, n) ==> m == n
  {
    SourceNotDest(root, m, n);
    DestInjective(root, m, n);
  }

  lemma SourceNotDest(root: seq<string>, m: string, n: string)
    requires AllPlain(root) && Plain(m) && Plain(n)
    ensures Src(root, m) != Dest(root, n)
  {
    SrcPath(root, m);
    DestPath(root, n);
    var sm, dn := root + ["images", m], root + ["dist", "images", n];
    assert AllPlain(sm) && AllPlain(dn);
    AbsInjective(sm, dn);
    assert |sm| != |dn|;
  }

  lemma DestInjective(root: seq<string>, m: string, n: string)
    requires AllPlain(root) && Plain(m) && Plain(n)
    ensures Dest(root, m) == Dest(root, n) ==> m == n
  {
    DestPath(root, m);
    DestPath(root, n);
    var dm, dn := root + ["dist", "images", m], root + ["dist", "images", n];
    assert AllPlain(dm) && AllPlain(dn);
    AbsInjective(dm, dn);
    assert dm[|root| + 2] == m && dn[|root| + 2] == n;
  }

  // --------------------------------------------------------------- disk

  /** The files the build reads and writes. */
  class Disk {
    var files: map<string, FileData>

    constructor (initial: map<string, FileData>)
      ensures files == initial
    {
      files := initial;
    }

    /** `fs.copyFileSync(src, dest)`: fails, changing nothing, when there is no `src`. */
    method CopyFile(src: string, dest: string) returns (ok: bool)
      modifies this
      ensures ok <==> src in old(files)
      ensures files == CopyOne(old(files), src, dest)
    {
      ok := src in files;
      if ok {
        files := files[dest := files[src]];
      }
    }

    /** `fs.writeFileSync(path, data)`. */
    method WriteFile(path: string, data: FileData)
      modifies this
      ensures files == old(files)[path := data]
    {
      files := files[path := data];
    }
  }

  function CopyOne(files: map<string, FileData>, src: string, dest: string): map<string, FileData> {
    if src in files then files[dest := files[src]] else files
  }

  /** The files after the images `names` are copied, one after the other. */
  function CopyAll(files: map<string, FileData>, root: seq<string>, names: seq<string>): map<string, FileData> {
    if names == [] then files
    else
      var last := names[|names| - 1];
      CopyOne(CopyAll(files, root, names[..|names| - 1]), Src(root, last), Dest(root, last))
  }

  /** How many of those copies succeed. */
  function Copied(files: map<string, FileData>, root: seq<string>, names: seq<string>): nat {
    if names == [] then 0
    else
      var init := names[..|names| - 1];
      var last := names[|names| - 1];
      Copied(files, root, init) + (if Src(root, last) in CopyAll(files, root, init) then 1 else 0)
  }

  /**
   * `copyImages()`: copies each image `getImageFiles()` reports, in order, from the
   * images directory to the output's images directory, and counts the copies that
   * succeed; a failed copy is skipped.
   */
  method CopyImages(disk: Disk, root: seq<string>, listing: Option<seq<string>>) returns (copied: nat)
    modifies disk
    ensures disk.files == CopyAll(old(disk.files), root, GetImageFiles(listing))
    ensures copied == Copied(old(disk.files), root, GetImageFiles(listing))
  {
    var imageFiles := GetImageFiles(listing);
    copied := CopyEach(disk, root, imageFiles);
  }

  /** The `forEach` loop of `copyImages`. */
  method CopyEach(disk: Disk, root: seq<string>, images: seq<string>) returns (copied: nat)
    modifies disk
    ensures disk.files == CopyAll(old(disk.files), root, images)
    ensures copied == Copied(old(disk.files), root, images)
  {
    copied := 0;
    for i := 0 to |images|
      invariant disk.files == CopyAll(old(disk.files), root, images[..i])
      invariant copied == Copied(old(disk.files), root, images[..i])
    {
      var before := disk.files;
      var src, dest := Src(root, images[i]), Dest(root, images[i]);
      var ok := disk.CopyFile(src, dest);
      if ok {
        copied := copied + 1;
      }
      assert images[..i + 1][..i] == images[..i] && images[..i + 1][i] == images[i];
      assert disk.files == CopyOne(before, src, dest);
    }
    assert images[..|images|] == images;
  }

  // ------------------------------------------------------- copy results

  /** Names as a directory listing gives them. */
  predicate Entries(names: seq<string>) {
    forall k :: 0 <= k < |names| ==> Plain(names[k])
  }

  /** A file that is no image's destination is left as it was. */
  lemma {:induction false} CopyAllElse(files: map<string, FileData>, root: seq<string>, names: seq<string>, k: string)
    requires forall i :: 0 <= i < |names| ==> k != Dest(root, names[i])
    ensures Lookup(CopyAll(files, root, names), k) == Lookup(files, k)
  {
    if names != [] {
      CopyAllElse(files, root, names[..|names| - 1], k);
    }
  }

  /** In particular every source image is left as it was. */
  lemma SourcesUntouched(files: map<string, FileData>, root: seq<string>, names: seq<string>, m: string)
    requires AllPlain(root) && Entries(names) && Plain(m)
    ensures Lookup(CopyAll(files, root, names), Src(root, m)) == Lookup(files, Src(root, m))
  {
    forall i | 0 <= i < |names| ensures Src(root, m) != Dest(root, names[i]) {
      Separation(root, m, names[i]);
    }
    CopyAllElse(files, root, names, Src(root, m));
  }

  /** Every listed image whose source exists ends up in the output, with the source's contents. */
  lemma {:induction false} CopyAllCopies(files: map<string, FileData>, root: seq<string>, names: seq<string>, j: nat)
    requires AllPlain(root) && Entries(names) && j < |names|
    requires Src(root, names[j]) in files
    ensures Lookup(CopyAll(files, root, names), Dest(root, names[j])) == Some(files[Src(root, names[j])])
  {
    var init, last := names[..|names| - 1], names[|names| - 1];
    var before := CopyAll(files, root, init);
    SourcesUntouched(files, root, init, last);
    if j == |names| - 1 {
      assert Lookup(before, Src(root, last)) == Some(files[Src(root, last)]);
    } else {
      assert init[j] == names[j];
      CopyAllCopies(files, root, init, j);
      Separation(root, names[j], last);
    }
  }

  /** No more copies succeed than there are images. */
  lemma {:induction false} CopiedBound(files: map<string, FileData>, root: seq<string>, names: seq<string>)
    ensures Copied(files, root, names) <= |names|
  {
    if names != [] {
      CopiedBound(files, root, names[..|names| - 1]);
    }
  }

  /** Every copy succeeds exactly when every listed image's source exists. */
  lemma {:induction false} CopiedAll(files: map<string, FileData>, root: seq<string>, names: seq<string>)
    requires AllPlain(root) && Entries(names)
    ensures Copied(files, root, names) == |names| <==>
      forall i :: 0 <= i < |names| ==> Src(root, names[i]) in files
  {
    if names != [] {
      var init, last := names[..|names| - 1], names[|names| - 1];
      CopiedAll(files, root, init);
      CopiedBound(files, root, init);
      SourcesUntouched(files, root, init, last);
      assert Src(root, last) in CopyAll(files, root, init) <==> Src(root, last) in files;
      assert forall i :: 0 <= i < |init| ==> init[i] == names[i];
    }
  }

  // --------------------------------------------------------------- page

  /** The template `generateHTML` uses: the file's text, or the default when it cannot be read. */
  function Template(read: Option<string>): string {
    match read
    case Some(t) => t
    case None => DefaultTemplate
  }

  /**
   * `generateHTML()`. The images directory is listed twice, once for the page and
   * once inside `copyImages`; `first` and `second` are those two listings (`None`
   * when the directory cannot be read), `template` the template file's text
   * (`None` when it cannot be read). Returns the number of images copied.
   */
  method GenerateHtml(disk: Disk, root: seq<string>, first: Option<seq<string>>,
                      second: Option<seq<string>>, template: Option<string>) returns (copied: nat)
    modifies disk
    ensures copied == Copied(old(disk.files), root, GetImageFiles(second))
    ensures disk.files == CopyAll(old(disk.files), root, GetImageFiles(second))
      [OutputFile(root) := Text(RenderPageAsWritten(Template(template), GetImageFiles(first)))]
  {
    var imageFiles := GetImageFiles(first);
    copied := CopyImages(disk, root, second);
    var html := RenderPageAsWritten(Template(template), imageFiles);
    disk.WriteFile(OutputFile(root), Text(html));
  }

  /** The image list the default page's script starts from. */
  function PageImages(page: string): Option<seq<string>> {
    var h, t := TemplateHead, TemplateTail;
    if |page| >= |h| + |t| && page[..|h|] == h && page[|page| - |t|..] == t
    then ParseManifest(page[|h|..|page| - |t|])
    else None
  }

  /**
   * Without a template file, the written page's script holds exactly the sorted
   * image names, as long as no name holds `$` (see `AmpersandCounterexample` for
   * one that does).
   */
  lemma DefaultPageImages(names: seq<string>)
    requires forall k :: 0 <= k < |names| ==> '/' !in names[k] && '$' !in names[k]
    ensures PageImages(RenderPageAsWritten(Template(None), names)) == Some(names)
  {
    AsWrittenAgrees(Template(None), names);
    DefaultPageImagesIntended(names);
  }

  /** The intended page's script holds exactly the sorted image names, whatever they are. */
  lemma DefaultPageImagesIntended(names: seq<string>)
    requires forall k :: 0 <= k < |names| ==> '/' !in names[k]
    ensures PageImages(RenderPage(Template(None), names)) == Some(names)
  {
    DefaultPage(names);
    var m := ManifestText(names);
    var page := TemplateHead + m + TemplateTail;
    assert page[..|TemplateHead|] == TemplateHead;
    assert page[|page| - |TemplateTail|..] == TemplateTail;
    assert page[|TemplateHead|..|page| - |TemplateTail|] == m;
    ManifestRoundTrip(names);
  }

  /** The images kept from a directory listing are directory entries too. */
  lemma ImagesAreEntries(listing: seq<string>)
    requires Entries(listing)
    ensures Entries(GetImageFiles(Some(listing)))
  {
    var names := GetImageFiles(Some(listing));
    forall k | 0 <= k < |names| ensures Plain(names[k]) {
      KeptExactly(listing, names[k]);
    }
  }

  /**
   * Every image the page lists has been copied next to it with its source's
   * contents, provided its source could be read. The disk is the one `GenerateHtml`
   * leaves when both listings of the images directory are `listing`, so the page's
   * list and the copy list are the same `names`.
   */
  lemma GalleryComplete(files: map<string, FileData>, root: seq<string>,
                        listing: Option<seq<string>>, template: Option<string>, j: nat)
    requires AllPlain(root) && (listing.Some? ==> Entries(listing.value))
    requires j < |GetImageFiles(listing)|
    requires Src(root, GetImageFiles(listing)[j]) in files
    ensures var names := GetImageFiles(listing);
      var page := RenderPageAsWritten(Template(template), names);
      var after := CopyAll(files, root, names)[OutputFile(root) := Text(page)];
      Lookup(after, Dest(root, names[j])) == Some(files[Src(root, names[j])])
  {
    var names := GetImageFiles(listing);
    ImagesAreEntries(listing.value);
    CopyAllCopies(files, root, names, j);
    OutputApart(root, names[j]);
  }

  /** The page is never written over a copied image. */
  lemma OutputApart(root: seq<string>, n: string)
    requires AllPlain(root) && Plain(n)
    ensures OutputFile(root) != Dest(root, n)
  {
    EntryPaths(root, n);
    var out := root + ["dist", "index.html"];
    var dst := root + ["dist", "images", n];
    assert AllPlain(out) && AllPlain(dst);
    AbsInjective(out, dst);
    assert |out| != |dst|;
  }

  /** Nor is it a source image. */
  lemma OutputNotSource(root: seq<string>, n: string)
    requires AllPlain(root) && Plain(n)
    ensures OutputFile(root) != Src(root, n)
  {
    SrcPath(root, n);
    var out := root + ["dist", "index.html"];
    var src := root + ["images", n];
    assert AllPlain(out) && AllPlain(src);
    AbsInjective(out, src);
    assert out[|root|] != src[|root|];
  }

  // --------------------------------------------------------- rebuilding

  /** No copy of a build reads or writes the page. */
  lemma OutputUntouched(root: seq<string>, names: seq<string>)
    requires AllPlain(root) && Entries(names)
    ensures forall i :: 0 <= i < |names| ==> OutputFile(root) != Src(root, names[i]) && OutputFile(root) != Dest(root, names[i])
  {
    forall i | 0 <= i < |names| ensures OutputFile(root) != Src(root, names[i]) && OutputFile(root) != Dest(root, names[i]) {
      OutputApart(root, names[i]);
      OutputNotSource(root, names[i]);
    }
  }

  /**
   * `generateHTML` reads `TEMPLATE_FILE` after `copyImages`; no copy writes it, so
   * the template read is the one on disk before the build.
   */
  lemma TemplateUntouched(files: map<string, FileData>, root: seq<string>, names: seq<string>)
    requires AllPlain(root) && Entries(names)
    ensures Lookup(CopyAll(files, root, names), TemplateFile(root)) == Lookup(files, TemplateFile(root))
  {
    forall i | 0 <= i < |names| ensures TemplateFile(root) != Dest(root, names[i]) {
      TemplateApart(root, names[i]);
    }
    CopyAllElse(files, root, names, TemplateFile(root));
  }

  lemma TemplateApart(root: seq<string>, n: string)
    requires AllPlain(root) && Plain(n)
    ensures TemplateFile(root) != Dest(root, n)
  {
    DestPath(root, n);
    var tf, dst := root + ["index.template.html"], root + ["dist", "images", n];
    assert AllPlain(tf) && AllPlain(dst);
    AbsInjective(tf, dst);
    assert |tf| != |dst|;
  }

  /** A listed image whose source is missing leaves its destination as it was. */
  lemma {:induction false} CopyAllMissing(files: map<string, FileData>, root: seq<string>, names: seq<string>, j: nat)
    requires AllPlain(root) && Entries(names) && j < |names|
    requires Src(root, names[j]) !in files
    ensures Lookup(CopyAll(files, root, names), Dest(root, names[j])) == Lookup(files, Dest(root, names[j]))
  {
    var init, last := names[..|names| - 1], names[|names| - 1];
    var k := Dest(root, names[j]);
    var before := CopyAll(files, root, init);
    if i :| 0 <= i < |init| && init[i] == names[j] {
      CopyAllMissing(files, root, init, i);
    } else {
      forall i | 0 <= i < |init| ensures k != Dest(root, init[i]) {
        DestInjective(root, init[i], names[j]);
      }
      CopyAllElse(files, root, init, k);
    }
    if last == names[j] {
      SourcesUntouched(files, root, init, last);
    } else {
      DestInjective(root, last, names[j]);
    }
  }

  /** Copying the same images a second time changes nothing. */
  lemma CopyTwice(files: map<string, FileData>, root: seq<string>, names: seq<string>)
    requires AllPlain(root) && Entries(names)
    ensures CopyAll(CopyAll(files, root, names), root, names) == CopyAll(files, root, names)
  {
    var g := CopyAll(files, root, names);
    var h := CopyAll(g, root, names);
    forall k ensures Lookup(h, k) == Lookup(g, k) {
      if j :| 0 <= j < |names| && Dest(root, names[j]) == k {
        SourcesUntouched(files, root, names, names[j]);
        if Src(root, names[j]) in files {
          CopyAllCopies(files, root, names, j);
          CopyAllCopies(g, root, names, j);
        } else {
          CopyAllMissing(g, root, names, j);
        }
      } else {
        CopyAllElse(g, root, names, k);
      }
    }
    SameLookups(h, g);
  }

  lemma SameLookups(a: map<string, FileData>, b: map<string, FileData>)
    requires forall k :: Lookup(a, k) == Lookup(b, k)
    ensures a == b
  {
    assert forall k :: k in a <==> k in b by {
      forall k ensures k in a <==> k in b {
        assert Lookup(a, k).Some? <==> Lookup(b, k).Some?;
      }
    }
    assert forall k :: k in a ==> a[k] == b[k] by {
      forall k | k in a ensures a[k] == b[k] {
        assert Lookup(a, k) == Lookup(b, k);
      }
    }
  }

  /** A write to a path that no copy reads or writes commutes with the copies. */
  lemma {:induction false} CopyAllPast(files: map<string, FileData>, root: seq<string>, names: seq<string>,
                                      o: string, v: FileData)
    requires forall i :: 0 <= i < |names| ==> o != Src(root, names[i]) && o != Dest(root, names[i])
    ensures CopyAll(files[o := v], root, names) == CopyAll(files, root, names)[o := v]
  {
    if names != [] {
      var init, last := names[..|names| - 1], names[|names| - 1];
      CopyAllPast(files, root, init, o, v);
      CopyOnePast(CopyAll(files, root, init), Src(root, last), Dest(root, last), o, v);
    }
  }

  lemma CopyOnePast(m: map<string, FileData>, src: string, dest: string, o: string, v: FileData)
    requires o != src && o != dest
    ensures CopyOne(m[o := v], src, dest) == CopyOne(m, src, dest)[o := v]
  {
  }

  /**
   * Building twice with unchanged inputs gives the same files as building once: the
   * copies write the same bytes again and the page is the same text.
   */
  lemma BuildTwice(files: map<string, FileData>, root: seq<string>, first: Option<seq<string>>,
                   second: Option<seq<string>>, template: Option<string>)
    requires AllPlain(root) && (second.Some? ==> Entries(second.value))
    ensures var names := GetImageFiles(second);
      var page := Text(RenderPageAsWritten(Template(template), GetImageFiles(first)));
      var once := CopyAll(files, root, names)[OutputFile(root) := page];
      CopyAll(once, root, names)[OutputFile(root) := page] == once
  {
    var names := GetImageFiles(second);
    if second.Some? {
      ImagesAreEntries(second.value);
    }
    BuildAgain(files, root, names, Text(RenderPageAsWritten(Template(template), GetImageFiles(first))));
  }

  lemma BuildAgain(files: map<string, FileData>, root: seq<string>, names: seq<string>, page: FileData)
    requires AllPlain(root) && Entries(names)
    ensures var once := CopyAll(files, root, names)[OutputFile(root) := page];
      CopyAll(once, root, names)[OutputFile(root) := page] == once
  {
    var out := OutputFile(root);
    OutputUntouched(root, names);
    CopyAllPast(CopyAll(files, root, names), root, names, out, page);
    CopyTwice(files, root, names);
  }

  /**
   * The page and the copied images depend only on the sources, so a build after a
   * clean writes the same outputs as a build over an old output directory (stale
   * files that no listed image overwrites stay in the latter).
   */
  lemma OutputsFromSources(a: map<string, FileData>, b: map<string, FileData>, root: seq<string>,
                           names: seq<string>, page: FileData)
    requires AllPlain(root) && Entries(names)
    requires forall j :: 0 <= j < |names| ==> Src(root, names[j]) in a && Lookup(a, Src(root, names[j])) == Lookup(b, Src(root, names[j]))
    ensures var x, y := CopyAll(a, root, names)[OutputFile(root) := page], CopyAll(b, root, names)[OutputFile(root) := page];
      Lookup(x, OutputFile(root)) == Lookup(y, OutputFile(root)) == Some(page) &&
      forall j :: 0 <= j < |names| ==> Lookup(x, Dest(root, names[j])) == Lookup(y, Dest(root, names[j])) == Some(a[Src(root, names[j])])
  {
    forall j | 0 <= j < |names|
      ensures Lookup(CopyAll(a, root, names), Dest(root, names[j])) == Some(a[Src(root, names[j])])
      ensures Lookup(CopyAll(b, root, names), Dest(root, names[j])) == Some(a[Src(root, names[j])])
    {
      assert Src(root, names[j]) in b;
      CopyAllCopies(a, root, names, j);
      CopyAllCopies(b, root, names, j);
    }
    OutputUntouched(root, names);
  }

  // -------------------------------------------------------------- watch

  /** What `fs.watch` reports in watch mode: a change in the images directory or to the template. */
  datatype BuildEvent = ImageEvent(filename: Option<string>) | TemplateEvent

  /**
   * Whether `watch()` rebuilds on an event: image events with a reported image name;
   * template events only when the template existed when watching began.
   */
  function BuildReacts(templateExisted: bool, e: BuildEvent): bool {
    match e
    case ImageEvent(f) => f.Some? && IsImageFile(f.value)
    case TemplateEvent => templateExisted
  }

  /** `--watch` on the command line selects watch mode. */
  function WatchMode(argv: seq<string>): bool {
    "--watch" in argv
  }

  /**
   * An image event that is ignored concerns a file that cannot change the gallery:
   * that name appearing in the listing, or going from it, leaves the image list as it is.
   */
  lemma IgnoredEventHarmless(templateExisted: bool, a: seq<string>, b: seq<string>, n: string)
    requires !BuildReacts(templateExisted, ImageEvent(Some(n)))
    ensures GetImageFiles(Some(a + [n] + b)) == GetImageFiles(Some(a + b))
  {
    var x, y := a + [n] + b, a + b;
    assert multiset(x) == multiset(a) + multiset{n} + multiset(b);
    assert multiset(y) == multiset(a) + multiset(b);
    SameImages(x, y, n);
  }

  /** Two listings that differ only in copies of a non-image name give the same images. */
  lemma SameImages(x: seq<string>, y: seq<string>, n: string)
    requires !IsImageFile(n)
    requires forall z :: z != n ==> multiset(x)[z] == multiset(y)[z]
    ensures GetImageFiles(Some(x)) == GetImageFiles(Some(y))
  {
    var rx, ry := GetImageFiles(Some(x)), GetImageFiles(Some(y));
    forall z ensures multiset(rx)[z] == multiset(ry)[z] {
      if z == n {
        assert multiset(rx)[z] == 0 == multiset(ry)[z];
      } else {
        assert multiset(x)[z] == multiset(y)[z];
      }
    }
    assert multiset(rx) == multiset(ry);
    SortedUnique(rx, ry);
  }

  /** The rebuild filter asks the scanner's own question about the reported name. */
  lemma ReactsLikeScanner(templateExisted: bool, listing: seq<string>, n: string)
    requires n in listing
    ensures BuildReacts(templateExisted, ImageEvent(Some(n))) <==> n in GetImageFiles(Some(listing))
  {
    KeptExactly(listing, n);
  }
}
