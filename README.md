# Static gallery build tool, modelled in Dafny

The repository builds a one-page image gallery. `build.js` lists the `images`
directory, keeps the names whose lower-cased extension is one of `.jpg .jpeg .png
.gif .svg .webp`, sorts them, copies each image into `dist/images`, and writes
`dist/index.html`. The page is a template in which the placeholder
`/* IMAGE_FILES_PLACEHOLDER */` is replaced by the names as a JSON array
(`JSON.stringify(names, null, 8)`, every line after the first indented by eight more
spaces). `dev-server.js` serves `dist` over HTTP, refuses requests that leave it,
picks a content type by extension, falls back to `index.html` for missing paths
without an extension, and rebuilds on file changes through a 500 ms `debounce`.
`clean.js` deletes `dist` recursively, in post-order.

The model:

- `Strings`: `startsWith`, `indexOf`, `split`/`join` on one character, ASCII
  `toLowerCase`, and the code-unit order that `sort()` uses.
- `PosixPath`: `path.extname`, and `path.join`/`path.normalize` for an absolute
  base, as segment-list processing (`''` and `.` skipped, `..` pops).
- `Scanner`: `IMAGE_EXTENSIONS` and `getImageFiles` (filter, then sort, with the
  empty list when the directory cannot be read).
- `Manifest`: `JSON.stringify` of an array of strings with an eight-space gap (the
  string escapes of section 7 of RFC 8259, the array layout of section 5), the
  re-indentation, and a reader for the text that proves it round-trips.
- `Render`: `template.replace(placeholder, text)`. It has two versions: as the code
  calls it, where `$`-patterns in the replacement are expanded, and the intended
  literal first-occurrence replacement.
- `Build`: the file system as a map from path to contents, held by a `Disk` class.
  `copyImages` is a loop that counts successful copies. `generateHTML` is a method
  that writes the page as the code's `replace` computes it; with no `$` in any name
  that is the intended page (`Render.AsWrittenAgrees`).
  The module also models the event filter of `--watch`.
- `DevServer`: the request handler as a function from the URL and a read-outcome
  map to a status, headers, body and the paths it read. It comes in two versions:
  with the `startsWith` guard as written, and with the guard that is meant. The
  module also models the three watch filters of `watchFiles`.
- `Debounce`: a `Debouncer` class whose `timeout` field is idle or a pending timer.
  Its methods are proved against a reference function over the history of calls and
  clock ticks.
- `Clean`: a tree as `lstatSync`/`readdirSync` show it, and a `Cleaner` class whose
  recursive method with a loop logs its `unlinkSync`/`rmdirSync` calls. The model
  proves that the logged removals succeed on a file system holding the tree, remove
  each node exactly once, and run in post-order.

Where the code and the prose description of the tool disagree, the model follows
the code:

- A build does not remove stale files from `dist/images`, so that directory holds
  the listed images plus whatever was there before (`OutputsFromSources`).
- The template watcher exists only if the template existed when watching began.
- Names are sorted by character code, not by a locale order.
- A `dist` that is not a directory makes `readdirSync` throw before anything is
  removed (`CleanDist` returns `false`).
- Rebuilds are not mutually excluded.
- The page is written with `replace` as the code calls it, so a name holding `$&`
  (or another `$`-pattern) changes the page; the Findings below give the corrected
  replacement and prove it beside the code's.

## Model

| member | source | states |
|---|---|---|
| Strings.IndexOfFrom | build.js:75 | the result, when there is one, is an occurrence at or after `from`, and no occurrence lies between `from` and it |
| Strings.StartsWith | dev-server.js:47 | `s.startsWith(p)`: `p` is a prefix of `s`; `PosixPath.AbsPrefix` and `DevServer.GuardAsWrittenAdmits` characterise it on path texts |
| Strings.IndexOf | build.js:75 | `s.indexOf(needle)`: the search from position 0, whose result `FirstOccurrence` pins to the first occurrence |
| Strings.FirstOccurrence | build.js:75 | an occurrence with none before it is the one `indexOf` reports |
| Strings.Split | build.js:71 | `split` on one character gives at least one part and no part holds the separator |
| Strings.JoinSplit | build.js:71-73 | `join` after `split` on the same character gives the text back |
| Strings.SplitJoin | build.js:71-73 | `split` after `join` gives the parts back when no part holds the separator |
| Strings.SplitAfterParts | dev-server.js:44 | splitting joined parts, a separator and a rest gives the parts followed by the rest's parts |
| Strings.SplitNoSeparator | build.js:71 | a text without the separator splits into itself alone |
| Strings.JoinAppend | build.js:73 | joining two non-empty lists puts exactly one separator between their texts |
| Strings.JoinChars | build.js:73 | every character of a joined text is the separator or a character of some part |
| Strings.ToLower | build.js:42 | `toLowerCase` on ASCII letters, character by character; `LowerStable` gives its fixed points |
| Strings.LowerStable | build.js:42 | text without upper-case ASCII letters is its own lower case |
| Strings.Below | build.js:44 | the comparison `sort()` uses without a comparator: lexicographic by character, a proper prefix first; `BelowTotal`, `BelowAntisymmetric` and `BelowTransitive` make it a total order |
| Strings.BelowTotal | build.js:44 | the default sort order relates any two names |
| Strings.BelowAntisymmetric | build.js:44 | two names each below the other are equal |
| Strings.BelowTransitive | build.js:44 | the default sort order is transitive |
| PosixPath.TrimTrailingSlashes | build.js:42 | the result is a prefix of the path and does not end in `/` |
| PosixPath.LastIndexOf | build.js:42 | the result is the last position of the character, or `None` exactly when it is absent |
| PosixPath.LastComponent | build.js:42 | the final component holds no `/` |
| PosixPath.Extname | build.js:42 | Node's `path.extname`: from the last `.` of the final component (trailing `/` trimmed) when that dot is not the component's first character and the component is not `..`; otherwise empty. `ExtnameShape`, `ExtnameOfName`, `ExtnameNoDot` and `DotNames` characterise it |
| PosixPath.ExtnameShape | build.js:42 | an extension is empty or a `.` followed by neither `.` nor `/`, and it ends the final component |
| PosixPath.ExtnameOfName | build.js:42 | a plain name's extension runs from its last dot, when that dot is not first |
| PosixPath.ExtnameNoDot | build.js:42 | a name without a dot has no extension |
| PosixPath.DotNames | build.js:42 | `.` and `..` have no extension |
| PosixPath.Fold | dev-server.js:44 | normalising segments onto a plain stack leaves only plain segments, no more than went in |
| PosixPath.NormalSegments | dev-server.js:44 | a normalised path's segments are all plain |
| PosixPath.Normalize | dev-server.js:44 | `path.normalize` of an absolute path: `''` and `.` segments dropped, `..` pops (never above `/`), a trailing `/` kept; `NormalizeShape` states the result's form |
| PosixPath.JoinUnder | build.js:4-8 | `path.join(base, x)` for an absolute `base`: `base/x` normalised, an empty `x` skipped; `JoinPlain` and `JoinedSegments` characterise it |
| PosixPath.AbsAppend | dev-server.js:44 | the text of concatenated segment lists is the concatenation of their texts |
| PosixPath.AbsIsJoin | dev-server.js:44 | a non-empty path's text is `/` followed by its segments joined with `/` |
| PosixPath.FoldAppend | dev-server.js:44 | normalising a concatenation normalises the first part, then the second |
| PosixPath.FoldPlain | dev-server.js:44 | plain segments are pushed unchanged |
| PosixPath.FoldSkipsEmpty | dev-server.js:44 | an empty segment (from `//` or a leading `/`) changes nothing |
| PosixPath.SplitUnder | dev-server.js:44 | the text of a directory, `/` and more splits into an empty part, the directory's segments and the rest's parts |
| PosixPath.JoinedSegments | dev-server.js:44 | joining text onto a normalised directory normalises the text's parts on top of the directory's segments |
| PosixPath.SplitAbs | dev-server.js:44 | an absolute path's text splits into an empty part and its segments |
| PosixPath.AbsHead | dev-server.js:47 | a path's text is empty or starts with `/` |
| PosixPath.WordPrefix | dev-server.js:47 | a `/`-free word and a `/`-led rest that starts with another such pair starts with its word, or shares it |
| PosixPath.StartsWithCommon | dev-server.js:47 | a common prefix can be dropped from both sides of `startsWith` |
| PosixPath.AbsCons | dev-server.js:47 | a path's text is `/`, its first segment, then the `/`-led text of the rest |
| PosixPath.AbsPrefix | dev-server.js:47 | a normalised path's text starts with a directory's text exactly when it agrees with it up to the last word, which it extends |
| PosixPath.AbsPrefixOnlyIf | dev-server.js:47 | the only-if half of `AbsPrefix` |
| PosixPath.AbsPrefixIf | dev-server.js:47 | the if half of `AbsPrefix` |
| PosixPath.JoinPlain | build.js:25-26 | joining a plain name onto a normalised directory appends that segment |
| PosixPath.PlainSegments | build.js:25-26 | the normalised segments of a directory, `/` and a plain name are the directory's and the name |
| PosixPath.NormalizeUntrailed | dev-server.js:44 | a path not ending in `/` that keeps some segments normalises to their text |
| PosixPath.AbsInjective | build.js:25-26 | different normalised segment lists have different texts |
| PosixPath.LastComponentChild | build.js:42 | a child path's final component is the child's name |
| PosixPath.ExtnameChild | dev-server.js:53 | a child path's extension is the child's extension |
| PosixPath.AbsSnoc | build.js:25-26 | appending a segment appends `/` and the segment to the text |
| PosixPath.NormalizeShape | dev-server.js:44 | `normalize` leaves a trailing `/` exactly when the text has one or no segment remains |
| Scanner.IsImageFile | build.js:41-43 | the filter: the lower-cased `path.extname` of the name is one of `IMAGE_EXTENSIONS` (build.js:10, the constant `Scanner.ImageExtensions`); `ImageByExtension` unfolds it for a name with a dot |
| Scanner.ImageFileIsNamed | build.js:41-43 | a kept name has a non-empty extension and is neither `.` nor `..` |
| Scanner.Filter | build.js:41-43 | filtering never lengthens a list |
| Scanner.FilterCounts | build.js:41-43 | each name is kept as often as listed when it passes, and never otherwise |
| Scanner.FilterKeeps | build.js:41-43 | a passing name at the head stays at the head |
| Scanner.FilterDrops | build.js:41-43 | a failing name at the head is dropped |
| Scanner.Insert | build.js:44 | inserting into a sorted list gives a sorted list with the name added |
| Scanner.Sort | build.js:44 | the result is sorted and a permutation of the input |
| Scanner.HeadIsLeast | build.js:44 | a sorted list's first name is below each of its names |
| Scanner.SortedUnique | build.js:44 | two sorted lists with the same names are equal |
| Scanner.HeadsAgree | build.js:44 | two sorted lists with the same names have the same first name |
| Scanner.SortedTail | build.js:44 | the tail of a sorted list is sorted |
| Scanner.FilterPermutes | build.js:41-43 | filtering permutations of a list gives permutations of the same kept list |
| Scanner.GetImageFiles | build.js:38-49 | the result is sorted; it has each allowed name as often as the listing does and no other name; an unreadable directory gives the empty list |
| Scanner.KeptExactly | build.js:41-43 | a name is in the result exactly when it is listed and its lower-cased extension is allowed |
| Scanner.NoDuplicates | build.js:40-44 | a listing without repeated names gives a result without repeated names |
| Scanner.DistinctCount | build.js:40 | a listing without repeated names has each name at most once |
| Scanner.ListingOrderIrrelevant | build.js:40-44 | listings with the same names in any order give the same result |
| Scanner.ImageByExtension | build.js:10 | a name is an image exactly when its last-dot extension, lower-cased, is one of the six allowed |
| Scanner.ExamplePng | build.js:10 | illustration: `b.png` is kept |
| Scanner.ExampleJpg | build.js:10 | illustration: `a.jpg` is kept |
| Scanner.ExampleTxt | build.js:10 | illustration: `notes.txt` is not kept |
| Scanner.NotAnExtension | build.js:10 | no allowed extension has `t` after its dot |
| Scanner.TwoOfThree | build.js:41-44 | illustration, a step of `ExampleListing`: two kept names and one dropped one come out as the two, in order |
| Scanner.KeptTwo | build.js:41-43 | illustration: the filter keeps the two passing names of three |
| Scanner.KeptInOrder | build.js:41-43 | illustration: the filter keeps them in listing order |
| Scanner.ExampleListing | build.js:38-49 | illustration of `GetImageFiles` and `KeptExactly` on one listing: `b.png`, `a.jpg`, `notes.txt` give `["a.jpg", "b.png"]` |
| Manifest.Quote | build.js:71 | `JSON.stringify` of one string: a `"`, the escaped characters, a `"`; `UnquoteQuote` reads it back |
| Manifest.Stringify | build.js:71 | `JSON.stringify(names, null, 8)`: `[]` for no names, else `[`, each literal on its own line behind eight spaces, commas between, and `]`; `StringifyLines` states its lines |
| Manifest.Reindent | build.js:71-73 | the `split`, `map` and `join` that put eight more spaces before every line but the first; `ReindentLines` |
| Manifest.ManifestText | build.js:71-73 | the text that replaces the placeholder, the re-indented stringified names; `ManifestLines` and `ManifestRoundTrip` |
| Manifest.HexDigit | build.js:71 | a hexadecimal digit reads back as its value |
| Manifest.HexValue | build.js:71 | a digit's value is below 16 |
| Manifest.HexQuad | build.js:71 | four digits read as a value below `0x10000` |
| Manifest.EscapeChars | build.js:71 | an escaped text has no control characters, and only its own characters or escape characters |
| Manifest.EscapeAppend | build.js:71 | escaping works character by character |
| Manifest.UnescapeChar | build.js:71 | reading back one escaped character gives it, then reads on |
| Manifest.UnescapeEscape | build.js:71 | reading back an escaped text gives the text |
| Manifest.UnquoteQuote | build.js:71 | reading back a string literal gives the string |
| Manifest.ReindentLines | build.js:71-73 | re-indentation keeps the line count and the first line, and puts exactly eight spaces before every later line |
| Manifest.ReindentOneLine | build.js:71-73 | a one-line text is left as it is |
| Manifest.ItemLinesCons | build.js:71 | the first item line is the gap, the first literal and a comma |
| Manifest.JoinItemLines | build.js:71 | the item lines joined are the gap and the items text |
| Manifest.ItemsCons | build.js:71 | the items text is the first literal, a comma, a line break, the gap and the rest |
| Manifest.StringifyLines | build.js:71 | `JSON.stringify` of a non-empty array is `[`, one line per item, and `]` |
| Manifest.EscapeLinesFree | build.js:71 | no item line holds a line break |
| Manifest.ManifestLines | build.js:71-73 | the empty list gives `[]`; `n` names give `n + 2` lines, `[` first, each name at sixteen spaces with a comma unless last, and `]` at eight |
| Manifest.ReindentedItems | build.js:71-73 | the manifest's lines are `[`, the item lines each behind eight more spaces, and `]` behind eight |
| Manifest.Framed | build.js:71-73 | the stringified lines are the framed item lines |
| Manifest.ParseItemLine | build.js:216 | one manifest line reads back as its name |
| Manifest.ParseItemsBack | build.js:216 | the manifest's lines read back as the names, in order |
| Manifest.ManifestRoundTrip | build.js:71-73 | the page's script gets back exactly the names, in order |
| Manifest.ItemLineChars | build.js:71 | an item line holds only spaces, a comma, its name's characters and escape characters |
| Manifest.ManifestChars | build.js:71-73 | the manifest starts with `[` and holds only layout characters, escape characters and characters of the names |
| Manifest.ManifestOpens | build.js:71-73 | the manifest is never empty and opens with `[` |
| Render.Expand | build.js:75 | ECMA-262's `GetSubstitution` for a string pattern: `$$`, `$&`, `` $` `` and `$'` expanded, every other character copied; `ExpandPlain` and `ExpandAmpersand` |
| Render.ReplaceAsWritten | build.js:75 | `s.replace(pat, rep)` with a string `rep`: the first occurrence gives way to the expanded `rep`, no occurrence changes nothing; `AsWrittenPlain` |
| Render.ReplaceFirst | build.js:75 | the literal first-occurrence replacement the code means; `ReplaceFirstMeaning` |
| Render.RenderPage | build.js:75 | the intended page: the manifest put literally in place of the first placeholder |
| Render.RenderPageAsWritten | build.js:75 | the page the code writes, through `ReplaceAsWritten`; `AsWrittenAgrees` and `AmpersandCounterexample` |
| Render.ExpandPlain | build.js:75 | a replacement without `$` is copied as it is |
| Render.ExpandLiteralPrefix | build.js:75 | a `$`-free prefix of a replacement is copied as it is |
| Render.AsWrittenPlain | build.js:75 | with no `$` in the replacement, the code's replacement is the literal one |
| Render.ReplaceFirstMeaning | build.js:75 | a text without the placeholder is unchanged; otherwise only the first occurrence is replaced and the text around it is kept |
| Render.ManifestFree | build.js:71-73 | a character that neither layout nor escapes produce is in the manifest only if a name holds it |
| Render.ManifestWithout | build.js:71-73 | neither `/` nor `$` appears in the manifest unless a name holds it |
| Render.AsWrittenAgrees | build.js:75 | when no name holds `$`, the code's page is the intended page |
| Render.SlashFreeFirst | build.js:75 | in a head without `/` no placeholder can start |
| Render.OneSlashFirst | build.js:88 | nor in a head whose one `/` is followed by something other than `*`, as in a closing tag such as `</title>` |
| Render.HeadFirst | build.js:83-216 | the stand-in's head, `</title>` and all, holds no start of a placeholder |
| Render.TemplateParts | build.js:83-216 | in the stand-in for the default template (its `<title>` line, closing tag included, and the script line of build.js:216), no placeholder starts before the one the script line holds, and the tail holds none |
| Render.RenderedPage | build.js:75 | the intended page for a template `head + placeholder + tail`, where no placeholder starts inside the head and the tail holds none, is head, manifest, tail; with no `/` in any name no placeholder is left |
| Render.RenderedPageAsWritten | build.js:75 | the code's page for such a template is head, manifest, tail with no placeholder left, when no name holds `/` or `$` |
| Render.ReplaceAt | build.js:75 | when no placeholder starts inside the head, the one after it is the one replaced |
| Render.SpliceNoPlaceholder | build.js:75 | a `/`-free text opening with `[` between such a head and a placeholder-free tail leaves no placeholder: one starting in the head would have to contain the `[` |
| Render.NotAtSlashFree | build.js:216 | the placeholder starts only at a `/` |
| Render.NotAtStarFree | build.js:216 | the placeholder does not start at a character followed by one other than `*` |
| Render.NotFromHead | build.js:75 | no placeholder starts in a head in which none starts when it is followed by a `[` |
| Render.PlaceholderFirst | build.js:216 | when no placeholder starts inside the head, the one after it is the text's first occurrence |
| Render.DefaultPage | build.js:63-69 | the intended page for the default template is its head, the manifest and its tail, with no placeholder |
| Render.DefaultPageAsWritten | build.js:63-75 | the code's page for the default template is its head, the manifest and its tail, with no placeholder, when no name holds `$` |
| Render.SingleManifest | build.js:71-73 | the manifest of one name, written out, a step towards `AmpersandManifest` |
| Render.SingleLines | build.js:71 | the stringified lines of one name, for `SingleManifest` |
| Render.ExpandAmpersand | build.js:75 | `$&` in a replacement brings back the matched text |
| Render.AsWrittenEcho | build.js:75 | the code's replacement with `$&` puts the placeholder back into the page |
| Render.EscapeAmpersand | build.js:71 | `$` and `&` are not escaped by `JSON.stringify` |
| Render.AmpersandManifest | build.js:71-73 | the manifest of `a$&b` splits at that `$&` |
| Render.AmpersandLayout | build.js:71-73 | the manifest's layout splits at the `$&` |
| Render.EchoPage | build.js:75 | a manifest with `$&` leaves a placeholder in the code's page |
| Render.AmpersandKeepsPlaceholder | build.js:75 | the code's page for the one name `a$&b` still holds a placeholder |
| Render.AmpersandCorrected | build.js:75 | the intended page for that name holds none |
| Render.AmpersandNameIsImage | build.js:41-43 | `x$&.png` is an image name the scanner keeps |
| Render.AmpersandCounterexample | build.js:75 | `x$&.png` is kept and the code's page for it holds the placeholder |
| Build.ImagesDir | build.js:4 | `IMAGES_DIR`, an absolute path, which `path.join` onto it needs; `ProjectPaths` shows it is the join of `images` onto the project |
| Build.TemplateFile | build.js:5 | `TEMPLATE_FILE`, an absolute path; `ProjectPaths` shows it is the join of `index.template.html` onto the project |
| Build.DistDir | build.js:6 | `DIST_DIR`, an absolute path; `ProjectPaths` shows it is the join of `dist` onto the project |
| Build.ProjectPaths | build.js:4-6 | `IMAGES_DIR`, `TEMPLATE_FILE` and `DIST_DIR` are `path.join(__dirname, name)` with their three names |
| Build.DistImagesDir | build.js:8 | `DIST_IMAGES_DIR`, an absolute path; `DistPaths` shows it is the join of `images` onto `DIST_DIR` |
| Build.OutputFile | build.js:7 | `OUTPUT_FILE`, an absolute path; `DistPaths` shows it is the join of `index.html` onto `DIST_DIR` |
| Build.DistPaths | build.js:7-8 | both output paths are the `path.join`s written onto `DIST_DIR` |
| Build.EntryPaths | build.js:25-26 | an entry's source and destination are children of the two images directories |
| Build.SrcPath | build.js:25 | the source is `images/n` under the project |
| Build.DestPath | build.js:26 | the destination is `dist/images/n` under the project |
| Build.Separation | build.js:25-26 | no source is a destination, and different names have different destinations |
| Build.SourceNotDest | build.js:25-26 | no source is a destination |
| Build.DestInjective | build.js:26 | different names have different destinations |
| Build.Disk.constructor | build.js:18-36 | the disk starts with the given files |
| Build.Disk.CopyFile | build.js:28 | a copy succeeds exactly when the source exists (other failures are not modelled, see below), and then writes its contents to the destination and changes nothing else |
| Build.Disk.WriteFile | build.js:77 | the page's path holds the written text and nothing else changes |
| Build.CopyImages | build.js:18-36 | the disk after `copyImages` is every kept image copied in order; the count is the number of successful copies |
| Build.CopyEach | build.js:22-35 | the loop leaves the disk and count that the reference copy gives |
| Build.CopyAll | build.js:24-33 | the reference for the copy loop: the kept names in order, each source copied over its destination when it exists and skipped otherwise |
| Build.Copied | build.js:22-35 | the count the loop returns: the copies whose source exists when its turn comes |
| Build.CopyAllElse | build.js:24-33 | a path that is no image's destination is left as it was |
| Build.SourcesUntouched | build.js:24-33 | every source image is left as it was |
| Build.CopyAllCopies | build.js:24-33 | every listed image whose source exists is at its destination with its source's contents |
| Build.CopyAllMissing | build.js:27-32 | a listed image whose source is missing leaves its destination as it was |
| Build.CopiedBound | build.js:22-35 | the count is at most the number of images |
| Build.CopiedAll | build.js:22-35 | the count equals the number of images exactly when every source exists |
| Build.Template | build.js:62-69 | the template file's text, or `getDefaultTemplate()` when reading it throws |
| Build.GenerateHtml | build.js:51-80 | the disk after `generateHTML` is the images copied and, over `OUTPUT_FILE`, the page that `replace` as the code calls it produces; the count is as `copyImages` reports it |
| Build.DefaultPageImages | build.js:63-75 | without a template file, the script of the page the code writes reads back exactly the names, in order, when no name holds `$` |
| Build.DefaultPageImagesIntended | build.js:63-69 | the intended page's script reads back exactly the names, in order, for any names |
| Build.ImagesAreEntries | build.js:41-44 | the images kept from a listing of entries are entries |
| Build.GalleryComplete | build.js:18-80 | when both listings of the images directory are the same, every image the page lists whose source exists is, in the disk `generateHTML` leaves, in `dist/images` with its source's contents |
| Build.OutputApart | build.js:7-8 | the page is never one of the copies |
| Build.OutputNotSource | build.js:4-7 | nor one of the sources |
| Build.OutputUntouched | build.js:24-33 | no copy reads or writes the page |
| Build.TemplateUntouched | build.js:59-64 | the template is read after the copies, and no copy writes `TEMPLATE_FILE`, so the text read is the one on disk before the build |
| Build.TemplateApart | build.js:5-8 | `TEMPLATE_FILE` is no image's destination |
| Build.CopyTwice | build.js:24-33 | copying the same images again changes nothing |
| Build.CopyAllPast | build.js:24-33 | a write to a path no copy touches commutes with the copies |
| Build.CopyOnePast | build.js:28 | a write to a path one copy does not touch commutes with it |
| Build.BuildAgain | build.js:51-80 | a second build with the same names and page writes the same files |
| Build.BuildTwice | build.js:51-80 | building twice with unchanged inputs gives the same files as building once |
| Build.OutputsFromSources | build.js:51-80 | two disks with the same sources get the same page and the same copies, whatever `dist` held before |
| Build.BuildReacts | build.js:294-305 | watch mode rebuilds for an images event whose reported name passes the filter, and for template events only when the template existed at start |
| Build.WatchMode | build.js:309 | `--watch` among the arguments selects watch mode |
| Build.IgnoredEventHarmless | build.js:294-299 | an images event that does not rebuild names a file whose appearance changes no image list |
| Build.SameImages | build.js:41-44 | listings that differ only in a non-image name give the same images |
| Build.ReactsLikeScanner | build.js:294-299 | an images event rebuilds exactly when the named file is one the scanner keeps |
| DevServer.ContentType | dev-server.js:53-54 | `mimeTypes[extname] || 'application/octet-stream'`, over the eleven-entry table of dev-server.js:10-22 (the constant `DevServer.MimeTypes`); `ImageTypes` and `HtmlType` |
| DevServer.RequestPath | dev-server.js:44 | `path.join(DIST_DIR, req.url === '/' ? 'index.html' : req.url)` on the raw URL |
| DevServer.GuardAsWritten | dev-server.js:47 | the traversal check as written, `filePath.startsWith(DIST_DIR)`; `GuardAsWrittenAdmits` gives the exact set it admits |
| DevServer.Inside | dev-server.js:46-47 | the check the comment means: `DIST_DIR` itself or a path below it; `InsideExactly` |
| DevServer.Respond | dev-server.js:53-83 | past the check: read the path; on success 200 with the table's type; on `ENOENT` without an extension read `index.html` (200 `text/html`, or 404); `ENOENT` with an extension 404; any other code 500 `Server Error: <code>` |
| DevServer.HandleAsWritten | dev-server.js:43-84 | the callback as written: 403 `Forbidden`, nothing read, when `startsWith` fails, else `Respond`; `Outcomes`, `RefusedAsWritten` and `ReadsAsWritten` |
| DevServer.Handle | dev-server.js:43-84 | the callback with the intended check; `AsWrittenInside` ties it to the code's and `RefusedExactly` states its check |
| DevServer.ImageTypes | dev-server.js:10-22 | every allowed image extension is served with an `image/` type |
| DevServer.Outcomes | dev-server.js:43-84 | for the code's handler and the intended one, every response is 200, 403, 404 or 500; 200 exactly when the last read succeeded, with its bytes and a type; otherwise a text body and no type |
| DevServer.RefusedAsWritten | dev-server.js:47-51 | the code's handler sends 403 exactly when the joined path does not start with `DIST_DIR`, and then `Forbidden` with nothing read |
| DevServer.AsWrittenInside | dev-server.js:47 | on a path inside `dist` the code's handler is the intended one |
| DevServer.RespondOutcomes | dev-server.js:53-83 | past the guard, the path itself is read first and the status is never 403 |
| DevServer.RequestSegments | dev-server.js:44 | a URL of segments ending in a plain one resolves to the normalised segments under `dist` |
| DevServer.UntrailedRequest | dev-server.js:44 | a URL not ending in `/` resolves without a trailing `/` |
| DevServer.PlainRequest | dev-server.js:44 | `/a/b/c` with plain segments is `dist/a/b/c` |
| DevServer.TraversalPath | dev-server.js:44 | `/../s/f` resolves to the sibling `s` of `dist` |
| DevServer.TraversalText | dev-server.js:44 | the text of `..`, `s`, `f` is `/../s/f` |
| DevServer.TraversalFold | dev-server.js:44 | `..` right below `dist` climbs back to its parent |
| DevServer.RequestShape | dev-server.js:44 | the joined path is its normalised segments, with a `/` at the end or not |
| DevServer.GuardAsWrittenAdmits | dev-server.js:47 | the guard as written admits exactly the paths that agree with `dist` up to its last word, which they only need to start with |
| DevServer.AbsLast | dev-server.js:44 | a path ending in a plain segment does not end in `/` |
| DevServer.InsideExactly | dev-server.js:47 | the intended guard admits exactly the paths whose segments begin with those of `dist` |
| DevServer.DistIf | dev-server.js:47 | the if half of `InsideExactly` |
| DevServer.DistOnlyIf | dev-server.js:47 | the only-if half of `InsideExactly` |
| DevServer.RefusedExactly | dev-server.js:47-51 | a request is refused exactly when its normalised segments do not begin with those of `dist` |
| DevServer.Refused | dev-server.js:47-51 | the intended handler answers a request whose path is not inside `dist` with 403 `Forbidden` and reads nothing |
| DevServer.ReadsInside | dev-server.js:47-62 | every file the intended handler reads lies in `dist` (the code's handler does not keep this: `TraversalCounterexample`) |
| DevServer.ReadsAsWritten | dev-server.js:47-62 | every file the code's handler reads starts, as text, with `DIST_DIR` |
| DevServer.RespondReads | dev-server.js:56-62 | the handler reads the path itself, then perhaps `index.html` |
| DevServer.TraversalAsWritten | dev-server.js:44-56 | the guard as written lets `/../s/f` read outside `dist` for a sibling `s` beginning with `dist`; the intended guard refuses it |
| DevServer.SiblingPasses | dev-server.js:47 | a path in such a sibling passes the guard as written |
| DevServer.SiblingOutside | dev-server.js:47 | a path in a sibling of `dist` is not inside it |
| DevServer.AdmittedReads | dev-server.js:47-56 | a request the guard as written admits reads its joined path first |
| DevServer.TraversalCounterexample | dev-server.js:47 | `/../dist-old/x` is read by the handler as written, outside `dist` |
| DevServer.IndexIsOutput | dev-server.js:61 | the fallback file is the page the build writes, and it is inside `dist` |
| DevServer.HtmlType | dev-server.js:11 | `.html` is served as `text/html` |
| DevServer.ServesFile | dev-server.js:79-82 | a readable path inside `dist` is answered 200 with its bytes and the type of its lower-cased extension, by both handlers |
| DevServer.OutputIsHtml | dev-server.js:53 | the page's extension is `.html` |
| DevServer.HtmlName | dev-server.js:44 | `index.html` is a plain name with extension `.html` |
| DevServer.RootServesPage | dev-server.js:44 | `/` is answered with the built page as `text/html`, by both handlers |
| DevServer.ImagePath | dev-server.js:44 | `/images/n` resolves to the copy of image `n` |
| DevServer.PairText | dev-server.js:44 | the text of two segments |
| DevServer.ImageRequest | dev-server.js:44-53 | `/images/n` is the copy of image `n`, inside `dist`, with the image's extension |
| DevServer.ServesImage | dev-server.js:53-82 | an image the build copied is served 200 with its bytes and an `image/` type, by both handlers |
| DevServer.LowerEmpty | dev-server.js:53 | lower-casing keeps a text empty or non-empty |
| DevServer.ReadFailures | dev-server.js:57-78 | for both handlers, a missing path inside `dist` without an extension gets the page or 404, a missing one with an extension 404, any other failure 500 with its code |
| DevServer.InsideSelf | dev-server.js:47 | `dist` itself, with or without `/`, is inside |
| DevServer.InsideBelow | dev-server.js:47 | whatever follows `dist` and a `/` is inside |
| DevServer.InsideStarts | dev-server.js:47 | a path inside starts with `dist` |
| DevServer.InsideSuffix | dev-server.js:47 | what follows `dist` in a path inside it is empty or starts with `/` |
| DevServer.WordInside | dev-server.js:47 | a word inside a directory's last word position equals it |
| DevServer.SegsShape | dev-server.js:47 | the texts of a directory and a path that agrees with it up to the last word |
| DevServer.InsideIf | dev-server.js:47 | segments beginning with the directory's are inside it |
| DevServer.InsideOnlyIf | dev-server.js:47 | segments inside a directory begin with its segments |
| DevServer.WordStart | dev-server.js:47 | a path inside agrees with the directory up to its last word, which it starts with |
| DevServer.InsideAtWord | dev-server.js:47 | such a path begins with the directory's segments |
| DevServer.WordAgrees | dev-server.js:47 | the last word is then the directory's |
| DevServer.DevReacts | dev-server.js:115-135 | `rebuild` runs for `change` events of the template (watched only if it existed) and of `build.js`, and for images events that name a file |
| DevServer.DevCoversBuild | dev-server.js:115-128 | every images event the build's watch mode rebuilds for, the dev server rebuilds for; a template change the dev server rebuilds for, the build's watch does too |
| DevServer.DevWiderThanBuild | dev-server.js:124-128 | the dev server, unlike the build, rebuilds for a name without an extension |
| Debounce.Invocations | dev-server.js:139-149 | the reference: the arguments of each call whose timer fires before the next call, in order |
| Debounce.Pending | dev-server.js:139-149 | the timer armed after a history: the last call's, while only ticks before its deadline follow it |
| Debounce.Debouncer.constructor | dev-server.js:139-140 | no timer is armed and nothing has run |
| Debounce.Debouncer.Call | dev-server.js:141-148 | a call clears the timer and arms one `wait` ahead with its arguments; nothing runs |
| Debounce.Debouncer.Tick | dev-server.js:142-145 | a due timer runs the function with its arguments and is cleared; otherwise nothing changes |
| Debounce.QuietIsIdle | dev-server.js:139-149 | a stretch of early ticks arms and runs nothing |
| Debounce.QuietSnoc | dev-server.js:139-149 | a stretch stays quiet exactly while only early ticks are added |
| Debounce.FiresSnoc | dev-server.js:142-147 | a later event decides a timer's fate only after a quiet stretch |
| Debounce.QuietCons | dev-server.js:139-149 | quiet, one event at a time from the front |
| Debounce.CallAppended | dev-server.js:146-147 | after a call its timer is the pending one and nothing has run |
| Debounce.TickAppended | dev-server.js:142-145 | at a tick the pending timer runs exactly when due, with the arming call's arguments, and is cleared |
| Debounce.PendingIsLatest | dev-server.js:146-147 | the pending timer is the latest call's, `wait` after it |
| Debounce.InvocationsFromCalls | dev-server.js:144 | every run passes the arguments of some call, and there are no more runs than calls |
| Debounce.BurstPending | dev-server.js:146-147 | a burst of close calls runs nothing and leaves the last call's timer pending |
| Debounce.TickThenCall | dev-server.js:146-147 | an early tick, then a call: only the new call's timer is pending |
| Debounce.BurstFiresOnce | dev-server.js:139-149 | a burst of calls each less than `wait` apart runs the function once, with the last call's arguments |
| Debounce.RebuildsOnce | dev-server.js:104-112 | changes less than 500 ms apart rebuild once, 500 ms after the last, and not before |
| Clean.Removal | clean.js:6-18 | the reference removals: a directory's entries in listing order, each removed the same way, then `rmdirSync`; `unlinkSync` for anything else |
| Clean.Cleaner.constructor | clean.js:6 | nothing has been removed |
| Clean.Cleaner.RemoveDirectory | clean.js:6-18 | the removals issued are the reference removals of the tree, post-order in listing order |
| Clean.Cleaner.CleanDist | clean.js:7-21 | a missing `dist` issues nothing; a non-directory fails before any removal; a directory issues its removals |
| Clean.RunAppend | clean.js:8-16 | running two lists of removals runs one after the other |
| Clean.KeysExtend | clean.js:9 | every path of a tree lies at or below its root |
| Clean.EntryOf | clean.js:8-15 | a path of the first `k` entries belongs to one of them |
| Clean.EntryIn | clean.js:8-15 | an entry's paths are among those of the entries up to it |
| Clean.EntryNamed | clean.js:9 | an entry's paths carry its name right below the directory |
| Clean.RemovalRuns | clean.js:6-18 | on a file system holding a tree, every removal succeeds and exactly the tree's paths go |
| Clean.EntriesRun | clean.js:8-15 | so do the removals of the first `k` entries |
| Clean.ChildHeld | clean.js:8-15 | once the earlier entries are gone, the file system holds the next |
| Clean.RunTouches | clean.js:13-16 | each removal of a successful run acts on a path of the right kind that was there |
| Clean.RunRemoves | clean.js:13-16 | a path that a successful run removes is the path of one of its removals |
| Clean.RunOnce | clean.js:13-16 | a successful run never acts on a path twice |
| Clean.RunPostOrder | clean.js:13-16 | in a successful run nothing at or below a removed directory is acted on later |
| Clean.KeysValid | clean.js:10 | no path of a tree is both a file and a directory |
| Clean.LongerBelow | clean.js:16 | a directory's only path at its root is the directory |
| Clean.RemovalExactlyOnce | clean.js:6-18 | each node is removed exactly once, by `unlinkSync` for a non-directory (a symlink included) and `rmdirSync` for a directory, in post-order, with the root last |
| Clean.Gone | clean.js:16-21 | after the clean nothing is left at or below the root, and everything elsewhere is as it was |

## Left out

- File system and network I/O are parameters: a listing (`None` when `readdirSync` throws), the template text (`None` when unreadable; `Build.TemplateUntouched` shows the copies before the read do not change it), a path-to-contents map, a read-outcome map for the server, and a tree for `lstatSync`/`readdirSync`.
- `ensureDirectoryExists`/`mkdirSync` are not modelled: directories are implicit in the path map.
- Console output and error messages are not modelled, nor is `copiedCount`'s log line.
- `getDefaultTemplate`'s HTML, CSS and client script are reduced to its `<title>` line and the script line that holds the placeholder (`Render.DefaultTemplate`), and to a reader of the array it assigns. The page lemmas are stated for any template whose head holds no start of a placeholder (`Render.FirstAfter`), which the full default template also meets; the model does not prove it of that full text.
- `http.createServer`, `server.listen`, `PORT`, `buildProject`'s `exec`, `main` and the signal handlers are not modelled: they are process and network plumbing with no decision in them.
- The unused `watchDirs` array is not modelled.
- `fs.watch` registration and event delivery are not modelled: events are values given to the filters.
- Timers are not modelled as real time: the clock is the `Tick` events of a discrete history.
- Overlapping asynchronous rebuilds, and requests served during a rebuild, are concurrency the code does not address.
- URLs are not percent-decoded, and query strings are not split off: the model follows `path.join` on the raw URL as the code does.
- A `dist` that is a symbolic link, and a project directory that is not a plain absolute path, are not modelled.
- Build.GalleryComplete: stated for the case where both `readdirSync` calls see the same listing (build.js:56 for the page, build.js:21 inside `copyImages`). `Build.GenerateHtml` takes the two listings apart. An image that disappears between the two reads is listed on the page but never copied, and the model promises nothing about it.
- Build.Disk.CopyFile: a copy fails only when its source is missing. `copyFileSync` also throws on an unwritable destination, an I/O error, or a kept name that is a directory; those failures are not modelled, so `Build.CopiedAll` ("every copy succeeds exactly when every source exists") holds only under that abstraction.
- Strings are sequences of Unicode scalar values. JavaScript sorts and indexes UTF-16 code units; the two orders differ only for characters beyond U+FFFF against U+E000..U+FFFF.
- Strings.ToLower lowers ASCII letters only. No non-ASCII character lowers to a letter of an allowed extension or MIME key, so the filter and the type lookup are exact.
- Manifest.Unescape does not combine `\u` surrogate pairs. `JSON.stringify` only writes `\u` for control characters and lone surrogates.
- Clean paths are segment lists rather than joined text, since `path.join(dir, file)` with a plain `file` appends one segment (`PosixPath.JoinPlain`).

## Findings

| source | as written | input that shows it | evidently intended | confidence | as-written member | corrected member |
|---|---|---|---|---|---|---|
| build.js:75 | `template.replace(placeholder, imageFilesJSON)` with a string replacement, so `$&`, `` $` ``, `$'` and `$$` in the JSON are expanded | one image named `x$&.png` (kept by the filter, not escaped by `JSON.stringify`): the page gets the placeholder back where the name should be | the manifest text substituted literally for the first placeholder | high (proved about the model, not executed) | Render.AmpersandCounterexample | Render.AmpersandCorrected |
| dev-server.js:47 | `filePath.startsWith(DIST_DIR)` compares text, so a sibling directory whose name begins with `dist` passes | `GET /../dist-old/x` resolves to `<project>/dist-old/x`, which passes the check and is read | only `DIST_DIR` and paths below it (`DIST_DIR + '/'`) get through | high (proved about the model, not executed) | DevServer.TraversalCounterexample | DevServer.RefusedExactly |
