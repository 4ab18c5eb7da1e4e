/**
 * Putting the manifest into the page: `generateHTML` replaces the first occurrence
 * of the placeholder comment in the template by the manifest text, with
 * `String.prototype.replace` and a string as the replacement.
 */
module Render {
  import opened Wrappers
  import opened Strings
  import opened Manifest
  import opened PosixPath
  import opened Scanner

  /** The marker the template carries where the image list goes. */
  const Placeholder: string := "/* IMAGE_FILES_PLACEHOLDER */"

  // ------------------------------------------------------- as written

  /**
   * ECMA-262's `GetSubstitution` for a string pattern (no capture groups):
   * `$$` gives `$`, `$&` the matched text, `` $` `` the text before the match,
   * `$'` the text after it; every other character, other `$` included, is kept.
   */
  function Expand(rep: string, matched: string, before: string, after: string): string
    decreases |rep|
  {
    if rep == [] then []
    else if rep[0] == '$' && |rep| >= 2 && rep[1] == '$' then "$" + Expand(rep[2..], matched, before, after)
    else if rep[0] == '$' && |rep| >= 2 && rep[1] == '&' then matched + Expand(rep[2..], matched, before, after)
    else if rep[0] == '$' && |rep| >= 2 && rep[1] == '`' then before + Expand(rep[2..], matched, before, after)
    else if rep[0] == '$' && |rep| >= 2 && rep[1] == '\'' then after + Expand(rep[2..], matched, before, after)
    else [rep[0]] + Expand(rep[1..], matched, before, after)
  }

  /** A replacement without `$` is copied as it is. */
  lemma {:induction false} ExpandPlain(rep: string, m: string, b: string, a: string)
    requires '$' !in rep
    ensures Expand(rep, m, b, a) == rep
    decreases |rep|
  {
    if rep != [] {
      ExpandPlain(rep[1..], m, b, a);
      assert [rep[0]] + rep[1..] == rep;
    }
  }

  /** A `$`-free prefix of a replacement is copied as it is. */
  lemma {:induction false} ExpandLiteralPrefix(x: string, rest: string, m: string, b: string, a: string)
    requires '$' !in x
    ensures Expand(x + rest, m, b, a) == x + Expand(rest, m, b, a)
    decreases |x|
  {
    if x != [] {
      var u := x + rest;
      assert u[0] == x[0] && x[0] != '$';
      assert u[1..] == x[1..] + rest;
      assert Expand(u, m, b, a) == [x[0]] + Expand(x[1..] + rest, m, b, a);
      ExpandLiteralPrefix(x[1..], rest, m, b, a);
      var e := Expand(rest, m, b, a);
      assert [x[0]] + x[1..] == x;
      assert [x[0]] + (x[1..] + e) == ([x[0]] + x[1..]) + e;
    } else {
      assert x + rest == rest;
    }
  }

  /** `s.replace(pat, rep)` with a string `rep`, as `generateHTML` calls it. */
  function ReplaceAsWritten(s: string, pat: string, rep: string): string {
    match IndexOf(s, pat)
    case None => s
    case Some(i) => s[..i] + Expand(rep, pat, s[..i], s[i + |pat|..]) + s[i + |pat|..]
  }

  /** With no `$` in the replacement, the code's replacement is the intended one. */
  lemma AsWrittenPlain(s: string, pat: string, rep: string)
    requires '$' !in rep
    ensures ReplaceAsWritten(s, pat, rep) == ReplaceFirst(s, pat, rep)
  {
    match IndexOf(s, pat)
    case None =>
    case Some(i) => ExpandPlain(rep, pat, s[..i], s[i + |pat|..]);
  }

  // -------------------------------------------------------- corrected

  /**
   * The replacement the code means: the first occurrence of `pat` gives way to `rep`
   * character for character (`s.replace(pat, () => rep)`); no occurrence, no change.
   */
  function ReplaceFirst(s: string, pat: string, rep: string): string {
    match IndexOf(s, pat)
    case None => s
    case Some(i) => s[..i] + rep + s[i + |pat|..]
  }

  /**
   * With no occurrence the text is unchanged; otherwise the first occurrence, and
   * only it, is replaced.
   */
  lemma ReplaceFirstMeaning(s: string, pat: string, rep: string)
    ensures (forall j: nat :: !OccursAt(s, pat, j)) ==> ReplaceFirst(s, pat, rep) == s
    ensures forall i: nat :: OccursAt(s, pat, i) && (forall j: nat :: j < i ==> !OccursAt(s, pat, j)) ==>
      ReplaceFirst(s, pat, rep) == s[..i] + rep + s[i + |pat|..]
  {
    forall i: nat | OccursAt(s, pat, i) && (forall j: nat :: j < i ==> !OccursAt(s, pat, j))
      ensures ReplaceFirst(s, pat, rep) == s[..i] + rep + s[i + |pat|..]
    {
      FirstOccurrence(s, pat, i);
    }
  }

  /**
   * The page `generateHTML` is meant to write for a template and the sorted image
   * names: the manifest put literally in place of the first placeholder.
   */
  function RenderPage(template: string, names: seq<string>): string {
    ReplaceFirst(template, Placeholder, ManifestText(names))
  }

  /** The page `generateHTML` writes: `replace` expands `$`-patterns in the manifest. */
  function RenderPageAsWritten(template: string, names: seq<string>): string {
    ReplaceAsWritten(template, Placeholder, ManifestText(names))
  }

  /** A character that no escape and no layout produces is in the manifest only if a name holds it. */
  lemma ManifestFree(names: seq<string>, c: char)
    requires c !in "[],\n " && c !in EscapeAlphabet
    requires forall k :: 0 <= k < |names| ==> c !in names[k]
    ensures c !in ManifestText(names)
  {
    if c in ManifestText(names) {
      ManifestChars(names, c);
    }
  }

  /** Neither `/` nor `$` is written by the manifest layout or by an escape. */
  lemma ManifestWithout(names: seq<string>, c: char)
    requires c == '/' || c == '$'
    requires forall k :: 0 <= k < |names| ==> c !in names[k]
    ensures c !in ManifestText(names)
  {
    assert c !in "[],\n " && c !in EscapeAlphabet;
    ManifestFree(names, c);
  }

  /** As long as no image name holds a `$`, the code's page is the intended one. */
  lemma AsWrittenAgrees(template: string, names: seq<string>)
    requires forall k :: 0 <= k < |names| ==> '$' !in names[k]
    ensures RenderPageAsWritten(template, names) == RenderPage(template, names)
  {
    ManifestWithout(names, '$');
    AsWrittenPlain(template, Placeholder, ManifestText(names));
  }

  // ----------------------------------------------------------- the page

  /**
   * A stand-in for `getDefaultTemplate()`: its `<title>` line, with a closing tag,
   * and the script line that holds the placeholder; the rest of the document is
   * left out.
   */
  const TitleOpen: string := "<title>Deepractice Brand Images<"
  const TitleClose: string := "title>\n    "
  const ScriptOpen: string := "<script>\n        const imageFiles = "
  const TemplateHead: string := TitleOpen + "/" + TitleClose + ScriptOpen
  const TemplateTail: string := ";\n    </script>"
  const DefaultTemplate: string := TemplateHead + Placeholder + TemplateTail

  /**
   * In `h + Placeholder`, no occurrence of the placeholder starts inside `h`: the
   * placeholder put after `h` is the first one.
   */
  predicate FirstAfter(h: string) {
    forall j: nat :: j < |h| ==> !OccursAt(h + Placeholder, Placeholder, j)
  }

  /** A head without `/` cannot hold the start of a placeholder. */
  lemma SlashFreeFirst(h: string)
    requires '/' !in h
    ensures FirstAfter(h)
  {
    forall j: nat | j < |h| ensures !OccursAt(h + Placeholder, Placeholder, j) {
      assert (h + Placeholder)[j] == h[j];
      NotAtSlashFree(h + Placeholder, j);
    }
  }

  /** A head whose only `/` is followed by something other than `*`, such as a closing tag. */
  lemma OneSlashFirst(x: string, y: string)
    requires '/' !in x && '/' !in y && y != [] && y[0] != '*'
    ensures FirstAfter(x + "/" + y)
  {
    var h := x + "/" + y;
    var s := h + Placeholder;
    forall j: nat | j < |h| ensures !OccursAt(s, Placeholder, j) {
      if j < |x| {
        assert s[j] == x[j];
        NotAtSlashFree(s, j);
      } else if j == |x| {
        assert s[j + 1] == y[0];
        NotAtStarFree(s, j);
      } else {
        assert s[j] == y[j - |x| - 1];
        NotAtSlashFree(s, j);
      }
    }
  }

  /**
   * The stand-in's head, closing tag and all, holds no start of a placeholder,
   * and its tail is too short to hold one.
   */
  lemma TemplateParts()
    ensures FirstAfter(TemplateHead)
    ensures forall j: nat :: !OccursAt(TemplateTail, Placeholder, j)
  {
    HeadFirst();
    TailShort();
  }

  lemma HeadFirst()
    ensures FirstAfter(TemplateHead)
  {
    HeadPieces();
    var rest := TitleClose + ScriptOpen;
    Without('/', TitleClose, ScriptOpen);
    assert TemplateHead == TitleOpen + "/" + rest;
    OneSlashFirst(TitleOpen, rest);
  }

  lemma HeadPieces()
    ensures '/' !in TitleOpen && '/' !in TitleClose && '/' !in ScriptOpen && TitleClose[0] == 't'
  {
  }

  lemma TailShort()
    ensures forall j: nat :: !OccursAt(TemplateTail, Placeholder, j)
  {
  }

  /**
   * In a template of the form head, placeholder, tail where the placeholder is the
   * first one and the tail holds none, the manifest lands where the placeholder was
   * and, when no name holds a `/`, the written page carries no placeholder any more.
   */
  lemma RenderedPage(h: string, t: string, names: seq<string>)
    requires FirstAfter(h)
    requires forall j: nat :: !OccursAt(t, Placeholder, j)
    requires forall k :: 0 <= k < |names| ==> '/' !in names[k]
    ensures RenderPage(h + Placeholder + t, names) == h + ManifestText(names) + t
    ensures IndexOf(RenderPage(h + Placeholder + t, names), Placeholder) == None
  {
    var m := ManifestText(names);
    ReplaceAt(h, t, m);
    ManifestWithout(names, '/');
    ManifestOpens(names);
    SpliceNoPlaceholder(h, m, t);
  }

  /** Replacing the first placeholder, the one after the head, puts the text between head and tail. */
  lemma ReplaceAt(h: string, t: string, m: string)
    requires FirstAfter(h)
    ensures ReplaceFirst(h + Placeholder + t, Placeholder, m) == h + m + t
  {
    PlaceholderFirst(h, t);
    Around(h, Placeholder, t);
  }

  lemma Around(h: string, p: string, t: string)
    ensures (h + p + t)[..|h|] == h && (h + p + t)[|h| + |p|..] == t
  {
  }

  /**
   * A `/`-free text opening with `[`, put between a head in which no placeholder
   * starts and a tail free of the placeholder, leaves no placeholder: one starting
   * in the head would run into the `[`, which the placeholder does not hold.
   */
  lemma SpliceNoPlaceholder(h: string, m: string, t: string)
    requires FirstAfter(h) && '/' !in m && m != [] && m[0] == '['
    requires forall j: nat :: !OccursAt(t, Placeholder, j)
    ensures IndexOf(h + m + t, Placeholder) == None
  {
    var page := h + m + t;
    forall j: nat ensures !OccursAt(page, Placeholder, j) {
      if j < |h| {
        NotFromHead(h, m + t, j);
        assert page == h + (m + t);
      } else if j < |h| + |m| {
        assert page[j] != '/' by {
          assert page[j] == m[j - |h|];
        }
        NotAtSlashFree(page, j);
      } else if j + |Placeholder| <= |page| {
        var u := j - |h| - |m|;
        SliceOfTail(h + m, t, j, |Placeholder|);
        assert !OccursAt(t, Placeholder, u);
      }
    }
  }

  /** A placeholder starting in the head would have to contain the `[` that follows it. */
  lemma NotFromHead(h: string, r: string, j: nat)
    requires FirstAfter(h) && r != [] && r[0] == '[' && j < |h|
    ensures !OccursAt(h + r, Placeholder, j)
  {
    var s := h + r;
    if j + |Placeholder| <= |h| {
      PrefixSlice(h, r, j, |Placeholder|);
      PrefixSlice(h, Placeholder, j, |Placeholder|);
      assert !OccursAt(h + Placeholder, Placeholder, j);
    } else if j + |Placeholder| <= |s| {
      assert s[j..j + |Placeholder|][|h| - j] == s[|h|] == '[';
      assert '[' !in Placeholder;
    }
  }

  lemma PrefixSlice(a: string, t: string, j: nat, n: nat)
    requires j + n <= |a|
    ensures (a + t)[j..j + n] == a[j..j + n]
  {
  }

  lemma SliceOfTail(a: string, t: string, j: nat, n: nat)
    requires |a| <= j && j + n <= |a| + |t|
    ensures (a + t)[j..j + n] == t[j - |a|..j - |a| + n]
  {
  }

  /** The placeholder does not start at a character other than `/`. */
  lemma NotAtSlashFree(s: string, j: nat)
    requires j < |s| && s[j] != '/'
    ensures !OccursAt(s, Placeholder, j)
  {
    assert j + |Placeholder| <= |s| ==> s[j..j + |Placeholder|][0] == s[j];
  }

  /** Nor at a character followed by one other than `*`. */
  lemma NotAtStarFree(s: string, j: nat)
    requires j + 1 < |s| && s[j + 1] != '*'
    ensures !OccursAt(s, Placeholder, j)
  {
    assert j + |Placeholder| <= |s| ==> s[j..j + |Placeholder|][1] == s[j + 1];
  }

  /** When no placeholder starts in the head, the one after it is the text's first. */
  lemma PlaceholderFirst(h: string, t: string)
    requires FirstAfter(h)
    ensures IndexOf(h + Placeholder + t, Placeholder) == Some(|h|)
  {
    var s := h + Placeholder + t;
    assert s[|h|..|h| + |Placeholder|] == Placeholder;
    forall j: nat | j < |h| ensures !OccursAt(s, Placeholder, j) {
      PrefixSlice(h + Placeholder, t, j, |Placeholder|);
      assert !OccursAt(h + Placeholder, Placeholder, j);
    }
    FirstOccurrence(s, Placeholder, |h|);
  }

  /** The default page holds the manifest at the placeholder's place, and no placeholder. */
  lemma DefaultPage(names: seq<string>)
    requires forall k :: 0 <= k < |names| ==> '/' !in names[k]
    ensures RenderPage(DefaultTemplate, names) == TemplateHead + ManifestText(names) + TemplateTail
    ensures IndexOf(RenderPage(DefaultTemplate, names), Placeholder) == None
  {
    TemplateParts();
    RenderedPage(TemplateHead, TemplateTail, names);
  }

  /** The code's page is the same when no name holds `$` (none holds `/`, being a file name). */
  lemma RenderedPageAsWritten(h: string, t: string, names: seq<string>)
    requires FirstAfter(h)
    requires forall j: nat :: !OccursAt(t, Placeholder, j)
    requires forall k :: 0 <= k < |names| ==> '/' !in names[k] && '$' !in names[k]
    ensures RenderPageAsWritten(h + Placeholder + t, names) == h + ManifestText(names) + t
    ensures IndexOf(RenderPageAsWritten(h + Placeholder + t, names), Placeholder) == None
  {
    AsWrittenAgrees(h + Placeholder + t, names);
    RenderedPage(h, t, names);
  }

  /** The code's default page, when no name holds `$`. */
  lemma DefaultPageAsWritten(names: seq<string>)
    requires forall k :: 0 <= k < |names| ==> '/' !in names[k] && '$' !in names[k]
    ensures RenderPageAsWritten(DefaultTemplate, names) == TemplateHead + ManifestText(names) + TemplateTail
    ensures IndexOf(RenderPageAsWritten(DefaultTemplate, names), Placeholder) == None
  {
    TemplateParts();
    RenderedPageAsWritten(TemplateHead, TemplateTail, names);
  }

  // ------------------------------------------------------------ finding

  /** The manifest of a single name, written out: a step towards `AmpersandManifest`. */
  lemma SingleManifest(n: string)
    ensures ManifestText([n]) == "[\n" + Gap + Gap + Quote(n) + "\n" + Gap + "]"
  {
    var q := Quote(n);
    SingleLines(n);
    var later := IndentLater(["[", Gap + q, "]"]);
    assert later == ["[", Gap + (Gap + q), Gap + "]"];
    Join3("[", Gap + (Gap + q), Gap + "]", '\n');
    SingleRegroup(Gap, q);
  }

  lemma SingleRegroup(g: string, q: string)
    ensures "[" + "\n" + (g + (g + q)) + "\n" + (g + "]") == "[\n" + g + g + q + "\n" + g + "]"
  {
    assert "[" + "\n" == "[\n";
  }

  /** The stringified lines of a single name, for `SingleManifest`. */
  lemma SingleLines(n: string)
    ensures Split(Stringify([n]), '\n') == ["[", Gap + Quote(n), "]"]
  {
    var q := Quote(n);
    var parts := ["[", Gap + q, "]"];
    Join3("[", Gap + q, "]", '\n');
    assert Items([n]) == q;
    Bracket(Gap, q);
    assert Join(parts, '\n') == Stringify([n]);
    EscapeChars(n);
    assert '\n' !in q by {
      assert q == "\"" + Escape(n) + "\"";
    }
    SplitJoin(parts, '\n');
  }

  /** A `$&` after a `$`-free prefix of the replacement brings the matched text back. */
  lemma ExpandAmpersand(x: string, y: string, m: string, b: string, a: string)
    requires '$' !in x
    ensures Expand(x + "$&" + y, m, b, a) == x + m + Expand(y, m, b, a)
  {
    var u := "$&" + y;
    assert x + "$&" + y == x + u;
    assert u[0] == '$' && u[1] == '&' && u[2..] == y;
    assert Expand(u, m, b, a) == m + Expand(y, m, b, a);
    ExpandLiteralPrefix(x, u, m, b, a);
  }

  /**
   * The code's replacement with a replacement text that holds `$&` (no `$` before it)
   * leaves the placeholder in the page, right after that text's first part.
   */
  lemma AsWrittenEcho(h: string, t: string, x: string, y: string)
    requires FirstAfter(h) && '$' !in x
    ensures OccursAt(ReplaceAsWritten(h + Placeholder + t, Placeholder, x + "$&" + y), Placeholder, |h| + |x|)
  {
    var s := h + Placeholder + t;
    PlaceholderFirst(h, t);
    var before, after := s[..|h|], s[|h| + |Placeholder|..];
    assert before == h;
    ExpandAmpersand(x, y, Placeholder, before, after);
    var page := ReplaceAsWritten(s, Placeholder, x + "$&" + y);
    assert page == h + (x + Placeholder + Expand(y, Placeholder, before, after)) + after;
    assert page[|h| + |x|..|h| + |x| + |Placeholder|] == Placeholder;
  }

  /** `$` and `&` need no escape. */
  lemma EscapeAmpersandHead(b: string)
    ensures Escape("$&" + b) == "$&" + Escape(b)
  {
    var u := "$&" + b;
    assert u[0] == '$' && u[1..] == "&" + b;
    assert Escape(u) == EscapeChar('$') + Escape("&" + b);
    assert ("&" + b)[0] == '&' && ("&" + b)[1..] == b;
    assert Escape("&" + b) == EscapeChar('&') + Escape(b);
  }

  lemma EscapeAmpersand(a: string, b: string)
    ensures Escape(a + "$&" + b) == Escape(a) + "$&" + Escape(b)
  {
    assert a + "$&" + b == a + ("$&" + b);
    EscapeAppend(a, "$&" + b);
    EscapeAmpersandHead(b);
  }

  /** The manifest of the single name `a$&b` splits at that `$&`. */
  lemma AmpersandManifest(a: string, b: string)
    requires '$' !in a
    ensures var x := "[\n" + Gap + Gap + "\"" + Escape(a);
      '$' !in x && ManifestText([a + "$&" + b]) == x + "$&" + (Escape(b) + "\"" + "\n" + Gap + "]")
  {
    SingleManifest(a + "$&" + b);
    AmpersandLayout(ManifestText([a + "$&" + b]), a, b);
  }

  lemma AmpersandLayout(text: string, a: string, b: string)
    requires '$' !in a
    requires text == "[\n" + Gap + Gap + Quote(a + "$&" + b) + "\n" + Gap + "]"
    ensures var x := "[\n" + Gap + Gap + "\"" + Escape(a);
      '$' !in x && text == x + "$&" + (Escape(b) + "\"" + "\n" + Gap + "]")
  {
    EscapeAmpersand(a, b);
    EscapeChars(a);
    var ea, eb := Escape(a), Escape(b);
    var lead := "[\n" + Gap + Gap;
    Without('$', "[\n", Gap);
    Without('$', "[\n" + Gap, Gap);
    Without('$', lead, "\"");
    Without('$', lead + "\"", ea);
    Regroup7(lead, "\"", ea, "$&", eb, "\"", "\n", Gap, "]");
  }

  lemma Without(c: char, x: string, y: string)
    requires c !in x && c !in y
    ensures c !in x + y
  {
  }

  lemma Regroup7(p: string, q1: string, ea: string, m: string, eb: string, q2: string, nl: string, g: string, close: string)
    ensures p + (q1 + (ea + m + eb) + q2) + nl + g + close == (p + q1 + ea) + m + (eb + q2 + nl + g + close)
  {
  }

  /**
   * A single image named `a$&b` (no `$` in `a`): the code's replacement puts the
   * placeholder itself back into the page, in the middle of the array literal.
   */
  lemma AmpersandKeepsPlaceholder(a: string, b: string)
    requires '$' !in a
    ensures IndexOf(RenderPageAsWritten(DefaultTemplate, [a + "$&" + b]), Placeholder).Some?
  {
    AmpersandManifest(a, b);
    var x := "[\n" + Gap + Gap + "\"" + Escape(a);
    var y := Escape(b) + "\"" + "\n" + Gap + "]";
    TemplateParts();
    EchoPage(TemplateHead, TemplateTail, ManifestText([a + "$&" + b]), x, y);
  }

  /** A manifest text that holds `$&` after a `$`-free part leaves a placeholder in the code's page. */
  lemma EchoPage(h: string, t: string, text: string, x: string, y: string)
    requires FirstAfter(h) && '$' !in x && text == x + "$&" + y
    ensures IndexOf(ReplaceAsWritten(h + Placeholder + t, Placeholder, text), Placeholder).Some?
  {
    AsWrittenEcho(h, t, x, y);
  }

  /** The intended page for the same names holds no placeholder. */
  lemma AmpersandCorrected(a: string, b: string)
    requires '/' !in a && '/' !in b
    ensures IndexOf(RenderPage(DefaultTemplate, [a + "$&" + b]), Placeholder) == None
  {
    var names := [a + "$&" + b];
    assert '/' !in names[0];
    DefaultPage(names);
  }

  /** `x$&.png` is an image name the scanner keeps. */
  lemma AmpersandNameIsImage(a: string, b: string)
    requires a == "x" && b == ".png"
    ensures IsImageFile(a + "$&" + b)
  {
    ExampleDollarPng(a + "$&" + b);
  }

  /**
   * The discrepancy: `x$&.png` passes the scanner's filter, and for it the code's
   * page still holds the placeholder (where the intended page holds none, by
   * `AmpersandCorrected`).
   */
  lemma AmpersandCounterexample(a: string, b: string)
    requires a == "x" && b == ".png"
    ensures IsImageFile(a + "$&" + b)
    ensures IndexOf(RenderPageAsWritten(DefaultTemplate, [a + "$&" + b]), Placeholder).Some?
  {
    AmpersandKeepsPlaceholder(a, b);
    AmpersandNameIsImage(a, b);
  }
}
