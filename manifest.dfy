/**
 * The gallery manifest of `generateHTML`: `JSON.stringify(imageFiles, null, 8)`
 * (an array of strings as section 5 of RFC 8259 lays it out, each string escaped as
 * section 7 of RFC 8259 allows and ECMA-262's `QuoteJSONString` chooses), then every
 * line after the first indented by eight more spaces.
 */
module Manifest {
  import opened Wrappers
  import opened Strings

  /** The eight-space indentation, both `JSON.stringify`'s gap and the extra indent. */
  const Gap: string := "        "

  // ------------------------------------------------------------- strings

  function HexDigit(d: int): (c: char)
    requires 0 <= d < 16
    ensures HexValue(c) == Some(d)
  {
    if d < 10 then ('0' as int + d) as char else ('a' as int + d - 10) as char
  }

  function HexValue(c: char): (r: Option<int>)
    ensures r.Some? ==> 0 <= r.value < 16
  {
    if '0' <= c <= '9' then Some(c as int - '0' as int)
    else if 'a' <= c <= 'f' then Some(c as int - 'a' as int + 10)
    else if 'A' <= c <= 'F' then Some(c as int - 'A' as int + 10)
    else None
  }

  /** How `JSON.stringify` writes one character inside a string literal. */
  function EscapeChar(c: char): string {
    if c == '"' then "\\\""
    else if c == '\\' then "\\\\"
    else if c as int == 8 then "\\b"
    else if c as int == 9 then "\\t"
    else if c as int == 10 then "\\n"
    else if c as int == 12 then "\\f"
    else if c as int == 13 then "\\r"
    else if c as int < 32 then "\\u00" + [HexDigit(c as int / 16), HexDigit(c as int % 16)]
    else [c]
  }

  function Escape(s: string): string {
    if s == [] then [] else EscapeChar(s[0]) + Escape(s[1..])
  }

  /** A string as a JSON string literal. */
  function Quote(s: string): string {
    "\"" + Escape(s) + "\""
  }

  /** The characters an escape sequence may introduce. */
  const EscapeAlphabet: string := "\\\"bfnrtu0123456789abcdef"

  /**
   * An escaped text holds no control character (so no line break), and every
   * character of it is one of the original's or part of an escape sequence.
   */
  lemma {:induction false} EscapeChars(s: string)
    ensures forall c :: c in Escape(s) ==> c as int >= 32
    ensures forall c :: c in Escape(s) ==> c in s || c in EscapeAlphabet
  {
    if s != [] {
      EscapeChars(s[1..]);
      var e := EscapeChar(s[0]);
      assert Escape(s) == e + Escape(s[1..]);
      assert forall c :: c in e ==> c as int >= 32 && (c == s[0] || c in EscapeAlphabet);
      assert forall c :: c in s[1..] ==> c in s;
    }
  }

  /** Escaping works character by character. */
  lemma {:induction false} EscapeAppend(a: string, b: string)
    ensures Escape(a + b) == Escape(a) + Escape(b)
  {
    if a != [] {
      assert (a + b)[0] == a[0];
      assert (a + b)[1..] == a[1..] + b;
      EscapeAppend(a[1..], b);
      assert Escape(a + b) == EscapeChar(a[0]) + (Escape(a[1..]) + Escape(b));
    } else {
      assert a + b == b;
    }
  }

  /** The JSON escape sequences other than `\u`. */
  function ShortEscape(c: char): Option<char> {
    if c == '"' || c == '\\' || c == '/' then Some(c)
    else if c == 'b' then Some(8 as char)
    else if c == 't' then Some(9 as char)
    else if c == 'n' then Some(10 as char)
    else if c == 'f' then Some(12 as char)
    else if c == 'r' then Some(13 as char)
    else None
  }

  function Prepend(c: char, r: Option<string>): Option<string> {
    match r
    case None => None
    case Some(s) => Some([c] + s)
  }

  /** The value of four hexadecimal digits. */
  function HexQuad(h: string): (r: Option<int>)
    requires |h| == 4
    ensures r.Some? ==> 0 <= r.value < 0x10000
  {
    match (HexValue(h[0]), HexValue(h[1]), HexValue(h[2]), HexValue(h[3]))
    case (Some(a), Some(b), Some(c), Some(d)) => Some(((a * 16 + b) * 16 + c) * 16 + d)
    case _ => None
  }

  /**
   * The body of a JSON string literal read back, as `JSON.parse` or a script does;
   * `None` for text that is not a valid body (surrogate pairs are not decoded).
   */
  function Unescape(t: string): Option<string>
    decreases |t|
  {
    if t == [] then Some([])
    else if t[0] == '\\' then
      if |t| < 2 then None
      else if t[1] == 'u' then
        if |t| < 6 then None
        else
          match HexQuad(t[2..6])
          case Some(v) =>
            if 0xD800 <= v < 0xE000 then None else Prepend(v as char, Unescape(t[6..]))
          case None => None
      else
        match ShortEscape(t[1])
        case Some(c) => Prepend(c, Unescape(t[2..]))
        case None => None
    else if t[0] == '"' || t[0] as int < 32 then None
    else Prepend(t[0], Unescape(t[1..]))
  }

  function Unquote(q: string): Option<string> {
    if |q| >= 2 && q[0] == '"' && q[|q| - 1] == '"' then Unescape(q[1..|q| - 1]) else None
  }

  lemma UnescapeChar(c: char, t: string)
    ensures Unescape(EscapeChar(c) + t) == Prepend(c, Unescape(t))
  {
    var e := EscapeChar(c);
    if c == '"' || c == '\\' || c as int in {8, 9, 10, 12, 13} {
      assert (e + t)[2..] == t;
    } else if c as int < 32 {
      var u := e + t;
      assert u[..6] == e;
      assert u[6..] == t;
      assert HexValue(u[2]) == Some(0) && HexValue(u[3]) == Some(0);
      assert HexValue(u[4]) == Some(c as int / 16) && HexValue(u[5]) == Some(c as int % 16);
      assert (c as int) as char == c;
    } else {
      assert (e + t)[1..] == t;
    }
  }

  /** Reading back an escaped text gives the original. */
  lemma {:induction false} UnescapeEscape(s: string)
    ensures Unescape(Escape(s)) == Some(s)
  {
    if s != [] {
      UnescapeEscape(s[1..]);
      UnescapeChar(s[0], Escape(s[1..]));
      assert [s[0]] + s[1..] == s;
    }
  }

  /** Reading back a quoted name gives the name. */
  lemma UnquoteQuote(s: string)
    ensures Unquote(Quote(s)) == Some(s)
  {
    var q := Quote(s);
    assert q[1..|q| - 1] == Escape(s);
    UnescapeEscape(s);
  }

  // ---------------------------------------------------------------- array

  /** The elements of a non-empty array, each after a line break and the gap. */
  function Items(names: seq<string>): string
    requires |names| >= 1
  {
    if |names| == 1 then Quote(names[0]) else Quote(names[0]) + ",\n" + Gap + Items(names[1..])
  }

  /** `JSON.stringify(names, null, 8)`. */
  function Stringify(names: seq<string>): string {
    if names == [] then "[]" else "[\n" + Gap + Items(names) + "\n]"
  }

  /** Every line but the first gets the extra eight spaces. */
  function IndentLater(lines: seq<string>): (r: seq<string>)
    requires |lines| >= 1
  {
    [lines[0]] + seq(|lines| - 1, i requires 0 <= i < |lines| - 1 => Gap + lines[i + 1])
  }

  /** `.split('\n').map((line, index) => index === 0 ? line : '        ' + line).join('\n')`. */
  function Reindent(text: string): string {
    Join(IndentLater(Split(text, '\n')), '\n')
  }

  /** The text that takes the placeholder's place. */
  function ManifestText(names: seq<string>): string {
    Reindent(Stringify(names))
  }

  /**
   * Re-indenting keeps the number of lines and the first line, and puts exactly
   * eight spaces in front of every later line.
   */
  lemma ReindentLines(text: string)
    ensures var before, after := Split(text, '\n'), Split(Reindent(text), '\n');
      |after| == |before| && after[0] == before[0] &&
      forall i :: 1 <= i < |after| ==> after[i] == Gap + before[i]
  {
    var lines := Split(text, '\n');
    var r := IndentLater(lines);
    forall k | 0 <= k < |r| ensures '\n' !in r[k] {
      if k > 0 {
        assert r[k] == Gap + lines[k];
      }
    }
    SplitJoin(r, '\n');
  }

  /** Line `i` of `JSON.stringify`'s item lines: indented by the gap, a comma unless last. */
  function ItemLine(names: seq<string>, i: nat): string
    requires i < |names|
  {
    Gap + Quote(names[i]) + (if i + 1 < |names| then "," else "")
  }

  /** The item lines of `JSON.stringify`'s layout, one per name. */
  function ItemLines(names: seq<string>): (r: seq<string>) {
    seq(|names|, i requires 0 <= i < |names| => ItemLine(names, i))
  }

  lemma ItemLinesCons(names: seq<string>)
    requires |names| >= 2
    ensures ItemLines(names) == [Gap + Quote(names[0]) + ","] + ItemLines(names[1..])
  {
    var tail := names[1..];
    assert forall i :: 0 <= i < |tail| ==> ItemLine(tail, i) == ItemLine(names, i + 1);
  }

  lemma {:induction false} JoinItemLines(names: seq<string>)
    requires |names| >= 1
    ensures Join(ItemLines(names), '\n') == Gap + Items(names)
  {
    if |names| == 1 {
      var line := Gap + Quote(names[0]);
      assert line + "" == line;
      assert ItemLines(names) == [line];
    } else {
      var tail := names[1..];
      JoinItemLines(tail);
      ItemLinesCons(names);
      JoinCons(Gap + Quote(names[0]) + ",", ItemLines(tail), '\n');
      ItemsCons(names);
      Regroup(Gap, Quote(names[0]), Items(tail));
    }
  }

  lemma ItemsCons(names: seq<string>)
    requires |names| >= 2
    ensures Items(names) == Quote(names[0]) + ",\n" + Gap + Items(names[1..])
  {
  }

  lemma Regroup(g: string, q: string, r: string)
    ensures g + q + "," + "\n" + (g + r) == g + (q + ",\n" + g + r)
  {
    assert "," + "\n" == ",\n";
  }

  /** `JSON.stringify` lays a non-empty array out as `[`, one line per item, `]`. */
  lemma StringifyLines(names: seq<string>)
    requires names != []
    ensures Split(Stringify(names), '\n') == ["["] + ItemLines(names) + ["]"]
  {
    var lines := ["["] + ItemLines(names) + ["]"];
    JoinItemLines(names);
    JoinBetween("[", ItemLines(names), "]", '\n');
    Bracket(Gap, Items(names));
    assert Join(lines, '\n') == Stringify(names);
    EscapeLinesFree(names);
    SplitJoin(lines, '\n');
  }

  lemma Bracket(g: string, inner: string)
    ensures "[" + "\n" + (g + inner) + "\n" + "]" == "[\n" + g + inner + "\n]"
  {
    assert "[" + "\n" == "[\n";
    assert "\n" + "]" == "\n]";
  }

  lemma EscapeLinesFree(names: seq<string>)
    requires names != []
    ensures forall k :: 0 <= k < |names| ==> '\n' !in ItemLine(names, k)
  {
    forall k | 0 <= k < |names| ensures '\n' !in ItemLine(names, k) {
      EscapeChars(names[k]);
    }
  }

  /**
   * The text put in the page: `[]` for no images; otherwise `[`, one line per name
   * indented by sixteen spaces (a comma after all but the last), and `]` indented by
   * eight: `n + 2` lines.
   */
  lemma ManifestLines(names: seq<string>)
    ensures names == [] ==> ManifestText(names) == "[]"
    ensures names != [] ==>
      var lines := Split(ManifestText(names), '\n');
      |lines| == |names| + 2 && lines[0] == "[" && lines[|names| + 1] == Gap + "]" &&
      forall i :: 0 <= i < |names| ==>
        lines[i + 1] == Gap + Gap + Quote(names[i]) + (if i + 1 < |names| then "," else "")
  {
    if names == [] {
      ReindentOneLine(Stringify(names));
    } else {
      var lines := Split(ManifestText(names), '\n');
      ReindentedItems(names);
      forall i | 0 <= i < |names|
        ensures lines[i + 1] == Gap + Gap + Quote(names[i]) + (if i + 1 < |names| then "," else "")
      {
        assert lines[i + 1] == Gap + ItemLine(names, i);
        Prefixed(Gap, Quote(names[i]), if i + 1 < |names| then "," else "");
      }
    }
  }

  /** The manifest's lines: `[`, each item line indented once more, and `]` indented. */
  lemma ReindentedItems(names: seq<string>)
    requires names != []
    ensures var lines := Split(ManifestText(names), '\n');
      |lines| == |names| + 2 && lines[0] == "[" && lines[|names| + 1] == Gap + "]" &&
      forall i :: 0 <= i < |names| ==> lines[i + 1] == Gap + ItemLine(names, i)
  {
    var before := ["["] + ItemLines(names) + ["]"];
    var lines := Split(ManifestText(names), '\n');
    StringifyLines(names);
    ReindentLines(Stringify(names));
    Framed(names);
    assert lines[|names| + 1] == Gap + before[|names| + 1];
    forall i | 0 <= i < |names| ensures lines[i + 1] == Gap + ItemLine(names, i) {
      assert lines[i + 1] == Gap + before[i + 1];
    }
  }

  lemma Framed(names: seq<string>)
    ensures var before := ["["] + ItemLines(names) + ["]"];
      |before| == |names| + 2 && before[0] == "[" && before[|names| + 1] == "]" &&
      forall i :: 0 <= i < |names| ==> before[i + 1] == ItemLine(names, i)
  {
  }

  lemma Prefixed(g: string, q: string, s: string)
    ensures g + (g + q + s) == g + g + q + s
  {
  }

  /** A text of one line is left as it is. */
  lemma ReindentOneLine(t: string)
    requires '\n' !in t
    ensures Reindent(t) == t
  {
    SplitNoSeparator(t, '\n');
    assert IndentLater([t]) == [t];
  }

  // -------------------------------------------------------------- reading

  /** One manifest item line read back: sixteen spaces, a literal, a comma unless last. */
  function ParseItem(line: string, last: bool): Option<string> {
    var lead := Gap + Gap;
    var tail := if last then "" else ",";
    if |line| >= |lead| + |tail| && line[..|lead|] == lead && line[|line| - |tail|..] == tail
    then Unquote(line[|lead|..|line| - |tail|])
    else None
  }

  function ParseItems(lines: seq<string>): Option<seq<string>>
    requires |lines| >= 1
  {
    if |lines| == 1 then
      match ParseItem(lines[0], true)
      case None => None
      case Some(n) => Some([n])
    else
      match (ParseItem(lines[0], false), ParseItems(lines[1..]))
      case (Some(n), Some(rest)) => Some([n] + rest)
      case _ => None
  }

  /** The array the page's script reads from the manifest text. */
  function ParseManifest(text: string): Option<seq<string>> {
    var lines := Split(text, '\n');
    if lines == ["[]"] then Some([])
    else if |lines| >= 3 && lines[0] == "[" && lines[|lines| - 1] == Gap + "]"
    then ParseItems(lines[1..|lines| - 1])
    else None
  }

  lemma ParseItemLine(n: string, last: bool)
    ensures ParseItem(Gap + Gap + Quote(n) + (if last then "" else ","), last) == Some(n)
  {
    var line := Gap + Gap + Quote(n) + (if last then "" else ",");
    var tail := if last then "" else ",";
    assert line[..16] == Gap + Gap;
    assert line[|line| - |tail|..] == tail;
    assert line[16..|line| - |tail|] == Quote(n);
    UnquoteQuote(n);
  }

  lemma {:induction false} ParseItemsBack(lines: seq<string>, names: seq<string>)
    requires |names| >= 1 && |lines| == |names|
    requires forall i :: 0 <= i < |names| ==>
      lines[i] == Gap + Gap + Quote(names[i]) + (if i + 1 < |names| then "," else "")
    ensures ParseItems(lines) == Some(names)
  {
    if |names| == 1 {
      ParseItemLine(names[0], true);
      assert lines[0] == Gap + Gap + Quote(names[0]) + "";
      assert ParseItem(lines[0], true) == Some(names[0]);
      assert [names[0]] == names;
    } else {
      ParseItemLine(names[0], false);
      assert ParseItem(lines[0], false) == Some(names[0]);
      var lt, nt := lines[1..], names[1..];
      forall i | 0 <= i < |nt|
        ensures lt[i] == Gap + Gap + Quote(nt[i]) + (if i + 1 < |nt| then "," else "")
      {
        assert lt[i] == lines[i + 1] && nt[i] == names[i + 1];
      }
      ParseItemsBack(lt, nt);
      assert [names[0]] + nt == names;
    }
  }

  /** The page's script gets back exactly the manifest's names, in order. */
  lemma ManifestRoundTrip(names: seq<string>)
    ensures ParseManifest(ManifestText(names)) == Some(names)
  {
    ManifestLines(names);
    if names == [] {
      SplitNoSeparator("[]", '\n');
    } else {
      var lines := Split(ManifestText(names), '\n');
      assert lines != ["[]"];
      var items := lines[1..|lines| - 1];
      assert forall i :: 0 <= i < |names| ==> items[i] == lines[i + 1];
      ParseItemsBack(items, names);
    }
  }

  /** Every character of an item line is a space, a comma, or one of its literal's. */
  lemma ItemLineChars(n: string, tail: string, c: char)
    requires tail == "" || tail == ","
    requires c in Gap + Gap + Quote(n) + tail
    ensures c == ' ' || c == ',' || c in n || c in EscapeAlphabet
  {
    var q := Quote(n);
    if c in q {
      assert q == "\"" + Escape(n) + "\"";
      if c != '"' {
        assert c in Escape(n);
        EscapeChars(n);
      }
    } else {
      assert c in Gap + Gap || c in tail;
    }
  }

  /** The manifest is never empty and opens with `[`. */
  lemma ManifestOpens(names: seq<string>)
    ensures |ManifestText(names)| > 0 && ManifestText(names)[0] == '['
  {
    var text := ManifestText(names);
    ManifestLines(names);
    ManifestChars(names, text[0]);
  }

  /**
   * The manifest starts with `[`, and holds no character that is in none of the
   * names and in no escape sequence.
   */
  lemma ManifestChars(names: seq<string>, c: char)
    requires c in ManifestText(names)
    ensures ManifestText(names)[0] == '['
    ensures c in "[],\n " || c in EscapeAlphabet || exists k :: 0 <= k < |names| && c in names[k]
  {
    ManifestLines(names);
    if names != [] {
      var text := ManifestText(names);
      var lines := Split(text, '\n');
      JoinSplit(text, '\n');
      assert text[0] == '[' by {
        assert Join(lines, '\n') == lines[0] + ['\n'] + Join(lines[1..], '\n');
      }
      JoinChars(lines, '\n', c);
      if c != '\n' {
        var j :| 0 <= j < |lines| && c in lines[j];
        if j == |names| + 1 {
          assert c in Gap || c == ']';
        } else if j > 0 {
          var i := j - 1;
          ItemLineChars(names[i], if i + 1 < |names| then "," else "", c);
        }
      }
    }
  }
}
