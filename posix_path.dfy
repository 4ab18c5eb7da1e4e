/**
 * The parts of Node's POSIX `path` module the tool uses: `extname`, and
 * `join`/`normalize` for an absolute base directory. A normalised absolute path
 * is kept as its list of segments; `Abs` writes it back as text.
 */
module PosixPath {
  import opened Wrappers
  import opened Strings

  // ---------------------------------------------------------------- extname

  /** The text with every trailing `/` removed. */
  function TrimTrailingSlashes(p: string): (r: string)
    ensures StartsWith(p, r)
    ensures r == [] || r[|r| - 1] != '/'
    decreases |p|
  {
    if p != [] && p[|p| - 1] == '/' then TrimTrailingSlashes(p[..|p| - 1]) else p
  }

  /** The last position of `c` in `s`. */
  function LastIndexOf(s: string, c: char): (r: Option<nat>)
    ensures r.Some? ==> r.value < |s| && s[r.value] == c && c !in s[r.value + 1..]
    ensures r.None? ==> c !in s
    decreases |s|
  {
    if s == [] then None
    else if s[|s| - 1] == c then Some(|s| - 1)
    else
      var r := LastIndexOf(s[..|s| - 1], c);
      assert s == s[..|s| - 1] + [s[|s| - 1]];
      r
  }

  /** The final path component, after trailing slashes are dropped. */
  function LastComponent(p: string): (base: string)
    ensures '/' !in base
  {
    var t := TrimTrailingSlashes(p);
    match LastIndexOf(t, '/')
    case None => t
    case Some(k) => t[k + 1..]
  }

  /**
   * `path.extname(p)`: from the last `.` of the final component to its end; empty
   * when that component has no dot, begins with its only dot, or is `..`.
   */
  function Extname(p: string): string {
    var base := LastComponent(p);
    match LastIndexOf(base, '.')
    case None => []
    case Some(d) => if d == 0 || IsDotDot(base) then [] else base[d..]
  }

  /**
   * An extension is empty or a dot followed by neither dot nor slash, and it ends
   * the final component.
   */
  lemma ExtnameShape(p: string)
    ensures var e := Extname(p);
      e == [] || (e[0] == '.' && '.' !in e[1..] && '/' !in e)
    ensures var e, base := Extname(p), LastComponent(p);
      e != [] ==> |e| <= |base| && base[|base| - |e|..] == e
  {
    var base := LastComponent(p);
    var dot := LastIndexOf(base, '.');
    if dot.Some? && dot.value > 0 && !IsDotDot(base) {
      var d := dot.value;
      var e := base[d..];
      assert Extname(p) == e;
      assert e[1..] == base[d + 1..];
      InSlice(base, d, '/');
    }
  }

  lemma InSlice(s: string, d: nat, c: char)
    requires d <= |s|
    ensures c in s[d..] ==> c in s
  {
    if c in s[d..] {
      var i :| 0 <= i < |s[d..]| && s[d..][i] == c;
      assert s[d + i] == c;
    }
  }

  /** `extname` of a plain file name whose last dot is at `d > 0`. */
  lemma ExtnameOfName(name: string, d: nat)
    requires '/' !in name && 0 < d < |name| && name[d] == '.' && '.' !in name[d + 1..]
    requires name != ".."
    ensures Extname(name) == name[d..]
  {
    assert TrimTrailingSlashes(name) == name;
    assert LastComponent(name) == name;
    var r := LastIndexOf(name, '.');
    assert r.Some?;
    assert forall k :: r.value < k < |name| ==> name[k] in name[r.value + 1..];
    assert forall k :: d < k < |name| ==> name[k] in name[d + 1..];
    assert r.value == d;
  }

  /** `extname` of a plain file name without a dot is empty. */
  lemma ExtnameNoDot(name: string)
    requires '/' !in name && '.' !in name
    ensures Extname(name) == []
  {
    if name != [] {
      assert TrimTrailingSlashes(name) == name;
    }
  }

  /** `.` and `..` have no extension. */
  lemma DotNames(name: string)
    ensures (name == "." || name == "..") ==> Extname(name) == []
  {
    if name == "." || name == ".." {
      assert name[|name| - 1] != '/';
      assert TrimTrailingSlashes(name) == name;
      assert LastIndexOf(name, '/') == None;
      assert LastComponent(name) == name;
      assert name == "." ==> LastIndexOf(name, '.') == Some(0);
    }
  }

  // ------------------------------------------------------- join / normalize

  /** The segment `.`. */
  predicate IsDot(s: string) {
    |s| == 1 && s[0] == '.'
  }

  /** The segment `..`. */
  predicate IsDotDot(s: string) {
    |s| == 2 && s[0] == '.' && s[1] == '.'
  }

  /** A segment that survives normalisation: not empty, not `.`, not `..`, no `/`. */
  predicate Plain(s: string) {
    s != [] && !IsDot(s) && !IsDotDot(s) && '/' !in s
  }

  predicate AllPlain(segs: seq<string>) {
    forall k :: 0 <= k < |segs| ==> Plain(segs[k])
  }

  /** One step of `normalizeString` on an absolute path: skip `` and `.`, pop on `..`. */
  function Step(stack: seq<string>, seg: string): seq<string> {
    if seg == [] || IsDot(seg) then stack
    else if IsDotDot(seg) then (if stack == [] then [] else stack[..|stack| - 1])
    else stack + [seg]
  }

  /** `normalizeString` over a list of segments, starting from `stack`. */
  function Fold(stack: seq<string>, segs: seq<string>): (r: seq<string>)
    requires AllPlain(stack)
    requires forall k :: 0 <= k < |segs| ==> '/' !in segs[k]
    ensures AllPlain(r)
    ensures |r| <= |stack| + |segs|
    decreases |segs|
  {
    if segs == [] then stack else Fold(Step(stack, segs[0]), segs[1..])
  }

  /** The text of an absolute path given by its segments: `/a/b` for `[a, b]`. */
  function Abs(segs: seq<string>): string {
    if segs == [] then [] else "/" + segs[0] + Abs(segs[1..])
  }

  /** `path.normalize(p)` for an absolute `p`, and the segments it ends up with. */
  function NormalSegments(p: string): (segs: seq<string>)
    ensures AllPlain(segs)
  {
    Fold([], Split(p, '/'))
  }

  function Normalize(p: string): (r: string)
    requires StartsWith(p, "/")
  {
    var segs := NormalSegments(p);
    if segs == [] then "/" else Abs(segs) + (if p[|p| - 1] == '/' then "/" else "")
  }

  /** `path.join(base, x)` for an absolute `base` (an empty `x` is skipped). */
  function JoinUnder(base: string, x: string): string
    requires StartsWith(base, "/")
  {
    Normalize(if x == [] then base else base + "/" + x)
  }

  // ------------------------------------------------------------------ facts

  lemma {:induction false} AbsAppend(a: seq<string>, b: seq<string>)
    ensures Abs(a + b) == Abs(a) + Abs(b)
  {
    if a != [] {
      assert (a + b)[1..] == a[1..] + b;
      AbsAppend(a[1..], b);
    } else {
      assert a + b == b;
    }
  }

  /** For a non-empty list, `Abs` is `/` followed by the segments joined with `/`. */
  lemma {:induction false} AbsIsJoin(segs: seq<string>)
    requires |segs| >= 1
    ensures Abs(segs) == "/" + Join(segs, '/')
  {
    if |segs| > 1 {
      AbsIsJoin(segs[1..]);
    }
  }

  /** Folding a concatenation folds the first part, then the second. */
  lemma {:induction false} FoldAppend(stack: seq<string>, a: seq<string>, b: seq<string>)
    requires AllPlain(stack)
    requires forall k :: 0 <= k < |a| ==> '/' !in a[k]
    requires forall k :: 0 <= k < |b| ==> '/' !in b[k]
    ensures Fold(stack, a + b) == Fold(Fold(stack, a), b)
    decreases |a|
  {
    if a == [] {
      assert a + b == b;
    } else {
      assert (a + b)[1..] == a[1..] + b;
      FoldAppend(Step(stack, a[0]), a[1..], b);
    }
  }

  /** Plain segments are pushed unchanged. */
  lemma {:induction false} FoldPlain(stack: seq<string>, segs: seq<string>)
    requires AllPlain(stack) && AllPlain(segs)
    ensures Fold(stack, segs) == stack + segs
    decreases |segs|
  {
    if segs != [] {
      FoldPlain(stack + [segs[0]], segs[1..]);
      assert stack + [segs[0]] + segs[1..] == stack + segs;
    }
  }

  /**
   * Joining `x` onto the directory with segments `root` normalises the segments of
   * `x` on top of `root`.
   */
  lemma JoinedSegments(root: seq<string>, x: string)
    requires |root| >= 1 && AllPlain(root)
    ensures StartsWith(Abs(root), "/")
    ensures NormalSegments(Abs(root) + "/" + x) == Fold(root, Split(x, '/'))
  {
    var p := Abs(root) + "/" + x;
    SplitUnder(root, x);
    FoldAppend([], [[]] + root, Split(x, '/'));
    FoldSkipsEmpty([], root);
    FoldPlain([], root);
    assert [] + root == root;
  }

  /** `split('/')` of a directory's text, a `/` and more: an empty part, the segments, the rest. */
  lemma SplitUnder(root: seq<string>, x: string)
    requires |root| >= 1 && AllPlain(root)
    ensures StartsWith(Abs(root), "/")
    ensures Split(Abs(root) + "/" + x, '/') == [[]] + root + Split(x, '/')
  {
    AbsIsJoin(root);
    var p := Abs(root) + "/" + x;
    assert p == "/" + (Join(root, '/') + "/" + x);
    assert ("/" + (Join(root, '/') + "/" + x))[1..] == Join(root, '/') + "/" + x;
    SplitAfterParts(root, '/', x);
  }

  /** An empty segment is skipped by `normalize`. */
  lemma FoldSkipsEmpty(d: seq<string>, x: seq<string>)
    requires AllPlain(d) && forall k :: 0 <= k < |x| ==> '/' !in x[k]
    ensures forall k :: 0 <= k < |[[]] + x| ==> '/' !in ([[]] + x)[k]
    ensures Fold(d, [[]] + x) == Fold(d, x)
  {
    assert ([[]] + x)[1..] == x;
  }

  /** An `Abs` text is empty or starts with `/`. */
  lemma AbsHead(segs: seq<string>)
    ensures Abs(segs) == [] || Abs(segs)[0] == '/'
  {
  }

  /**
   * Prefix comparison of two texts that each start with a slash-free word followed
   * by nothing or by a `/`.
   */
  lemma WordPrefix(a: string, x: string, b: string, y: string)
    requires '/' !in a && '/' !in b
    requires x == [] || x[0] == '/'
    requires y == [] || y[0] == '/'
    requires StartsWith(a + x, b + y)
    ensures y == [] ==> StartsWith(a, b)
    ensures y != [] ==> a == b && StartsWith(x, y)
  {
    var n := |b + y|;
    assert forall i :: 0 <= i < n ==> (a + x)[i] == (b + y)[i] by {
      assert (a + x)[..n] == b + y;
    }
    assert forall i :: 0 <= i < |b| ==> b[i] in b;
    assert forall i :: 0 <= i < |a| ==> a[i] in a;
    assert x != [] ==> (a + x)[|a|] == '/';
    assert y != [] ==> (b + y)[|b|] == '/';
    assert |b| <= |a|;
    assert y != [] ==> |a| <= |b|;
    if y != [] {
      assert a == (a + x)[..|a|] == (b + y)[..|b|] == b;
      assert x == (a + x)[|a|..];
      assert (b + y)[|b|..] == y;
    } else {
      assert a[..|b|] == (a + x)[..|b|];
    }
  }

  lemma StartsWithCommon(c: string, u: string, v: string)
    ensures StartsWith(c + u, c + v) <==> StartsWith(u, v)
  {
    if StartsWith(u, v) {
      assert (c + u)[..|c + v|] == c + u[..|v|];
    }
    if StartsWith(c + u, c + v) {
      assert u[..|v|] == (c + u)[..|c + v|][|c|..];
    }
  }

  /** The shape a normalised path has when, as text, it starts with the directory `root`. */
  ghost predicate ExtendsDirName(segs: seq<string>, root: seq<string>)
    requires |root| >= 1
  {
    |segs| >= |root| && segs[..|root| - 1] == root[..|root| - 1] &&
    StartsWith(segs[|root| - 1], root[|root| - 1])
  }

  /** `Abs` unfolded once, with a suffix `t`, and the shape of what follows the first word. */
  lemma AbsCons(segs: seq<string>, t: string)
    requires segs != []
    requires t == [] || t[0] == '/'
    ensures Abs(segs) + t == "/" + (segs[0] + (Abs(segs[1..]) + t))
    ensures var x := Abs(segs[1..]) + t; x == [] || x[0] == '/'
  {
    AbsHead(segs[1..]);
    Nest("/", segs[0], Abs(segs[1..]), t);
  }

  lemma Nest(a: string, b: string, c: string, t: string)
    ensures a + b + c + t == a + (b + (c + t))
  {
  }

  lemma {:induction false} AbsPrefixOnlyIf(segs: seq<string>, root: seq<string>, t: string)
    requires AllPlain(segs) && AllPlain(root) && |root| >= 1
    requires t == [] || t == "/"
    requires StartsWith(Abs(segs) + t, Abs(root))
    ensures ExtendsDirName(segs, root)
  {
    var n := |root|;
    assert |Abs(root)| >= 2;
    assert segs != [];
    AbsCons(segs, t);
    AbsCons(root, []);
    var x := Abs(segs[1..]) + t;
    var y := Abs(root[1..]) + [];
    StartsWithCommon("/", segs[0] + x, root[0] + y);
    WordPrefix(segs[0], x, root[0], y);
    if n > 1 {
      assert y == Abs(root[1..]);
      AbsPrefixOnlyIf(segs[1..], root[1..], t);
      assert segs[..n - 1] == [segs[0]] + segs[1..][..n - 2];
      assert root[..n - 1] == [root[0]] + root[1..][..n - 2];
    }
  }

  lemma {:induction false} AbsPrefixIf(segs: seq<string>, root: seq<string>, t: string)
    requires AllPlain(segs) && AllPlain(root) && |root| >= 1
    requires ExtendsDirName(segs, root)
    ensures StartsWith(Abs(segs) + t, Abs(root))
  {
    var n := |root|;
    var x := Abs(segs[1..]) + t;
    var y := Abs(root[1..]);
    assert Abs(segs) + t == "/" + (segs[0] + x);
    assert Abs(root) == "/" + (root[0] + y);
    StartsWithCommon("/", segs[0] + x, root[0] + y);
    if n == 1 {
      assert (segs[0] + x)[..|root[0]|] == segs[0][..|root[0]|];
    } else {
      assert segs[0] == segs[..n - 1][0] == root[0];
      assert segs[1..][..n - 2] == segs[..n - 1][1..];
      assert root[1..][..n - 2] == root[..n - 1][1..];
      AbsPrefixIf(segs[1..], root[1..], t);
      StartsWithCommon(segs[0], x, y);
    }
  }

  /**
   * A normalised absolute path (segments `segs`, maybe a trailing `/`) starts, as
   * text, with the directory `root` exactly when it agrees with `root` on all but
   * the last segment of `root` and its next segment begins with that last one.
   */
  lemma AbsPrefix(segs: seq<string>, root: seq<string>, t: string)
    requires AllPlain(segs) && AllPlain(root) && |root| >= 1
    requires t == [] || t == "/"
    ensures StartsWith(Abs(segs) + t, Abs(root)) <==> ExtendsDirName(segs, root)
  {
    if StartsWith(Abs(segs) + t, Abs(root)) {
      AbsPrefixOnlyIf(segs, root, t);
    }
    if ExtendsDirName(segs, root) {
      AbsPrefixIf(segs, root, t);
    }
  }

  /** Joining a plain name onto a normalised directory appends that segment. */
  lemma JoinPlain(segs: seq<string>, n: string)
    requires |segs| >= 1 && AllPlain(segs) && Plain(n)
    ensures StartsWith(Abs(segs), "/")
    ensures JoinUnder(Abs(segs), n) == Abs(segs + [n])
  {
    var p := Abs(segs) + "/" + n;
    PlainSegments(segs, n);
    assert p[|p| - 1] == n[|n| - 1] && n[|n| - 1] in n;
    NormalizeUntrailed(p, segs + [n]);
    AbsSnoc(segs, n);
  }

  /** `normalize` of an absolute text without a trailing `/` that keeps some segments. */
  lemma NormalizeUntrailed(p: string, segs: seq<string>)
    requires StartsWith(p, "/") && p[|p| - 1] != '/'
    requires NormalSegments(p) == segs && segs != []
    ensures Normalize(p) == Abs(segs)
  {
  }

  lemma PlainSegments(segs: seq<string>, n: string)
    requires |segs| >= 1 && AllPlain(segs) && Plain(n)
    ensures StartsWith(Abs(segs), "/")
    ensures NormalSegments(Abs(segs) + "/" + n) == segs + [n]
  {
    JoinedSegments(segs, n);
    SplitNoSeparator(n, '/');
    assert Fold(segs, [n]) == Fold(Step(segs, n), []);
  }

  /** Normalised paths with different segments are different texts. */
  lemma AbsInjective(a: seq<string>, b: seq<string>)
    requires AllPlain(a) && AllPlain(b)
    ensures Abs(a) == Abs(b) ==> a == b
  {
    assert a != [] ==> |Abs(a)| > 0;
    assert b != [] ==> |Abs(b)| > 0;
    if a != [] && b != [] {
      AbsIsJoin(a);
      AbsIsJoin(b);
      assert Join(a, '/') == Abs(a)[1..] && Join(b, '/') == Abs(b)[1..];
      SplitJoin(a, '/');
      SplitJoin(b, '/');
    }
  }

  /** The final component of a child path is the child's name. */
  lemma LastComponentChild(prefix: string, n: string)
    requires '/' !in n && n != []
    ensures LastComponent(prefix + "/" + n) == n
    ensures LastComponent(n) == n
  {
    var p := prefix + "/" + n;
    assert p[|p| - 1] == n[|n| - 1];
    assert TrimTrailingSlashes(p) == p;
    assert TrimTrailingSlashes(n) == n;
    var r := LastIndexOf(p, '/');
    var k := |prefix|;
    assert p[k] == '/';
    assert forall i :: k < i < |p| ==> p[i] == n[i - k - 1] && p[i] != '/';
    assert r.Some?;
    assert forall i :: r.value < i < |p| ==> p[i] in p[r.value + 1..];
    assert r.value == k;
    assert p[k + 1..] == n;
  }

  /** The extension of a child path is the child's extension. */
  lemma ExtnameChild(segs: seq<string>, n: string)
    requires Plain(n)
    ensures Extname(Abs(segs + [n])) == Extname(n)
  {
    AbsSnoc(segs, n);
    LastComponentChild(Abs(segs), n);
  }

  lemma AbsSnoc(segs: seq<string>, n: string)
    ensures Abs(segs + [n]) == Abs(segs) + "/" + n
  {
    AbsAppend(segs, [n]);
    assert Abs([n]) == "/" + n + Abs([]);
  }

  /** `normalize` leaves a trailing `/` exactly when the text has one or nothing remains. */
  lemma NormalizeShape(p: string)
    requires StartsWith(p, "/")
    ensures var segs := NormalSegments(p);
      Normalize(p) == Abs(segs) + (if segs == [] || p[|p| - 1] == '/' then "/" else "")
  {
  }

  /** `split('/')` of an absolute path's text: an empty part, then the segments. */
  lemma SplitAbs(x: seq<string>)
    requires |x| >= 1 && forall k :: 0 <= k < |x| ==> '/' !in x[k]
    ensures Split(Abs(x), '/') == [[]] + x
  {
    AbsIsJoin(x);
    SplitJoin(x, '/');
    var s := Abs(x);
    assert s[0] == '/' && s[1..] == Join(x, '/');
  }
}
