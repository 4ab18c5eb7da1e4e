/**
 * The asset scanner of `build.js`: `getImageFiles` keeps the names of the images
 * directory whose lower-cased extension is on the allow-list and sorts them.
 */
module Scanner {
  import opened Wrappers
  import opened Strings
  import opened PosixPath

  /** `IMAGE_EXTENSIONS`. */
  const ImageExtensions: seq<string> := [".jpg", ".jpeg", ".png", ".gif", ".svg", ".webp"]

  /** The filter applied to each listed name. */
  predicate IsImageFile(name: string) {
    ToLower(Extname(name)) in ImageExtensions
  }

  /** Every kept name has a real extension, so it is never `.` or `..`. */
  lemma ImageFileIsNamed(name: string)
    requires IsImageFile(name)
    ensures Extname(name) != []
    ensures name != "." && name != ".."
  {
    assert ToLower([]) == [];
    DotNames(name);
  }

  /** `files.filter(keep)`: keeps, in order, each name that passes, as often as it occurs. */
  function Filter(keep: string -> bool, names: seq<string>): (kept: seq<string>)
    ensures |kept| <= |names|
  {
    if names == [] then []
    else
      var rest := Filter(keep, names[1..]);
      if keep(names[0]) then [names[0]] + rest else rest
  }

  /** Each name is kept as often as it is listed if it passes, and never otherwise. */
  lemma {:induction false} FilterCounts(keep: string -> bool, names: seq<string>)
    ensures forall x :: multiset(Filter(keep, names))[x] == if keep(x) then multiset(names)[x] else 0
  {
    if names != [] {
      FilterCounts(keep, names[1..]);
      assert names == [names[0]] + names[1..];
    }
  }

  /** The filter `getImageFiles` applies. */
  function FilterImages(names: seq<string>): seq<string> {
    Filter(IsImageFile, names)
  }

  // ------------------------------------------------------------ sorting

  /** Ascending in the default `sort` order. */
  predicate Sorted(s: seq<string>) {
    forall i, j :: 0 <= i < j < |s| ==> Below(s[i], s[j])
  }

  /** Insertion of one name into a sorted list. */
  function Insert(x: string, s: seq<string>): (r: seq<string>)
    requires Sorted(s)
    ensures Sorted(r)
    ensures multiset(r) == multiset(s) + multiset{x}
  {
    if s == [] then [x]
    else if Below(x, s[0]) then
      assert forall j :: 0 <= j < |s| ==> Below(x, s[j]) by {
        forall j | 0 <= j < |s| ensures Below(x, s[j]) {
          if j > 0 { BelowTransitive(x, s[0], s[j]); }
        }
      }
      [x] + s
    else
      BelowTotal(x, s[0]);
      var rest := Insert(x, s[1..]);
      assert s == [s[0]] + s[1..];
      assert forall j :: 0 <= j < |rest| ==> Below(s[0], rest[j]) by {
        forall j | 0 <= j < |rest| ensures Below(s[0], rest[j]) {
          assert rest[j] in multiset(rest);
          if rest[j] != x {
            assert rest[j] in multiset(s[1..]);
            var k :| 0 <= k < |s[1..]| && s[1..][k] == rest[j];
            assert s[k + 1] == rest[j];
          }
        }
      }
      [s[0]] + rest
  }

  /** `Array.prototype.sort()` without a comparator: sorted, and a permutation. */
  function Sort(s: seq<string>): (r: seq<string>)
    ensures Sorted(r)
    ensures multiset(r) == multiset(s)
  {
    if s == [] then []
    else
      assert s == [s[0]] + s[1..];
      Insert(s[0], Sort(s[1..]))
  }

  /** The least element of a sorted list is below every element of it. */
  lemma HeadIsLeast(s: seq<string>, y: string)
    requires Sorted(s) && s != [] && y in multiset(s)
    ensures Below(s[0], y)
  {
    var k :| 0 <= k < |s| && s[k] == y;
    if k == 0 {
      BelowTotal(y, y);
    }
  }

  /** Two sorted lists holding the same names are the same list. */
  lemma {:induction false} SortedUnique(a: seq<string>, b: seq<string>)
    requires Sorted(a) && Sorted(b)
    requires multiset(a) == multiset(b)
    ensures a == b
    decreases |a|
  {
    if a != [] {
      assert |b| == |multiset(b)| == |multiset(a)| == |a|;
      HeadsAgree(a, b);
      TailsAgree(a, b);
      SortedTail(a);
      SortedTail(b);
      SortedUnique(a[1..], b[1..]);
      assert a == [a[0]] + a[1..];
      assert b == [b[0]] + b[1..];
    } else {
      assert |b| == |multiset(b)| == 0;
    }
  }

  lemma HeadsAgree(a: seq<string>, b: seq<string>)
    requires Sorted(a) && Sorted(b) && a != [] && b != []
    requires multiset(a) == multiset(b)
    ensures a[0] == b[0]
  {
    assert a[0] in multiset(b) && b[0] in multiset(a);
    HeadIsLeast(b, a[0]);
    HeadIsLeast(a, b[0]);
    BelowAntisymmetric(a[0], b[0]);
  }

  lemma TailsAgree<T>(a: seq<T>, b: seq<T>)
    requires a != [] && b != [] && a[0] == b[0]
    requires multiset(a) == multiset(b)
    ensures multiset(a[1..]) == multiset(b[1..])
  {
    assert a == [a[0]] + a[1..];
    assert b == [b[0]] + b[1..];
    assert multiset(a[1..]) == multiset(a) - multiset{a[0]};
    assert multiset(b[1..]) == multiset(b) - multiset{a[0]};
  }

  lemma SortedTail(a: seq<string>)
    requires Sorted(a) && a != []
    ensures Sorted(a[1..])
  {
    assert forall i :: 0 <= i < |a[1..]| ==> a[1..][i] == a[i + 1];
  }

  /** Filtering forgets the order of the names it is given. */
  lemma FilterPermutes(keep: string -> bool, a: seq<string>, b: seq<string>)
    requires multiset(a) == multiset(b)
    ensures multiset(Filter(keep, a)) == multiset(Filter(keep, b))
  {
    var fa, fb := Filter(keep, a), Filter(keep, b);
    FilterCounts(keep, a);
    FilterCounts(keep, b);
    assert forall x :: multiset(fa)[x] == multiset(fb)[x];
  }

  /**
   * `getImageFiles()`: the sorted allowed names of the listing. A listing that could
   * not be read (`None`) gives the empty list.
   */
  function GetImageFiles(listing: Option<seq<string>>): (r: seq<string>)
    ensures Sorted(r)
    ensures listing.None? ==> r == []
    ensures listing.Some? ==>
      forall x :: multiset(r)[x] == if IsImageFile(x) then multiset(listing.value)[x] else 0
  {
    match listing
    case None => []
    case Some(names) =>
      FilterCounts(IsImageFile, names);
      Sort(FilterImages(names))
  }

  /** A name is kept exactly when it is listed and passes the extension filter. */
  lemma KeptExactly(names: seq<string>, x: string)
    ensures x in GetImageFiles(Some(names)) <==> x in names && IsImageFile(x)
  {
    var r := GetImageFiles(Some(names));
    assert x in r <==> multiset(r)[x] > 0;
    assert x in names <==> multiset(names)[x] > 0;
  }

  /** With distinct names listed (as a directory listing has), the result has none twice. */
  lemma NoDuplicates(names: seq<string>)
    requires forall i, j :: 0 <= i < j < |names| ==> names[i] != names[j]
    ensures var r := GetImageFiles(Some(names));
      forall i, j :: 0 <= i < j < |r| ==> r[i] != r[j]
  {
    var r := GetImageFiles(Some(names));
    forall i, j | 0 <= i < j < |r| ensures r[i] != r[j] {
      DistinctCount(names, r[i]);
      if r[i] == r[j] {
        TwiceCounted(r, i, j);
      }
    }
  }

  lemma TwiceCounted(s: seq<string>, i: nat, j: nat)
    requires i < j < |s| && s[i] == s[j]
    ensures multiset(s)[s[i]] >= 2
  {
    assert s == s[..j] + s[j..];
    assert s[i] in s[..j];
    assert s[j..][0] == s[i];
    assert multiset(s) == multiset(s[..j]) + multiset(s[j..]);
  }

  lemma {:induction false} DistinctCount(names: seq<string>, x: string)
    requires forall i, j :: 0 <= i < j < |names| ==> names[i] != names[j]
    ensures multiset(names)[x] <= 1
  {
    if names != [] {
      DistinctCount(names[1..], x);
      assert names == [names[0]] + names[1..];
      if names[0] == x {
        assert x !in names[1..];
      }
    }
  }

  /**
   * The order in which the directory is listed does not matter: two listings with
   * the same names give the same manifest.
   */
  lemma ListingOrderIrrelevant(a: seq<string>, b: seq<string>)
    requires multiset(a) == multiset(b)
    ensures GetImageFiles(Some(a)) == GetImageFiles(Some(b))
  {
    FilterPermutes(IsImageFile, a, b);
    SortedUnique(Sort(FilterImages(a)), Sort(FilterImages(b)));
  }

  /** A name whose last dot starts an extension: it is an image exactly when that extension, lower-cased, is allowed. */
  lemma ImageByExtension(name: string, d: nat)
    requires '/' !in name && 0 < d < |name| && name[d] == '.' && '.' !in name[d + 1..] && name != ".."
    ensures IsImageFile(name) <==> ToLower(name[d..]) in ImageExtensions
  {
    ExtnameOfName(name, d);
  }

  // ------------------------------------------------------- illustrations
  //
  // One worked listing, `b.png`, `a.jpg` and `notes.txt`, and the name the
  // replacement finding needs. These only illustrate `GetImageFiles` and
  // `KeptExactly` on literals; the lemmas above cover every listing.

  /** `x$&.png`, the name of the replacement finding, is kept. */
  lemma ExampleDollarPng(n: string)
    requires n == "x$&.png"
    ensures IsImageFile(n)
  {
    ImageByExtension(n, 3);
    var e := n[3..];
    assert e == ".png";
    LowerStable(e);
  }

  /** Illustration: `b.png` is kept. */
  lemma ExamplePng(n: string)
    requires n == "b.png"
    ensures IsImageFile(n)
  {
    ImageByExtension(n, 1);
    var e := n[1..];
    assert e == ".png";
    LowerStable(e);
  }

  /** Illustration: `a.jpg` is kept. */
  lemma ExampleJpg(n: string)
    requires n == "a.jpg"
    ensures IsImageFile(n)
  {
    ImageByExtension(n, 1);
    var e := n[1..];
    assert e == ".jpg";
    LowerStable(e);
  }

  /** Illustration: `notes.txt` is dropped. */
  lemma ExampleTxt(n: string)
    requires n == "notes.txt"
    ensures !IsImageFile(n)
  {
    ImageByExtension(n, 5);
    var l := ToLower(n[5..]);
    assert |l| == 4 && l[1] == LowerChar(n[6]) == 't';
    NotAnExtension(l);
  }

  /** No allowed extension has `t` after its dot. */
  lemma NotAnExtension(e: string)
    requires |e| >= 2 && e[1] == 't'
    ensures e !in ImageExtensions
  {
  }

  /**
   * Illustration, one step of `ExampleListing`. Two names that pass, `j` sorting
   * before `p`, listed with one that does not: the sorted filtered list is the two
   * in order.
   */
  lemma TwoOfThree(keep: string -> bool, p: string, j: string, t: string)
    requires keep(p) && keep(j) && !keep(t) && Below(j, p)
    ensures Sort(Filter(keep, [p, j, t])) == [j, p]
  {
    var f := Filter(keep, [p, j, t]);
    KeptTwo(keep, p, j, t);
    assert Sorted([j, p]);
    SortedUnique(Sort(f), [j, p]);
  }

  /** Illustration: the filter keeps the two passing names of the worked listing. */
  lemma KeptTwo(keep: string -> bool, p: string, j: string, t: string)
    requires keep(p) && keep(j) && !keep(t)
    ensures multiset(Filter(keep, [p, j, t])) == multiset([j, p])
  {
    KeptInOrder(keep, [p, j, t], p, j, t);
    assert [p, j] == [p] + [j] && [j, p] == [j] + [p];
  }

  /** Illustration: in listing order. */
  lemma KeptInOrder(keep: string -> bool, names: seq<string>, p: string, j: string, t: string)
    requires names == [p, j, t] && keep(p) && keep(j) && !keep(t)
    ensures Filter(keep, names) == [p, j]
  {
    var a, b := Filter(keep, [t]), Filter(keep, [j, t]);
    assert a == [] by {
      FilterDrops(keep, t, []);
      assert [t] + [] == [t];
    }
    assert b == [j] by {
      FilterKeeps(keep, j, [t]);
      assert [j] + [t] == [j, t];
    }
    FilterKeeps(keep, p, [j, t]);
    assert [p] + [j, t] == names;
  }

  lemma FilterKeeps(keep: string -> bool, x: string, rest: seq<string>)
    requires keep(x)
    ensures Filter(keep, [x] + rest) == [x] + Filter(keep, rest)
  {
    assert ([x] + rest)[1..] == rest;
  }

  lemma FilterDrops(keep: string -> bool, x: string, rest: seq<string>)
    requires !keep(x)
    ensures Filter(keep, [x] + rest) == Filter(keep, rest)
  {
    assert ([x] + rest)[1..] == rest;
  }

  /** Illustration, the worked listing: `b.png`, `a.jpg` and `notes.txt` give `["a.jpg", "b.png"]`. */
  lemma ExampleListing(p: string, j: string, t: string)
    requires p == "b.png" && j == "a.jpg" && t == "notes.txt"
    ensures GetImageFiles(Some([p, j, t])) == [j, p]
  {
    ExamplePng(p);
    ExampleJpg(j);
    ExampleTxt(t);
    assert j[0] < p[0];
    TwoOfThree(IsImageFile, p, j, t);
  }
}
