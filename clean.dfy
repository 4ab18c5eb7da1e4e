/**
 * `removeDirectory` of `clean.js`: a post-order walk of a directory tree that
 * unlinks every non-directory and removes every directory once its entries are gone.
 * Paths are segment lists; `path.join(dir, file)` of a listed name is the list with
 * that name appended (`PosixPath.JoinPlain`).
 */
module Clean {
  import opened Wrappers
  import opened PosixPath

  /**
   * What `lstatSync` and `readdirSync` show: a directory with its listing, or a
   * non-directory. A symbolic link is not followed, so it is a non-directory
   * whatever it points to.
   */
  datatype Node = File | Symlink | Dir(entries: seq<Entry>)
  datatype Entry = Entry(name: string, node: Node)

  /** The removals `removeDirectory` issues: `unlinkSync` and `rmdirSync`. */
  datatype Op = Unlink(path: seq<string>) | Rmdir(path: seq<string>)

  /** A listing as `readdirSync` gives it: distinct plain names, all the way down. */
  predicate Tidy(n: Node)
    decreases n
  {
    match n
    case Dir(es) =>
      (forall i, j :: 0 <= i < j < |es| ==> es[i].name != es[j].name) &&
      (forall i :: 0 <= i < |es| ==> Plain(es[i].name) && Tidy(es[i].node))
    case _ => true
  }

  // ------------------------------------------------------ the reference

  /** The removals for the node at `path`: entries first, in listing order, then the directory. */
  function Removal(path: seq<string>, n: Node): seq<Op>
    decreases n, 1
  {
    match n
    case Dir(es) => RemoveEntries(path, n, |es|) + [Rmdir(path)]
    case _ => [Unlink(path)]
  }

  /** The removals for the first `k` entries of directory `d` at `path`. */
  function RemoveEntries(path: seq<string>, d: Node, k: nat): seq<Op>
    requires d.Dir? && k <= |d.entries|
    decreases d, 0, k
  {
    if k == 0 then []
    else
      var e := d.entries[k - 1];
      RemoveEntries(path, d, k - 1) + Removal(path + [e.name], e.node)
  }

  // -------------------------------------------------------- the walk

  /** The removals issued so far. */
  class Cleaner {
    var ops: seq<Op>

    constructor ()
      ensures ops == []
    {
      ops := [];
    }

    /**
     * `removeDirectory(dir)` for a directory that exists: each entry is removed,
     * subdirectories by recursion, then the directory itself.
     */
    method RemoveDirectory(dir: seq<string>, n: Node)
      requires n.Dir?
      modifies this
      ensures ops == old(ops) + Removal(dir, n)
      decreases n
    {
      var es := n.entries;
      for i := 0 to |es|
        invariant ops == old(ops) + RemoveEntries(dir, n, i)
      {
        var e := es[i];
        var filePath := dir + [e.name];
        if e.node.Dir? {
          RemoveDirectory(filePath, e.node);
        } else {
          ops := ops + [Unlink(filePath)];
        }
      }
      ops := ops + [Rmdir(dir)];
    }

    /**
     * The top-level call on `DIST_DIR`: nothing when it does not exist; when it is not
     * a directory `readdirSync` throws before anything is removed.
     */
    method CleanDist(dist: seq<string>, view: Option<Node>) returns (ok: bool)
      modifies this
      ensures ok <==> view.None? || view.value.Dir?
      ensures ops == old(ops) + (if view.Some? && view.value.Dir? then Removal(dist, view.value) else [])
    {
      if view.None? {
        return true;
      }
      if !view.value.Dir? {
        return false;
      }
      RemoveDirectory(dist, view.value);
      return true;
    }
  }

  // -------------------------------------------------- the file system

  /** The file system as the set of its paths, each with whether it is a directory. */
  type Fs = set<(seq<string>, bool)>

  /** `q` is `p` or lies below it. */
  predicate Extends(q: seq<string>, p: seq<string>) {
    |q| >= |p| && q[..|p|] == p
  }

  /** No path is both a file and a directory. */
  predicate Valid(fs: Fs) {
    forall a, b :: a in fs && b in fs && a.0 == b.0 ==> a == b
  }

  /** `unlinkSync` needs a non-directory; `rmdirSync` needs an empty directory. */
  function Apply(fs: Fs, op: Op): Option<Fs> {
    match op
    case Unlink(p) => if (p, false) in fs then Some(fs - {(p, false)}) else None
    case Rmdir(p) =>
      if (p, true) in fs && forall e :: e in fs && Extends(e.0, p) ==> e.0 == p
      then Some(fs - {(p, true)}) else None
  }

  /** The removals applied in order; `None` once one of them fails. */
  function Run(fs: Fs, ops: seq<Op>): Option<Fs> {
    if ops == [] then Some(fs)
    else match Apply(fs, ops[0])
      case None => None
      case Some(f) => Run(f, ops[1..])
  }

  /** The paths a tree at `path` occupies. */
  function Keys(path: seq<string>, n: Node): Fs
    decreases n, 1
  {
    match n
    case Dir(es) => EntryKeys(path, n, |es|) + {(path, true)}
    case _ => {(path, false)}
  }

  function EntryKeys(path: seq<string>, d: Node, k: nat): Fs
    requires d.Dir? && k <= |d.entries|
    decreases d, 0, k
  {
    if k == 0 then {}
    else
      var e := d.entries[k - 1];
      EntryKeys(path, d, k - 1) + Keys(path + [e.name], e.node)
  }

  /** The file system holds the tree at `path`, and nothing else at or below `path`. */
  predicate Holds(fs: Fs, path: seq<string>, n: Node) {
    Keys(path, n) <= fs && forall e :: e in fs && Extends(e.0, path) ==> e in Keys(path, n)
  }

  // ------------------------------------------------------------ lemmas

  /** What issuing one list of removals and then another does. */
  lemma {:induction false} RunAppend(fs: Fs, a: seq<Op>, b: seq<Op>)
    ensures Run(fs, a + b) == match Run(fs, a) case None => None case Some(f) => Run(f, b)
  {
    if a != [] {
      assert (a + b)[1..] == a[1..] + b;
      match Apply(fs, a[0])
      case None =>
      case Some(f) => RunAppend(f, a[1..], b);
    } else {
      assert a + b == b;
    }
  }

  /** Every path of a tree lies at or below its root. */
  lemma {:induction false} KeysExtend(path: seq<string>, n: Node)
    ensures forall e :: e in Keys(path, n) ==> Extends(e.0, path)
    decreases n
  {
    if n.Dir? {
      forall e | e in Keys(path, n) ensures Extends(e.0, path) {
        if e != (path, true) {
          var j := EntryOf(path, n, |n.entries|, e);
          var c := n.entries[j];
          KeysExtend(path + [c.name], c.node);
          assert e.0[..|path|] == e.0[..|path| + 1][..|path|];
        }
      }
    }
  }

  /** A path of the first `k` entries belongs to one of them. */
  lemma {:induction false} EntryOf(path: seq<string>, d: Node, k: nat, e: (seq<string>, bool)) returns (j: nat)
    requires d.Dir? && k <= |d.entries| && e in EntryKeys(path, d, k)
    ensures j < k && e in Keys(path + [d.entries[j].name], d.entries[j].node)
  {
    var c := d.entries[k - 1];
    if e in Keys(path + [c.name], c.node) {
      j := k - 1;
    } else {
      j := EntryOf(path, d, k - 1, e);
    }
  }

  /** The paths of entry `j` are among those of the first `k` entries when `j < k`. */
  lemma {:induction false} EntryIn(path: seq<string>, d: Node, k: nat, j: nat)
    requires d.Dir? && j < k <= |d.entries|
    ensures Keys(path + [d.entries[j].name], d.entries[j].node) <= EntryKeys(path, d, k)
  {
    if j < k - 1 {
      EntryIn(path, d, k - 1, j);
    }
  }

  /** The paths of entry `j` all carry its name right below the directory. */
  lemma EntryNamed(path: seq<string>, c: Entry, e: (seq<string>, bool))
    requires e in Keys(path + [c.name], c.node)
    ensures |e.0| > |path| && e.0[|path|] == c.name && Extends(e.0, path)
  {
    KeysExtend(path + [c.name], c.node);
    assert e.0[..|path| + 1] == path + [c.name];
    assert e.0[..|path|] == e.0[..|path| + 1][..|path|];
  }

  /**
   * Removing a tree the file system holds succeeds, removes exactly the tree's paths
   * and leaves everything else in place.
   */
  lemma {:induction false} RemovalRuns(fs: Fs, path: seq<string>, n: Node)
    requires Tidy(n) && Holds(fs, path, n)
    ensures Run(fs, Removal(path, n)) == Some(fs - Keys(path, n))
    decreases n, 1
  {
    if n.Dir? {
      var k := |n.entries|;
      EntriesRun(fs, path, n, k);
      var rest := fs - EntryKeys(path, n, k);
      RunAppend(fs, RemoveEntries(path, n, k), [Rmdir(path)]);
      forall e | e in EntryKeys(path, n, k) ensures |e.0| > |path| {
        var j := EntryOf(path, n, k, e);
        EntryNamed(path, n.entries[j], e);
      }
      assert (path, true) in rest;
      forall e | e in rest && Extends(e.0, path) ensures e.0 == path {
        assert e in Keys(path, n);
      }
      assert rest - {(path, true)} == fs - Keys(path, n);
    }
  }

  lemma {:induction false} EntriesRun(fs: Fs, path: seq<string>, d: Node, k: nat)
    requires d.Dir? && k <= |d.entries| && Tidy(d) && Holds(fs, path, d)
    ensures Run(fs, RemoveEntries(path, d, k)) == Some(fs - EntryKeys(path, d, k))
    decreases d, 0, k
  {
    if k > 0 {
      EntriesRun(fs, path, d, k - 1);
      var c := d.entries[k - 1];
      var child := path + [c.name];
      var before := fs - EntryKeys(path, d, k - 1);
      ChildHeld(fs, path, d, k);
      RemovalRuns(before, child, c.node);
      RunAppend(fs, RemoveEntries(path, d, k - 1), Removal(child, c.node));
      assert before - Keys(child, c.node) == fs - EntryKeys(path, d, k);
    } else {
      assert fs - {} == fs;
    }
  }

  /** Once the entries before it are gone, the file system holds entry `k - 1`. */
  lemma ChildHeld(fs: Fs, path: seq<string>, d: Node, k: nat)
    requires d.Dir? && 0 < k <= |d.entries| && Tidy(d) && Holds(fs, path, d)
    ensures var c := d.entries[k - 1];
      Holds(fs - EntryKeys(path, d, k - 1), path + [c.name], c.node)
  {
    var c := d.entries[k - 1];
    var child := path + [c.name];
    var before := fs - EntryKeys(path, d, k - 1);
    EntryIn(path, d, |d.entries|, k - 1);
    forall e | e in Keys(child, c.node) ensures |e.0| > |path| && e.0[|path|] == c.name {
      EntryNamed(path, c, e);
    }
    forall e | e in EntryKeys(path, d, k - 1) ensures |e.0| > |path| && e.0[|path|] != c.name {
      var j := EntryOf(path, d, k - 1, e);
      EntryNamed(path, d.entries[j], e);
    }
    assert Keys(child, c.node) <= before;
    forall e | e in before && Extends(e.0, child) ensures e in Keys(child, c.node) {
      assert e.0[..|path|] == e.0[..|child|][..|path|];
      assert e in Keys(path, d) && e.0 != path;
      var j := EntryOf(path, d, |d.entries|, e);
      EntryNamed(path, d.entries[j], e);
      assert e.0[|path|] == child[|path|] == c.name;
      assert j == k - 1;
    }
  }

  // ----------------------------------------------- runs that succeed

  /** Each removal of a run that succeeds acts on a path of the right kind that was there. */
  lemma {:induction false} RunTouches(fs: Fs, ops: seq<Op>)
    requires Run(fs, ops).Some?
    ensures forall i :: 0 <= i < |ops| ==> (ops[i].path, ops[i].Rmdir?) in fs
  {
    if ops != [] {
      var f := Apply(fs, ops[0]).value;
      RunTouches(f, ops[1..]);
      assert forall i :: 0 < i < |ops| ==> ops[i] == ops[1..][i - 1];
    }
  }

  /** A path that a run that succeeds removes is the path of one of its removals. */
  lemma {:induction false} RunRemoves(fs: Fs, ops: seq<Op>)
    requires Run(fs, ops).Some?
    ensures forall x :: x in fs && x !in Run(fs, ops).value ==>
      exists i :: 0 <= i < |ops| && ops[i].path == x.0
  {
    if ops != [] {
      var f := Apply(fs, ops[0]).value;
      RunRemoves(f, ops[1..]);
      forall x | x in fs && x !in Run(fs, ops).value
        ensures exists i :: 0 <= i < |ops| && ops[i].path == x.0
      {
        if x in f {
          var i :| 0 <= i < |ops[1..]| && ops[1..][i].path == x.0;
          assert ops[i + 1].path == x.0;
        } else {
          assert ops[0].path == x.0;
        }
      }
    }
  }

  /** In a run that succeeds no path is acted on twice. */
  lemma {:induction false} RunOnce(fs: Fs, ops: seq<Op>)
    requires Valid(fs) && Run(fs, ops).Some?
    ensures forall i, j :: 0 <= i < j < |ops| ==> ops[i].path != ops[j].path
  {
    if ops != [] {
      var f := Apply(fs, ops[0]).value;
      var p := ops[0].path;
      assert forall x :: x in f ==> x.0 != p;
      RunOnce(f, ops[1..]);
      RunTouches(f, ops[1..]);
      assert forall i :: 0 < i < |ops| ==> ops[i] == ops[1..][i - 1];
    }
  }

  /** In a run that succeeds nothing at or below a removed directory is acted on later. */
  lemma {:induction false} RunPostOrder(fs: Fs, ops: seq<Op>)
    requires Valid(fs) && Run(fs, ops).Some?
    ensures forall i, j :: 0 <= i < j < |ops| && ops[i].Rmdir? ==> !Extends(ops[j].path, ops[i].path)
  {
    if ops != [] {
      var f := Apply(fs, ops[0]).value;
      var p := ops[0].path;
      assert ops[0].Rmdir? ==> forall x :: x in f ==> !Extends(x.0, p);
      RunPostOrder(f, ops[1..]);
      RunTouches(f, ops[1..]);
      assert forall i :: 0 < i < |ops| ==> ops[i] == ops[1..][i - 1];
    }
  }

  // ------------------------------------------- what the removal does

  /** A tidy tree never has a path both as a file and as a directory. */
  lemma {:induction false} KeysValid(path: seq<string>, n: Node)
    requires Tidy(n)
    ensures Valid(Keys(path, n))
    decreases n
  {
    if n.Dir? {
      var k := |n.entries|;
      forall a, b | a in Keys(path, n) && b in Keys(path, n) && a.0 == b.0 ensures a == b {
        if a.0 == path {
          LongerBelow(path, n, a);
          LongerBelow(path, n, b);
        } else {
          assert a in EntryKeys(path, n, k) && b in EntryKeys(path, n, k);
          var i := EntryOf(path, n, k, a);
          var j := EntryOf(path, n, k, b);
          EntryNamed(path, n.entries[i], a);
          EntryNamed(path, n.entries[j], b);
          assert n.entries[i].name == a.0[|path|] == n.entries[j].name;
          assert i == j;
          KeysValid(path + [n.entries[i].name], n.entries[i].node);
        }
      }
    }
  }

  /** The only path of a directory's tree that is the directory itself is the directory entry. */
  lemma LongerBelow(path: seq<string>, n: Node, a: (seq<string>, bool))
    requires n.Dir? && a in Keys(path, n) && a.0 == path
    ensures a == (path, true)
  {
    var k := |n.entries|;
    forall e | e in EntryKeys(path, n, k) ensures |e.0| > |path| {
      var j := EntryOf(path, n, k, e);
      EntryNamed(path, n.entries[j], e);
    }
  }

  /**
   * `removeDirectory` removes each path of the tree exactly once: every removal acts on
   * a path of the tree, with `unlinkSync` for a non-directory (a symbolic link included)
   * and `rmdirSync` for a directory; no two act on the same path; every path is acted on;
   * nothing at or below a directory is acted on after it (post-order); and the root is
   * removed last.
   */
  lemma RemovalExactlyOnce(path: seq<string>, n: Node)
    requires Tidy(n)
    ensures var ops := Removal(path, n);
      (forall i :: 0 <= i < |ops| ==> (ops[i].path, ops[i].Rmdir?) in Keys(path, n)) &&
      (forall i, j :: 0 <= i < j < |ops| ==> ops[i].path != ops[j].path) &&
      (forall e :: e in Keys(path, n) ==> exists i :: 0 <= i < |ops| && ops[i].path == e.0) &&
      (forall i, j :: 0 <= i < j < |ops| && ops[i].Rmdir? ==> !Extends(ops[j].path, ops[i].path)) &&
      ops[|ops| - 1] == (if n.Dir? then Rmdir(path) else Unlink(path))
  {
    var fs := Keys(path, n);
    var ops := Removal(path, n);
    KeysExtend(path, n);
    KeysValid(path, n);
    RemovalRuns(fs, path, n);
    assert fs - fs == {};
    RunTouches(fs, ops);
    RunOnce(fs, ops);
    RunRemoves(fs, ops);
    RunPostOrder(fs, ops);
  }

  /**
   * After removing a tree the file system holds, nothing is left at or below its root,
   * and everything elsewhere is as it was.
   */
  lemma Gone(fs: Fs, path: seq<string>, n: Node)
    requires Tidy(n) && Holds(fs, path, n)
    ensures Run(fs, Removal(path, n)).Some?
    ensures var after := Run(fs, Removal(path, n)).value;
      (forall e :: e in after ==> !Extends(e.0, path)) &&
      (forall e :: e in fs && !Extends(e.0, path) ==> e in after)
  {
    RemovalRuns(fs, path, n);
    KeysExtend(path, n);
  }
}
