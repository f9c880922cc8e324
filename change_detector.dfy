/**
 * Change detection: the walk of one subdirectory that looks for anything modified after
 * the time it was last archived.
 *
 * The directory tree is an input: each directory carries its own modification time, its
 * files and its subdirectories, in the order the filesystem lists them. Times are whole
 * seconds.
 */
module ChangeDetector {
  import opened Wrappers

  /** A file and its modification time. */
  datatype File = File(name: string, mtime: int)

  /** A directory: its name, its own modification time, its files and its subdirectories. */
  datatype Dir = Dir(name: string, mtime: int, files: seq<File>, subdirs: seq<Dir>)

  // ---- Sizes, for termination -------------------------------------------------------

  function Size(d: Dir): nat
    decreases d
  {
    1 + SizeAll(d.subdirs)
  }

  function SizeAll(ds: seq<Dir>): nat
    decreases ds
  {
    if ds == [] then 0 else Size(ds[0]) + SizeAll(ds[1..])
  }

  /** The first directory of a non-empty list, the trees below it, and the rest. */
  lemma SizeAllFirst(ds: seq<Dir>)
    requires ds != []
    ensures SizeAll(ds) == 1 + SizeAll(ds[0].subdirs) + SizeAll(ds[1..])
  {
  }

  /** Replacing the first pending directory by its pruned subdirectories shrinks the work left. */
  lemma WalkShrinks(pending: seq<Dir>)
    requires pending != []
    ensures SizeAll(Pruned(pending[0].subdirs) + pending[1..]) < SizeAll(pending)
  {
    SizeAllFirst(pending);
    PrunedSize(pending[0].subdirs);
    SizeAllAppend(Pruned(pending[0].subdirs), pending[1..]);
  }

  lemma {:induction false} SizeAllAppend(a: seq<Dir>, b: seq<Dir>)
    ensures SizeAll(a + b) == SizeAll(a) + SizeAll(b)
    decreases |a|
  {
    if a == [] {
      assert a + b == b;
    } else {
      assert (a + b)[1..] == a[1..] + b;
      SizeAllAppend(a[1..], b);
    }
  }

  // ---- Pruning ------------------------------------------------------------------------

  /** The index of the first directory named `n`, or `|ds|` when there is none. */
  function FirstNamed(ds: seq<Dir>, n: string): (i: nat)
    ensures i <= |ds|
    ensures forall j | 0 <= j < i :: ds[j].name != n
    ensures i < |ds| ==> ds[i].name == n
  {
    if ds == [] then 0
    else if ds[0].name == n then 0
    else 1 + FirstNamed(ds[1..], n)
  }

  /** list.remove by name: drop the first directory named `n`; nothing changes if there is none. */
  function RemoveFirstNamed(ds: seq<Dir>, n: string): (r: seq<Dir>)
    ensures var i := FirstNamed(ds, n);
      r == if i < |ds| then ds[..i] + ds[i + 1..] else ds
  {
    if ds == [] then []
    else if ds[0].name == n then ds[1..]
    else
      var tail := ds[1..];
      assert ds == [ds[0]] + tail;
      ConsSplice(ds[0], tail, FirstNamed(tail, n));
      [ds[0]] + RemoveFirstNamed(tail, n)
  }

  /** Dropping the element at `j` of a tail is dropping the element at `j + 1` of the whole list. */
  lemma ConsSplice(x: Dir, tail: seq<Dir>, j: int)
    requires 0 <= j <= |tail|
    ensures j < |tail| ==> [x] + (tail[..j] + tail[j + 1..]) == ([x] + tail)[..j + 1] + ([x] + tail)[j + 2..]
  {
    if j == |tail| {
      return;
    }
    assert ([x] + tail)[..j + 1] == [x] + tail[..j];
    assert ([x] + tail)[j + 2..] == tail[j + 1..];
  }

  lemma {:induction false} RemoveFirstNamedSize(ds: seq<Dir>, n: string)
    ensures SizeAll(RemoveFirstNamed(ds, n)) <= SizeAll(ds)
    decreases |ds|
  {
    if ds != [] && ds[0].name != n {
      RemoveFirstNamedSize(ds[1..], n);
      assert ([ds[0]] + RemoveFirstNamed(ds[1..], n))[1..] == RemoveFirstNamed(ds[1..], n);
    }
  }

  /** The subdirectories the walk descends into: one `CVS` and one `.svn` removed. */
  function Pruned(ds: seq<Dir>): seq<Dir>
  {
    RemoveFirstNamed(RemoveFirstNamed(ds, "CVS"), ".svn")
  }

  lemma PrunedSize(ds: seq<Dir>)
    ensures SizeAll(Pruned(ds)) <= SizeAll(ds)
  {
    RemoveFirstNamedSize(ds, "CVS");
    RemoveFirstNamedSize(RemoveFirstNamed(ds, "CVS"), ".svn");
  }

  // ---- The walk -----------------------------------------------------------------------

  function FileTimes(files: seq<File>): (r: seq<int>)
    ensures |r| == |files| && forall i | 0 <= i < |files| :: r[i] == files[i].mtime
  {
    seq(|files|, i requires 0 <= i < |files| => files[i].mtime)
  }

  /**
   * The modification times os.walk shows, top-down, for the directories still to be
   * walked: each directory's own time, then its files, then what lies below it (after
   * pruning), before the directories that follow it.
   */
  function WalkTimes(pending: seq<Dir>): seq<int>
    decreases SizeAll(pending)
  {
    if pending == [] then []
    else
      var d := pending[0];
      WalkShrinks(pending);
      [d.mtime] + FileTimes(d.files) + WalkTimes(Pruned(d.subdirs) + pending[1..])
  }

  /** The first time after the watermark `w`, or `None` when there is none. */
  function FirstAfter(s: seq<int>, w: int): (r: Option<int>)
    ensures r.Some? ==> r.value > w && r.value in s
    ensures r.None? <==> forall i | 0 <= i < |s| :: s[i] <= w
  {
    if s == [] then None
    else if s[0] > w then Some(s[0])
    else FirstAfter(s[1..], w)
  }

  /** is_modified_after, as a function of the tree and the watermark. */
  function ModifiedAfter(root: Dir, maxMtime: int): Option<int>
  {
    FirstAfter(WalkTimes([root]), maxMtime)
  }

  /**
   * is_modified_after: walk the tree top-down and return the first modification time
   * after `maxMtime`; `CVS` and `.svn` are not descended into.
   */
  method IsModifiedAfter(root: Dir, maxMtime: int) returns (r: Option<int>)
    ensures r == ModifiedAfter(root, maxMtime)
  {
    var pending := [root];
    while pending != []
      invariant FirstAfter(WalkTimes(pending), maxMtime) == ModifiedAfter(root, maxMtime)
      decreases SizeAll(pending)
    {
      var cur := pending[0];
      WalkStep(pending, maxMtime);
      if cur.mtime > maxMtime {
        return Some(cur.mtime);
      }
      var found := FirstModifiedFile(cur.files, maxMtime);
      if found.Some? {
        return found;
      }
      var dirs := cur.subdirs;
      dirs := RemoveFirstNamed(dirs, "CVS");
      dirs := RemoveFirstNamed(dirs, ".svn");
      WalkShrinks(pending);
      pending := dirs + pending[1..];
    }
    return None;
  }

  /** The loop over the files of one directory: the first modification time after `maxMtime`. */
  method FirstModifiedFile(files: seq<File>, maxMtime: int) returns (r: Option<int>)
    ensures r == FirstAfter(FileTimes(files), maxMtime)
  {
    var i := 0;
    while i < |files|
      invariant 0 <= i <= |files|
      invariant forall j | 0 <= j < i :: files[j].mtime <= maxMtime
    {
      if files[i].mtime > maxMtime {
        FirstAfterAt(FileTimes(files), i, maxMtime);
        return Some(files[i].mtime);
      }
      i := i + 1;
    }
    return None;
  }

  // ---- Properties of the search -------------------------------------------------------

  /**
   * One step of the walk: the first directory's own time, then its files, then the rest
   * of the walk with its pruned subdirectories in front.
   */
  lemma WalkStep(pending: seq<Dir>, w: int)
    requires pending != []
    ensures var d := pending[0];
      FirstAfter(WalkTimes(pending), w) ==
        if d.mtime > w then Some(d.mtime)
        else if FirstAfter(FileTimes(d.files), w).Some? then FirstAfter(FileTimes(d.files), w)
        else FirstAfter(WalkTimes(Pruned(d.subdirs) + pending[1..]), w)
  {
    var d := pending[0];
    var rest := WalkTimes(Pruned(d.subdirs) + pending[1..]);
    var own, files := [d.mtime], FileTimes(d.files);
    WalkTimesFirst(pending);
    AppendAssociative(own, files, rest);
    FirstAfterAppend(own, files + rest, w);
    FirstAfterAppend(files, rest, w);
  }

  /** The walk of a non-empty list, unfolded once. */
  lemma WalkTimesFirst(pending: seq<Dir>)
    requires pending != []
    ensures var d := pending[0];
      WalkTimes(pending) == [d.mtime] + FileTimes(d.files) + WalkTimes(Pruned(d.subdirs) + pending[1..])
  {
  }

  /** The first time after the watermark in a concatenation comes from the first part if it has one. */
  lemma {:induction false} FirstAfterAppend(a: seq<int>, b: seq<int>, w: int)
    ensures FirstAfter(a + b, w) == if FirstAfter(a, w).Some? then FirstAfter(a, w) else FirstAfter(b, w)
    decreases |a|
  {
    if a == [] {
      assert a + b == b;
    } else {
      assert (a + b)[1..] == a[1..] + b;
      FirstAfterAppend(a[1..], b, w);
    }
  }

  /** The time found is the first one after the watermark: all before it are at or below it. */
  lemma {:induction false} FirstAfterAt(s: seq<int>, i: int, w: int)
    requires 0 <= i < |s| && s[i] > w
    requires forall j | 0 <= j < i :: s[j] <= w
    ensures FirstAfter(s, w) == Some(s[i])
    decreases i
  {
    if i > 0 {
      assert forall j | 0 <= j < i - 1 :: s[1..][j] == s[j + 1];
      FirstAfterAt(s[1..], i - 1, w);
    }
  }

  // ---- The walk as a tree recursion ---------------------------------------------------

  /** The times of a tree in pre-order, pruned subdirectories left out. */
  function Preorder(d: Dir): seq<int>
    decreases Size(d), 1
  {
    PrunedSize(d.subdirs);
    [d.mtime] + FileTimes(d.files) + PreorderAll(Pruned(d.subdirs))
  }

  function PreorderAll(ds: seq<Dir>): seq<int>
    decreases SizeAll(ds), 2
  {
    if ds == [] then [] else Preorder(ds[0]) + PreorderAll(ds[1..])
  }

  lemma {:induction false} PreorderAllAppend(a: seq<Dir>, b: seq<Dir>)
    ensures PreorderAll(a + b) == PreorderAll(a) + PreorderAll(b)
    decreases |a|
  {
    if a == [] {
      assert a + b == b;
    } else {
      assert (a + b)[1..] == a[1..] + b;
      PreorderAllAppend(a[1..], b);
    }
  }

  /** Pre-order of a non-empty list: the first tree's own time, its files, what lies below it, then the rest. */
  lemma PreorderAllFirst(ds: seq<Dir>)
    requires ds != []
    ensures var d := ds[0];
      PreorderAll(ds) == [d.mtime] + FileTimes(d.files) + PreorderAll(Pruned(d.subdirs) + ds[1..])
  {
    var d, rest := ds[0], ds[1..];
    var ps := Pruned(d.subdirs);
    var head := [d.mtime] + FileTimes(d.files);
    var below, after := PreorderAll(ps), PreorderAll(rest);
    PreorderAllCons(ds);
    PreorderUnfold(d);
    PreorderAllAppend(ps, rest);
    AppendAssociative(head, below, after);
  }

  /**
   * Regrouping a concatenation of three sequences. Stated on its own: as an assertion
   * amid the unfolded walk, the solver does not find it in reasonable time.
   */
  lemma AppendAssociative(a: seq<int>, b: seq<int>, c: seq<int>)
    ensures a + b + c == a + (b + c)
  {
  }

  lemma PreorderAllCons(ds: seq<Dir>)
    requires ds != []
    ensures PreorderAll(ds) == Preorder(ds[0]) + PreorderAll(ds[1..])
  {
  }

  lemma PreorderUnfold(d: Dir)
    ensures Preorder(d) == [d.mtime] + FileTimes(d.files) + PreorderAll(Pruned(d.subdirs))
  {
  }

  /** The walk with its list of pending directories visits the trees in pre-order. */
  lemma {:induction false} WalkTimesIsPreorder(pending: seq<Dir>)
    ensures WalkTimes(pending) == PreorderAll(pending)
    decreases SizeAll(pending)
  {
    if pending != [] {
      var d, rest := pending[0], pending[1..];
      var ps := Pruned(d.subdirs);
      WalkShrinks(pending);
      WalkTimesIsPreorder(ps + rest);
      PreorderAllFirst(pending);
    }
  }

  /**
   * What the walk reports: a time after the watermark taken from the pre-order of the
   * tree, the first such, and `None` exactly when no time there exceeds the watermark.
   * The root's own time is looked at first.
   */
  lemma ModifiedAfterSpec(root: Dir, maxMtime: int)
    ensures var r := ModifiedAfter(root, maxMtime);
      && (r.Some? ==> r.value > maxMtime && r.value in Preorder(root))
      && (r.None? <==> forall x | x in Preorder(root) :: x <= maxMtime)
      && (root.mtime > maxMtime ==> r == Some(root.mtime))
  {
    WalkTimesIsPreorder([root]);
    assert PreorderAll([root]) == Preorder(root) + PreorderAll([]);
    assert [root][1..] == [];
  }

  // ---- What pruning hides -------------------------------------------------------------

  predicate IsVcsDir(d: Dir)
  {
    d.name == "CVS" || d.name == ".svn"
  }

  /** No two directories of the list share a name, as in one directory of a filesystem. */
  predicate DistinctDirNames(ds: seq<Dir>)
  {
    forall i, j | 0 <= i < j < |ds| :: ds[i].name != ds[j].name
  }

  /** No two subdirectories of a directory share a name, at any depth. */
  predicate UniqueNames(d: Dir)
    decreases d
  {
    && DistinctDirNames(d.subdirs)
    && (forall i | 0 <= i < |d.subdirs| :: UniqueNames(d.subdirs[i]))
  }

  predicate NoneNamed(ds: seq<Dir>, n: string)
  {
    forall i | 0 <= i < |ds| :: ds[i].name != n
  }

  /** The subdirectories other than `CVS` and `.svn`, in order. */
  function Keep(ds: seq<Dir>): (r: seq<Dir>)
    ensures forall i | 0 <= i < |r| :: !IsVcsDir(r[i]) && r[i] in ds
  {
    if ds == [] then []
    else if IsVcsDir(ds[0]) then Keep(ds[1..])
    else [ds[0]] + Keep(ds[1..])
  }

  lemma {:induction false} KeepSize(ds: seq<Dir>)
    ensures SizeAll(Keep(ds)) <= SizeAll(ds)
    decreases |ds|
  {
    if ds != [] {
      KeepSize(ds[1..]);
      if !IsVcsDir(ds[0]) {
        assert ([ds[0]] + Keep(ds[1..]))[1..] == Keep(ds[1..]);
      }
    }
  }

  /** The tree with every `CVS` and `.svn` subdirectory, and all they hold, cut away. */
  function Strip(d: Dir): (r: Dir)
    decreases Size(d), 1
    ensures r.name == d.name && r.mtime == d.mtime && r.files == d.files
  {
    KeepSize(d.subdirs);
    Dir(d.name, d.mtime, d.files, StripAll(Keep(d.subdirs)))
  }

  function StripAll(ds: seq<Dir>): (r: seq<Dir>)
    decreases SizeAll(ds), 2
    ensures |r| == |ds| && forall i | 0 <= i < |ds| :: r[i].name == ds[i].name
  {
    if ds == [] then [] else [Strip(ds[0])] + StripAll(ds[1..])
  }

  /** Removing a name that is not there changes nothing. */
  lemma RemoveAbsent(ds: seq<Dir>, n: string)
    requires NoneNamed(ds, n)
    ensures RemoveFirstNamed(ds, n) == ds
  {
    assert FirstNamed(ds, n) == |ds|;
  }

  /** Removing one directory leaves no name that was not there before. */
  lemma RemoveKeepsAbsent(ds: seq<Dir>, n: string, m: string)
    requires NoneNamed(ds, m)
    ensures NoneNamed(RemoveFirstNamed(ds, n), m)
  {
    var i := FirstNamed(ds, n);
    if i < |ds| {
      var r := ds[..i] + ds[i + 1..];
      forall k | 0 <= k < |r|
        ensures r[k].name != m
      {
        if k < i {
          assert r[k] == ds[k];
        } else {
          assert r[k] == ds[k + 1];
        }
      }
    }
  }

  /**
   * When the names of a directory's subdirectories are distinct, the two list.remove
   * calls take out every `CVS` and `.svn` there is.
   */
  lemma {:induction false} PrunedIsKeep(ds: seq<Dir>)
    requires DistinctDirNames(ds)
    ensures Pruned(ds) == Keep(ds)
    decreases |ds|
  {
    if ds != [] {
      var d, rest := ds[0], ds[1..];
      assert DistinctDirNames(rest) by {
        forall i, j | 0 <= i < j < |rest|
          ensures rest[i].name != rest[j].name
        {
          assert rest[i] == ds[i + 1] && rest[j] == ds[j + 1];
        }
      }
      assert NoneNamed(rest, d.name) by {
        forall i | 0 <= i < |rest|
          ensures rest[i].name != d.name
        {
          assert rest[i] == ds[i + 1];
        }
      }
      PrunedIsKeep(rest);
      if d.name == "CVS" {
        RemoveAbsent(rest, "CVS");
        assert Pruned(ds) == RemoveFirstNamed(rest, ".svn") == Pruned(rest);
      } else if d.name == ".svn" {
        var r := RemoveFirstNamed(rest, "CVS");
        RemoveKeepsAbsent(rest, "CVS", ".svn");
        RemoveAbsent(r, ".svn");
        assert RemoveFirstNamed(ds, "CVS") == [d] + r;
        assert Pruned(ds) == r == Pruned(rest);
      } else {
        var r := RemoveFirstNamed(rest, "CVS");
        assert RemoveFirstNamed(ds, "CVS") == [d] + r;
        assert ([d] + r)[1..] == r;
        assert Pruned(ds) == [d] + Pruned(rest);
      }
    }
  }

  /** Pruning a stripped list finds nothing to remove. */
  lemma PrunedStripped(ds: seq<Dir>)
    ensures Pruned(StripAll(Keep(ds))) == StripAll(Keep(ds))
  {
    var s := StripAll(Keep(ds));
    assert NoneNamed(s, "CVS") && NoneNamed(s, ".svn") by {
      forall i | 0 <= i < |s|
        ensures s[i].name != "CVS" && s[i].name != ".svn"
      {
        assert !IsVcsDir(Keep(ds)[i]);
      }
    }
    RemoveAbsent(s, "CVS");
    RemoveAbsent(s, ".svn");
  }

  /** The walk of a tree with unique names sees exactly what the walk of its stripped tree sees. */
  lemma {:induction false} PreorderStrip(d: Dir)
    requires UniqueNames(d)
    ensures Preorder(Strip(d)) == Preorder(d)
    decreases Size(d), 1
  {
    var ks := Keep(d.subdirs);
    KeepSize(d.subdirs);
    PrunedIsKeep(d.subdirs);
    PrunedStripped(d.subdirs);
    forall x | x in ks
      ensures UniqueNames(x)
    {
      var i :| 0 <= i < |d.subdirs| && d.subdirs[i] == x;
    }
    PreorderStripAll(ks);
  }

  lemma {:induction false} PreorderStripAll(ds: seq<Dir>)
    requires forall x | x in ds :: UniqueNames(x)
    ensures PreorderAll(StripAll(ds)) == PreorderAll(ds)
    decreases SizeAll(ds), 2
  {
    if ds != [] {
      SizeAllFirst(ds);
      PreorderStrip(ds[0]);
      PreorderStripAll(ds[1..]);
      assert StripAll(ds)[1..] == StripAll(ds[1..]);
    }
  }

  /**
   * Nothing inside a `CVS` or `.svn` directory is ever looked at: two trees that differ
   * only there get the same answer, for every watermark.
   */
  lemma PrunedContentIgnored(a: Dir, b: Dir, maxMtime: int)
    requires UniqueNames(a) && UniqueNames(b) && Strip(a) == Strip(b)
    ensures ModifiedAfter(a, maxMtime) == ModifiedAfter(b, maxMtime)
  {
    WalkTimesIsPreorder([a]);
    WalkTimesIsPreorder([b]);
    assert PreorderAll([a]) == Preorder(a) + PreorderAll([]);
    assert PreorderAll([b]) == Preorder(b) + PreorderAll([]);
    PreorderStrip(a);
    PreorderStrip(b);
  }
}
