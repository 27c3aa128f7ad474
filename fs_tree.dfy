/** A directory tree in place of the real filesystem, and `os.walk(folder)` in its
    top-down form over it: a preorder walk whose consumer may prune the list of
    subdirectories still to be visited. Enumeration order is the order of the
    sequences. */
module FsTree {
  import opened PathRules

  datatype Dir = Dir(name: string, files: seq<string>, subdirs: seq<Dir>)

  /** One triple yielded by the walk: the directory, and its path relative to the
      walked root as the list of directory names below it ([] for the root). */
  datatype Frame = Frame(dir: Dir, path: seq<string>)

  /** What a filesystem guarantees of a directory entry's name. */
  predicate ValidName(n: string) {
    n != "" && n != "." && n != ".." && '/' !in n
  }

  predicate ValidPath(path: seq<string>) {
    forall k :: 0 <= k < |path| ==> ValidName(path[k])
  }

  /** Every subdirectory anywhere below `d` has a valid name. */
  predicate WellFormed(d: Dir) {
    forall s :: s in d.subdirs ==> ValidName(s.name) && WellFormed(s)
  }

  // ---------------------------------------------------------------------------
  // Hidden-entry filtering: the two list comprehensions of the walk's consumer
  // ---------------------------------------------------------------------------

  /** `[f for f in names if not f.startswith('.')]` */
  function NonHidden(names: seq<string>): (r: seq<string>)
    ensures |r| <= |names|
    ensures forall n :: n in r <==> n in names && !IsHidden(n)
  {
    if names == [] then []
    else (if IsHidden(names[0]) then [] else [names[0]]) + NonHidden(names[1..])
  }

  /** `[d for d in dirs if not d.startswith('.')]` */
  function NonHiddenDirs(ds: seq<Dir>): (r: seq<Dir>)
    ensures |r| <= |ds|
    ensures forall s :: s in r <==> s in ds && !IsHidden(s.name)
  {
    if ds == [] then []
    else (if IsHidden(ds[0].name) then [] else [ds[0]]) + NonHiddenDirs(ds[1..])
  }

  /** The comprehensions are order-preserving filters: they act on a list piece by
      piece, and on one element by keeping it or dropping it. */
  lemma {:induction false} NonHiddenAppend(a: seq<string>, b: seq<string>)
    ensures NonHidden(a + b) == NonHidden(a) + NonHidden(b)
    decreases |a|
  {
    if a == [] {
      assert a + b == b;
    } else {
      assert (a + b)[0] == a[0] && (a + b)[1..] == a[1..] + b;
      NonHiddenAppend(a[1..], b);
      var head := if IsHidden(a[0]) then [] else [a[0]];
      assert head + (NonHidden(a[1..]) + NonHidden(b)) == head + NonHidden(a[1..]) + NonHidden(b);
    }
  }

  lemma NonHiddenOne(n: string)
    ensures NonHidden([n]) == if IsHidden(n) then [] else [n]
  {
    assert [n][1..] == [];
  }

  lemma {:induction false} NonHiddenDirsAppend(a: seq<Dir>, b: seq<Dir>)
    ensures NonHiddenDirs(a + b) == NonHiddenDirs(a) + NonHiddenDirs(b)
    decreases |a|
  {
    if a == [] {
      assert a + b == b;
    } else {
      assert (a + b)[0] == a[0] && (a + b)[1..] == a[1..] + b;
      NonHiddenDirsAppend(a[1..], b);
      var head := if IsHidden(a[0].name) then [] else [a[0]];
      assert head + (NonHiddenDirs(a[1..]) + NonHiddenDirs(b)) == head + NonHiddenDirs(a[1..]) + NonHiddenDirs(b);
    }
  }

  lemma NonHiddenDirsOne(d: Dir)
    ensures NonHiddenDirs([d]) == if IsHidden(d.name) then [] else [d]
  {
    assert [d][1..] == [];
  }

  /** The files of a directory that the cataloger lists and counts. */
  function VisibleFiles(files: seq<string>, includeHidden: bool): seq<string> {
    if includeHidden then files else NonHidden(files)
  }

  /** The subdirectory list left after the consumer's `dirs[:] = ...` assignment. */
  function SubdirsToWalk(ds: seq<Dir>, includeHidden: bool): seq<Dir> {
    if includeHidden then ds else NonHiddenDirs(ds)
  }

  /** A subdirectory removed from the walk by that assignment. */
  predicate Pruned(d: Dir, includeHidden: bool) {
    !includeHidden && IsHidden(d.name)
  }

  // ---------------------------------------------------------------------------
  // The walk
  // ---------------------------------------------------------------------------

  /** The frames `os.walk` yields for `d` (at relative path `path`) and everything
      below it, top-down: `d` first, then each subdirectory that survives pruning,
      in order, each with its whole subtree. */
  function WalkDir(d: Dir, path: seq<string>, includeHidden: bool): seq<Frame>
    decreases d
  {
    [Frame(d, path)] + WalkDirs(d.subdirs, path, includeHidden)
  }

  /** The walks of the subdirectories `ds` of the directory at `parent`. */
  function WalkDirs(ds: seq<Dir>, parent: seq<string>, includeHidden: bool): seq<Frame>
    decreases ds
  {
    if ds == [] then []
    else
      (if Pruned(ds[0], includeHidden) then [] else WalkDir(ds[0], parent + [ds[0].name], includeHidden))
      + WalkDirs(ds[1..], parent, includeHidden)
  }

  /** `os.walk(folder)` with the consumer pruning hidden subdirectories unless
      `includeHidden`. */
  function Walk(folder: Dir, includeHidden: bool): seq<Frame> {
    WalkDir(folder, [], includeHidden)
  }

  /** The frames the walk still owes for a list of pending directories. */
  function WalkForest(frs: seq<Frame>, includeHidden: bool): seq<Frame> {
    if frs == [] then []
    else WalkDir(frs[0].dir, frs[0].path, includeHidden) + WalkForest(frs[1..], includeHidden)
  }

  /** The pending frames for the subdirectories `ds` of the directory at `parent`. */
  function ChildFrames(ds: seq<Dir>, parent: seq<string>): (r: seq<Frame>)
    ensures |r| == |ds|
    ensures forall k :: 0 <= k < |r| ==> r[k] == Frame(ds[k], parent + [ds[k].name])
  {
    if ds == [] then [] else [Frame(ds[0], parent + [ds[0].name])] + ChildFrames(ds[1..], parent)
  }

  lemma {:induction false} WalkForestAppend(a: seq<Frame>, b: seq<Frame>, includeHidden: bool)
    ensures WalkForest(a + b, includeHidden) == WalkForest(a, includeHidden) + WalkForest(b, includeHidden)
  {
    if a == [] {
      assert a + b == b;
    } else {
      assert (a + b)[0] == a[0] && (a + b)[1..] == a[1..] + b;
      WalkForestAppend(a[1..], b, includeHidden);
    }
  }

  lemma {:induction false} ChildFramesAppend(a: seq<Dir>, b: seq<Dir>, parent: seq<string>)
    ensures ChildFrames(a + b, parent) == ChildFrames(a, parent) + ChildFrames(b, parent)
  {
  }

  /** Pushing the pruned subdirectories as pending frames owes exactly the rest of
      the directory's walk. */
  lemma {:induction false} ChildFramesWalk(ds: seq<Dir>, parent: seq<string>, includeHidden: bool)
    ensures WalkForest(ChildFrames(SubdirsToWalk(ds, includeHidden), parent), includeHidden)
         == WalkDirs(ds, parent, includeHidden)
  {
    if ds != [] {
      ChildFramesWalk(ds[1..], parent, includeHidden);
      var kept := if Pruned(ds[0], includeHidden) then [] else [ds[0]];
      assert SubdirsToWalk(ds, includeHidden) == kept + SubdirsToWalk(ds[1..], includeHidden);
      ChildFramesAppend(kept, SubdirsToWalk(ds[1..], includeHidden), parent);
      WalkForestAppend(ChildFrames(kept, parent), ChildFrames(SubdirsToWalk(ds[1..], includeHidden), parent), includeHidden);
      if kept != [] {
        assert ChildFrames(kept, parent) == [Frame(ds[0], parent + [ds[0].name])];
      }
    }
  }

  /** One step of the walk: the first pending directory is yielded, and its
      subdirectories left after pruning become pending in front of the rest. */
  lemma WalkForestStep(stack: seq<Frame>, includeHidden: bool)
    requires stack != []
    ensures WalkForest(stack, includeHidden)
         == [stack[0]] + WalkForest(ChildFrames(SubdirsToWalk(stack[0].dir.subdirs, includeHidden), stack[0].path) + stack[1..], includeHidden)
  {
    var top := stack[0];
    var children := ChildFrames(SubdirsToWalk(top.dir.subdirs, includeHidden), top.path);
    var rest := WalkForest(stack[1..], includeHidden);
    ChildFramesWalk(top.dir.subdirs, top.path, includeHidden);
    WalkForestAppend(children, stack[1..], includeHidden);
    assert WalkForest(stack, includeHidden) == ([top] + WalkForest(children, includeHidden)) + rest;
    assert [top] + (WalkForest(children, includeHidden) + rest)
        == ([top] + WalkForest(children, includeHidden)) + rest;
  }

  /** Every pending frame holds a well-formed directory and a valid path. */
  ghost predicate StackValid(stack: seq<Frame>) {
    forall fr :: fr in stack ==> WellFormed(fr.dir) && ValidPath(fr.path)
  }

  lemma ValidPathSnoc(p: seq<string>, n: string)
    requires ValidPath(p) && ValidName(n)
    ensures ValidPath(p + [n])
  {
    assert forall k :: 0 <= k < |p| ==> (p + [n])[k] == p[k];
  }

  /** The pending frames for a well-formed directory's subdirectories are
      well-formed and have valid paths. */
  lemma ChildFramesValid(d: Dir, p: seq<string>, includeHidden: bool)
    requires WellFormed(d) && ValidPath(p)
    ensures StackValid(ChildFrames(SubdirsToWalk(d.subdirs, includeHidden), p))
  {
    var ds := SubdirsToWalk(d.subdirs, includeHidden);
    var children := ChildFrames(ds, p);
    forall k | 0 <= k < |children|
      ensures WellFormed(children[k].dir) && ValidPath(children[k].path)
    {
      assert ds[k] in ds;
      assert ds[k] in d.subdirs;
      ValidPathSnoc(p, ds[k].name);
    }
  }

  /** Taking the front frame off a valid stack whose walk is the rest of `walk`
      after `done` frames: that frame is the next one, and its children in front
      of the remaining frames form a valid stack that walks the rest after
      `done + 1`. */
  lemma StackPop(stack: seq<Frame>, walk: seq<Frame>, done: nat, includeHidden: bool)
    requires stack != [] && done <= |walk| && WalkForest(stack, includeHidden) == walk[done..]
    requires StackValid(stack)
    ensures done < |walk| && walk[done] == stack[0]
    ensures WellFormed(stack[0].dir) && ValidPath(stack[0].path)
    ensures WalkForest(ChildFrames(SubdirsToWalk(stack[0].dir.subdirs, includeHidden), stack[0].path) + stack[1..], includeHidden)
         == walk[done + 1..]
    ensures StackValid(ChildFrames(SubdirsToWalk(stack[0].dir.subdirs, includeHidden), stack[0].path) + stack[1..])
  {
    WalkForestStep(stack, includeHidden);
    assert walk[done..][0] == walk[done];
    assert walk[done..][1..] == walk[done + 1..];
    assert stack[0] in stack;
    var children := ChildFrames(SubdirsToWalk(stack[0].dir.subdirs, includeHidden), stack[0].path);
    ChildFramesValid(stack[0].dir, stack[0].path, includeHidden);
    forall fr | fr in children + stack[1..]
      ensures WellFormed(fr.dir) && ValidPath(fr.path)
    {
      if fr !in children {
        assert fr in stack[1..];
      }
    }
  }

  // ---------------------------------------------------------------------------
  // Relative paths: `os.path.relpath(root, folder)` and its separator count
  // ---------------------------------------------------------------------------

  /** The names of a path joined with the POSIX separator. */
  function Join(path: seq<string>): string
    requires path != []
  {
    if |path| == 1 then path[0] else Join(path[..|path| - 1]) + "/" + path[|path| - 1]
  }

  /** `os.path.relpath(root, folder)` for a frame's relative path. */
  function RelPath(path: seq<string>): string {
    if path == [] then "." else Join(path)
  }

  /** `s.count(c)` */
  function CountChar(s: string, c: char): nat {
    if s == [] then 0 else (if s[0] == c then 1 else 0) + CountChar(s[1..], c)
  }

  /** The catalog's indentation level of the directory at `path`: the number of
      separators in its relative path, i.e. its depth minus one (0 for the root). */
  function Level(path: seq<string>): nat {
    if path == [] then 0 else |path| - 1
  }

  lemma {:induction false} CountCharAppend(a: string, b: string, c: char)
    ensures CountChar(a + b, c) == CountChar(a, c) + CountChar(b, c)
  {
    if a == [] {
      assert a + b == b;
    } else {
      assert (a + b)[0] == a[0] && (a + b)[1..] == a[1..] + b;
      CountCharAppend(a[1..], b, c);
    }
  }

  lemma {:induction false} CountCharAbsent(s: string, c: char)
    requires c !in s
    ensures CountChar(s, c) == 0
  {
    if s != [] {
      CountCharAbsent(s[1..], c);
    }
  }

  lemma {:induction false} JoinSeparators(path: seq<string>)
    requires path != [] && ValidPath(path)
    ensures CountChar(Join(path), '/') == |path| - 1
  {
    var last := path[|path| - 1];
    CountCharAbsent(last, '/');
    if |path| > 1 {
      JoinSeparators(path[..|path| - 1]);
      CountCharAppend(Join(path[..|path| - 1]), "/", '/');
      CountCharAppend(Join(path[..|path| - 1]) + "/", last, '/');
    }
  }

  /** The source's two uses of the relative path: it is "." exactly for the root,
      and its separator count is the frame's level. */
  lemma RelPathLevel(path: seq<string>)
    requires ValidPath(path)
    ensures CountChar(RelPath(path), '/') == Level(path)
    ensures RelPath(path) == "." <==> path == []
  {
    if path != [] {
      JoinSeparators(path);
      assert CountChar(".", '/') == 0;
      if |path| == 1 {
        assert ValidName(path[0]);
      }
    }
  }

  // ---------------------------------------------------------------------------
  // What the walk visits
  // ---------------------------------------------------------------------------

  /** A frame strictly below the directory at `p`, whose directory is the one its
      path names last, and, when hidden entries are pruned, with no hidden name on
      its path below `p`. */
  ghost predicate FrameBelow(fr: Frame, p: seq<string>, includeHidden: bool) {
    && |p| < |fr.path|
    && fr.path[..|p|] == p
    && fr.dir.name == fr.path[|fr.path| - 1]
    && (!includeHidden ==> forall j :: |p| <= j < |fr.path| ==> !IsHidden(fr.path[j]))
  }

  /** The walk of a directory starts at that directory, and everything else it
      visits lies strictly below it, along a path of visible names when hidden
      entries are pruned. */
  lemma {:induction false} WalkDirShape(d: Dir, p: seq<string>, includeHidden: bool)
    ensures WalkDir(d, p, includeHidden)[0] == Frame(d, p)
    ensures forall k :: 1 <= k < |WalkDir(d, p, includeHidden)| ==>
              FrameBelow(WalkDir(d, p, includeHidden)[k], p, includeHidden)
    decreases d
  {
    WalkDirsShape(d.subdirs, p, includeHidden);
  }

  lemma {:induction false} WalkDirsShape(ds: seq<Dir>, p: seq<string>, includeHidden: bool)
    ensures forall fr :: fr in WalkDirs(ds, p, includeHidden) ==> FrameBelow(fr, p, includeHidden)
    decreases ds
  {
    if ds != [] {
      WalkDirsShape(ds[1..], p, includeHidden);
      if !Pruned(ds[0], includeHidden) {
        var q := p + [ds[0].name];
        var w := WalkDir(ds[0], q, includeHidden);
        WalkDirShape(ds[0], q, includeHidden);
        forall fr | fr in w ensures FrameBelow(fr, p, includeHidden) {
          var k :| 0 <= k < |w| && w[k] == fr;
          if k > 0 {
            assert FrameBelow(fr, q, includeHidden);
            assert fr.path[..|p|] == fr.path[..|q|][..|p|];
            assert fr.path[|p|] == fr.path[..|q|][|p|];
          }
        }
      }
    }
  }

  /** Every frame of a walk yielded by `os.walk(folder)`: the root itself, or a
      directory below it whose path has no hidden name when hidden entries are pruned. */
  lemma WalkShape(folder: Dir, includeHidden: bool)
    ensures Walk(folder, includeHidden)[0] == Frame(folder, [])
    ensures forall k :: 1 <= k < |Walk(folder, includeHidden)| ==>
              FrameBelow(Walk(folder, includeHidden)[k], [], includeHidden)
  {
    WalkDirShape(folder, [], includeHidden);
  }

  /** The frames whose path has no hidden name below `p`. */
  function VisibleBelow(frs: seq<Frame>, p: seq<string>): seq<Frame> {
    if frs == [] then []
    else
      (if forall j :: |p| <= j < |frs[0].path| ==> !IsHidden(frs[0].path[j]) then [frs[0]] else [])
      + VisibleBelow(frs[1..], p)
  }

  lemma {:induction false} VisibleBelowAppend(a: seq<Frame>, b: seq<Frame>, p: seq<string>)
    ensures VisibleBelow(a + b, p) == VisibleBelow(a, p) + VisibleBelow(b, p)
  {
    if a == [] {
      assert a + b == b;
    } else {
      assert (a + b)[0] == a[0] && (a + b)[1..] == a[1..] + b;
      VisibleBelowAppend(a[1..], b, p);
    }
  }

  /** Frames that all lie below the visible name `n` under `p` keep or lose their
      place by the same test whether it is counted from `p` or from `p + [n]`. */
  lemma {:induction false} VisibleBelowShift(frs: seq<Frame>, p: seq<string>, n: string)
    requires !IsHidden(n)
    requires forall fr :: fr in frs ==> |p| < |fr.path| && fr.path[|p|] == n
    ensures VisibleBelow(frs, p) == VisibleBelow(frs, p + [n])
  {
    if frs != [] {
      VisibleBelowShift(frs[1..], p, n);
      assert frs[0] in frs;
    }
  }

  /** Frames that all lie below the hidden name `n` under `p` are all dropped. */
  lemma {:induction false} VisibleBelowHidden(frs: seq<Frame>, p: seq<string>, n: string)
    requires IsHidden(n)
    requires forall fr :: fr in frs ==> |p| < |fr.path| && fr.path[|p|] == n
    ensures VisibleBelow(frs, p) == []
  {
    if frs != [] {
      VisibleBelowHidden(frs[1..], p, n);
      assert frs[0] in frs;
    }
  }

  /** The frames of a full walk of `d` lie at `p` or below it. */
  lemma WalkDirUnder(d: Dir, p: seq<string>, n: string)
    requires |p| > 0 && p[|p| - 1] == n
    ensures forall fr :: fr in WalkDir(d, p, true) ==> |p| - 1 < |fr.path| && fr.path[|p| - 1] == n
  {
    var w := WalkDir(d, p, true);
    WalkDirShape(d, p, true);
    forall fr | fr in w ensures |p| - 1 < |fr.path| && fr.path[|p| - 1] == n {
      var k :| 0 <= k < |w| && w[k] == fr;
      if k > 0 {
        assert FrameBelow(fr, p, true);
        assert fr.path[|p| - 1] == fr.path[..|p|][|p| - 1];
      }
    }
  }

  /** Pruning hidden subdirectories during the walk visits exactly the frames of the
      unpruned walk whose relative path contains no hidden name, in the same order:
      nothing beneath a hidden directory is reached, and nothing else is lost. */
  lemma {:induction false} PrunedWalkIsFiltered(d: Dir, p: seq<string>)
    ensures WalkDir(d, p, false) == VisibleBelow(WalkDir(d, p, true), p)
    decreases d
  {
    PrunedWalksAreFiltered(d.subdirs, p);
    VisibleBelowAppend([Frame(d, p)], WalkDirs(d.subdirs, p, true), p);
  }

  lemma {:induction false} PrunedWalksAreFiltered(ds: seq<Dir>, p: seq<string>)
    ensures WalkDirs(ds, p, false) == VisibleBelow(WalkDirs(ds, p, true), p)
    decreases ds
  {
    if ds != [] {
      var n := ds[0].name;
      var q := p + [n];
      var first := WalkDir(ds[0], q, true);
      PrunedWalksAreFiltered(ds[1..], p);
      VisibleBelowAppend(first, WalkDirs(ds[1..], p, true), p);
      WalkDirUnder(ds[0], q, n);
      if IsHidden(n) {
        VisibleBelowHidden(first, p, n);
      } else {
        VisibleBelowShift(first, p, n);
        PrunedWalkIsFiltered(ds[0], q);
      }
    }
  }

  /** The walk of the whole tree with hidden subdirectories pruned is its unpruned
      walk less every directory reached through a hidden one. */
  lemma PrunedRootWalk(folder: Dir)
    ensures Walk(folder, false) == VisibleBelow(Walk(folder, true), [])
  {
    PrunedWalkIsFiltered(folder, []);
  }
}
