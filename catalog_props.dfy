/** What the catalog promises: its header, which lines it holds and in what order,
    how they are indented, where the blank lines go, and how the progress values
    behave. Everything here is stated about the specification functions of
    `Catalog`, which `CatalogGeneratorThread.CreateCatalog` is proved to compute. */
module CatalogProperties {
  import opened PathRules
  import opened FsTree
  import opened Catalog

  // ---------------------------------------------------------------------------
  // The header
  // ---------------------------------------------------------------------------

  /** The catalog opens with "Catalog for: <name>", a rule of fifty '=' and an
      empty line, so it is never the empty string. */
  lemma CatalogStartsWithHeader(folder: Dir, includeHidden: bool, fileTypes: FileTypes)
    ensures "Catalog for: " + folder.name + "\n" + Repeat('=', 50) + "\n\n" <= CatalogText(folder, includeHidden, fileTypes)
    ensures |CatalogText(folder, includeHidden, fileTypes)| >= 66 + |folder.name|
    ensures CatalogText(folder, includeHidden, fileTypes) != ""
  {
    RuleIsFiftyEquals();
    var h := HeaderText(folder.name);
    var w := WalkText(Walk(folder, includeHidden), includeHidden, fileTypes);
    assert (h + w)[..|h|] == h;
  }

  // ---------------------------------------------------------------------------
  // File lines and the extension filter
  // ---------------------------------------------------------------------------

  /** A directory's file lines are its files that pass the filter, in order, each
      at the directory's level. */
  lemma {:induction false} EntryLinesAreMatchedFiles(files: seq<string>, level: nat, fileTypes: FileTypes)
    ensures |EntryLines(files, level, fileTypes)| == |MatchedFiles(files, fileTypes)|
    ensures forall k :: 0 <= k < |EntryLines(files, level, fileTypes)| ==>
              EntryLines(files, level, fileTypes)[k] == FileEntry(level, MatchedFiles(files, fileTypes)[k])
    decreases |files|
  {
    if files != [] {
      EntryLinesAreMatchedFiles(files[..|files| - 1], level, fileTypes);
    }
  }

  lemma SnocSplit<T>(s: seq<T>)
    requires s != []
    ensures s[..|s| - 1] + [s[|s| - 1]] == s
  {
  }

  /** With the filter "All", every file passes. */
  lemma {:induction false} AllTypesMatchesEverything(files: seq<string>)
    ensures MatchedFiles(files, AllTypes) == files
    decreases |files|
  {
    if files != [] {
      AllTypesMatchesEverything(files[..|files| - 1]);
      SnocSplit(files);
    }
  }

  // ---------------------------------------------------------------------------
  // The shape of one directory's block
  // ---------------------------------------------------------------------------

  /** Every line among a directory's file lines is a file line at its level. */
  lemma BlockParts(fr: Frame, includeHidden: bool, fileTypes: FileTypes)
    ensures forall l :: l in EntryLines(VisibleFiles(fr.dir.files, includeHidden), Level(fr.path), fileTypes) ==>
              l.FileEntry? && l.level == Level(fr.path)
  {
    var files := VisibleFiles(fr.dir.files, includeHidden);
    var entries := EntryLines(files, Level(fr.path), fileTypes);
    EntryLinesAreMatchedFiles(files, Level(fr.path), fileTypes);
    forall l | l in entries ensures l.FileEntry? && l.level == Level(fr.path) {
      var k :| 0 <= k < |entries| && entries[k] == l;
    }
  }

  /** The root has no header line; any other directory has exactly one, first,
      naming it at its level (its depth less one). */
  lemma BlockHeaders(fr: Frame, includeHidden: bool, fileTypes: FileTypes)
    ensures fr.path == [] ==> forall l :: l in Block(fr, includeHidden, fileTypes) ==> !l.DirHeader?
    ensures fr.path != [] ==> Block(fr, includeHidden, fileTypes)[0] == DirHeader(|fr.path| - 1, fr.dir.name)
    ensures forall k :: 0 < k < |Block(fr, includeHidden, fileTypes)| ==> !Block(fr, includeHidden, fileTypes)[k].DirHeader?
  {
    BlockParts(fr, includeHidden, fileTypes);
    var b := Block(fr, includeHidden, fileTypes);
    var header := if fr.path == [] then [] else [DirHeader(Level(fr.path), fr.dir.name)];
    var rest := EntryLines(VisibleFiles(fr.dir.files, includeHidden), Level(fr.path), fileTypes)
                + (if VisibleFiles(fr.dir.files, includeHidden) == [] then [] else [Blank]);
    AppendAssoc(header, EntryLines(VisibleFiles(fr.dir.files, includeHidden), Level(fr.path), fileTypes),
                if VisibleFiles(fr.dir.files, includeHidden) == [] then [] else [Blank]);
    assert b == header + rest;
    assert forall l :: l in rest ==> !l.DirHeader?;
    forall k | |header| <= k < |b| ensures !b[k].DirHeader? {
      assert b[k] == rest[k - |header|];
      assert b[k] in rest;
    }
  }

  /** File lines carry the directory's level; one blank line, last, follows when
      the directory has a visible file, whether or not any passed the filter, and
      there is none otherwise. */
  lemma BlockEntriesAndBlank(fr: Frame, includeHidden: bool, fileTypes: FileTypes)
    ensures forall l :: l in Block(fr, includeHidden, fileTypes) && l.FileEntry? ==> l.level == Level(fr.path)
    ensures Blank in Block(fr, includeHidden, fileTypes) <==> VisibleFiles(fr.dir.files, includeHidden) != []
    ensures VisibleFiles(fr.dir.files, includeHidden) != [] ==>
              Block(fr, includeHidden, fileTypes)[|Block(fr, includeHidden, fileTypes)| - 1] == Blank
  {
    BlockParts(fr, includeHidden, fileTypes);
    var files := VisibleFiles(fr.dir.files, includeHidden);
    var front := (if fr.path == [] then [] else [DirHeader(Level(fr.path), fr.dir.name)])
                 + EntryLines(files, Level(fr.path), fileTypes);
    assert Blank !in front;
  }

  /** How a header and a file line are written out: two spaces per level before
      a directory's name and a '/', two more before a file's name. */
  lemma RenderedIndentation(level: nat, name: string)
    ensures RenderLine(DirHeader(level, name)) == Repeat(' ', 2 * level) + name + "/\n"
    ensures RenderLine(FileEntry(level, name)) == Repeat(' ', 2 * level + 2) + name + "\n"
  {
    RepeatAppend(' ', 2 * level, 2);
    assert Repeat(' ', 2) == "  ";
  }

  // ---------------------------------------------------------------------------
  // How many lines of each kind
  // ---------------------------------------------------------------------------

  function CountKind(ls: seq<Line>, k: LineKind): nat {
    if ls == [] then 0 else CountKind(ls[..|ls| - 1], k) + (if KindOf(ls[|ls| - 1]) == k then 1 else 0)
  }

  lemma {:induction false} CountKindAppend(a: seq<Line>, b: seq<Line>, k: LineKind)
    ensures CountKind(a + b, k) == CountKind(a, k) + CountKind(b, k)
    decreases |b|
  {
    if b == [] {
      assert a + b == a;
    } else {
      var b' := b[..|b| - 1];
      assert (a + b)[..|a + b| - 1] == a + b';
      CountKindAppend(a, b', k);
    }
  }

  lemma CountKindOne(l: Line, k: LineKind)
    ensures CountKind([l], k) == if KindOf(l) == k then 1 else 0
  {
    assert [l][..0] == [];
  }

  lemma {:induction false} EntryCounts(files: seq<string>, level: nat, fileTypes: FileTypes)
    ensures CountKind(EntryLines(files, level, fileTypes), EntryKind) == |MatchedFiles(files, fileTypes)|
    ensures CountKind(EntryLines(files, level, fileTypes), HeaderKind) == 0
    ensures CountKind(EntryLines(files, level, fileTypes), BlankKind) == 0
    decreases |files|
  {
    if files != [] {
      var init := files[..|files| - 1];
      var last := files[|files| - 1];
      var more := if Matches(fileTypes, last) then [FileEntry(level, last)] else [];
      EntryCounts(init, level, fileTypes);
      CountKindAppend(EntryLines(init, level, fileTypes), more, EntryKind);
      CountKindAppend(EntryLines(init, level, fileTypes), more, HeaderKind);
      CountKindAppend(EntryLines(init, level, fileTypes), more, BlankKind);
      if Matches(fileTypes, last) {
        CountKindOne(FileEntry(level, last), EntryKind);
        CountKindOne(FileEntry(level, last), HeaderKind);
        CountKindOne(FileEntry(level, last), BlankKind);
      }
    }
  }

  lemma BlockCountKind(fr: Frame, includeHidden: bool, fileTypes: FileTypes, k: LineKind)
    ensures CountKind(Block(fr, includeHidden, fileTypes), k)
         == (if fr.path != [] && k == HeaderKind then 1 else 0)
            + CountKind(EntryLines(VisibleFiles(fr.dir.files, includeHidden), Level(fr.path), fileTypes), k)
            + (if VisibleFiles(fr.dir.files, includeHidden) != [] && k == BlankKind then 1 else 0)
  {
    var files := VisibleFiles(fr.dir.files, includeHidden);
    var header := if fr.path == [] then [] else [DirHeader(Level(fr.path), fr.dir.name)];
    var entries := EntryLines(files, Level(fr.path), fileTypes);
    var blank := if files == [] then [] else [Blank];
    BlockParts(fr, includeHidden, fileTypes);
    CountKindAppend(header, entries, k);
    CountKindAppend(header + entries, blank, k);
    if fr.path != [] {
      CountKindOne(DirHeader(Level(fr.path), fr.dir.name), k);
    }
    if files != [] {
      CountKindOne(Blank, k);
    }
  }

  lemma BlockCounts(fr: Frame, includeHidden: bool, fileTypes: FileTypes)
    ensures CountKind(Block(fr, includeHidden, fileTypes), EntryKind) == DirMeasure(fr.dir, includeHidden, MatchingFileCount(fileTypes))
    ensures CountKind(Block(fr, includeHidden, fileTypes), BlankKind) == DirMeasure(fr.dir, includeHidden, BlankLineDirs)
    ensures CountKind(Block(fr, includeHidden, fileTypes), HeaderKind) == if fr.path == [] then 0 else 1
  {
    var files := VisibleFiles(fr.dir.files, includeHidden);
    EntryCounts(files, Level(fr.path), fileTypes);
    BlockCountKind(fr, includeHidden, fileTypes, EntryKind);
    BlockCountKind(fr, includeHidden, fileTypes, BlankKind);
    BlockCountKind(fr, includeHidden, fileTypes, HeaderKind);
    assert DirMeasure(fr.dir, includeHidden, MatchingFileCount(fileTypes)) == |MatchedFiles(files, fileTypes)|;
    assert DirMeasure(fr.dir, includeHidden, BlankLineDirs) == if files == [] then 0 else 1;
  }

  lemma {:induction false} LinesCounts(frs: seq<Frame>, includeHidden: bool, fileTypes: FileTypes)
    requires forall k :: 1 <= k < |frs| ==> frs[k].path != []
    ensures CountKind(Lines(frs, includeHidden, fileTypes), EntryKind) == CountFrames(frs, includeHidden, MatchingFileCount(fileTypes))
    ensures CountKind(Lines(frs, includeHidden, fileTypes), BlankKind) == CountFrames(frs, includeHidden, BlankLineDirs)
    ensures CountKind(Lines(frs, includeHidden, fileTypes), HeaderKind) + (if frs != [] && frs[0].path == [] then 1 else 0) == |frs|
    decreases |frs|
  {
    if frs != [] {
      var init := frs[..|frs| - 1];
      var last := frs[|frs| - 1];
      assert forall k :: 1 <= k < |init| ==> init[k] == frs[k];
      LinesCounts(init, includeHidden, fileTypes);
      BlockCounts(last, includeHidden, fileTypes);
      CountKindAppend(Lines(init, includeHidden, fileTypes), Block(last, includeHidden, fileTypes), EntryKind);
      CountKindAppend(Lines(init, includeHidden, fileTypes), Block(last, includeHidden, fileTypes), BlankKind);
      CountKindAppend(Lines(init, includeHidden, fileTypes), Block(last, includeHidden, fileTypes), HeaderKind);
      if |frs| > 1 {
        assert init[0] == frs[0];
      }
    }
  }

  lemma {:induction false} CountVisited(frs: seq<Frame>, includeHidden: bool)
    ensures CountFrames(frs, includeHidden, VisitedDirs) == |frs|
    decreases |frs|
  {
    if frs != [] {
      CountVisited(frs[..|frs| - 1], includeHidden);
    }
  }

  /** Over the whole catalog: one file line per visible file of a visited
      directory that passes the filter, one blank line per visited directory with
      a visible file, and one header per visited directory other than the root. */
  lemma CatalogLineCounts(folder: Dir, includeHidden: bool, fileTypes: FileTypes)
    ensures CountKind(CatalogLines(folder, includeHidden, fileTypes), EntryKind) == TreeCount(folder, includeHidden, MatchingFileCount(fileTypes))
    ensures CountKind(CatalogLines(folder, includeHidden, fileTypes), BlankKind) == TreeCount(folder, includeHidden, BlankLineDirs)
    ensures CountKind(CatalogLines(folder, includeHidden, fileTypes), HeaderKind) + 1 == TreeCount(folder, includeHidden, VisitedDirs)
  {
    var walk := Walk(folder, includeHidden);
    WalkShape(folder, includeHidden);
    LinesCounts(walk, includeHidden, fileTypes);
    CountVisited(walk, includeHidden);
    WalkDirCount(folder, [], includeHidden, MatchingFileCount(fileTypes));
    WalkDirCount(folder, [], includeHidden, BlankLineDirs);
    WalkDirCount(folder, [], includeHidden, VisitedDirs);
  }

  /** Same count, any measure that agrees on every directory. */
  lemma {:induction false} CountFramesAgree(frs: seq<Frame>, includeHidden: bool, m: Measure, m': Measure)
    requires forall fr :: fr in frs ==> DirMeasure(fr.dir, includeHidden, m) == DirMeasure(fr.dir, includeHidden, m')
    ensures CountFrames(frs, includeHidden, m) == CountFrames(frs, includeHidden, m')
    decreases |frs|
  {
    if frs != [] {
      assert frs[|frs| - 1] in frs;
      CountFramesAgree(frs[..|frs| - 1], includeHidden, m, m');
    }
  }

  /** With hidden entries included and the filter "All", every file in the tree
      gets a line. */
  lemma AllFilesListed(folder: Dir)
    ensures CountKind(CatalogLines(folder, true, AllTypes), EntryKind) == TotalItems(folder)
  {
    var walk := Walk(folder, true);
    WalkShape(folder, true);
    LinesCounts(walk, true, AllTypes);
    forall fr | fr in walk
      ensures DirMeasure(fr.dir, true, MatchingFileCount(AllTypes)) == DirMeasure(fr.dir, true, VisibleFileCount)
    {
      AllTypesMatchesEverything(fr.dir.files);
    }
    CountFramesAgree(walk, true, MatchingFileCount(AllTypes), VisibleFileCount);
  }

  // ---------------------------------------------------------------------------
  // Hidden entries
  // ---------------------------------------------------------------------------

  lemma BlockNamesVisible(fr: Frame, fileTypes: FileTypes)
    requires fr.path != [] ==> !IsHidden(fr.dir.name)
    ensures forall l :: l in Block(fr, false, fileTypes) && !l.Blank? ==> !IsHidden(l.name)
  {
    var files := NonHidden(fr.dir.files);
    var entries := EntryLines(files, Level(fr.path), fileTypes);
    EntryLinesAreMatchedFiles(files, Level(fr.path), fileTypes);
    forall l | l in entries ensures !IsHidden(l.name) {
      var k :| 0 <= k < |entries| && entries[k] == l;
      assert MatchedFiles(files, fileTypes)[k] in MatchedFiles(files, fileTypes);
    }
  }

  lemma {:induction false} LinesNamesVisible(frs: seq<Frame>, fileTypes: FileTypes)
    requires forall k :: 0 <= k < |frs| && frs[k].path != [] ==> !IsHidden(frs[k].dir.name)
    ensures forall l :: l in Lines(frs, false, fileTypes) && !l.Blank? ==> !IsHidden(l.name)
    decreases |frs|
  {
    if frs != [] {
      var init := frs[..|frs| - 1];
      assert forall k :: 0 <= k < |init| ==> init[k] == frs[k];
      LinesNamesVisible(init, fileTypes);
      BlockNamesVisible(frs[|frs| - 1], fileTypes);
    }
  }

  /** With hidden entries excluded, no header and no file line names a hidden
      entry: hidden files are dropped, and hidden directories are never entered. */
  lemma HiddenNamesNeverListed(folder: Dir, fileTypes: FileTypes)
    ensures forall l :: l in CatalogLines(folder, false, fileTypes) && !l.Blank? ==> !IsHidden(l.name)
  {
    var walk := Walk(folder, false);
    WalkShape(folder, false);
    forall k | 0 <= k < |walk| && walk[k].path != []
      ensures !IsHidden(walk[k].dir.name)
    {
      assert FrameBelow(walk[k], [], false);
      assert walk[k].dir.name == walk[k].path[|walk[k].path| - 1];
    }
    LinesNamesVisible(walk, fileTypes);
  }

  // ---------------------------------------------------------------------------
  // Order: the catalog is a preorder listing of the tree
  // ---------------------------------------------------------------------------

  /** An independent, tree-shaped definition of the lines: a directory's block,
      then each surviving subdirectory's listing, in enumeration order. */
  function TreeLines(d: Dir, path: seq<string>, includeHidden: bool, fileTypes: FileTypes): seq<Line>
    decreases d
  {
    Block(Frame(d, path), includeHidden, fileTypes) + ForestLines(d.subdirs, path, includeHidden, fileTypes)
  }

  function ForestLines(ds: seq<Dir>, parent: seq<string>, includeHidden: bool, fileTypes: FileTypes): seq<Line>
    decreases ds
  {
    if ds == [] then []
    else
      (if Pruned(ds[0], includeHidden) then [] else TreeLines(ds[0], parent + [ds[0].name], includeHidden, fileTypes))
      + ForestLines(ds[1..], parent, includeHidden, fileTypes)
  }

  lemma LinesOne(fr: Frame, includeHidden: bool, fileTypes: FileTypes)
    ensures Lines([fr], includeHidden, fileTypes) == Block(fr, includeHidden, fileTypes)
  {
    assert [fr][..0] == [];
    AppendEmpty<Line>([]);
  }

  lemma {:induction false} WalkDirLines(d: Dir, path: seq<string>, includeHidden: bool, fileTypes: FileTypes)
    ensures Lines(WalkDir(d, path, includeHidden), includeHidden, fileTypes) == TreeLines(d, path, includeHidden, fileTypes)
    decreases d
  {
    WalkDirsLines(d.subdirs, path, includeHidden, fileTypes);
    LinesAppend([Frame(d, path)], WalkDirs(d.subdirs, path, includeHidden), includeHidden, fileTypes);
    LinesOne(Frame(d, path), includeHidden, fileTypes);
  }

  lemma {:induction false} WalkDirsLines(ds: seq<Dir>, parent: seq<string>, includeHidden: bool, fileTypes: FileTypes)
    ensures Lines(WalkDirs(ds, parent, includeHidden), includeHidden, fileTypes) == ForestLines(ds, parent, includeHidden, fileTypes)
    decreases ds
  {
    if ds != [] {
      var first := if Pruned(ds[0], includeHidden) then [] else WalkDir(ds[0], parent + [ds[0].name], includeHidden);
      WalkDirsLines(ds[1..], parent, includeHidden, fileTypes);
      LinesAppend(first, WalkDirs(ds[1..], parent, includeHidden), includeHidden, fileTypes);
      if !Pruned(ds[0], includeHidden) {
        WalkDirLines(ds[0], parent + [ds[0].name], includeHidden, fileTypes);
      }
    }
  }

  /** The catalog lists the tree in preorder: a directory's own lines come before
      anything from its subdirectories, siblings keep their order, and the root is
      always listed first. */
  lemma CatalogIsPreorder(folder: Dir, includeHidden: bool, fileTypes: FileTypes)
    ensures CatalogLines(folder, includeHidden, fileTypes) == TreeLines(folder, [], includeHidden, fileTypes)
    ensures Block(Frame(folder, []), includeHidden, fileTypes) <= CatalogLines(folder, includeHidden, fileTypes)
  {
    WalkDirLines(folder, [], includeHidden, fileTypes);
    var b := Block(Frame(folder, []), includeHidden, fileTypes);
    var rest := ForestLines(folder.subdirs, [], includeHidden, fileTypes);
    assert (b + rest)[..|b|] == b;
  }

  // ---------------------------------------------------------------------------
  // Progress
  // ---------------------------------------------------------------------------

  lemma MulLtCancel(t: nat, a: nat, b: nat)
    requires 0 < t && t * a < t * b
    ensures a < b
  {
  }

  lemma DivBelow(x: nat, t: nat, c: nat)
    requires 0 < t && x < t * c
    ensures x / t < c
  {
  }

  lemma DivAtLeast(y: nat, t: nat, q: nat)
    requires 0 < t && t * q <= y
    ensures q <= y / t
  {
    assert y == t * (y / t) + y % t;
    assert t * q < t * (y / t + 1);
    MulLtCancel(t, q, y / t + 1);
  }

  lemma DivMonotone(x: nat, y: nat, t: nat)
    requires 0 < t && x <= y
    ensures x / t <= y / t
  {
    assert t * (x / t) <= x;
    DivAtLeast(y, t, x / t);
  }

  lemma MulDivCancel(t: nat, c: nat)
    requires 0 < t
    ensures (t * c) / t == c
  {
    DivAtLeast(t * c, t, c);
    assert t * c < t * (c + 1);
    DivBelow(t * c, t, c + 1);
  }

  lemma PercentMonotone(a: nat, b: nat, t: nat)
    requires 0 < t && a <= b
    ensures Percent(a, t) <= Percent(b, t)
  {
    DivMonotone(a * 100, b * 100, t);
  }

  /** A percentage of `a` files out of `t` lies in [0, 100] and is 100 exactly
      when all `t` have been processed. */
  lemma PercentRange(a: nat, t: nat)
    requires 0 < t && a <= t
    ensures 0 <= Percent(a, t) <= 100
    ensures Percent(a, t) == 100 <==> a == t
  {
    DivMonotone(a * 100, t * 100, t);
    MulDivCancel(t, 100);
    if a < t {
      assert a * 100 < t * 100;
      DivBelow(a * 100, t, 100);
    }
  }

  /** One value per processed file, the `k`-th being the percentage after
      `k + 1` files; every value in [0, 100]; non-decreasing; and the last is 100
      exactly when every counted file was processed. */
  lemma {:induction false} ProgressFacts(n: nat, total: nat)
    requires n <= total
    ensures |Percentages(n, total)| == n
    ensures forall k :: 0 <= k < n ==> Percentages(n, total)[k] == Percent(k + 1, total)
    ensures forall k :: 0 <= k < n ==> 0 <= Percentages(n, total)[k] <= 100
    ensures forall j, k :: 0 <= j <= k < n ==> Percentages(n, total)[j] <= Percentages(n, total)[k]
    ensures n > 0 ==> (Percentages(n, total)[n - 1] == 100 <==> n == total)
    decreases n
  {
    if n > 0 {
      ProgressFacts(n - 1, total);
      var p := Percentages(n, total);
      assert forall k :: 0 <= k < n - 1 ==> p[k] == Percentages(n - 1, total)[k];
      forall k | 0 <= k < n ensures 0 <= p[k] <= 100 {
        PercentRange(k + 1, total);
      }
      forall j, k | 0 <= j <= k < n ensures p[j] <= p[k] {
        PercentMonotone(j + 1, k + 1, total);
      }
      PercentRange(n, total);
    }
  }

  /** Of the values `run` emits, there is one per visible file of a visited
      directory; at most as many as `total_items`; none when there is no visible
      file; and the last is 100 when hidden entries are included and the tree has a
      file. */
  lemma RunProgress(folder: Dir, includeHidden: bool)
    ensures VisibleCount(folder, includeHidden) == TreeCount(folder, includeHidden, VisibleFileCount)
    ensures VisibleCount(folder, includeHidden) <= TotalItems(folder)
    ensures |Percentages(VisibleCount(folder, includeHidden), TotalItems(folder))| == VisibleCount(folder, includeHidden)
    ensures includeHidden && TotalItems(folder) > 0 ==>
              Percentages(VisibleCount(folder, includeHidden), TotalItems(folder))[TotalItems(folder) - 1] == 100
  {
    WalkDirCount(folder, [], includeHidden, VisibleFileCount);
    VisibleCountLeTotal(folder, includeHidden);
    ProgressFacts(VisibleCount(folder, includeHidden), TotalItems(folder));
  }

  /** A tree without a hidden file or directory anywhere. */
  predicate NothingHidden(d: Dir) {
    && (forall f :: f in d.files ==> !IsHidden(f))
    && (forall s :: s in d.subdirs ==> !IsHidden(s.name) && NothingHidden(s))
  }

  lemma {:induction false} NonHiddenKeepsAll(names: seq<string>)
    requires forall f :: f in names ==> !IsHidden(f)
    ensures NonHidden(names) == names
    decreases |names|
  {
    if names != [] {
      assert names[0] in names;
      assert forall f :: f in names[1..] ==> f in names;
      NonHiddenKeepsAll(names[1..]);
    }
  }

  lemma {:induction false} NothingHiddenTreeCount(d: Dir)
    requires NothingHidden(d)
    ensures TreeCount(d, false, VisibleFileCount) == TreeCount(d, true, VisibleFileCount)
    decreases d
  {
    NonHiddenKeepsAll(d.files);
    NothingHiddenTreeCountAll(d.subdirs);
  }

  lemma {:induction false} NothingHiddenTreeCountAll(ds: seq<Dir>)
    requires forall s :: s in ds ==> !IsHidden(s.name) && NothingHidden(s)
    ensures TreeCountAll(ds, false, VisibleFileCount) == TreeCountAll(ds, true, VisibleFileCount)
    decreases ds
  {
    if ds != [] {
      assert ds[0] in ds;
      assert forall s :: s in ds[1..] ==> s in ds;
      NothingHiddenTreeCount(ds[0]);
      NothingHiddenTreeCountAll(ds[1..]);
    }
  }

  /** When nothing in the tree is hidden, the last value is 100 even with hidden
      entries excluded. */
  lemma NothingHiddenReaches100(folder: Dir)
    requires NothingHidden(folder) && TotalItems(folder) > 0
    ensures VisibleCount(folder, false) == TotalItems(folder)
    ensures |Percentages(VisibleCount(folder, false), TotalItems(folder))| == TotalItems(folder)
    ensures Percentages(VisibleCount(folder, false), TotalItems(folder))[TotalItems(folder) - 1] == 100
  {
    WalkDirCount(folder, [], false, VisibleFileCount);
    WalkDirCount(folder, [], true, VisibleFileCount);
    NothingHiddenTreeCount(folder);
    ProgressFacts(TotalItems(folder), TotalItems(folder));
  }

  /** `total_items` counts hidden files that are never processed, so with a
      hidden file and one visible file at the root the only value sent is 50. */
  lemma HiddenFileStopsProgressAt50()
    ensures Percentages(VisibleCount(Dir("r", [".secret", "visible.txt"], []), false),
                        TotalItems(Dir("r", [".secret", "visible.txt"], []))) == [50]
  {
    var folder := Dir("r", [".secret", "visible.txt"], []);
    assert NonHidden(folder.files) == ["visible.txt"];
    assert Walk(folder, false) == [Frame(folder, [])];
    assert Walk(folder, true) == [Frame(folder, [])];
    assert [Frame(folder, [])][..0] == [];
    assert VisibleCount(folder, false) == 1;
    assert TotalItems(folder) == 2;
  }
}
