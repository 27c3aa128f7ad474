/** `CatalogGeneratorThread` and its `create_catalog`: the catalog's text and the
    progress percentages, specified over the walk of the tree, and the imperative
    builder proved to produce exactly them. */
module Catalog {
  import opened PathRules
  import opened FsTree

  /** `file_types`: the string "All", or a list of extensions. */
  datatype FileTypes = AllTypes | Selected(exts: seq<string>)

  /** `file_types == "All" or os.path.splitext(file)[1].lower() in file_types` */
  predicate Matches(fileTypes: FileTypes, file: string) {
    fileTypes.AllTypes? || Lower(Ext(file)) in fileTypes.exts
  }

  /** The files of `files` that the extension filter lets through, in order. */
  function MatchedFiles(files: seq<string>, fileTypes: FileTypes): (r: seq<string>)
    ensures |r| <= |files|
    ensures forall f :: f in r <==> f in files && Matches(fileTypes, f)
  {
    if files == [] then []
    else
      var last := files[|files| - 1];
      MatchedFiles(files[..|files| - 1], fileTypes) + (if Matches(fileTypes, last) then [last] else [])
  }

  /** The filter keeps the order of the files: it acts on a list piece by piece,
      and on one file by keeping it exactly when it matches. */
  lemma {:induction false} MatchedFilesAppend(a: seq<string>, b: seq<string>, fileTypes: FileTypes)
    ensures MatchedFiles(a + b, fileTypes) == MatchedFiles(a, fileTypes) + MatchedFiles(b, fileTypes)
    decreases |b|
  {
    if b == [] {
      assert a + b == a;
    } else {
      var b' := b[..|b| - 1];
      var last := b[|b| - 1];
      var ab := a + b;
      assert ab == (a + b') + [last];
      assert ab[..|ab| - 1] == a + b';
      MatchedFilesAppend(a, b', fileTypes);
      var more := if Matches(fileTypes, last) then [last] else [];
      var ma, mb := MatchedFiles(a, fileTypes), MatchedFiles(b', fileTypes);
      assert MatchedFiles(ab, fileTypes) == (ma + mb) + more;
      assert MatchedFiles(b, fileTypes) == mb + more;
      assert (ma + mb) + more == ma + (mb + more);
    }
  }

  lemma MatchedFilesOne(f: string, fileTypes: FileTypes)
    ensures MatchedFiles([f], fileTypes) == if Matches(fileTypes, f) then [f] else []
  {
    assert [f][..0] == [];
  }

  // ---------------------------------------------------------------------------
  // Lines of the catalog and their text
  // ---------------------------------------------------------------------------

  /** A line of the catalog after the header. `level` is the indentation level of
      the directory the line belongs to. */
  datatype Line = DirHeader(level: nat, name: string) | FileEntry(level: nat, name: string) | Blank

  datatype LineKind = HeaderKind | EntryKind | BlankKind

  function KindOf(l: Line): LineKind {
    match l
    case DirHeader(_, _) => HeaderKind
    case FileEntry(_, _) => EntryKind
    case Blank => BlankKind
  }

  function Repeat(c: char, n: nat): (r: string)
    ensures |r| == n && forall i :: 0 <= i < n ==> r[i] == c
  {
    if n == 0 then "" else Repeat(c, n - 1) + [c]
  }

  /** `"  " * level` */
  function Indent(level: nat): (r: string)
    ensures r == Repeat(' ', 2 * level)
  {
    if level == 0 then "" else Indent(level - 1) + "  "
  }

  function RenderLine(l: Line): string {
    match l
    case DirHeader(level, name) => Indent(level) + name + "/\n"
    case FileEntry(level, name) => Indent(level) + "  " + name + "\n"
    case Blank => "\n"
  }

  lemma AppendAssoc<T>(a: seq<T>, b: seq<T>, c: seq<T>)
    ensures a + (b + c) == a + b + c
  {
  }

  lemma AppendEmpty<T>(a: seq<T>)
    ensures a + [] == a
  {
  }

  /** The text of a sequence of lines. */
  function Render(ls: seq<Line>): string {
    if ls == [] then "" else Render(ls[..|ls| - 1]) + RenderLine(ls[|ls| - 1])
  }

  lemma {:induction false} RenderAppend(a: seq<Line>, b: seq<Line>)
    ensures Render(a + b) == Render(a) + Render(b)
    decreases |b|
  {
    if b == [] {
      assert a + b == a;
    } else {
      var b' := b[..|b| - 1];
      assert (a + b)[..|a + b| - 1] == a + b';
      RenderAppend(a, b');
      AppendAssoc(Render(a), Render(b'), RenderLine(b[|b| - 1]));
    }
  }

  lemma RenderOne(l: Line)
    ensures Render([l]) == RenderLine(l)
  {
    assert [l][..0] == [];
  }

  lemma {:induction false} RepeatAppend(c: char, m: nat, n: nat)
    ensures Repeat(c, m + n) == Repeat(c, m) + Repeat(c, n)
    decreases n
  {
    if n > 0 {
      RepeatAppend(c, m, n - 1);
    }
  }

  /** `"=" * 50` */
  const Rule: string := "=================================================="

  lemma RuleIsFiftyEquals()
    ensures Rule == Repeat('=', 50)
  {
    var ten := "==========";
    assert Repeat('=', 10) == ten;
    RepeatAppend('=', 10, 10);
    RepeatAppend('=', 20, 10);
    RepeatAppend('=', 30, 10);
    RepeatAppend('=', 40, 10);
    assert Rule == ten + ten + ten + ten + ten;
  }

  /** The two header lines and the blank line after them. */
  function HeaderText(folderName: string): string {
    "Catalog for: " + folderName + "\n" + Rule + "\n\n"
  }

  /** The entry lines for a directory's files at `level`, one per file that passes
      the extension filter. */
  function EntryLines(files: seq<string>, level: nat, fileTypes: FileTypes): seq<Line> {
    if files == [] then []
    else
      var last := files[|files| - 1];
      EntryLines(files[..|files| - 1], level, fileTypes)
      + (if Matches(fileTypes, last) then [FileEntry(level, last)] else [])
  }

  /** What one iteration of the walk loop appends for the directory of `fr`: its
      header unless it is the root, its matching files, and a blank line when it
      has at least one visible file. */
  function Block(fr: Frame, includeHidden: bool, fileTypes: FileTypes): seq<Line> {
    var files := VisibleFiles(fr.dir.files, includeHidden);
    (if fr.path == [] then [] else [DirHeader(Level(fr.path), fr.dir.name)])
    + EntryLines(files, Level(fr.path), fileTypes)
    + (if files == [] then [] else [Blank])
  }

  /** The lines the walk loop appends for the frames `frs`, in order. */
  function Lines(frs: seq<Frame>, includeHidden: bool, fileTypes: FileTypes): seq<Line> {
    if frs == [] then []
    else Lines(frs[..|frs| - 1], includeHidden, fileTypes) + Block(frs[|frs| - 1], includeHidden, fileTypes)
  }

  /** The lines of the catalog of `folder`, in walk order. */
  function CatalogLines(folder: Dir, includeHidden: bool, fileTypes: FileTypes): seq<Line> {
    Lines(Walk(folder, includeHidden), includeHidden, fileTypes)
  }

  // The same text, built directly as strings in the order the loops append them.
  // These string forms exist only to specify `ListFiles`, `ListDirectory` and
  // `CreateCatalog`, whose appends they follow step by step. The `...Rendered`
  // lemmas below equate them with `Render` of the typed lines, and every property
  // of the catalog is stated over those lines.

  function EntriesText(files: seq<string>, level: nat, fileTypes: FileTypes): string {
    if files == [] then ""
    else
      var last := files[|files| - 1];
      EntriesText(files[..|files| - 1], level, fileTypes)
      + (if Matches(fileTypes, last) then RenderLine(FileEntry(level, last)) else "")
  }

  function BlockText(fr: Frame, includeHidden: bool, fileTypes: FileTypes): string {
    var files := VisibleFiles(fr.dir.files, includeHidden);
    (if fr.path == [] then "" else RenderLine(DirHeader(Level(fr.path), fr.dir.name)))
    + EntriesText(files, Level(fr.path), fileTypes)
    + (if files == [] then "" else "\n")
  }

  function WalkText(frs: seq<Frame>, includeHidden: bool, fileTypes: FileTypes): string {
    if frs == [] then ""
    else WalkText(frs[..|frs| - 1], includeHidden, fileTypes) + BlockText(frs[|frs| - 1], includeHidden, fileTypes)
  }

  /** The text `create_catalog(folder)` returns. */
  function CatalogText(folder: Dir, includeHidden: bool, fileTypes: FileTypes): string {
    HeaderText(folder.name) + WalkText(Walk(folder, includeHidden), includeHidden, fileTypes)
  }

  lemma {:induction false} EntriesTextRendered(files: seq<string>, level: nat, fileTypes: FileTypes)
    ensures EntriesText(files, level, fileTypes) == Render(EntryLines(files, level, fileTypes))
    decreases |files|
  {
    if files != [] {
      var init := files[..|files| - 1];
      var last := files[|files| - 1];
      var more := if Matches(fileTypes, last) then [FileEntry(level, last)] else [];
      EntriesTextRendered(init, level, fileTypes);
      RenderAppend(EntryLines(init, level, fileTypes), more);
      if Matches(fileTypes, last) {
        RenderOne(FileEntry(level, last));
      } else {
        assert Render(more) == "";
      }
    }
  }

  lemma BlockTextRendered(fr: Frame, includeHidden: bool, fileTypes: FileTypes)
    ensures BlockText(fr, includeHidden, fileTypes) == Render(Block(fr, includeHidden, fileTypes))
  {
    var files := VisibleFiles(fr.dir.files, includeHidden);
    var level := Level(fr.path);
    var header := if fr.path == [] then [] else [DirHeader(level, fr.dir.name)];
    var entries := EntryLines(files, level, fileTypes);
    var blank := if files == [] then [] else [Blank];
    RenderAppend(header, entries);
    RenderAppend(header + entries, blank);
    EntriesTextRendered(files, level, fileTypes);
    if fr.path != [] {
      RenderOne(DirHeader(level, fr.dir.name));
    }
    if files != [] {
      RenderOne(Blank);
    }
  }

  /** The text built by the loops is the rendering of the catalog's lines. */
  lemma {:induction false} WalkTextRendered(frs: seq<Frame>, includeHidden: bool, fileTypes: FileTypes)
    ensures WalkText(frs, includeHidden, fileTypes) == Render(Lines(frs, includeHidden, fileTypes))
    decreases |frs|
  {
    if frs != [] {
      var init := frs[..|frs| - 1];
      WalkTextRendered(init, includeHidden, fileTypes);
      BlockTextRendered(frs[|frs| - 1], includeHidden, fileTypes);
      RenderAppend(Lines(init, includeHidden, fileTypes), Block(frs[|frs| - 1], includeHidden, fileTypes));
    }
  }

  lemma CatalogTextRendered(folder: Dir, includeHidden: bool, fileTypes: FileTypes)
    ensures CatalogText(folder, includeHidden, fileTypes)
         == HeaderText(folder.name) + Render(CatalogLines(folder, includeHidden, fileTypes))
  {
    WalkTextRendered(Walk(folder, includeHidden), includeHidden, fileTypes);
  }

  lemma {:induction false} LinesAppend(a: seq<Frame>, b: seq<Frame>, includeHidden: bool, fileTypes: FileTypes)
    ensures Lines(a + b, includeHidden, fileTypes) == Lines(a, includeHidden, fileTypes) + Lines(b, includeHidden, fileTypes)
    decreases |b|
  {
    if b == [] {
      assert a + b == a;
    } else {
      var b' := b[..|b| - 1];
      assert (a + b)[..|a + b| - 1] == a + b';
      LinesAppend(a, b', includeHidden, fileTypes);
      AppendAssoc(Lines(a, includeHidden, fileTypes), Lines(b', includeHidden, fileTypes), Block(b[|b| - 1], includeHidden, fileTypes));
    }
  }

  // ---------------------------------------------------------------------------
  // Counting over the walk, and the same counts over the tree
  // ---------------------------------------------------------------------------

  /** What can be counted per visited directory. */
  datatype Measure = VisitedDirs | VisibleFileCount | MatchingFileCount(fileTypes: FileTypes) | BlankLineDirs

  function DirMeasure(d: Dir, includeHidden: bool, m: Measure): nat {
    var files := VisibleFiles(d.files, includeHidden);
    match m
    case VisitedDirs => 1
    case VisibleFileCount => |files|
    case MatchingFileCount(fileTypes) => |MatchedFiles(files, fileTypes)|
    case BlankLineDirs => if files == [] then 0 else 1
  }

  function CountFrames(frs: seq<Frame>, includeHidden: bool, m: Measure): nat {
    if frs == [] then 0
    else CountFrames(frs[..|frs| - 1], includeHidden, m) + DirMeasure(frs[|frs| - 1].dir, includeHidden, m)
  }

  /** The same count, by recursion over the tree instead of over the walk. */
  function TreeCount(d: Dir, includeHidden: bool, m: Measure): nat
    decreases d
  {
    DirMeasure(d, includeHidden, m) + TreeCountAll(d.subdirs, includeHidden, m)
  }

  function TreeCountAll(ds: seq<Dir>, includeHidden: bool, m: Measure): nat
    decreases ds
  {
    if ds == [] then 0
    else
      (if Pruned(ds[0], includeHidden) then 0 else TreeCount(ds[0], includeHidden, m))
      + TreeCountAll(ds[1..], includeHidden, m)
  }

  lemma {:induction false} CountFramesAppend(a: seq<Frame>, b: seq<Frame>, includeHidden: bool, m: Measure)
    ensures CountFrames(a + b, includeHidden, m) == CountFrames(a, includeHidden, m) + CountFrames(b, includeHidden, m)
    decreases |b|
  {
    if b == [] {
      assert a + b == a;
    } else {
      var b' := b[..|b| - 1];
      assert (a + b)[..|a + b| - 1] == a + b';
      CountFramesAppend(a, b', includeHidden, m);
    }
  }

  /** Counting over the walk of a directory is counting over its tree. */
  lemma {:induction false} WalkDirCount(d: Dir, p: seq<string>, includeHidden: bool, m: Measure)
    ensures CountFrames(WalkDir(d, p, includeHidden), includeHidden, m) == TreeCount(d, includeHidden, m)
    decreases d
  {
    WalkDirsCount(d.subdirs, p, includeHidden, m);
    CountFramesAppend([Frame(d, p)], WalkDirs(d.subdirs, p, includeHidden), includeHidden, m);
    assert CountFrames([Frame(d, p)], includeHidden, m) == DirMeasure(d, includeHidden, m);
  }

  lemma {:induction false} WalkDirsCount(ds: seq<Dir>, p: seq<string>, includeHidden: bool, m: Measure)
    ensures CountFrames(WalkDirs(ds, p, includeHidden), includeHidden, m) == TreeCountAll(ds, includeHidden, m)
    decreases ds
  {
    if ds != [] {
      WalkDirsCount(ds[1..], p, includeHidden, m);
      var first := if Pruned(ds[0], includeHidden) then [] else WalkDir(ds[0], p + [ds[0].name], includeHidden);
      CountFramesAppend(first, WalkDirs(ds[1..], p, includeHidden), includeHidden, m);
      if !Pruned(ds[0], includeHidden) {
        WalkDirCount(ds[0], p + [ds[0].name], includeHidden, m);
      }
    }
  }

  /** A tree's visible files are among all its files. */
  lemma {:induction false} VisibleTreeCountLe(d: Dir)
    ensures TreeCount(d, false, VisibleFileCount) <= TreeCount(d, true, VisibleFileCount)
    decreases d
  {
    VisibleTreeCountAllLe(d.subdirs);
  }

  lemma {:induction false} VisibleTreeCountAllLe(ds: seq<Dir>)
    ensures TreeCountAll(ds, false, VisibleFileCount) <= TreeCountAll(ds, true, VisibleFileCount)
    decreases ds
  {
    if ds != [] {
      VisibleTreeCountLe(ds[0]);
      VisibleTreeCountAllLe(ds[1..]);
    }
  }

  /** `processed_items` at the end: the visible files of the visited directories. */
  function VisibleCount(folder: Dir, includeHidden: bool): nat {
    CountFrames(Walk(folder, includeHidden), includeHidden, VisibleFileCount)
  }

  /** `total_items = sum([len(files) for _, _, files in os.walk(folder)])`: a walk
      with nothing pruned and no file dropped. */
  function TotalItems(folder: Dir): nat {
    CountFrames(Walk(folder, true), true, VisibleFileCount)
  }

  lemma VisibleCountLeTotal(folder: Dir, includeHidden: bool)
    ensures VisibleCount(folder, includeHidden) <= TotalItems(folder)
  {
    WalkDirCount(folder, [], includeHidden, VisibleFileCount);
    WalkDirCount(folder, [], true, VisibleFileCount);
    if !includeHidden {
      VisibleTreeCountLe(folder);
    }
  }

  lemma {:induction false} CountFramesPrefix(frs: seq<Frame>, k: nat, includeHidden: bool, m: Measure)
    requires k <= |frs|
    ensures CountFrames(frs[..k], includeHidden, m) <= CountFrames(frs, includeHidden, m)
  {
    CountFramesAppend(frs[..k], frs[k..], includeHidden, m);
    assert frs[..k] + frs[k..] == frs;
  }

  /** The text and the count of the first `k + 1` frames extend those of the first `k`. */
  lemma PrefixStep(frs: seq<Frame>, k: nat, includeHidden: bool, fileTypes: FileTypes)
    requires k < |frs|
    ensures WalkText(frs[..k + 1], includeHidden, fileTypes) == WalkText(frs[..k], includeHidden, fileTypes) + BlockText(frs[k], includeHidden, fileTypes)
    ensures CountFrames(frs[..k + 1], includeHidden, VisibleFileCount)
         == CountFrames(frs[..k], includeHidden, VisibleFileCount) + |VisibleFiles(frs[k].dir.files, includeHidden)|
  {
    assert frs[..k + 1][..k] == frs[..k];
  }

  lemma EntriesTextSnoc(files: seq<string>, i: nat, level: nat, fileTypes: FileTypes)
    requires i < |files|
    ensures EntriesText(files[..i + 1], level, fileTypes)
         == EntriesText(files[..i], level, fileTypes) + (if Matches(fileTypes, files[i]) then RenderLine(FileEntry(level, files[i])) else "")
  {
    assert files[..i + 1][..i] == files[..i];
  }

  // ---------------------------------------------------------------------------
  // Progress
  // ---------------------------------------------------------------------------

  /** `int((processed_items / total_items) * 100)`, in integer arithmetic. */
  function Percent(processed: nat, total: nat): int
    requires 0 < total
  {
    processed * 100 / total
  }

  /** The values `progress.emit` receives after the first `n` files. */
  function Percentages(n: nat, total: nat): seq<int>
    requires n <= total
  {
    if n == 0 then [] else Percentages(n - 1, total) + [Percent(n, total)]
  }

  lemma PercentagesSnoc(n: nat, total: nat)
    requires n < total
    ensures Percentages(n + 1, total) == Percentages(n, total) + [Percent(n + 1, total)]
  {
  }

  // ---------------------------------------------------------------------------
  // The thread object and its catalog builder
  // ---------------------------------------------------------------------------

  class CatalogGeneratorThread {
    const folder: Dir
    const includeHidden: bool
    const fileTypes: FileTypes

    constructor (folder: Dir, includeHidden: bool, fileTypes: FileTypes)
      ensures this.folder == folder && this.includeHidden == includeHidden && this.fileTypes == fileTypes
    {
      this.folder := folder;
      this.includeHidden := includeHidden;
      this.fileTypes := fileTypes;
    }

    /** `run`: the text carried by the `finished` signal, and the values sent on
        the `progress` signal, in order. */
    method Run() returns (finished: string, progress: seq<int>)
      requires WellFormed(folder)
      ensures finished == CatalogText(folder, includeHidden, fileTypes)
      ensures VisibleCount(folder, includeHidden) <= TotalItems(folder)
      ensures progress == Percentages(VisibleCount(folder, includeHidden), TotalItems(folder))
    {
      VisibleCountLeTotal(folder, includeHidden);
      finished, progress := CreateCatalog(folder);
    }

    /** `create_catalog(folder)`: walks the tree with a stack of pending
        directories (the next one in front), appending each directory's lines to
        the text and one percentage per visible file to `progress`. */
    method CreateCatalog(folder: Dir) returns (catalogText: string, progress: seq<int>)
      requires WellFormed(folder)
      ensures catalogText == CatalogText(folder, includeHidden, fileTypes)
      ensures VisibleCount(folder, includeHidden) <= TotalItems(folder)
      ensures progress == Percentages(VisibleCount(folder, includeHidden), TotalItems(folder))
    {
      catalogText := "Catalog for: " + folder.name + "\n";
      catalogText := catalogText + Rule + "\n\n";
      AppendEmpty(catalogText);

      var totalItems := TotalItems(folder);
      var processedItems := 0;
      progress := [];

      ghost var walk := Walk(folder, includeHidden);
      ghost var done := 0;
      VisibleCountLeTotal(folder, includeHidden);
      assert WalkForest([Frame(folder, [])], includeHidden) == walk;

      assert walk[..0] == [];
      assert catalogText == HeaderText(folder.name) + WalkText(walk[..done], includeHidden, fileTypes);
      var stack := [Frame(folder, [])];
      while stack != []
        invariant 0 <= done <= |walk|
        invariant WalkForest(stack, includeHidden) == walk[done..]
        invariant StackValid(stack)
        invariant catalogText == HeaderText(folder.name) + WalkText(walk[..done], includeHidden, fileTypes)
        invariant processedItems == CountFrames(walk[..done], includeHidden, VisibleFileCount)
        invariant CountFrames(walk, includeHidden, VisibleFileCount) <= totalItems
        invariant processedItems <= totalItems
        invariant progress == Percentages(processedItems, totalItems)
        decreases |walk| - done
      {
        var top := stack[0];
        StackPop(stack, walk, done, includeHidden);
        PrefixStep(walk, done, includeHidden, fileTypes);
        CountFramesPrefix(walk, done + 1, includeHidden, VisibleFileCount);

        var dirs := top.dir.subdirs;
        var files := top.dir.files;
        if !includeHidden {
          dirs := NonHiddenDirs(dirs);
          files := NonHidden(files);
        }
        assert dirs == SubdirsToWalk(top.dir.subdirs, includeHidden);
        assert files == VisibleFiles(top.dir.files, includeHidden);
        ghost var nextText := HeaderText(folder.name) + WalkText(walk[..done + 1], includeHidden, fileTypes);
        ghost var nextCount := CountFrames(walk[..done + 1], includeHidden, VisibleFileCount);
        ghost var nextStack := ChildFrames(SubdirsToWalk(top.dir.subdirs, includeHidden), top.path) + stack[1..];
        AppendAssoc(HeaderText(folder.name), WalkText(walk[..done], includeHidden, fileTypes), BlockText(top, includeHidden, fileTypes));
        assert catalogText + BlockText(top, includeHidden, fileTypes) == nextText;
        assert processedItems + |files| == nextCount;
        assert nextCount <= totalItems;
        catalogText, processedItems, progress := ListDirectory(top, files, catalogText, processedItems, totalItems, progress);
        assert catalogText == nextText;
        assert processedItems == nextCount;

        stack := ChildFrames(dirs, top.path) + stack[1..];
        assert stack == nextStack;
        done := done + 1;
      }
      assert walk[..done] == walk;
    }

    /** One pass of the walk loop's body, for the directory of `top` whose
        remaining files are `files`: its header line unless it is the root, its
        files, and a blank line when it had any file. */
    method ListDirectory(top: Frame, files: seq<string>, text: string, processed: nat, total: nat, progressIn: seq<int>)
      returns (catalogText: string, processedItems: nat, progress: seq<int>)
      requires ValidPath(top.path)
      requires files == VisibleFiles(top.dir.files, includeHidden)
      requires processed + |files| <= total
      requires progressIn == Percentages(processed, total)
      ensures catalogText == text + BlockText(top, includeHidden, fileTypes)
      ensures processedItems == processed + |files|
      ensures progress == Percentages(processedItems, total)
    {
      var relativePath := RelPath(top.path);
      var level := CountChar(relativePath, '/');
      RelPathLevel(top.path);
      var indent := Indent(level);

      ghost var header := if relativePath == "." then "" else RenderLine(DirHeader(level, top.dir.name));
      ghost var entries := EntriesText(files, level, fileTypes);
      ghost var blank := if files == [] then "" else "\n";
      catalogText := text;
      if relativePath != "." {
        catalogText := catalogText + (indent + top.dir.name + "/\n");
      } else {
        AppendEmpty(text);
      }
      catalogText, processedItems, progress := ListFiles(files, level, indent, catalogText, processed, total, progressIn);
      if files != [] {
        catalogText := catalogText + "\n";
      } else {
        AppendEmpty(text + header + entries);
      }
      AppendAssoc(text, header, entries);
      AppendAssoc(text, header + entries, blank);
    }

    /** The inner loop over a directory's files: an indented line for each file
        that passes the extension filter, and after each file the percentage of
        all files processed so far. */
    method ListFiles(files: seq<string>, level: nat, indent: string, text: string, processed: nat, total: nat, progressIn: seq<int>)
      returns (catalogText: string, processedItems: nat, progress: seq<int>)
      requires indent == Indent(level)
      requires processed + |files| <= total
      requires progressIn == Percentages(processed, total)
      ensures catalogText == text + EntriesText(files, level, fileTypes)
      ensures processedItems == processed + |files|
      ensures progress == Percentages(processedItems, total)
    {
      catalogText, processedItems, progress := text, processed, progressIn;
      AppendEmpty(text);
      for i := 0 to |files|
        invariant catalogText == text + EntriesText(files[..i], level, fileTypes)
        invariant processedItems == processed + i
        invariant progress == Percentages(processedItems, total)
      {
        EntriesTextSnoc(files, i, level, fileTypes);
        if Matches(fileTypes, files[i]) {
          AppendAssoc(text, EntriesText(files[..i], level, fileTypes), indent + "  " + files[i] + "\n");
          catalogText := catalogText + (indent + "  " + files[i] + "\n");
        } else {
          AppendEmpty(EntriesText(files[..i], level, fileTypes));
        }
        PercentagesSnoc(processedItems, total);
        processedItems := processedItems + 1;
        progress := progress + [Percent(processedItems, total)];
      }
      assert files[..|files|] == files;
    }
  }
}
