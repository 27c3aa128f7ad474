# folder-cataloger, modelled in Dafny

folder-cataloger is a small desktop tool. It walks a folder and writes a text
catalog of it with:

- a header naming the folder;
- one indented line per sub-folder;
- one line per file that passes an extension filter;
- an empty line after each folder that has files.

It skips hidden entries unless asked not to, and reports a percentage on a
progress bar as it counts files. This project models the builder behind that
tool: `CatalogGeneratorThread.create_catalog`. It also models the two small
pieces of the window that feed the builder and consume its result.

The filesystem is replaced by a tree value, `Dir(name, files, subdirs)`. The
order of each sequence is the order the operating system would list the
entries in.

- `os.walk(folder)` top-down becomes a preorder walk, `FsTree.Walk`. It yields
  each visited directory with its path relative to the root.
- The source's in-place `dirs[:] = ...` pruning becomes the walk not descending
  into a hidden subdirectory.
- `create_catalog` is an imperative method, `Catalog.CatalogGeneratorThread.CreateCatalog`.
  - `catalog_text` is built with appends.
  - `processed_items` is a counter.
  - `progress.emit(...)` appends to a `seq<int>`.
  - The walk is driven by a stack of pending directories, next one in front.
- The method is proved to return exactly `Catalog.CatalogText` and
  `Catalog.Percentages`, two functions of the tree. `CatalogProperties` then
  proves what the source promises about them.
- `Catalog.CatalogTextRendered` ties the text to a sequence of typed lines
  (`DirHeader`, `FileEntry`, `Blank`). `CatalogProperties` reasons over those
  lines.

Modules:

- `PathRules` (path_rules.dfy): hidden names, the POSIX `os.path.splitext` rule and ASCII `str.lower`.
- `FsTree` (fs_tree.dfy): the tree, the walk with pruning, relative paths and levels, and the stack step.
- `Catalog` (catalog.dfy): the filter, the lines and their text, counting, the progress values, and the thread class with `CreateCatalog`.
- `CatalogProperties` (catalog_props.dfy): header, shape, counts, hidden entries, order and progress.
- `CatalogApp` (catalog_app.dfy): the file-type selector and the choice of what is shown.

Behaviour of the code that is easy to miss, each proved here:

- `total_items` counts every file in the tree, hidden ones included.
  `processed_items` only counts the visible files of the directories visited.
  So with hidden entries excluded, the last percentage can stay below 100:
  one hidden and one visible file give the single value 50
  (`CatalogProperties.HiddenFileStopsProgressAt50`).
- The text always starts with its header, so it is never empty. The "No files
  found" branch of `catalog_generated` cannot be taken
  (`CatalogApp.NoFilesBranchUnreachable`).
  - A folder with no entries yields the header alone
    (`CatalogApp.EmptyFolderCatalog`).
  - A visited sub-folder without files still gets its header line.
- A folder whose visible files all fail the filter still gets its blank line
  (`CatalogProperties.BlockEntriesAndBlank`).

## Model

| member | source | states |
|---|---|---|
| PathRules.SplitExt | app.py:45 | `os.path.splitext`: root plus extension is the name. The extension is empty or is one '.' followed by no other '.'. It is non-empty exactly when some '.' follows a character other than '.'. |
| PathRules.Ext | app.py:45 | definition of `os.path.splitext(file)[1]`: the second half of `SplitExt`. Stated by `PathRules.SplitExt`, `PathRules.ExtUpToCase` and the three example lemmas below. |
| PathRules.Lower | app.py:45 | `.lower()`: same length, no upper-case ASCII letter left, each upper-case letter replaced by its lower-case partner (code point + 32), every other character unchanged |
| PathRules.LowerUpToCase | app.py:45 | two strings that differ only in the case of ASCII letters lower-case to the same string |
| PathRules.ExtUpToCase | app.py:45 | changing the case of letters in a name does not move its extension: the two extensions again differ only in case |
| PathRules.BashrcHasNoExtension | app.py:45 | a leading dot does not start an extension: ".bashrc" has none |
| PathRules.ArchiveExtension | app.py:45 | the extension starts at the last dot: "archive.tar.gz" has ".gz" |
| PathRules.UpperCaseExtension | app.py:45 | the lower-cased extension of "Report.PDF" is ".pdf" |
| PathRules.IsHidden | app.py:34-35 | definition of `startswith('.')`: a name is hidden when it is non-empty and its first character is '.'. Its effect on the walk is stated by `FsTree.NonHiddenOne` and `CatalogProperties.HiddenNamesNeverListed`. |
| FsTree.NonHidden | app.py:35 | `[f for f in files if not f.startswith('.')]` keeps exactly the non-hidden names and never adds any |
| FsTree.NonHiddenAppend | app.py:35 | the filter works element by element and keeps order: filtering a concatenation is concatenating the filtered parts |
| FsTree.NonHiddenOne | app.py:35 | a one-name list keeps its name exactly when the name is not hidden |
| FsTree.NonHiddenDirs | app.py:34 | the pruned subdirectory list keeps exactly the non-hidden subdirectories |
| FsTree.NonHiddenDirsAppend | app.py:34 | pruning keeps order: pruning a concatenation is concatenating the pruned parts |
| FsTree.NonHiddenDirsOne | app.py:34 | a one-directory list survives pruning exactly when its name is not hidden |
| FsTree.VisibleFiles | app.py:33-35 | definition of the files the loop sees: all of them with hidden entries included, otherwise `NonHidden` of them. Stated through `FsTree.NonHidden`, `FsTree.NonHiddenAppend` and `CatalogProperties.HiddenNamesNeverListed`. |
| FsTree.SubdirsToWalk | app.py:33-34 | definition of `dirs` after the guarded `dirs[:] = ...`: unchanged with hidden entries included, otherwise `NonHiddenDirs` of it. Stated through `FsTree.PrunedRootWalk` and `FsTree.WalkForestStep`. |
| FsTree.ChildFrames | app.py:32-34 | the pending entries for the surviving subdirectories, each with its name appended to the parent's path |
| FsTree.WalkDir | app.py:32-34 | definition of `os.walk` from one directory, top-down: the directory, then the walks of its subdirectories that survive pruning, in order. Its properties are stated by `FsTree.WalkShape`, `FsTree.PrunedRootWalk` and `FsTree.WalkForestStep`. |
| FsTree.WalkDirs | app.py:32-34 | definition of the walks of a list of subdirectories, one after another, skipping the pruned ones. Stated by `FsTree.PrunedRootWalk` and `FsTree.WalkForestStep`. |
| FsTree.Walk | app.py:32 | definition of `os.walk(folder)`: the walk from the root with an empty relative path. Its shape is stated by `FsTree.WalkShape`. |
| FsTree.WalkShape | app.py:32-35 | the walk always starts at the root, with an empty relative path. Every other visited directory lies strictly below the root and is named by its path's last component. With pruning, no name on that path is hidden. |
| FsTree.PrunedRootWalk | app.py:32-34 | pruning hidden subdirectories during the walk visits exactly the frames of the full walk that are not beneath a hidden directory, in the same order |
| FsTree.WalkForestStep | app.py:32-34 | the walk still owed for a stack equals the front directory, then the walks of its surviving subdirectories, then those of the rest of the stack |
| FsTree.StackPop | app.py:32-34 | taking the front of the pending stack yields the next directory of the walk. Pushing its surviving subdirectories leaves exactly the rest of the walk still owed, with valid paths. |
| FsTree.RelPath | app.py:37 | definition of `os.path.relpath(root, folder)`: "." for the root, otherwise the path's names joined by '/'. Stated by `FsTree.RelPathLevel`. |
| FsTree.CountChar | app.py:38 | definition of `str.count` for one character. That the separator count is the level is stated by `FsTree.RelPathLevel`. |
| FsTree.Level | app.py:38 | definition of `level`: 0 for the root, otherwise the depth less one. That it is the separator count of the relative path is stated by `FsTree.RelPathLevel`. |
| FsTree.RelPathLevel | app.py:37-38 | `os.path.relpath` is "." exactly for the root, and its number of separators is the directory's level (depth less one) |
| Catalog.MatchedFiles | app.py:44-46 | the files that pass the filter: exactly the members of the list that match it, never more files than there are |
| Catalog.Matches | app.py:45 | definition of the filter condition: "All", or the lower-cased extension is among the file types. Stated by `CatalogApp.FileTypesOfMatches`, `CatalogApp.MatchIgnoresCase` and `CatalogProperties.AllTypesMatchesEverything`. |
| Catalog.MatchedFilesAppend | app.py:44-46 | the file loop's filter keeps order: filtering a concatenation is concatenating the filtered parts |
| Catalog.MatchedFilesOne | app.py:44-46 | a one-file list keeps its file exactly when the file matches |
| Catalog.Indent | app.py:39 | `"  " * level` is 2·level spaces |
| Catalog.RuleIsFiftyEquals | app.py:27 | the rule under the title is fifty '=' characters |
| Catalog.HeaderText | app.py:26-27 | definition of the two header lines. Their content is stated by `CatalogProperties.CatalogStartsWithHeader`. |
| Catalog.RenderLine | app.py:42-46 | definition of the two f-strings (header line and file line) and of the blank line. Stated by `CatalogProperties.RenderedIndentation`. |
| Catalog.EntryLines | app.py:44-46 | definition of the file lines of one directory, one per matching file. Stated by `CatalogProperties.EntryLinesAreMatchedFiles` and `CatalogProperties.EntryCounts`. |
| Catalog.Block | app.py:37-52 | definition of what one pass of the walk loop appends: optional header, file lines, optional blank line. Stated by `CatalogProperties.BlockHeaders`, `CatalogProperties.BlockEntriesAndBlank` and `CatalogProperties.BlockCounts`. |
| Catalog.CatalogLines | app.py:32-52 | definition of the catalog's lines: the blocks of the visited directories in walk order. Stated by `CatalogProperties.CatalogIsPreorder`, `CatalogProperties.CatalogLineCounts` and `CatalogProperties.HiddenNamesNeverListed`. |
| Catalog.CatalogText | app.py:25-54 | definition of the text `create_catalog(folder)` returns. `Catalog.CatalogTextRendered` ties it to the lines. `CatalogProperties.CatalogStartsWithHeader` states how it starts. |
| Catalog.CatalogTextRendered | app.py:26-52 | the catalog text is the header followed by the rendering of the catalog's lines, in walk order |
| Catalog.WalkTextRendered | app.py:37-52 | the text the loops append for a sequence of visited directories is the rendering of their blocks of lines |
| Catalog.BlockTextRendered | app.py:41-52 | one directory's text is its header line (none for the root), its matching file lines and, after any visible file, a blank line |
| Catalog.EntriesTextRendered | app.py:44-46 | one directory's file text is the rendering of one entry line per matching file |
| Catalog.WalkDirCount | app.py:29-32 | a count taken over the walk equals the same count taken over the tree |
| Catalog.TotalItems | app.py:29 | definition of `total_items`: the number of files over the full walk, hidden entries included. Stated by `Catalog.VisibleCountLeTotal` and `CatalogProperties.AllFilesListed`. |
| Catalog.Percent | app.py:49 | definition of the emitted percentage, as integer arithmetic (see "## Left out"). Stated by `CatalogProperties.PercentRange` and `CatalogProperties.PercentMonotone`. |
| Catalog.Percentages | app.py:44-49 | definition of the values emitted after each of the first n files. Stated by `CatalogProperties.ProgressFacts`. |
| Catalog.VisibleCount | app.py:48 | definition of `processed_items` at the end: the visible files of the visited directories. Stated by `Catalog.VisibleCountLeTotal` and `CatalogProperties.RunProgress`. |
| Catalog.VisibleCountLeTotal | app.py:29-35 | the visible files of the visited directories are never more than `total_items`, the files of the whole tree |
| Catalog.CatalogGeneratorThread.constructor | app.py:15-19 | the thread keeps the folder, the hidden-entries switch and the file types it was given |
| Catalog.CatalogGeneratorThread.Run | app.py:21-23 | `finished` carries exactly the catalog text, and `progress` carries one value per visible file of a visited directory |
| Catalog.CatalogGeneratorThread.CreateCatalog | app.py:25-54 | returns exactly the catalog text of the tree. The emitted values are the percentages of 1, 2, … up to the visible-file count, out of `total_items`. That count never exceeds `total_items`. |
| Catalog.CatalogGeneratorThread.ListDirectory | app.py:37-52 | one pass of the walk loop: appends the directory's header (none for the root), its matching files and its blank line. It advances the counter by the number of visible files and emits one value for each. |
| Catalog.CatalogGeneratorThread.ListFiles | app.py:44-49 | the file loop: appends one indented line per matching file and counts every visible file, matching or not. It emits the percentage after each. |
| CatalogProperties.CatalogStartsWithHeader | app.py:26-27 | the catalog starts with "Catalog for: " and the folder's name, a newline, fifty '=', and two newlines, so it is never empty |
| CatalogProperties.EntryLinesAreMatchedFiles | app.py:44-46 | a directory's k-th file line names its k-th file that passes the filter, at the directory's level, and there are no others |
| CatalogProperties.AllTypesMatchesEverything | app.py:45 | with file types "All", every file passes |
| CatalogProperties.BlockParts | app.py:44-46 | every file line of a directory is a `FileEntry` at the directory's level |
| CatalogProperties.BlockHeaders | app.py:37-42 | the root gets no header line. Every other directory gets exactly one, before its file lines, naming it at level depth less one. |
| CatalogProperties.BlockEntriesAndBlank | app.py:44-52 | file lines carry the directory's level. A blank line is present exactly when the directory has a visible file, and it is last. |
| CatalogProperties.RenderedIndentation | app.py:39-46 | a header line is 2·level spaces, the name and "/". A file line is 2·level + 2 spaces and the name. |
| CatalogProperties.EntryCounts | app.py:44-46 | a directory's file lines are as many as its files that pass the filter |
| CatalogProperties.BlockCounts | app.py:41-52 | one directory contributes one file line per matching visible file, one blank if it has a visible file, and one header unless it is the root |
| CatalogProperties.LinesCounts | app.py:32-52 | a sequence of visited directories contributes, in total, one file line per matching visible file, one blank line per directory with a visible file, and one header per directory other than the root |
| CatalogProperties.CatalogLineCounts | app.py:32-52 | in the whole catalog: file lines = matching visible files of the visited tree; blank lines = visited directories with a visible file; header lines = visited directories less one |
| CatalogProperties.AllFilesListed | app.py:29-46 | with hidden entries included and file types "All", the number of file lines equals `total_items` |
| CatalogProperties.HiddenNamesNeverListed | app.py:33-35 | with hidden entries excluded, no header and no file line names an entry starting with '.' |
| CatalogProperties.CatalogIsPreorder | app.py:32-52 | the catalog's lines equal a tree-shaped reference listing: a directory's own lines, then each surviving subdirectory's listing in order. The root's lines come first. |
| CatalogProperties.PercentRange | app.py:49 | a percentage of a count out of the total lies in [0, 100], and is 100 exactly when the count reaches the total |
| CatalogProperties.ProgressFacts | app.py:44-49 | one value per processed file, the k-th being the percentage after k+1 files. Every value is in [0, 100] and the values never decrease. The last is 100 exactly when the count reached `total_items`. |
| CatalogProperties.RunProgress | app.py:29-49 | the number of values emitted is the number of visible files in visited directories, at most `total_items` (so none when there are none). With hidden entries included, the last value is 100. |
| CatalogProperties.NothingHiddenReaches100 | app.py:29-49 | in a tree with no hidden entry, excluding hidden entries changes nothing: the count is `total_items` and the last value is 100 |
| CatalogProperties.HiddenFileStopsProgressAt50 | app.py:29-49 | a hidden and a visible file at the root, hidden entries excluded: the only value emitted is 50 |
| CatalogApp.FileTypesOf | app.py:154-156 | the selector "All" is kept as it is, and any other choice becomes the one-element list holding exactly that choice |
| CatalogApp.FileTypesOfMatches | app.py:154-156 | a file passes the filter built from a choice (the condition at app.py:45) exactly when the choice is "All" or the file's lower-cased extension equals it |
| CatalogApp.MatchIgnoresCase | app.py:45 | whether a file passes the filter does not change when the case of letters in its name changes |
| CatalogApp.ChoicesAreLowerCase | app.py:45 | every offered extension is already lower case. A file passes exactly when its lower-cased extension equals the choice, so any file whose extension is the choice in some mix of cases passes. |
| CatalogApp.Shown | app.py:170-177 | a non-empty catalog is shown and saved. An empty one would be replaced by the "No files found" message and not saved. |
| CatalogApp.NoFilesBranchUnreachable | app.py:170-177 | the text the thread delivers is always shown and saved, never the "No files found" message |
| CatalogApp.EmptyFolderCatalog | app.py:25-54 | a folder with no entries yields the header alone |

## Left out

- The window (`CatalogApp`'s widgets, status bar, message boxes, clipboard, drag and drop, folder dialog) and `main`: presentation only.
- `generate_catalog`'s check for an empty folder field, and its wiring of signals: UI plumbing.
- `QThread` and `pyqtSignal`: concurrency is not modelled. `run` is a method that returns the text and the list of emitted values.
- Writing `folder_catalog.txt` (`save_catalog_to_file`): file I/O. `CatalogApp.Shown` records only whether it would be called.
- The real filesystem:
  - Permission errors, symbolic links and entries that change during the walk are not modelled.
  - Listing order is an input.
  - A folder that does not exist: `os.walk` then yields nothing and the source returns the header alone. The model always visits the root. The folder field is read-only and is filled from the folder dialog or from a drop checked with `isdir`.
  - Paths use the POSIX separator '/'. Windows separators are not modelled.
  - Subdirectory names are required to be non-empty, not "." or "..", and free of '/', as a filesystem guarantees (`FsTree.WellFormed`).
  - File names are not constrained by `FsTree.WellFormed`. They are assumed free of '/', as a filesystem guarantees. `PathRules.SplitExt` looks at the whole name, so for a string such as "a.b/c" it would give ".b/c" where `os.path.splitext` gives "".
- `os.path.basename(folder)` of a path string: the root's name is taken from the tree. A folder path ending in a separator, whose basename is empty, is not modelled.
- Catalog.Percent: `int((processed / total) * 100)` is computed in floating point in the source, and is modelled as the integer `processed * 100 / total`. The float value can come out one lower, as for 29 of 100. So what is proved about the exact values (`CatalogProperties.ProgressFacts`, `CatalogProperties.HiddenFileStopsProgressAt50`) describes the integer model. The bounds and the ordering hold for both.
- PathRules.Lower: only ASCII letters are lower-cased. Python's full Unicode case mapping is not modelled.
- Catalog.CatalogGeneratorThread.CreateCatalog: `os.walk` is a generator whose consumer edits `dirs` in place. It is modelled by an explicit stack of pending directories that receives only the surviving subdirectories. The bodies of the two nested loops are the helper methods `ListDirectory` and `ListFiles`.
