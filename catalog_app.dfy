/** The two pieces of `CatalogApp` that decide what the builder is given and what
    is shown of its result: the file-type selector, and the choice between the
    catalog and the "No files found" message. */
module CatalogApp {
  import opened PathRules
  import opened FsTree
  import opened Catalog
  import opened CatalogProperties

  /** The choices of the file-type combo box, "All" first. */
  const Choices: seq<string> := ["All", ".txt", ".pdf", ".doc", ".docx"]

  /** `generate_catalog`'s normalisation: "All" is passed on as it is, any other
      choice as a one-element list. */
  function FileTypesOf(selected: string): (r: FileTypes)
    ensures r.AllTypes? <==> selected == "All"
    ensures r.Selected? ==> r.exts == [selected]
  {
    if selected == "All" then AllTypes else Selected([selected])
  }

  /** A file passes the filter built from a choice exactly when the choice is
      "All" or the file's lower-cased extension is the chosen one. */
  lemma FileTypesOfMatches(selected: string, file: string)
    ensures Matches(FileTypesOf(selected), file) <==> selected == "All" || Lower(Ext(file)) == selected
  {
    if selected != "All" {
      assert FileTypesOf(selected).exts == [selected];
    }
  }

  /** Whether a file passes the filter does not depend on the case of the letters
      in its name. */
  lemma MatchIgnoresCase(selected: string, file: string, other: string)
    requires SameUpToCase(file, other)
    ensures Matches(FileTypesOf(selected), file) <==> Matches(FileTypesOf(selected), other)
  {
    ExtUpToCase(file, other);
    LowerUpToCase(Ext(file), Ext(other));
    FileTypesOfMatches(selected, file);
    FileTypesOfMatches(selected, other);
  }

  lemma ChoicesHaveNoUpperCase(selected: string)
    requires selected in Choices && selected != "All"
    ensures forall i :: 0 <= i < |selected| ==> !IsUpper(selected[i])
  {
    assert selected == ".txt" || selected == ".pdf" || selected == ".doc" || selected == ".docx";
  }

  /** Every combo-box choice other than "All" is a lower-case extension, so a
      file whose extension is the chosen one in any mix of cases passes. */
  lemma ChoicesAreLowerCase(selected: string, file: string)
    requires selected in Choices && selected != "All"
    ensures Lower(selected) == selected
    ensures SameUpToCase(Ext(file), selected) ==> Matches(FileTypesOf(selected), file)
    ensures Matches(FileTypesOf(selected), file) <==> Lower(Ext(file)) == Lower(selected)
  {
    FileTypesOfMatches(selected, file);
    ChoicesHaveNoUpperCase(selected);
    LowerKeepsLowerCase(selected);
    if SameUpToCase(Ext(file), selected) {
      LowerUpToCase(Ext(file), selected);
    }
  }

  const NoFilesMessage: string := "No files found in the selected folder."

  /** `catalog_generated`: the text put in the result box, and whether the
      catalog is saved — a non-empty catalog is shown and saved, an empty one is
      replaced by the message and not saved. */
  function Shown(catalogText: string): (r: (string, bool))
    ensures r.1 <==> catalogText != ""
    ensures r.1 ==> r.0 == catalogText
    ensures !r.1 ==> r.0 == NoFilesMessage
  {
    if catalogText != "" then (catalogText, true) else (NoFilesMessage, false)
  }

  /** What the thread delivers is always shown and saved: the "No files found"
      branch cannot be taken, even for an empty folder. */
  lemma NoFilesBranchUnreachable(folder: Dir, includeHidden: bool, selected: string)
    ensures Shown(CatalogText(folder, includeHidden, FileTypesOf(selected))).1
    ensures Shown(CatalogText(folder, includeHidden, FileTypesOf(selected))).0
         == CatalogText(folder, includeHidden, FileTypesOf(selected))
  {
    CatalogStartsWithHeader(folder, includeHidden, FileTypesOf(selected));
  }

  /** An empty folder still gets the header, and nothing else. */
  lemma EmptyFolderCatalog(name: string, includeHidden: bool, selected: string)
    ensures CatalogText(Dir(name, [], []), includeHidden, FileTypesOf(selected)) == HeaderText(name)
  {
    var folder := Dir(name, [], []);
    var fr := Frame(folder, []);
    assert WalkDirs(folder.subdirs, [], includeHidden) == [];
    AppendEmpty([fr]);
    assert WalkDir(folder, [], includeHidden) == [fr];
    assert Walk(folder, includeHidden) == [fr];
    assert [fr][..0] == [];
    assert BlockText(fr, includeHidden, FileTypesOf(selected)) == "";
    assert WalkText([fr], includeHidden, FileTypesOf(selected)) == "";
    AppendEmpty(HeaderText(name));
  }
}
