/**
 * The window: its file list, its encoding selection and the handlers of its
 * buttons and of a drop. The handlers' messages are modelled as the outcome
 * they report; the progress bar and label are left out.
 */
module MainWindow {
  import opened Wrappers
  import opened Encodings
  import opened Paths
  import opened FileIO
  import opened Conversion
  import opened Duplicates

  /** An item of the file list box. The list holds objects; only strings are paths. */
  datatype ListItem = StringItem(value: string) | OtherItem

  /** One entry of a drop: a file, or a directory with the files found under it, subdirectories included. */
  datatype DroppedPath = DroppedFile(path: string) | DroppedDirectory(path: string, files: seq<string>)

  /** The answer of the folder browser dialog. */
  datatype FolderDialogResult = FolderDialogResult(ok: bool, selectedPath: string)

  /** How a click on a save button ends: the message the user is shown. */
  datatype SaveOutcome =
    | NoFiles
    | NotAFileList
    | DuplicateNames(report: string)
    | NoDirectory
    | Finished(changedCount: nat, fileCount: nat)

  /** `char.IsWhiteSpace`: the space separators, line and paragraph separators, and U+0009 to U+000D, U+0085. */
  predicate IsWhiteSpace(c: char)
    ensures c == ' ' || c == '\t' || c == '\n' || c == '\r' ==> IsWhiteSpace(c)
    ensures IsWhiteSpace(c) ==> !IsSeparator(c)
  {
    || '\U{0009}' <= c <= '\U{000D}' || c == '\U{0020}' || c == '\U{0085}' || c == '\U{00A0}'
    || c == '\U{1680}' || '\U{2000}' <= c <= '\U{200A}' || c == '\U{2028}' || c == '\U{2029}'
    || c == '\U{202F}' || c == '\U{205F}' || c == '\U{3000}'
  }

  /** `string.IsNullOrWhiteSpace` for a non-null string. */
  predicate IsNullOrWhiteSpace(s: string)
    ensures |s| == 0 ==> IsNullOrWhiteSpace(s)
    ensures IsNullOrWhiteSpace(s) ==> HasNoSeparator(s)
  {
    forall i :: 0 <= i < |s| ==> IsWhiteSpace(s[i])
  }

  /** The dialog was confirmed with a path that is not blank. */
  predicate ChoseDirectory(dialog: FolderDialogResult)
    ensures ChoseDirectory(dialog) ==> dialog.ok && |dialog.selectedPath| > 0
  {
    dialog.ok && !IsNullOrWhiteSpace(dialog.selectedPath)
  }

  predicate AllStrings(items: seq<ListItem>) {
    forall i :: 0 <= i < |items| ==> items[i].StringItem?
  }

  /** The paths held by a list of strings, in order. */
  function ItemPaths(items: seq<ListItem>): (paths: seq<string>)
    requires AllStrings(items)
    ensures |paths| == |items| && forall i :: 0 <= i < |items| ==> items[i] == StringItem(paths[i])
  {
    seq(|items|, i requires 0 <= i < |items| => items[i].value)
  }

  function AsItems(paths: seq<string>): (items: seq<ListItem>)
    ensures |items| == |paths| && forall i :: 0 <= i < |paths| ==> items[i] == StringItem(paths[i])
  {
    seq(|paths|, i requires 0 <= i < |paths| => StringItem(paths[i]))
  }

  lemma AsItemsConcat(xs: seq<string>, ys: seq<string>)
    ensures AsItems(xs + ys) == AsItems(xs) + AsItems(ys)
  {
  }

  /** The paths one dropped entry adds: a file itself, a directory the files under it. */
  function Added(d: DroppedPath): seq<string> {
    match d
    case DroppedFile(path) => [path]
    case DroppedDirectory(_, files) => files
  }

  /** The paths a drop adds: each file itself, each directory replaced by the files under it. */
  function Expand(dropped: seq<DroppedPath>): seq<string> {
    if dropped == [] then [] else Expand(dropped[..|dropped| - 1]) + Added(dropped[|dropped| - 1])
  }

  /**
   * The paths of a drop are, in order, those of the entries before the k-th,
   * those of the k-th entry, and those of the entries after it.
   */
  lemma {:induction false} ExpandInOrder(dropped: seq<DroppedPath>, k: nat)
    requires k < |dropped|
    ensures Expand(dropped) == Expand(dropped[..k]) + Added(dropped[k]) + Expand(dropped[k + 1..])
  {
    assert dropped == (dropped[..k] + [dropped[k]]) + dropped[k + 1..];
    ExpandConcat(dropped[..k] + [dropped[k]], dropped[k + 1..]);
    ExpandConcat(dropped[..k], [dropped[k]]);
    assert [dropped[k]][..0] == [];
  }

  /** The paths of two drops in a row are those of the first followed by those of the second. */
  lemma {:induction false} ExpandConcat(xs: seq<DroppedPath>, ys: seq<DroppedPath>)
    ensures Expand(xs + ys) == Expand(xs) + Expand(ys)
  {
    if ys == [] {
      assert xs + ys == xs;
    } else {
      var n := |ys| - 1;
      assert (xs + ys)[..|xs + ys| - 1] == xs + ys[..n];
      assert (xs + ys)[|xs + ys| - 1] == ys[n];
      ExpandConcat(xs, ys[..n]);
    }
  }

  class MainWindow {
    /** `_libFiles.Items` */
    var items: seq<ListItem>
    /** `_cbEncodings.SelectedIndex` */
    var selectedIndex: nat

    ghost predicate Valid()
      reads this
    {
      selectedIndex < |EncodingTable|
    }

    /** The window starts with an empty list and the first encoding selected. */
    constructor ()
      ensures Valid() && items == [] && selectedIndex == DefaultIndex
    {
      items := [];
      selectedIndex := DefaultIndex;
    }

    /** The encoding of the selected combo box item. */
    function SelectedEncoding(): Encoding
      reads this
      requires Valid()
    {
      EncodingTable[selectedIndex].encoding
    }

    /** The user picks another entry of the combo box. */
    method SelectEncoding(index: nat)
      requires index < |EncodingTable|
      modifies this
      ensures Valid() && selectedIndex == index && items == old(items)
    {
      selectedIndex := index;
    }

    /**
     * A drop appends the dropped files, and the files under each dropped
     * directory, in order; a drop that carries no file list adds nothing.
     */
    method OnDrop(data: Option<seq<DroppedPath>>)
      modifies this
      ensures data.None? ==> items == old(items)
      ensures data.Some? ==> items == old(items) + AsItems(Expand(data.value))
      ensures AllStrings(old(items)) ==> AllStrings(items)
      ensures selectedIndex == old(selectedIndex)
    {
      if data.None? {
        return;
      }
      var dropped := data.value;
      for k := 0 to |dropped|
        invariant items == old(items) + AsItems(Expand(dropped[..k]))
        invariant selectedIndex == old(selectedIndex)
      {
        ghost var done := Expand(dropped[..k]);
        assert Expand(dropped[..k + 1]) == done + Added(dropped[k]) by {
          assert dropped[..k + 1][..k] == dropped[..k];
        }
        match dropped[k]
        case DroppedDirectory(_, subFiles) =>
          for j := 0 to |subFiles|
            invariant items == old(items) + AsItems(done + subFiles[..j])
            invariant selectedIndex == old(selectedIndex)
          {
            assert done + subFiles[..j + 1] == (done + subFiles[..j]) + [subFiles[j]];
            AsItemsConcat(done + subFiles[..j], [subFiles[j]]);
            items := items + [StringItem(subFiles[j])];
          }
          assert subFiles[..|subFiles|] == subFiles;
        case DroppedFile(path) =>
          AsItemsConcat(done, [path]);
          items := items + [StringItem(path)];
      }
      assert dropped[..|dropped|] == dropped;
    }

    /** The clear button empties the list. */
    method ClearOnClick()
      modifies this
      ensures items == [] && selectedIndex == old(selectedIndex)
    {
      items := [];
    }

    /**
     * `ToFileList`: all or nothing. None when some item is not a string,
     * otherwise the paths of all items in list order.
     */
    method ToFileList() returns (files: Option<seq<string>>)
      ensures files.None? <==> !AllStrings(items)
      ensures files.Some? ==> files.value == ItemPaths(items)
    {
      var list: seq<string> := [];
      for i := 0 to |items|
        invariant |list| == i
        invariant forall k :: 0 <= k < i ==> items[k] == StringItem(list[k])
      {
        if !items[i].StringItem? {
          return None;
        }
        list := list + [items[i].value];
      }
      return Some(list);
    }

    /**
     * `SaveFileWithEncodingAsync`: converts the listed files one after the
     * other with the selected encoding, into `targetDirectory` when it is not
     * empty and in place otherwise, and reports how many of the listed files
     * it wrote, out of all listed files.
     */
    method SaveFileWithEncoding(fs: FileSystem, files: seq<string>, targetDirectory: string)
      returns (changedCount: nat, fileCount: nat)
      requires Valid()
      modifies fs
      ensures fileCount == |files| && changedCount <= fileCount
      ensures var b := Run(fs.io, old(fs.files), files, SelectedEncoding(), targetDirectory);
        fs.files == b.files && changedCount == ChangedCount(b.outcomes)
    {
      fileCount := |files|;
      changedCount := 0;
      var encoding := EncodingTable[selectedIndex].encoding;
      for i := 0 to |files|
        invariant var b := Run(fs.io, old(fs.files), files[..i], encoding, targetDirectory);
          fs.files == b.files && changedCount == ChangedCount(b.outcomes)
        invariant changedCount <= i
      {
        assert files[..i + 1][..i] == files[..i];
        ghost var b := Run(fs.io, old(fs.files), files[..i + 1], encoding, targetDirectory);
        assert b.outcomes[..i] == Run(fs.io, old(fs.files), files[..i], encoding, targetDirectory).outcomes;
        var filePath := files[i];
        var fileExists := fs.Exists(filePath);
        if !fileExists {
          continue;
        }
        var readText := fs.ReadAllText(filePath);
        if readText.Some? {
          var destination := if |targetDirectory| > 0 then Combine(targetDirectory, GetFileName(filePath)) else filePath;
          var written := fs.WriteAllText(destination, readText.value, encoding);
          if written {
            changedCount := changedCount + 1;
          }
        }
      }
      assert files[..|files|] == files;
    }

    /** The "overwrite" button: converts every listed file in place. */
    method SaveOverwriteOnClick(fs: FileSystem) returns (outcome: SaveOutcome)
      requires Valid()
      modifies fs
      ensures |items| == 0 ==> outcome == NoFiles && fs.files == old(fs.files)
      ensures |items| > 0 && !AllStrings(items) ==> outcome == NotAFileList && fs.files == old(fs.files)
      ensures |items| > 0 && AllStrings(items) ==>
        var b := Run(fs.io, old(fs.files), ItemPaths(items), SelectedEncoding(), "");
        outcome == Finished(ChangedCount(b.outcomes), |items|) && fs.files == b.files
    {
      if |items| == 0 {
        return NoFiles;
      }
      var files := ToFileList();
      if files.None? {
        return NotAFileList;
      }
      var changedCount, fileCount := SaveFileWithEncoding(fs, files.value, "");
      return Finished(changedCount, fileCount);
    }

    /**
     * The "save as" button: refuses the batch when two listed files share a
     * file name, asks for a directory, and converts every listed file into it.
     */
    method SaveAsOnClick(fs: FileSystem, dialog: FolderDialogResult) returns (outcome: SaveOutcome)
      requires Valid()
      modifies fs
      ensures |items| == 0 ==> outcome == NoFiles && fs.files == old(fs.files)
      ensures |items| > 0 && !AllStrings(items) ==> outcome == NotAFileList && fs.files == old(fs.files)
      ensures |items| > 0 && AllStrings(items) ==>
        var report := DuplicateReport(ItemPaths(items));
        && (report != "" ==> outcome == DuplicateNames(report) && fs.files == old(fs.files))
        && (report == "" && !ChoseDirectory(dialog) ==> outcome == NoDirectory && fs.files == old(fs.files))
        && (report == "" && ChoseDirectory(dialog) ==>
              var b := Run(fs.io, old(fs.files), ItemPaths(items), SelectedEncoding(), dialog.selectedPath);
              outcome == Finished(ChangedCount(b.outcomes), |items|) && fs.files == b.files)
      ensures outcome.Finished? ==>
        AllStrings(items) && Distinct(FileNames(ItemPaths(items))) && |dialog.selectedPath| > 0
    {
      if |items| == 0 {
        return NoFiles;
      }
      var files := ToFileList();
      if files.None? {
        return NotAFileList;
      }
      outcome := SaveAsFiles(fs, files.value, dialog);
    }

    /**
     * The part of "save as" after the list snapshot: the duplicate-name check,
     * the folder dialog, and the batch into the chosen directory.
     */
    method SaveAsFiles(fs: FileSystem, files: seq<string>, dialog: FolderDialogResult) returns (outcome: SaveOutcome)
      requires Valid()
      modifies fs
      ensures var report := DuplicateReport(files);
        && (report != "" ==> outcome == DuplicateNames(report) && fs.files == old(fs.files))
        && (report == "" && !ChoseDirectory(dialog) ==> outcome == NoDirectory && fs.files == old(fs.files))
        && (report == "" && ChoseDirectory(dialog) ==>
              var b := Run(fs.io, old(fs.files), files, SelectedEncoding(), dialog.selectedPath);
              outcome == Finished(ChangedCount(b.outcomes), |files|) && fs.files == b.files)
      ensures outcome.Finished? ==> Distinct(FileNames(files)) && |dialog.selectedPath| > 0
      ensures outcome.Finished? && WellFormedFiles(old(fs.files)) ==>
        var b := Run(fs.io, old(fs.files), files, SelectedEncoding(), dialog.selectedPath);
        forall i :: 0 <= i < |files| ==>
          SavedUnderOwnName(fs.io, old(fs.files), files[i], SelectedEncoding(), dialog.selectedPath, b.outcomes[i], b.files)
    {
      var duplicateFiles := DuplicateReport(files);
      if duplicateFiles != "" {
        return DuplicateNames(duplicateFiles);
      }
      assert Distinct(FileNames(files)) by {
        ReportEmptyIffNamesDistinct(files);
      }
      if dialog.ok && !IsNullOrWhiteSpace(dialog.selectedPath) {
        assert ChoseDirectory(dialog);
        ghost var b := Run(fs.io, fs.files, files, SelectedEncoding(), dialog.selectedPath);
        assert WellFormedFiles(fs.files) ==> forall i :: 0 <= i < |files| ==>
          SavedUnderOwnName(fs.io, fs.files, files[i], SelectedEncoding(), dialog.selectedPath, b.outcomes[i], b.files)
        by {
          if WellFormedFiles(fs.files) {
            SaveAsAfterDuplicateCheck(fs.io, fs.files, files, SelectedEncoding(), dialog.selectedPath);
          }
        }
        var changedCount, fileCount := SaveFileWithEncoding(fs, files, dialog.selectedPath);
        return Finished(changedCount, fileCount);
      }
      return NoDirectory;
    }
  }
}
