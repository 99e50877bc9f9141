# EncodingChanger — a Dafny model of the conversion core

EncodingChanger is a small WPF tool. The user drops files (or directories, which
are expanded to the files under them) onto a list, picks one of eight target
encodings, and presses one of two buttons: **overwrite**, which re-encodes every
listed file in place, or **save as**, which writes the re-encoded files into a
chosen directory under their own names. Before a "save as", the window refuses
to start if two listed files share a file name, and lists the clashing names.

This project models the logic of `EncodingChanger/MainWindow.xaml.cs`:

- `encodings.dfy` — the fixed table of eight combo-box entries and the default
  selection, each entry written as the framework encoding object it builds.
- `paths.dfy` — `Path.GetFileName` (the part after the last `\` or `/`) and
  `Path.Combine` (directory, one separator, name).
- `duplicates.dfy` — the duplicate-name check as the LINQ pipeline it is:
  `Select(GetFileName)`, `GroupBy` (groups in first-occurrence order),
  `OrderByDescending(Count)` (a stable sort), `FindAll(Count > 1)`, and the
  `ForEach` that appends each name and a line break.
- `file_io.dfy` — an abstract file system: a class whose `files` field maps a
  path to the stored text and its encoding. `Io` holds what the model does not
  compute: which reads throw, which writes throw, and the text the framework's
  default decoding makes of a stored file.
- `conversion.dfy` — the batch loop as a specification function: `ConvertOne`
  is one turn of the loop, `Run` the whole loop over the list in order, and
  `ChangedCount` the final `changedCount`. The lemmas state the loop's
  accounting, skip and failure rules, and what a batch writes.
- `main_window.dfy` — the window as a class with the list box items and the
  combo-box selection as fields. It has the drop and clear handlers,
  `ToFileList`, the conversion method `SaveFileWithEncoding` proved against
  `Run`, and the two save handlers. A handler's message box is modelled as the
  `SaveOutcome` it returns.

Three facts about the code shape the model:

- a file is read with the framework's default decoding: `File.ReadAllTextAsync`
  is called without an encoding argument (line 112);
- nothing is logged: a missing file, or a file whose read or write throws, is
  passed over silently and only the final count is shown;
- the drop handler (lines 75-88) appends without removing repeats, so the same
  path can be listed twice and is then converted twice
  (`Conversion.SamePathTwice`).

What the source leaves to the caller, or gets from outside, is a parameter:

- the drop handler receives the dropped entries with each directory's files
  already enumerated;
- the "save as" handler receives the folder dialog's answer;
- every file-system call works on a `FileSystem` object whose faults and
  decoding are given by its `Io`.

## Model

| member | source | states |
|---|---|---|
| Encodings.TableIsABijection | EncodingChanger/MainWindow.xaml.cs:57-65 | the constant `EncodingTable` built at lines 57-64: the table has eight entries; the default index 0 is valid and selects "UTF-8 With Bom" = UTF-8 with identifier; no two entries share a name or an encoding |
| Encodings.SignatureEntries | EncodingChanger/MainWindow.xaml.cs:57-64 | documents the constructor arguments only: exactly the entries UTF-8 With Bom, UTF-16LE/BE and UTF-32LE/BE are built to write a byte-order mark; UTF-8, CP949 and EUC-KR are not |
| Paths.GetFileName | EncodingChanger/MainWindow.xaml.cs:115 | the file name is a suffix of the path that holds no separator and is preceded by a separator or the start of the path |
| Paths.NameStart | EncodingChanger/MainWindow.xaml.cs:115 | the position just past the last separator: everything after it is separator-free |
| Paths.Combine | EncodingChanger/MainWindow.xaml.cs:115 | `Path.Combine(dir, name)`: the name alone for an empty directory; for a non-empty directory and name, the directory, at most one separator, then the name, with a separator just before the name |
| Paths.FileNameIsUnique | EncodingChanger/MainWindow.xaml.cs:189 | those three properties determine the file name |
| Paths.FileNameOfCombine | EncodingChanger/MainWindow.xaml.cs:115 | the file name of `Combine(dir, name)` is `name` for a non-empty directory and a non-empty separator-free name (the destination keeps the source's name) |
| Paths.CombineIsInjective | EncodingChanger/MainWindow.xaml.cs:115 | in one directory, different file names give different destinations |
| Duplicates.FirstIndex | EncodingChanger/MainWindow.xaml.cs:191 | the position of the first occurrence of a name: it holds the name and no earlier position does |
| Duplicates.Tally | EncodingChanger/MainWindow.xaml.cs:191 | counting one more name keeps the group names, appending the name at the end when it is new (the first-occurrence order of `GroupBy`) |
| Duplicates.GroupBy | EncodingChanger/MainWindow.xaml.cs:191-192 | the group names are exactly the names listed (sizes and order in `GroupByFacts`) |
| Duplicates.TallyFacts | EncodingChanger/MainWindow.xaml.cs:191 | adding one name to distinct groups increments that name's group and no other, or appends a new group of size one at the end |
| Duplicates.TallyKeepsNames | EncodingChanger/MainWindow.xaml.cs:191 | after adding a name, the group names stay distinct and are exactly the names seen |
| Duplicates.TallyKeepsCounts | EncodingChanger/MainWindow.xaml.cs:191-192 | after adding a name, each group's size is still its name's number of occurrences |
| Duplicates.TallyKeepsOrder | EncodingChanger/MainWindow.xaml.cs:191 | after adding a name, the groups are still in first-occurrence order |
| Duplicates.GroupByFacts | EncodingChanger/MainWindow.xaml.cs:191-192 | `GroupBy` gives one group per distinct name, sized by its number of occurrences, in the order the names first occur |
| Duplicates.InsertByCount | EncodingChanger/MainWindow.xaml.cs:193 | inserting a group lengthens the list by exactly one (contents in `InsertByCountPermutes`, order in `InsertByCountSorted`, `InsertByCountStable`) |
| Duplicates.OrderByCountDescending | EncodingChanger/MainWindow.xaml.cs:193 | ordering keeps the number of groups (permutation, order and stability in `OrderByCountDescendingFacts`) |
| Duplicates.InsertByCountPermutes | EncodingChanger/MainWindow.xaml.cs:193 | inserting a group adds exactly that group |
| Duplicates.InsertByCountSorted | EncodingChanger/MainWindow.xaml.cs:193 | inserting into a list sorted by size, largest first, keeps it sorted |
| Duplicates.InsertByCountStable | EncodingChanger/MainWindow.xaml.cs:193 | an inserted group comes before the equal-sized groups already there |
| Duplicates.InsertByCountDistinct | EncodingChanger/MainWindow.xaml.cs:193 | inserting a group with a new name keeps the names distinct |
| Duplicates.OrderByCountDescendingPermutes | EncodingChanger/MainWindow.xaml.cs:193 | ordering is a permutation of the groups |
| Duplicates.OrderByCountDescendingSorted | EncodingChanger/MainWindow.xaml.cs:193 | ordering puts larger groups first |
| Duplicates.OrderByCountDescendingStable | EncodingChanger/MainWindow.xaml.cs:193 | for every size, the groups of that size keep their original order (a stable sort, as `OrderByDescending` is) |
| Duplicates.OrderByCountDescendingDistinct | EncodingChanger/MainWindow.xaml.cs:193 | ordering keeps the group names distinct |
| Duplicates.OrderByCountDescendingFacts | EncodingChanger/MainWindow.xaml.cs:193 | the four properties above together |
| Duplicates.Repeated | EncodingChanger/MainWindow.xaml.cs:195 | `FindAll(x => x.Count > 1)` keeps no more groups than it is given, each of size above one |
| Duplicates.RepeatedMembers | EncodingChanger/MainWindow.xaml.cs:195 | `FindAll` keeps exactly the groups of size above one |
| Duplicates.RepeatedStable | EncodingChanger/MainWindow.xaml.cs:195 | `FindAll` keeps the order of the groups of each size above one |
| Duplicates.RepeatedSorted | EncodingChanger/MainWindow.xaml.cs:195 | `FindAll` keeps a list sorted by size |
| Duplicates.RepeatedDistinct | EncodingChanger/MainWindow.xaml.cs:195 | `FindAll` keeps the names distinct |
| Duplicates.RepeatedFacts | EncodingChanger/MainWindow.xaml.cs:195 | the four properties above together |
| Duplicates.DuplicateGroupIsAGroup | EncodingChanger/MainWindow.xaml.cs:191-195 | every group that reaches the report is a `GroupBy` group of size above one |
| Duplicates.ReportedNameIsRepeated | EncodingChanger/MainWindow.xaml.cs:189-195 | every reported name occurs more than once among the file names |
| Duplicates.RepeatedNameIsReported | EncodingChanger/MainWindow.xaml.cs:189-195 | every file name that occurs more than once is reported |
| Duplicates.DuplicateNameIsRepeated | EncodingChanger/MainWindow.xaml.cs:189-195 | a name reaches the report exactly when it occurs more than once |
| Duplicates.DuplicateGroupsAreTheRepeatedNames | EncodingChanger/MainWindow.xaml.cs:189-197 | the reported names are exactly the repeated ones, each once, each with its number of occurrences, larger groups first, equal sizes in first-occurrence order |
| Duplicates.DistinctIffNoRepeats | EncodingChanger/MainWindow.xaml.cs:191-195 | a list has no repeated element exactly when every element occurs at most once |
| Duplicates.FileNames | EncodingChanger/MainWindow.xaml.cs:189 | `Select(Path.GetFileName)`: one file name per listed path, in order |
| Duplicates.JoinLines | EncodingChanger/MainWindow.xaml.cs:197 | the `ForEach` text: when a name was appended, the text ends with a line break |
| Duplicates.DuplicateReport | EncodingChanger/MainWindow.xaml.cs:189-197 | a non-empty report ends with a line break (its names are characterised by `DuplicateGroupsAreTheRepeatedNames`, its emptiness by `ReportEmptyIffNamesDistinct`) |
| Duplicates.JoinLinesEmpty | EncodingChanger/MainWindow.xaml.cs:197-199 | the joined text is empty exactly when no name was appended |
| Duplicates.ReportEmptyIffNamesDistinct | EncodingChanger/MainWindow.xaml.cs:189-199 | the report is empty exactly when the listed paths have pairwise different file names |
| Duplicates.LineEnd | EncodingChanger/MainWindow.xaml.cs:197 | the first line break of a text, or its end |
| Duplicates.SplitJoinLines | EncodingChanger/MainWindow.xaml.cs:197 | joining lines free of line breaks, each followed by `\n`, and splitting the text again gives the lines back |
| Duplicates.ReportListsDuplicateNames | EncodingChanger/MainWindow.xaml.cs:189-197 | when no file name holds a line break, the report splits back into the list of duplicated names, one per line |
| FileIO.FileSystem.constructor | EncodingChanger/MainWindow.xaml.cs:107-117 | a file system with the given files and behaviour |
| FileIO.FileSystem.Exists | EncodingChanger/MainWindow.xaml.cs:107 | a path exists exactly when a file is stored under it |
| FileIO.FileSystem.ReadAllText | EncodingChanger/MainWindow.xaml.cs:112 | the read throws exactly when the file is missing or its read faults; otherwise it returns the decoded text |
| FileIO.FileSystem.WriteAllText | EncodingChanger/MainWindow.xaml.cs:115-117 | the write throws exactly on a faulting destination and then changes nothing; otherwise it stores the text with the encoding at that path and changes no other path |
| Conversion.Destination | EncodingChanger/MainWindow.xaml.cs:114-117 | with an empty target directory the destination is the file's own path; otherwise it lies in the directory and keeps the file's name |
| Conversion.ConvertOne | EncodingChanger/MainWindow.xaml.cs:107-126 | one turn of the loop: missing exactly when the path is not stored; written exactly when the file exists and neither its read nor the write to its destination throws, and then its decoded text is stored at its destination in the new encoding; otherwise nothing changes |
| Conversion.Run | EncodingChanger/MainWindow.xaml.cs:105-129 | every listed file gets exactly one outcome |
| Conversion.ChangedCount | EncodingChanger/MainWindow.xaml.cs:98-119 | the count never exceeds the number of outcomes |
| Conversion.ChangedCountCountsWrites | EncodingChanger/MainWindow.xaml.cs:97-119 | `changedCount` is the number of listed files that were written, and at most `fileCount` |
| Conversion.ChangedCountAppend | EncodingChanger/MainWindow.xaml.cs:119 | the count of two runs of outcomes is the sum of their counts |
| Conversion.RunPrefix | EncodingChanger/MainWindow.xaml.cs:105 | the outcomes of a shorter list are the first outcomes of a longer one |
| Conversion.OutcomeAt | EncodingChanger/MainWindow.xaml.cs:105-129 | files are taken in list order: the file at position i is converted on the file system the earlier files left |
| Conversion.FileOutcomeMeaning | EncodingChanger/MainWindow.xaml.cs:105-126 | a file is skipped exactly when it does not exist; it fails exactly when it exists but its read or write throws; otherwise the text read from it is written with the chosen encoding to its destination; a skipped or failed file changes nothing |
| Conversion.RunSplit | EncodingChanger/MainWindow.xaml.cs:105 | a batch is its first files followed by the rest, run on the file system the first files leave |
| Conversion.SkippedStep | EncodingChanger/MainWindow.xaml.cs:107-126 | a file that is not written leaves the file system as it found it and adds its one outcome |
| Conversion.ChangedCountSkip | EncodingChanger/MainWindow.xaml.cs:119 | an outcome that is not a write adds nothing to the count |
| Conversion.RunAppend | EncodingChanger/MainWindow.xaml.cs:105 | running a list in two parts is running the second on the file system the first leaves |
| Conversion.SkippedFileIsTransparent | EncodingChanger/MainWindow.xaml.cs:107-126 | a missing or failed file does not stop the batch: removing it from the list leaves the final file system, the count and every other outcome unchanged |
| Conversion.OnlyDestinationsWritten | EncodingChanger/MainWindow.xaml.cs:112-117 | a path that no file was written to exists afterwards exactly when it did before, with the same contents |
| Conversion.WrittenToItsDestination | EncodingChanger/MainWindow.xaml.cs:114-117 | a written file went to `Combine(targetDirectory, GetFileName(path))` when the directory is non-empty, and to its own path otherwise |
| Conversion.WrittenAt | EncodingChanger/MainWindow.xaml.cs:115-117 | a written file exists at its destination right after its turn |
| Conversion.LaterDestinationDiffers | EncodingChanger/MainWindow.xaml.cs:114-117 | when no two files share a destination, a later file never writes to an earlier file's destination |
| Conversion.LaterFilesAvoid | EncodingChanger/MainWindow.xaml.cs:105-117 | when no two files share a destination, no file after a given one writes to its destination |
| Conversion.ReadsOriginal | EncodingChanger/MainWindow.xaml.cs:112 | when no earlier destination is a file's path, the file is read as it was before the batch |
| Conversion.WriteSurvives | EncodingChanger/MainWindow.xaml.cs:115-117 | when no later file shares its destination, a written file keeps its contents to the end |
| Conversion.IndependentConversion | EncodingChanger/MainWindow.xaml.cs:105-126 | when no write can change what a later file reads, every file fares as if converted alone on the original file system, and each destination ends with its own source's decoded text in the new encoding |
| Conversion.InPlaceCreatesNoFile | EncodingChanger/MainWindow.xaml.cs:95-117 | with the default empty target directory, every file is written over itself and no file is created |
| Conversion.InPlaceConversion | EncodingChanger/MainWindow.xaml.cs:95-117 | in place, with each path listed once, a file is rewritten exactly when it exists and its read and write do not throw, and then holds its own decoded text in the new encoding |
| Conversion.SaveAsConversion | EncodingChanger/MainWindow.xaml.cs:114-115 | into a directory, when the file names are distinct and non-empty, no write interferes with another, and each file is written exactly when it exists and its read and write do not throw, under its own name, with its own text |
| Conversion.ConvertOneKeepsWellFormed | EncodingChanger/MainWindow.xaml.cs:107-117 | one turn of the loop writes only to a path whose file name is not empty, so it stores no file under a directory-like path |
| Conversion.RunKeepsWellFormed | EncodingChanger/MainWindow.xaml.cs:105-129 | a batch that starts with every stored path naming a file ends so |
| Conversion.SaveAsAfterDuplicateCheck | EncodingChanger/MainWindow.xaml.cs:189-210 | into a directory, when the file names are pairwise distinct (what an empty duplicate report guarantees) and every stored path names a file, each listed file is written exactly when it exists and its read and write do not throw, under its own name, with its own text; a listed path with an empty file name is skipped |
| Conversion.SaveAsSkipsEmptyName | EncodingChanger/MainWindow.xaml.cs:107-117 | a listed path with an empty file name names no stored file: it is skipped, and every other file fares as in the batch without it |
| Conversion.SamePathTwice | EncodingChanger/MainWindow.xaml.cs:105-119 | a path listed twice is converted twice, the second time from the default decoding of the file just written, and counted twice |
| MainWindow.ItemPaths | EncodingChanger/MainWindow.xaml.cs:141-146 | the paths of an all-string list, one per item, in order |
| MainWindow.AsItems | EncodingChanger/MainWindow.xaml.cs:81-86 | each added path becomes one string item, in order |
| MainWindow.ExpandInOrder | EncodingChanger/MainWindow.xaml.cs:75-88 | the paths a drop adds are, in order, those of each dropped entry: a file itself, a directory the files under it |
| MainWindow.ExpandConcat | EncodingChanger/MainWindow.xaml.cs:75-88 | the paths of two drops in a row are those of the first followed by those of the second |
| MainWindow.IsWhiteSpace | EncodingChanger/MainWindow.xaml.cs:208 | `char.IsWhiteSpace`: the ASCII blanks are white space, and no directory separator is |
| MainWindow.IsNullOrWhiteSpace | EncodingChanger/MainWindow.xaml.cs:208 | `string.IsNullOrWhiteSpace`: the empty string is blank, and a blank string holds no separator |
| MainWindow.ChoseDirectory | EncodingChanger/MainWindow.xaml.cs:207-208 | an accepted dialog answer was confirmed and holds a non-empty path, so the batch runs with a target directory and never in place |
| MainWindow.MainWindow.constructor | EncodingChanger/MainWindow.xaml.cs:38-65 | the window starts with an empty list and the first table entry selected |
| MainWindow.MainWindow.SelectEncoding | EncodingChanger/MainWindow.xaml.cs:99 | a new selection stays within the table and leaves the list alone |
| MainWindow.MainWindow.OnDrop | EncodingChanger/MainWindow.xaml.cs:69-93 | a file drop appends each dropped file, and each dropped directory's files, in order; a drop without files adds nothing; a list of strings stays a list of strings |
| MainWindow.MainWindow.ClearOnClick | EncodingChanger/MainWindow.xaml.cs:217-221 | the list becomes empty |
| MainWindow.MainWindow.ToFileList | EncodingChanger/MainWindow.xaml.cs:137-150 | all or nothing: None exactly when some item is not a string, otherwise every item's path in order |
| MainWindow.MainWindow.SaveFileWithEncoding | EncodingChanger/MainWindow.xaml.cs:95-135 | the file system afterwards is `Run` of the one before with the selected encoding; `fileCount` is the list length, missing files included; `changedCount` is `ChangedCount` of the outcomes and at most `fileCount` |
| MainWindow.MainWindow.SaveOverwriteOnClick | EncodingChanger/MainWindow.xaml.cs:152-170 | an empty list or a non-string item stops before any file is touched; otherwise every listed file is converted in place |
| MainWindow.MainWindow.SaveAsOnClick | EncodingChanger/MainWindow.xaml.cs:172-215 | an empty list, a non-string item, a non-empty duplicate report or an unconfirmed or blank directory stops before any file is touched; otherwise every listed file is converted into the chosen directory; a finished batch had distinct file names and a non-empty directory |
| MainWindow.MainWindow.SaveAsFiles | EncodingChanger/MainWindow.xaml.cs:189-214 | after the snapshot: a non-empty duplicate report, or an unconfirmed or blank directory, stops before any file is touched; otherwise the batch runs into the chosen directory; a finished batch had distinct file names and a non-empty directory, and when every stored path names a file each listed file was saved under its own name with its own text |

## Left out

- User interface: the progress bar, the progress label and the drop hint's visibility, the message texts (lines 91, 101-103, 120-121, 128, 132-134, 156, 165, 176, 185, 201, 214, 220), and the way the folder dialog is shown (lines 205-207). The progress shown after each write is `changedCount / fileCount`. The model keeps the integer pair; the loop keeps `changedCount <= i <= fileCount`. The stray `$` in the label text at line 121 is not modelled.
- Codecs: the model does not produce bytes, byte-order marks or decoding. An encoding is a tag. Reading returns whatever `Io.decode` gives for the stored file. Registering the code-page provider (line 55) is part of this.
- `async`/`await`: the awaits at lines 112-117 run one after another, so the loop is modelled as ordinary sequential code. While a batch awaits, the window keeps handling events: a second save click, a clear or a drop can run in the middle of a batch, and a second batch would interleave its file-system calls with the first. The model runs each handler to completion and does not capture such interleavings.
- Drag and drop: `File.GetAttributes` and `Directory.EnumerateFiles` (lines 77-79) are not modelled. The drop handler receives each entry as a file or as a directory with its files already listed. An exception from them, which line 77 does not catch, is not modelled either.
- Path identity: paths are compared as exact strings. Windows file systems ignore case, so two files whose names differ only in case pass the duplicate check but land on the same destination. The model does not capture that collision.
- `Paths.GetFileName`, `Paths.Combine`: drive-relative roots (`C:name`) and rooted second arguments of `Path.Combine` are not modelled. Neither arises from a separator-free Windows file name, which cannot contain `:`.
- `FileIO.FileSystem.WriteAllText`: a write that throws is modelled as changing nothing. A real write that fails partway may leave a truncated or partly written file.
- `FileIO.Io`: whether a read or write throws is fixed per path for the whole batch. The outside world cannot change between two files.
- `MainWindow.IsWhiteSpace`: implements `char.IsWhiteSpace` as a fixed list of code points (Unicode space, line and paragraph separators, U+0009-U+000D, U+0085). It is not derived from Unicode data.
- `FileIO.Files`: the map may hold a path that ends in a separator, which no real file has. The save-as lemmas that need it assume `WellFormedFiles` (every stored path has a non-empty file name), and `Conversion.RunKeepsWellFormed` shows a batch keeps it.
