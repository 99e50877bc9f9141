/**
 * What one batch conversion (`SaveFileWithEncodingAsync`) does to the file
 * system, as a function of the file system before it: the files are taken in
 * list order; a missing one is skipped; an existing one is read and written
 * to its destination with the chosen encoding; a read or write that throws is
 * absorbed and the next file is taken; the files written are counted.
 */
module Conversion {
  import opened Paths
  import opened Encodings
  import opened FileIO
  import opened Duplicates

  /** Where a file is written: into the target directory under its own name, or over itself. */
  function Destination(filePath: string, targetDirectory: string): (destination: string)
    ensures |targetDirectory| == 0 ==> destination == filePath
    ensures |targetDirectory| > 0 && GetFileName(filePath) != "" ==>
      && |targetDirectory| < |destination| && destination[..|targetDirectory|] == targetDirectory
      && GetFileName(destination) == GetFileName(filePath)
  {
    if |targetDirectory| > 0 then
      var name := GetFileName(filePath);
      if name != "" then FileNameOfCombine(targetDirectory, name); Combine(targetDirectory, name)
      else Combine(targetDirectory, name)
    else filePath
  }

  /** What happened to one listed file. */
  datatype FileOutcome = Missing | Failed | Converted(destination: string)

  datatype StepResult = StepResult(files: Files, outcome: FileOutcome)

  /** One turn of the loop, on the file system as it stands when the file's turn comes. */
  function ConvertOne(io: Io, files: Files, filePath: string, encoding: Encoding, targetDirectory: string): (r: StepResult)
    ensures r.outcome == Missing <==> filePath !in files
    ensures r.outcome.Converted? <==>
      filePath in files && filePath !in io.readFails && Destination(filePath, targetDirectory) !in io.writeFails
    ensures !r.outcome.Converted? ==> r.files == files
    ensures r.outcome.Converted? ==>
      && r.outcome.destination == Destination(filePath, targetDirectory)
      && r.files == files[r.outcome.destination := StoredFile(io.decode(files[filePath]), encoding)]
  {
    if filePath !in files then StepResult(files, Missing)
    else if filePath in io.readFails then StepResult(files, Failed)
    else
      var readText := io.decode(files[filePath]);
      var destination := Destination(filePath, targetDirectory);
      if destination in io.writeFails then StepResult(files, Failed)
      else StepResult(files[destination := StoredFile(readText, encoding)], Converted(destination))
  }

  /** The file system after a batch, and the outcome of each listed file in list order. */
  datatype Batch = Batch(files: Files, outcomes: seq<FileOutcome>)

  function Run(io: Io, files: Files, paths: seq<string>, encoding: Encoding, targetDirectory: string): (b: Batch)
    ensures |b.outcomes| == |paths|
  {
    if paths == [] then Batch(files, [])
    else
      var before := Run(io, files, paths[..|paths| - 1], encoding, targetDirectory);
      var step := ConvertOne(io, before.files, paths[|paths| - 1], encoding, targetDirectory);
      Batch(step.files, before.outcomes + [step.outcome])
  }

  /** The number of files written: the final value of `changedCount`. */
  function ChangedCount(outcomes: seq<FileOutcome>): (n: nat)
    ensures n <= |outcomes|
  {
    if outcomes == [] then 0
    else ChangedCount(outcomes[..|outcomes| - 1]) + if outcomes[|outcomes| - 1].Converted? then 1 else 0
  }

  /** The positions whose file was written. */
  function ConvertedPositions(outcomes: seq<FileOutcome>): set<nat> {
    set i: nat | i < |outcomes| && outcomes[i].Converted?
  }

  /** `changedCount` is the number of listed files that were written, and at most the list's length. */
  lemma {:induction false} ChangedCountCountsWrites(outcomes: seq<FileOutcome>)
    ensures ChangedCount(outcomes) == |ConvertedPositions(outcomes)| <= |outcomes|
  {
    if outcomes != [] {
      var n := |outcomes| - 1;
      var prefix := outcomes[..n];
      ChangedCountCountsWrites(prefix);
      if outcomes[n].Converted? {
        assert ConvertedPositions(outcomes) == ConvertedPositions(prefix) + {n};
      } else {
        assert ConvertedPositions(outcomes) == ConvertedPositions(prefix);
      }
    }
  }

  lemma {:induction false} ChangedCountAppend(xs: seq<FileOutcome>, ys: seq<FileOutcome>)
    ensures ChangedCount(xs + ys) == ChangedCount(xs) + ChangedCount(ys)
  {
    if ys != [] {
      var n := |ys| - 1;
      assert (xs + ys)[..|xs + ys| - 1] == xs + ys[..n];
      ChangedCountAppend(xs, ys[..n]);
    } else {
      assert xs + ys == xs;
    }
  }

  /** The file system before the file at position `i` is taken. */
  function Before(io: Io, files: Files, paths: seq<string>, encoding: Encoding, targetDirectory: string, i: nat): Files
    requires i <= |paths|
  {
    Run(io, files, paths[..i], encoding, targetDirectory).files
  }

  /** Running a longer list extends the outcomes of the shorter one. */
  lemma {:induction false} RunPrefix(io: Io, files: Files, paths: seq<string>, encoding: Encoding, targetDirectory: string, i: nat)
    requires i <= |paths|
    ensures Run(io, files, paths[..i], encoding, targetDirectory).outcomes
         == Run(io, files, paths, encoding, targetDirectory).outcomes[..i]
  {
    if i < |paths| {
      var n := |paths| - 1;
      assert paths[..n][..i] == paths[..i];
      RunPrefix(io, files, paths[..n], encoding, targetDirectory, i);
    } else {
      assert paths[..i] == paths;
    }
  }

  /**
   * The files are taken strictly in list order: the outcome of the file at
   * position `i` is that of one turn on the file system left by the files
   * before it, and the file system after it is the one that turn leaves.
   */
  lemma OutcomeAt(io: Io, files: Files, paths: seq<string>, encoding: Encoding, targetDirectory: string, i: nat)
    requires i < |paths|
    ensures var step := ConvertOne(io, Before(io, files, paths, encoding, targetDirectory, i), paths[i], encoding, targetDirectory);
      && Run(io, files, paths, encoding, targetDirectory).outcomes[i] == step.outcome
      && Before(io, files, paths, encoding, targetDirectory, i + 1) == step.files
  {
    assert paths[..i + 1][..i] == paths[..i];
    RunPrefix(io, files, paths, encoding, targetDirectory, i + 1);
  }

  /**
   * What happens to the file at position `i`: it is skipped exactly when it
   * does not exist; it fails exactly when it exists but its read or its write
   * throws; otherwise the text read from it is written, with the chosen
   * encoding, to its destination and nowhere else. A file that is skipped or
   * fails changes nothing.
   */
  lemma FileOutcomeMeaning(io: Io, files: Files, paths: seq<string>, encoding: Encoding, targetDirectory: string, i: nat)
    requires i < |paths|
    ensures var b := Before(io, files, paths, encoding, targetDirectory, i);
      var after := Before(io, files, paths, encoding, targetDirectory, i + 1);
      var outcome := Run(io, files, paths, encoding, targetDirectory).outcomes[i];
      var dest := Destination(paths[i], targetDirectory);
      && (outcome == Missing <==> paths[i] !in b)
      && (outcome == Failed <==> paths[i] in b && (paths[i] in io.readFails || dest in io.writeFails))
      && (outcome.Converted? ==>
            outcome.destination == dest && after == b[dest := StoredFile(io.decode(b[paths[i]]), encoding)])
      && (!outcome.Converted? ==> after == b)
  {
    OutcomeAt(io, files, paths, encoding, targetDirectory, i);
  }

  /** Running a list in two parts is running the second part on the file system the first leaves. */
  lemma {:induction false} RunAppend(io: Io, files: Files, xs: seq<string>, ys: seq<string>, encoding: Encoding, targetDirectory: string)
    ensures var first := Run(io, files, xs, encoding, targetDirectory);
      var second := Run(io, first.files, ys, encoding, targetDirectory);
      Run(io, files, xs + ys, encoding, targetDirectory) == Batch(second.files, first.outcomes + second.outcomes)
  {
    if ys == [] {
      assert xs + ys == xs;
    } else {
      var n := |ys| - 1;
      assert (xs + ys)[..|xs + ys| - 1] == xs + ys[..n];
      assert (xs + ys)[|xs + ys| - 1] == ys[n];
      RunAppend(io, files, xs, ys[..n], encoding, targetDirectory);
      var first := Run(io, files, xs, encoding, targetDirectory);
      assert Run(io, first.files, ys[..n], encoding, targetDirectory).outcomes + [Run(io, first.files, ys, encoding, targetDirectory).outcomes[n]]
          == Run(io, first.files, ys, encoding, targetDirectory).outcomes;
    }
  }

  /** A file that is not written leaves the file system as the files before it left it. */
  lemma SkippedStep(io: Io, files: Files, paths: seq<string>, encoding: Encoding, targetDirectory: string, i: nat)
    requires i < |paths|
    requires !Run(io, files, paths, encoding, targetDirectory).outcomes[i].Converted?
    ensures var start := Run(io, files, paths[..i], encoding, targetDirectory);
      var upTo := Run(io, files, paths[..i + 1], encoding, targetDirectory);
      upTo.files == start.files &&
      upTo.outcomes == start.outcomes + [Run(io, files, paths, encoding, targetDirectory).outcomes[i]]
  {
    FileOutcomeMeaning(io, files, paths, encoding, targetDirectory, i);
    RunPrefix(io, files, paths, encoding, targetDirectory, i + 1);
    assert paths[..i + 1][..i] == paths[..i];
  }

  /** An outcome that is not a write adds nothing to the count. */
  lemma ChangedCountSkip(xs: seq<FileOutcome>, o: FileOutcome, ys: seq<FileOutcome>)
    requires !o.Converted?
    ensures ChangedCount(xs + [o] + ys) == ChangedCount(xs + ys)
  {
    ChangedCountAppend(xs + [o], ys);
    ChangedCountAppend(xs, [o]);
    ChangedCountAppend(xs, ys);
    assert [o][..0] == [];
  }

  /**
   * A file that is missing or whose read or write throws does not stop the
   * batch: taking it out of the list leaves the final file system, the count
   * and the outcomes of every other file as they are.
   */
  lemma SkippedFileIsTransparent(io: Io, files: Files, paths: seq<string>, encoding: Encoding, targetDirectory: string, i: nat)
    requires i < |paths|
    requires !Run(io, files, paths, encoding, targetDirectory).outcomes[i].Converted?
    ensures var full := Run(io, files, paths, encoding, targetDirectory);
      var without := Run(io, files, paths[..i] + paths[i + 1..], encoding, targetDirectory);
      && without.files == full.files
      && without.outcomes == full.outcomes[..i] + full.outcomes[i + 1..]
      && ChangedCount(without.outcomes) == ChangedCount(full.outcomes)
  {
    var xs, ys := paths[..i], paths[i + 1..];
    var full := Run(io, files, paths, encoding, targetDirectory);
    var start := Run(io, files, xs, encoding, targetDirectory);
    var rest := Run(io, start.files, ys, encoding, targetDirectory).outcomes;
    SkippedStep(io, files, paths, encoding, targetDirectory, i);
    RunSplit(io, files, paths, encoding, targetDirectory, i + 1);
    RunAppend(io, files, xs, ys, encoding, targetDirectory);
    assert full.outcomes == start.outcomes + [full.outcomes[i]] + rest;
    assert full.outcomes[..i] == start.outcomes;
    assert full.outcomes[i + 1..] == rest;
    ChangedCountSkip(start.outcomes, full.outcomes[i], rest);
  }

  /**
   * No path other than a destination of a written file is touched: a path
   * that no file was written to exists afterwards exactly when it existed
   * before, with the same contents.
   */
  lemma {:induction false} OnlyDestinationsWritten(io: Io, files: Files, paths: seq<string>, encoding: Encoding, targetDirectory: string, q: string)
    requires Converted(q) !in Run(io, files, paths, encoding, targetDirectory).outcomes
    ensures var after := Run(io, files, paths, encoding, targetDirectory).files;
      && (q in after <==> q in files)
      && (q in files ==> after[q] == files[q])
  {
    if paths != [] {
      var n := |paths| - 1;
      var before := Run(io, files, paths[..n], encoding, targetDirectory);
      assert Run(io, files, paths, encoding, targetDirectory).outcomes[..n] == before.outcomes;
      OnlyDestinationsWritten(io, files, paths[..n], encoding, targetDirectory, q);
    }
  }

  /** Every written file went to the destination of the listed file it was read from. */
  lemma WrittenToItsDestination(io: Io, files: Files, paths: seq<string>, encoding: Encoding, targetDirectory: string, i: nat)
    requires i < |paths| && Run(io, files, paths, encoding, targetDirectory).outcomes[i].Converted?
    ensures Run(io, files, paths, encoding, targetDirectory).outcomes[i].destination == Destination(paths[i], targetDirectory)
  {
    FileOutcomeMeaning(io, files, paths, encoding, targetDirectory, i);
  }

  // ---------------------------------------------------------------------------
  // Batches in which no write can change what a later file reads

  /**
   * No file's destination is the path of a later file, and no two files share
   * a destination.
   */
  ghost predicate NoInterference(paths: seq<string>, targetDirectory: string) {
    forall i, j :: 0 <= i < j < |paths| ==>
      Destination(paths[i], targetDirectory) != paths[j] &&
      Destination(paths[i], targetDirectory) != Destination(paths[j], targetDirectory)
  }

  /** When no earlier destination is its path, a file is read as it was before the batch. */
  lemma ReadsOriginal(io: Io, files: Files, paths: seq<string>, encoding: Encoding, targetDirectory: string, i: nat)
    requires NoInterference(paths, targetDirectory) && i < |paths|
    ensures var b := Before(io, files, paths, encoding, targetDirectory, i);
      (paths[i] in b <==> paths[i] in files) && (paths[i] in files ==> b[paths[i]] == files[paths[i]])
  {
    var prefix := paths[..i];
    var before := Run(io, files, prefix, encoding, targetDirectory);
    forall k | 0 <= k < i ensures before.outcomes[k] != Converted(paths[i]) {
      if before.outcomes[k].Converted? {
        WrittenToItsDestination(io, files, prefix, encoding, targetDirectory, k);
      }
    }
    OnlyDestinationsWritten(io, files, prefix, encoding, targetDirectory, paths[i]);
  }

  /** A list split at `m` runs as its first `m` files followed by the rest. */
  lemma RunSplit(io: Io, files: Files, paths: seq<string>, encoding: Encoding, targetDirectory: string, m: nat)
    requires m <= |paths|
    ensures var head := Run(io, files, paths[..m], encoding, targetDirectory);
      var tail := Run(io, head.files, paths[m..], encoding, targetDirectory);
      Run(io, files, paths, encoding, targetDirectory) == Batch(tail.files, head.outcomes + tail.outcomes)
  {
    assert paths == paths[..m] + paths[m..];
    RunAppend(io, files, paths[..m], paths[m..], encoding, targetDirectory);
  }

  /** When no later file shares its destination, no file after position `i` writes there. */
  lemma LaterFilesAvoid(io: Io, files: Files, paths: seq<string>, encoding: Encoding, targetDirectory: string, i: nat)
    requires NoInterference(paths, targetDirectory) && i < |paths|
    ensures var head := Run(io, files, paths[..i + 1], encoding, targetDirectory);
      Converted(Destination(paths[i], targetDirectory)) !in Run(io, head.files, paths[i + 1..], encoding, targetDirectory).outcomes
  {
    var dest := Destination(paths[i], targetDirectory);
    var full := Run(io, files, paths, encoding, targetDirectory);
    var head := Run(io, files, paths[..i + 1], encoding, targetDirectory);
    var tail := Run(io, head.files, paths[i + 1..], encoding, targetDirectory);
    RunSplit(io, files, paths, encoding, targetDirectory, i + 1);
    forall k | 0 <= k < |tail.outcomes| ensures tail.outcomes[k] != Converted(dest) {
      LaterDestinationDiffers(io, files, paths, encoding, targetDirectory, i, i + 1 + k);
      assert tail.outcomes[k] == full.outcomes[i + 1 + k];
    }
  }

  /** When no later file shares its destination, a written file keeps its contents to the end. */
  lemma WriteSurvives(io: Io, files: Files, paths: seq<string>, encoding: Encoding, targetDirectory: string, i: nat)
    requires NoInterference(paths, targetDirectory) && i < |paths|
    requires Run(io, files, paths, encoding, targetDirectory).outcomes[i].Converted?
    ensures var dest := Destination(paths[i], targetDirectory);
      var after := Before(io, files, paths, encoding, targetDirectory, i + 1);
      var final := Run(io, files, paths, encoding, targetDirectory).files;
      dest in after && dest in final && final[dest] == after[dest]
  {
    var head := Run(io, files, paths[..i + 1], encoding, targetDirectory);
    WrittenAt(io, files, paths, encoding, targetDirectory, i);
    RunSplit(io, files, paths, encoding, targetDirectory, i + 1);
    LaterFilesAvoid(io, files, paths, encoding, targetDirectory, i);
    OnlyDestinationsWritten(io, head.files, paths[i + 1..], encoding, targetDirectory, Destination(paths[i], targetDirectory));
  }

  /** A written file is at its destination right after its turn. */
  lemma WrittenAt(io: Io, files: Files, paths: seq<string>, encoding: Encoding, targetDirectory: string, i: nat)
    requires i < |paths| && Run(io, files, paths, encoding, targetDirectory).outcomes[i].Converted?
    ensures Destination(paths[i], targetDirectory) in Before(io, files, paths, encoding, targetDirectory, i + 1)
  {
    OutcomeAt(io, files, paths, encoding, targetDirectory, i);
  }

  lemma LaterDestinationDiffers(io: Io, files: Files, paths: seq<string>, encoding: Encoding, targetDirectory: string, i: nat, j: nat)
    requires NoInterference(paths, targetDirectory) && i < j < |paths|
    ensures Run(io, files, paths, encoding, targetDirectory).outcomes[j] != Converted(Destination(paths[i], targetDirectory))
  {
    if Run(io, files, paths, encoding, targetDirectory).outcomes[j].Converted? {
      WrittenToItsDestination(io, files, paths, encoding, targetDirectory, j);
    }
  }

  /**
   * When no write can change what a later file reads, every file fares as if
   * it were converted alone on the original file system, and each destination
   * ends up holding the text of its own source, re-encoded.
   */
  lemma IndependentConversion(io: Io, files: Files, paths: seq<string>, encoding: Encoding, targetDirectory: string)
    requires NoInterference(paths, targetDirectory)
    ensures forall i :: 0 <= i < |paths| ==>
      Run(io, files, paths, encoding, targetDirectory).outcomes[i] == ConvertOne(io, files, paths[i], encoding, targetDirectory).outcome
    ensures forall i :: 0 <= i < |paths| && Run(io, files, paths, encoding, targetDirectory).outcomes[i].Converted? ==>
      var dest := Destination(paths[i], targetDirectory);
      paths[i] in files && dest in Run(io, files, paths, encoding, targetDirectory).files &&
      Run(io, files, paths, encoding, targetDirectory).files[dest] == StoredFile(io.decode(files[paths[i]]), encoding)
  {
    var full := Run(io, files, paths, encoding, targetDirectory);
    forall i | 0 <= i < |paths|
      ensures full.outcomes[i] == ConvertOne(io, files, paths[i], encoding, targetDirectory).outcome
      ensures full.outcomes[i].Converted? ==>
        var dest := Destination(paths[i], targetDirectory);
        paths[i] in files && dest in full.files && full.files[dest] == StoredFile(io.decode(files[paths[i]]), encoding)
    {
      ReadsOriginal(io, files, paths, encoding, targetDirectory, i);
      OutcomeAt(io, files, paths, encoding, targetDirectory, i);
      if full.outcomes[i].Converted? {
        WriteSurvives(io, files, paths, encoding, targetDirectory, i);
      }
    }
  }

  /**
   * Overwriting in place (no target directory) only replaces existing files:
   * every written file is written over itself and no file is created.
   */
  lemma {:induction false} InPlaceCreatesNoFile(io: Io, files: Files, paths: seq<string>, encoding: Encoding)
    ensures Run(io, files, paths, encoding, "").files.Keys == files.Keys
    ensures forall i :: 0 <= i < |paths| && Run(io, files, paths, encoding, "").outcomes[i].Converted? ==>
      Run(io, files, paths, encoding, "").outcomes[i].destination == paths[i]
  {
    if paths != [] {
      var n := |paths| - 1;
      InPlaceCreatesNoFile(io, files, paths[..n], encoding);
      forall i | 0 <= i < |paths| && Run(io, files, paths, encoding, "").outcomes[i].Converted?
        ensures Run(io, files, paths, encoding, "").outcomes[i].destination == paths[i]
      {
        WrittenToItsDestination(io, files, paths, encoding, "", i);
      }
    }
  }

  /**
   * In place, with every path listed once, each existing readable and
   * writable file is rewritten with its own decoded text in the new encoding.
   */
  lemma InPlaceConversion(io: Io, files: Files, paths: seq<string>, encoding: Encoding)
    requires Distinct(paths)
    ensures Run(io, files, paths, encoding, "").files.Keys == files.Keys
    ensures forall i :: 0 <= i < |paths| ==>
      (Run(io, files, paths, encoding, "").outcomes[i].Converted? <==>
         paths[i] in files && paths[i] !in io.readFails && paths[i] !in io.writeFails)
    ensures forall i :: 0 <= i < |paths| && Run(io, files, paths, encoding, "").outcomes[i].Converted? ==>
      Run(io, files, paths, encoding, "").files[paths[i]] == StoredFile(io.decode(files[paths[i]]), encoding)
  {
    InPlaceCreatesNoFile(io, files, paths, encoding);
    IndependentConversion(io, files, paths, encoding, "");
  }

  /**
   * How a listed file `p` fares when saved into `targetDirectory` as if alone:
   * it is written (outcome `o`) exactly when it exists and its read and its
   * write do not throw, and then the final file system `final` holds, under
   * `p`'s own file name, the text read from `p` in the new encoding.
   */
  ghost predicate SavedUnderOwnName(io: Io, files: Files, p: string, encoding: Encoding, targetDirectory: string,
                                    o: FileOutcome, final: Files) {
    var dest := Combine(targetDirectory, GetFileName(p));
    && (o.Converted? <==> p in files && p !in io.readFails && dest !in io.writeFails)
    && (o.Converted? ==>
          GetFileName(dest) == GetFileName(p) && dest in final &&
          final[dest] == StoredFile(io.decode(files[p]), encoding))
  }

  /**
   * Into a target directory, when the listed files have pairwise different,
   * non-empty names, every file fares as if converted alone and lands under
   * its own name with its own text.
   */
  lemma SaveAsConversion(io: Io, files: Files, paths: seq<string>, encoding: Encoding, targetDirectory: string)
    requires |targetDirectory| > 0
    requires Distinct(FileNames(paths))
    requires forall i :: 0 <= i < |paths| ==> GetFileName(paths[i]) != ""
    ensures NoInterference(paths, targetDirectory)
    ensures var b := Run(io, files, paths, encoding, targetDirectory);
      forall i :: 0 <= i < |paths| ==> SavedUnderOwnName(io, files, paths[i], encoding, targetDirectory, b.outcomes[i], b.files)
  {
    forall i, j | 0 <= i < j < |paths|
      ensures Destination(paths[i], targetDirectory) != paths[j]
      ensures Destination(paths[i], targetDirectory) != Destination(paths[j], targetDirectory)
    {
      var ni, nj := GetFileName(paths[i]), GetFileName(paths[j]);
      assert FileNames(paths)[i] == ni && FileNames(paths)[j] == nj;
      FileNameOfCombine(targetDirectory, ni);
      if Combine(targetDirectory, ni) == Combine(targetDirectory, nj) {
        CombineIsInjective(targetDirectory, ni, nj);
      }
    }
    IndependentConversion(io, files, paths, encoding, targetDirectory);
    forall i | 0 <= i < |paths| ensures GetFileName(Combine(targetDirectory, GetFileName(paths[i]))) == GetFileName(paths[i]) {
      FileNameOfCombine(targetDirectory, GetFileName(paths[i]));
    }
  }

  /** A turn of the loop writes only to a path with a non-empty file name. */
  lemma ConvertOneKeepsWellFormed(io: Io, files: Files, filePath: string, encoding: Encoding, targetDirectory: string)
    requires WellFormedFiles(files)
    ensures WellFormedFiles(ConvertOne(io, files, filePath, encoding, targetDirectory).files)
  {
    var r := ConvertOne(io, files, filePath, encoding, targetDirectory);
    if r.outcome.Converted? {
      assert GetFileName(filePath) != "";
      assert GetFileName(r.outcome.destination) != "";
    }
  }

  /** A batch stores files only under paths with a non-empty file name, if it starts so. */
  lemma {:induction false} RunKeepsWellFormed(io: Io, files: Files, paths: seq<string>, encoding: Encoding, targetDirectory: string)
    requires WellFormedFiles(files)
    ensures WellFormedFiles(Run(io, files, paths, encoding, targetDirectory).files)
  {
    if paths != [] {
      var n := |paths| - 1;
      RunKeepsWellFormed(io, files, paths[..n], encoding, targetDirectory);
      ConvertOneKeepsWellFormed(io, Run(io, files, paths[..n], encoding, targetDirectory).files, paths[n], encoding, targetDirectory);
    }
  }

  /**
   * Into a target directory, when the listed files have pairwise different
   * file names (what an empty duplicate report guarantees) and every stored
   * path names a file, every listed file fares as if converted alone and
   * lands under its own name with its own text. A listed path with an empty
   * file name names no file and is skipped.
   */
  lemma SaveAsAfterDuplicateCheck(io: Io, files: Files, paths: seq<string>, encoding: Encoding, targetDirectory: string)
    requires |targetDirectory| > 0
    requires Distinct(FileNames(paths))
    requires WellFormedFiles(files)
    ensures var b := Run(io, files, paths, encoding, targetDirectory);
      forall i :: 0 <= i < |paths| ==> SavedUnderOwnName(io, files, paths[i], encoding, targetDirectory, b.outcomes[i], b.files)
  {
    if forall i :: 0 <= i < |paths| ==> GetFileName(paths[i]) != "" {
      SaveAsConversion(io, files, paths, encoding, targetDirectory);
    } else {
      var e :| 0 <= e < |paths| && GetFileName(paths[e]) == "";
      SaveAsSkipsEmptyName(io, files, paths, encoding, targetDirectory, e);
    }
  }

  /**
   * A listed path with an empty file name names no stored file, so it is
   * skipped, and the batch fares as the batch without it.
   */
  lemma SaveAsSkipsEmptyName(io: Io, files: Files, paths: seq<string>, encoding: Encoding, targetDirectory: string, e: nat)
    requires |targetDirectory| > 0
    requires Distinct(FileNames(paths))
    requires WellFormedFiles(files)
    requires e < |paths| && GetFileName(paths[e]) == ""
    ensures var b := Run(io, files, paths, encoding, targetDirectory);
      forall i :: 0 <= i < |paths| ==> SavedUnderOwnName(io, files, paths[i], encoding, targetDirectory, b.outcomes[i], b.files)
  {
    var full := Run(io, files, paths, encoding, targetDirectory);
    RunKeepsWellFormed(io, files, paths[..e], encoding, targetDirectory);
    OutcomeAt(io, files, paths, encoding, targetDirectory, e);
    assert full.outcomes[e] == Missing;
    SkippedFileIsTransparent(io, files, paths, encoding, targetDirectory, e);
    var rest := paths[..e] + paths[e + 1..];
    var without := Run(io, files, rest, encoding, targetDirectory);
    WithoutEmptyName(paths, e);
    SaveAsConversion(io, files, rest, encoding, targetDirectory);
    forall i | 0 <= i < |paths|
      ensures SavedUnderOwnName(io, files, paths[i], encoding, targetDirectory, full.outcomes[i], full.files)
    {
      if i != e {
        var k := if i < e then i else i - 1;
        RemovedAt(full.outcomes, e, i);
        RemovedAt(paths, e, i);
        assert SavedUnderOwnName(io, files, rest[k], encoding, targetDirectory, without.outcomes[k], without.files);
      } else {
        assert paths[e] !in files;
      }
    }
  }

  /** After the element at `e` is taken out, the element at `i` moves down by one if it was after `e`. */
  lemma RemovedAt<T>(s: seq<T>, e: nat, i: nat)
    requires e < |s| && i < |s| && i != e
    ensures (s[..e] + s[e + 1..])[if i < e then i else i - 1] == s[i]
  {
  }

  /** Taking out the one path with an empty file name leaves distinct, non-empty names. */
  lemma WithoutEmptyName(paths: seq<string>, e: nat)
    requires Distinct(FileNames(paths)) && e < |paths| && GetFileName(paths[e]) == ""
    ensures var rest := paths[..e] + paths[e + 1..];
      && Distinct(FileNames(rest))
      && forall k :: 0 <= k < |rest| ==> GetFileName(rest[k]) != ""
  {
    var rest := paths[..e] + paths[e + 1..];
    var names := FileNames(paths);
    forall k | 0 <= k < |rest| ensures rest[k] == paths[if k < e then k else k + 1] {}
    forall k | 0 <= k < |rest| ensures GetFileName(rest[k]) != "" {
      var k' := if k < e then k else k + 1;
      assert names[k'] != names[e] by {
        if k' < e { assert names[k'] != names[e]; } else { assert names[e] != names[k']; }
      }
    }
    forall k, l | 0 <= k < l < |rest| ensures FileNames(rest)[k] != FileNames(rest)[l] {
      var k', l' := if k < e then k else k + 1, if l < e then l else l + 1;
      assert k' < l';
      assert names[k'] != names[l'];
    }
  }

  /**
   * The loop does not remember what it has done: a path listed twice is read
   * again after its first conversion and converted a second time from
   * whatever the default decoding makes of the file just written.
   */
  lemma SamePathTwice(io: Io, files: Files, p: string, encoding: Encoding)
    requires p in files && p !in io.readFails && p !in io.writeFails
    ensures var b := Run(io, files, [p, p], encoding, "");
      && ChangedCount(b.outcomes) == 2
      && b.files == files[p := StoredFile(io.decode(StoredFile(io.decode(files[p]), encoding)), encoding)]
  {
    assert [p, p][..1] == [p];
    assert [p][..0] == [];
    assert Run(io, files, [], encoding, "") == Batch(files, []);
    var once := Run(io, files, [p], encoding, "");
    assert once.files == files[p := StoredFile(io.decode(files[p]), encoding)];
    assert once.outcomes == [Converted(p)];
    var b := Run(io, files, [p, p], encoding, "");
    assert b.outcomes == [Converted(p), Converted(p)];
    assert b.outcomes[..1] == [Converted(p)];
    assert ChangedCount([Converted(p)]) == 1 by {
      assert [Converted(p)][..0] == [];
    }
  }
}
