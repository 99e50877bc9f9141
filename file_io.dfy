/**
 * The file system as the conversion sees it: a map from path to file, and the
 * three framework calls the conversion makes (`File.Exists`,
 * `File.ReadAllTextAsync`, `File.WriteAllTextAsync`). What the framework does
 * that the core cannot see (whether a read or a write throws, and how it
 * decodes bytes to text) is a parameter, `Io`.
 */
module FileIO {
  import opened Wrappers
  import opened Encodings
  import opened Paths

  /** A file: its text and the encoding it was last written with. */
  datatype StoredFile = StoredFile(text: string, encoding: Encoding)

  /**
   * The behaviour of the framework that the model does not compute: the paths
   * whose read throws, the destinations whose write throws, and the text the
   * framework's default decoding produces from a stored file.
   */
  datatype Io = Io(readFails: set<string>, writeFails: set<string>, decode: StoredFile -> string)

  type Files = map<string, StoredFile>

  /**
   * Every stored path names a file: its file name is not empty. A path that
   * ends in a separator names a directory, and `File.Exists` is false for it.
   */
  ghost predicate WellFormedFiles(files: Files) {
    forall p :: p in files ==> GetFileName(p) != ""
  }

  class FileSystem {
    var files: Files
    const io: Io

    constructor (files: Files, io: Io)
      ensures this.files == files && this.io == io
    {
      this.files := files;
      this.io := io;
    }

    /** `File.Exists`: whether a file is stored at the path. */
    method Exists(path: string) returns (b: bool)
      ensures b <==> path in files
    {
      b := path in files;
    }

    /**
     * `File.ReadAllTextAsync` with the default decoding: None where the
     * framework throws (no such file, or a read fault), otherwise the decoded text.
     */
    method ReadAllText(path: string) returns (text: Option<string>)
      ensures text.None? <==> path !in files || path in io.readFails
      ensures text.Some? ==> text.value == io.decode(files[path])
    {
      if path in files && path !in io.readFails {
        text := Some(io.decode(files[path]));
      } else {
        text := None;
      }
    }

    /**
     * `File.WriteAllTextAsync`: creates or replaces the file at `path`, or
     * throws (returns false) and changes nothing.
     */
    method WriteAllText(path: string, text: string, encoding: Encoding) returns (ok: bool)
      modifies this
      ensures ok <==> path !in io.writeFails
      ensures files == if ok then old(files)[path := StoredFile(text, encoding)] else old(files)
    {
      ok := path !in io.writeFails;
      if ok {
        files := files[path := StoredFile(text, encoding)];
      }
    }
  }
}
