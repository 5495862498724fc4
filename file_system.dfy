/** The part of the file system the logs use: files as sequences of lines,
    `File.exists`, `File.createNewFile` and `Files.write` in append mode. */
module Files {

  /** What `File.createNewFile` does: returns true, returns false because the
      file is already there, or throws `IOException`. */
  datatype CreateOutcome = Created | AlreadyExists | IOException

  class FileSystem {
    /** The lines of every existing file, by path; a path outside the map has
        no file. */
    var files: map<string, seq<string>>
    /** Paths where the environment makes creating or writing fail
        (permissions, a missing directory, a full disk). */
    var failing: set<string>

    constructor (files: map<string, seq<string>>, failing: set<string>)
      ensures this.files == files && this.failing == failing
    {
      this.files := files;
      this.failing := failing;
    }

    /** `new File(path).exists()` */
    function Exists(path: string): bool
      reads this
    {
      path in files
    }

    /** `new File(path).createNewFile()`: an empty file appears only where
        there was none and the environment allows it. */
    method CreateNewFile(path: string) returns (outcome: CreateOutcome)
      modifies this`files
      ensures outcome == if path in old(files) then AlreadyExists
                         else if path in failing then IOException
                         else Created
      ensures files == if outcome == Created then old(files)[path := []] else old(files)
    {
      if path in files {
        outcome := AlreadyExists;
      } else if path in failing {
        outcome := IOException;
      } else {
        files := files[path := []];
        outcome := Created;
      }
    }

    /** `Files.write(path, (line + "\n").getBytes(), StandardOpenOption.APPEND)`:
        without `CREATE` a missing file is an error (`NoSuchFileException`),
        as is any failure the environment imposes; `written` is false where
        Java throws. */
    method AppendLine(path: string, line: string) returns (written: bool)
      modifies this`files
      ensures written <==> path in old(files) && path !in failing
      ensures files == if written then old(files)[path := old(files)[path] + [line]] else old(files)
    {
      written := path in files && path !in failing;
      if written {
        files := files[path := files[path] + [line]];
      }
    }
  }
}
