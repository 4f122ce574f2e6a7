/**
 * The files `do_conversion` reads and writes, as a store of texts by path.
 * Paths outside the store cannot be opened for reading; paths marked
 * read-only cannot be opened for writing.
 */
module FileSystem {
  import opened Errors

  class FileStore {
    var files: map<string, string>
    var readOnly: set<string>

    constructor (files: map<string, string>, readOnly: set<string>)
      ensures this.files == files && this.readOnly == readOnly
    {
      this.files := files;
      this.readOnly := readOnly;
    }

    /** `open(path).read()` */
    method Read(path: string) returns (r: Result<string>)
      ensures path in files ==> r == Ok(files[path])
      ensures path !in files ==> r == Err(FileNotFound(path))
    {
      if path in files {
        r := Ok(files[path]);
      } else {
        r := Err(FileNotFound(path));
      }
    }

    /** `open(path, "w").write(text)`: the file then holds exactly `text`. */
    method Write(path: string, text: string) returns (r: Result<()>)
      modifies this
      ensures readOnly == old(readOnly)
      ensures path in readOnly ==> r == Err(PermissionDenied(path)) && files == old(files)
      ensures path !in readOnly ==> r == Ok(()) && files == old(files)[path := text]
    {
      if path in readOnly {
        r := Err(PermissionDenied(path));
      } else {
        files := files[path := text];
        r := Ok(());
      }
    }
  }
}
