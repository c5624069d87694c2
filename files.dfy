/**
 * The part of the operating system the code store uses: a directory of text files.
 * A path is present in `files` exactly when `os.path.exists` holds for it. Opening a path
 * raises `OSError` according to `Faults`: read mode and the writing modes fail independently,
 * so a file can be readable but read-only.
 */
module Files {

  /** The paths whose `open(path, 'r')` raises, and those whose `open(path, 'a' / 'w')` raises. */
  datatype Faults = Faults(unreadable: set<string>, unwritable: set<string>)

  predicate Readable(faults: Faults, path: string) {
    path !in faults.unreadable
  }

  predicate Writable(faults: Faults, path: string) {
    path !in faults.unwritable
  }

  /** Both modes open without raising. */
  predicate Usable(faults: Faults, path: string) {
    Readable(faults, path) && Writable(faults, path)
  }

  /** The contents of `path`, or `""` for a file that does not exist yet. */
  function Contents(files: map<string, string>, path: string): string {
    if path in files then files[path] else ""
  }

  class FileSystem {
    var files: map<string, string>
    var faults: Faults

    constructor (files0: map<string, string>, faults0: Faults)
      ensures files == files0 && faults == faults0
    {
      files := files0;
      faults := faults0;
    }

    /** `with open(path, 'a') as f: f.write(text)`; `ok` is false when the open raised. */
    method Append(path: string, text: string) returns (ok: bool)
      modifies this
      ensures faults == old(faults)
      ensures ok == Writable(faults, path)
      ensures files == if ok then old(files)[path := Contents(old(files), path) + text] else old(files)
    {
      ok := Writable(faults, path);
      if ok {
        files := files[path := Contents(files, path) + text];
      }
    }

    /** `with open(path, 'w') as f: f.write(text)`; `ok` is false when the open raised. */
    method Overwrite(path: string, text: string) returns (ok: bool)
      modifies this
      ensures faults == old(faults)
      ensures ok == Writable(faults, path)
      ensures files == if ok then old(files)[path := text] else old(files)
    {
      ok := Writable(faults, path);
      if ok {
        files := files[path := text];
      }
    }
  }
}
