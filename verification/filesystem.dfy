/**
 * The part of the file system the compressor touches: which paths exist and
 * how many bytes each holds. Directories, permissions and I/O errors are not
 * represented.
 */
module FileSystemModel {

  class FileSystem {
    /** Every existing file, with its size in bytes. */
    var entries: map<string, nat>

    constructor (initial: map<string, nat>)
      ensures entries == initial
    {
      entries := initial;
    }

    /** fs.existsSync */
    function Exists(path: string): bool
      reads this
    {
      path in entries
    }

    /** The set of existing paths. */
    function Paths(): set<string>
      reads this
    {
      entries.Keys
    }

    /** Writing a file of `size` bytes at `path` (creating or replacing it), as the engine does with its output. */
    method WriteFile(path: string, size: nat)
      modifies this
      ensures entries == old(entries)[path := size]
    {
      entries := entries[path := size];
    }

    /** fs.unlinkSync, with its failure ignored by the caller: afterwards `path` does not exist. */
    method Unlink(path: string)
      modifies this
      ensures entries == old(entries) - {path}
    {
      entries := entries - {path};
    }

    /** deleteFile: removes `path` and reports whether it existed. */
    method DeleteFile(path: string) returns (deleted: bool)
      modifies this
      ensures deleted <==> path in old(entries)
      ensures entries == old(entries) - {path}
    {
      if Exists(path) {
        entries := entries - {path};
        deleted := true;
      } else {
        deleted := false;
      }
    }
  }
}
