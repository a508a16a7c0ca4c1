/**
 * The part of the file system the console commands touch: text files by path, relative
 * to the application root (which is also the working directory the commands run in),
 * and the directories that exist.
 */
module Files {
  import opened Wrappers

  class FileSystem {
    var files: map<string, string>
    var directories: set<string>

    constructor (files: map<string, string>, directories: set<string>)
      ensures this.files == files && this.directories == directories
    {
      this.files := files;
      this.directories := directories;
    }

    /** `file_exists($path)`. */
    predicate Exists(path: string)
      reads this
    {
      path in files || path in directories
    }

    /** `file_get_contents($path)`, with `None` for a file that is not there. */
    function Read(path: string): (r: Option<string>)
      reads this
      ensures r.Some? <==> path in files
    {
      if path in files then Some(files[path]) else None
    }

    /** `file_put_contents($path, $contents)`: creates or overwrites one file. */
    method Write(path: string, contents: string)
      modifies this
      ensures files == old(files)[path := contents]
      ensures directories == old(directories)
    {
      files := files[path := contents];
    }

    /** `mkdir($path)`. */
    method MakeDirectory(path: string)
      modifies this
      ensures files == old(files)
      ensures directories == old(directories) + {path}
    {
      directories := directories + {path};
    }
  }
}
