/**
 * The filesystem that file/file.go reads and writes, held in memory: a tree of
 * entries for the walk, and for the copy and delete steps a map from path to
 * bytes with a fixed set of paths at which each kind of call fails.
 */
module Disk {
  import opened Wrappers
  import opened Dates

  type Bytes = seq<bv8>

  /**
   * An entry of the source tree as filepath.Walk meets it. A directory lists its
   * children in the order Walk visits them. Walk sorts them by name; the model takes
   * any order (and any names), so that order is one case among others. Unreadable
   * stands for an entry whose Lstat fails or a directory whose listing fails.
   */
  datatype Node =
    | File(name: string, modTime: Date)
    | Dir(name: string, children: seq<Node>)
    | Unreadable(name: string)

  /** The error a filesystem call returns, with the path it was called on. */
  datatype IoError =
    | ReadError(path: string)
    | MkdirError(path: string)
    | WriteError(path: string)
    | RemoveError(path: string)

  /** The paths at which ReadFile, MkdirAll, WriteFile and Remove fail (permissions, full disk, ...). */
  datatype Faults = Faults(readFails: set<string>, mkdirFails: set<string>, writeFails: set<string>, removeFails: set<string>)

  /** ioutil.ReadFile succeeds on an existing file it is allowed to read. */
  predicate Readable(contents: map<string, Bytes>, faults: Faults, p: string) {
    p in contents && p !in faults.readFails
  }

  /** os.Remove succeeds on an existing file it is allowed to remove. */
  predicate Removable(contents: map<string, Bytes>, faults: Faults, p: string) {
    p in contents && p !in faults.removeFails
  }

  class FileSystem {
    var contents: map<string, Bytes>
    var dirs: set<string>
    const faults: Faults

    constructor (contents: map<string, Bytes>, dirs: set<string>, faults: Faults)
      ensures this.contents == contents && this.dirs == dirs && this.faults == faults
    {
      this.contents := contents;
      this.dirs := dirs;
      this.faults := faults;
    }

    /** ioutil.ReadFile: the whole content of p, or an error. */
    method ReadFile(p: string) returns (r: Result<Bytes, IoError>)
      ensures Readable(contents, faults, p) ==> r == Success(contents[p])
      ensures !Readable(contents, faults, p) ==> r == Failure(ReadError(p))
    {
      if p in contents && p !in faults.readFails {
        r := Success(contents[p]);
      } else {
        r := Failure(ReadError(p));
      }
    }

    /** os.MkdirAll: makes sure directory p exists; succeeding again on an existing one. */
    method MkdirAll(p: string) returns (err: Option<IoError>)
      modifies this
      ensures contents == old(contents)
      ensures p in faults.mkdirFails ==> err == Some(MkdirError(p)) && dirs == old(dirs)
      ensures p !in faults.mkdirFails ==> err == None && dirs == old(dirs) + {p}
    {
      if p in faults.mkdirFails {
        err := Some(MkdirError(p));
      } else {
        dirs := dirs + {p};
        err := None;
      }
    }

    /** ioutil.WriteFile: creates or overwrites p with data. */
    method WriteFile(p: string, data: Bytes) returns (err: Option<IoError>)
      modifies this
      ensures dirs == old(dirs)
      ensures p in faults.writeFails ==> err == Some(WriteError(p)) && contents == old(contents)
      ensures p !in faults.writeFails ==> err == None && contents == old(contents)[p := data]
    {
      if p in faults.writeFails {
        err := Some(WriteError(p));
      } else {
        contents := contents[p := data];
        err := None;
      }
    }

    /** os.Remove on a file: fails when p does not exist or may not be removed. */
    method Remove(p: string) returns (err: Option<IoError>)
      modifies this
      ensures dirs == old(dirs)
      ensures Removable(old(contents), faults, p) ==> err == None && contents == old(contents) - {p}
      ensures !Removable(old(contents), faults, p) ==> err == Some(RemoveError(p)) && contents == old(contents)
    {
      if p in contents && p !in faults.removeFails {
        contents := contents - {p};
        err := None;
      } else {
        err := Some(RemoveError(p));
      }
    }
  }
}
