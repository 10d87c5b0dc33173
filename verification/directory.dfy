/** A directory of the music database, as the legacy client builds it while
    reading a listing: its path, a name taken from the path, and the files
    added to it in order. */
module Directory {
  import opened Text

  /** The text after the last `/` of the path (all of it when there is
      none), or `root` when that text is empty. */
  function DirectoryName(path: string): (name: string)
    ensures '/' !in name
    ensures name == "root" || (name != [] && name == Last(Split(path, '/')))
    ensures Last(Split(path, '/')) == [] ==> name == "root"
    ensures Last(Split(path, '/')) != [] ==> name == Last(Split(path, '/'))
  {
    LastPieceHasNoSeparator(path, '/');
    var last := Last(Split(path, '/'));
    if last == [] then "root" else last
  }

  /** Where the name comes from: unless it is `root`, it is a suffix of the
      path that is the whole path or follows a `/`. The name is `root` for
      the empty path and for a path ending in `/`. */
  lemma NameIsLastSegment(path: string)
    ensures var name := DirectoryName(path);
      name == "root" || (
        && |name| <= |path|
        && path[|path| - |name|..] == name
        && (|name| == |path| || path[|path| - |name| - 1] == '/'))
    ensures path == [] || path[|path| - 1] == '/' ==> DirectoryName(path) == "root"
    ensures path != [] && '/' !in path ==> DirectoryName(path) == path
  {
    LastPieceIsSuffix(path, '/');
  }

  /** A path with a `/` that is followed by text without one is named after
      that text: `music/rock` is named `rock`. */
  lemma NameAfterLastSlash(path: string, i: nat)
    requires i + 1 < |path| && path[i] == '/' && '/' !in path[i + 1..]
    ensures DirectoryName(path) == path[i + 1..]
  {
    LastPieceIsSuffix(path, '/');
    var seg := Last(Split(path, '/'));
    assert path[i + 1..] == seg;
  }

  /** An entry of the directory listing. The file entries are kept as the
      paths they were made from. */
  class MpdDirectory {
    const path: string
    const name: string
    var files: seq<string>

    /** A directory at `path`, with no files yet. */
    constructor(path: string)
      ensures this.path == path
      ensures name == DirectoryName(path)
      ensures files == []
    {
      this.path := path;
      this.name := DirectoryName(path);
      files := [];
    }

    /** Adds one file at the end; the files already there keep their order. */
    method AddFile(file: string)
      modifies this
      ensures files == old(files) + [file]
      ensures |files| == |old(files)| + 1 && files[..|old(files)|] == old(files) && files[|files| - 1] == file
    {
      files := files + [file];
    }
  }
}
