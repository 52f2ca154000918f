/**
 * The part of the host the collectors look at: files by path. What
 * `os.Stat`, `os.Open` and a `bufio.Scanner` would produce is given as data.
 */
module Host {
  import opened Wrappers

  /**
   * A file that exists: its modification time in Unix seconds and its lines,
   * or `None` when it exists but cannot be opened (a permission error, say).
   */
  datatype File = File(modTime: int, lines: Option<seq<string>>)

  /** The files that exist, by path. */
  type FileSystem = map<string, File>

  datatype Error = StatFailed(path: string) | OpenFailed(path: string)

  /** `os.Stat(path)` succeeds; the empty path never names a file. */
  predicate Exists(fs: FileSystem, path: string) {
    path != "" && path in fs
  }

  /** `os.Open(path)` followed by a full scan: the file's lines, or `None` when the open fails. */
  function Open(fs: FileSystem, path: string): (r: Option<seq<string>>)
    ensures r.Some? ==> Exists(fs, path)
  {
    if Exists(fs, path) then fs[path].lines else None
  }

  /**
   * The lines a `bufio.Scanner` yields when the result of `os.Open` is used
   * without checking its error: none at all when the open failed.
   */
  function ScannedLines(fs: FileSystem, path: string): (r: seq<string>)
    ensures Open(fs, path).None? ==> r == []
  {
    Open(fs, path).GetOr([])
  }
}
