/** The filesystem the hwmon readers see, as a value: a map from absolute
    paths to directories (with their listing, in the order `os.listdir`
    returns it) and files. A path that is not in the map does not exist. */
module SysFs {
  import opened PyBuiltins

  /** What happens when a file is opened and its first line read. A file is
      represented by its first line, as `readline()` returns it (the line
      terminator, being whitespace, is removed by the `strip()` that follows
      every read in the sources, so it is left out). */
  datatype FileData =
    | Content(line: string)   // open and readline succeed
    | ReadFails               // open succeeds, readline raises OSError
    | OpenFails               // open raises OSError (for example, permission denied)

  datatype Node = Dir(entries: seq<string>) | File(data: FileData)

  type FileSystem = map<string, Node>

  /** `os.path.join(dir, name)` for a directory without a trailing slash and
      a plain entry name. */
  function Join(dir: string, name: string): string {
    dir + "/" + name
  }

  /** `os.path.exists(p)` */
  predicate Exists(fs: FileSystem, p: string) {
    p in fs
  }

  /** `os.path.isfile(p)` */
  predicate IsFile(fs: FileSystem, p: string) {
    p in fs && fs[p].File?
  }

  /** `open(p)` succeeds: `p` is a file that may be opened (opening a
      directory or a missing path raises OSError). */
  predicate CanOpen(fs: FileSystem, p: string) {
    IsFile(fs, p) && !fs[p].data.OpenFails?
  }

  /** `os.listdir(p)`: the entries of a directory, `None` where Python
      raises OSError. */
  function ListDir(fs: FileSystem, p: string): (r: Option<seq<string>>)
    ensures r.Some? <==> p in fs && fs[p].Dir?
    ensures r.Some? ==> r.value == fs[p].entries
  {
    if p in fs && fs[p].Dir? then Some(fs[p].entries) else None
  }

  /** `open(p).readline().strip()`: the stripped first line of `p`, `None`
      where the open or the read raises OSError. */
  function ReadStripped(fs: FileSystem, p: string): (r: Option<string>)
    ensures r.Some? <==> CanOpen(fs, p) && fs[p].data.Content?
    ensures r.Some? ==> r.value == Strip(fs[p].data.line)
  {
    if CanOpen(fs, p) && fs[p].data.Content? then Some(Strip(fs[p].data.line))
    else None
  }
}
