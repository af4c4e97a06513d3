/** A directory tree as the scripts see it through `os.listdir`,
    `os.path.isdir` and `os.path.isfile`: every entry has a name, and a
    directory lists its entries in `listdir` order. */
module FileTree {
  import opened Strings
  import Paths

  datatype Node =
    | File(name: string)
    | Dir(name: string, entries: seq<Node>)
    | Other(name: string)   // neither a directory nor a regular file (a broken link, a socket)

  /** `os.path.join(path, entry)` for a listed entry. */
  function ChildPath(path: string, n: Node): string
  {
    Paths.Join(path, n.name)
  }
}
