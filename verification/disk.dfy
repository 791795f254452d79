/**
 * The file system seen through `Deno.readTextFile` and `Deno.writeTextFile`:
 * a map from path to entry, where a missing path reads as NotFound.
 */
module Disk {
  import opened Json

  /** A path's entry: a text file, or something reading fails on for another reason (permissions, a directory). */
  datatype Entry = File(text: Text) | Unreadable

  type FileSystem = map<string, Entry>

  /** The three ways `Deno.readTextFile` ends. */
  datatype ReadOutcome = NotFound | Contents(text: Text) | ReadError

  function ReadTextFile(fs: FileSystem, path: string): (r: ReadOutcome)
    ensures r.NotFound? <==> path !in fs
    ensures r.ReadError? <==> path in fs && fs[path].Unreadable?
    ensures r.Contents? ==> fs[path] == File(r.text)
  {
    if path !in fs then NotFound
    else match fs[path]
      case File(t) => Contents(t)
      case Unreadable => ReadError
  }

  /** `Deno.writeTextFile`: creates or replaces the file at `path` and nothing else. */
  function WriteTextFile(fs: FileSystem, path: string, text: Text): (r: FileSystem)
    ensures ReadTextFile(r, path) == Contents(text)
    ensures r.Keys == fs.Keys + {path}
    ensures r - {path} == fs - {path}
  {
    fs[path := File(text)]
  }
}
