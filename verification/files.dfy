/**
 * The slice of the file system the pipeline touches: a directory listing is a
 * sequence of named entries, a regular file is its sequence of lines (what
 * BufferedReader.readLine returns, separators removed).
 */
module Files {
  /** What a name in a directory refers to. */
  datatype Entry = File(lines: seq<string>) | Folder

  /** One entry of a directory listing, as File.listFiles returns it. */
  datatype DirEntry = DirEntry(name: string, entry: Entry)

  /** `new File(dir, name).getPath()` for a directory path without a trailing separator. */
  function ChildPath(dir: string, name: string): string {
    dir + "/" + name
  }
}
