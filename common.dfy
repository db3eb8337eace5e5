/** Vocabulary shared by the three detection engines: optional values, calls that
    let an exception escape, bytes, and what the engines see of the file system. */
module Common {

  /** Python's `None` or a value. */
  datatype Option<+T> = None | Some(value: T)

  /** The outcome of a Python call that may let an exception escape to its caller. */
  datatype Outcome<+T> = Returned(value: T) | Raised

  newtype byte = x: int | 0 <= x < 256

  type Bytes = seq<byte>

  /** What opening a file in text mode and iterating over its lines gives: the path
      does not exist, opening or decoding raises, or the lines in file order (each
      still carrying its line terminator, as `for line in f` yields them). */
  datatype TextFile = Missing | Unreadable | Lines(lines: seq<string>)

  /** The text files the engines open, by path; a path not in the map does not exist. */
  type FileSystem = map<string, TextFile>

  function Open(fs: FileSystem, path: string): TextFile
  {
    if path in fs then fs[path] else Missing
  }

  /** POSIX `os.path.join` of two components. */
  function Join(a: string, b: string): string
  {
    if |b| > 0 && b[0] == '/' then b
    else if a == [] || a[|a| - 1] == '/' then a + b
    else a + "/" + b
  }
}
