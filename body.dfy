/** A response body: inline text, or a file read when the response is
    built. Reading is an oracle over the file system at that moment. */
module Bodies {
  import opened Base

  /** An I/O failure, carried as its debug rendering. */
  datatype IoError = IoError(debug: string)

  /** The file system as seen by one read: `fs::read_to_string` of a path. */
  type FileSystem = string -> Result<string, IoError>

  datatype Body = String(text: string) | File(file: string)

  /** `Body::empty()`: inline empty text, which resolves to "" whatever
      the file system holds. */
  function Empty(): (b: Body)
    ensures forall fs: FileSystem :: Resolve(b, fs) == Ok("")
  {
    String("")
  }

  /** `TryInto<String> for Body`, defined for every variant. */
  function Resolve(b: Body, fs: FileSystem): (r: Result<string, IoError>)
    ensures b.String? ==> r == Ok(b.text)
    ensures b.File? ==> r == fs(b.file)
  {
    match b
    case String(text) => Ok(text)
    case File(path) => fs(path)
  }

  /** Inline text involves no I/O: it cannot fail and does not depend on
      the file system. */
  lemma InlineIgnoresFileSystem(b: Body, fs: FileSystem, fs': FileSystem)
    requires b.String?
    ensures Resolve(b, fs) == Resolve(b, fs') && Resolve(b, fs).Ok?
  {
  }

  /** A file body is read afresh on every resolution: two resolutions see
      exactly what the file holds at each, so a changed file gives a
      changed result. */
  lemma FileReadAfresh(path: string, fs: FileSystem, fs': FileSystem)
    ensures Resolve(File(path), fs) == Resolve(File(path), fs') <==> fs(path) == fs'(path)
  {
  }
}
