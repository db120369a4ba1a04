/** The part of the operating system the store touches, as a value: regular
    files by path, the set of directory paths, and the one I/O error kind the
    store reports. How a write goes wrong is a parameter of the operation
    rather than something the model decides. */
module FileSystem {
  import opened Wrappers
  import opened Lex

  type Path = string

  /** Every failure is reported as `io::Error`; its kind is never inspected. */
  datatype IoError = IoError

  datatype Fs = Fs(files: map<Path, Bytes>, dirs: set<Path>)

  /** No path is both a regular file and a directory. */
  predicate Valid(fs: Fs)
  {
    fs.files.Keys !! fs.dirs
  }

  /** What the environment does to one attempt to write a file: nothing, refuse
      to open it, or accept only the first `written` bytes before failing. */
  datatype WriteFault = NoFault | OpenFails | WriteFailsAfter(written: nat)

  /** The result of an operation together with the file system it leaves. */
  datatype Effect<T> = Effect(result: Result<T, IoError>, fs: Fs)
}
