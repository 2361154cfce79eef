/** The error values the installer can produce or pass through, and the
    shape of a Go `(value, error)` return. */
module Errors {
  import opened Wrappers

  datatype Error =
    | NotExist(path: string)       // ENOENT: the path (or its parent) is missing
    | IsDirectory(path: string)    // EISDIR: a file operation met a directory
    | NotDirectory(path: string)   // ENOTDIR: a directory operation met a file
    | NotZip(path: string)         // the archive reader rejected the file
    | EmptyReleaseList             // `releases[0]` on an empty list (a panic in Go)
    | Remote(message: string)      // an error reported by the release host or the transfer

  /** A Go `(T, error)` pair: `value` is meaningful, and may be a zero value,
      whatever `err` holds. */
  datatype Returned<+T> = Returned(value: T, err: Option<Error>)
}
