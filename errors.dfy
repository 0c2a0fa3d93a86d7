/** The error raised when a file given for the cache has the wrong name. */
module Errors {
  import opened PosixPath

  /** The expected name and the supplied one, both reduced to their basenames. */
  datatype IncorrectFileError = IncorrectFileError(name: string, inputName: string)

  /** `IncorrectFileError(fname, expected_name)` */
  function NewIncorrectFileError(fname: string, expectedName: string): (e: IncorrectFileError)
    ensures e.name == Basename(expectedName) && e.inputName == Basename(fname)
    ensures '/' !in e.name && '/' !in e.inputName
  {
    IncorrectFileError(Basename(expectedName), Basename(fname))
  }
}
