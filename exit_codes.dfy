/** The process exit statuses of oshsh, one per failure category, and the failures a run can end with. */
module ExitCodes {

  const EXIT_SUCCESS: int := 0
  const EXIT_UNEXPECTED_ERROR: int := 1
  const EXIT_FILE_ERROR: int := 2
  const EXIT_JSON_ERROR: int := 3
  const EXIT_MODULE_NOT_FOUND: int := 4
  const EXIT_INVALID_TOP_DIR: int := 5
  const EXIT_MANIFEST_NOT_FOUND: int := 6
  const EXIT_MISSING_FILES: int := 7

  /** Why a run aborts. The first four are raised before the core runs (directory check,
      manifest reading and parsing) and are listed only to complete the taxonomy. */
  datatype Failure =
    | UnexpectedError
    | FileError
    | JsonError
    | InvalidTopDir
      /** No manifest declares the requested top module. */
    | ModuleNotFound(name: string)
      /** A module of the dependency list has no manifest. */
    | ManifestNotFound(name: string)
      /** Source files that do not exist, in reporting order. */
    | MissingFiles(paths: seq<string>)
      /** The dependency recursion went deeper than the interpreter allows (a RecursionError
          that nothing catches). */
    | RecursionLimit

  /** The status the process exits with. A RecursionError is not caught anywhere, and the
      interpreter exits with status 1 for an uncaught exception. */
  function ExitCode(f: Failure): (code: int)
    ensures code != EXIT_SUCCESS
    ensures code == EXIT_MODULE_NOT_FOUND <==> f.ModuleNotFound?
    ensures code == EXIT_MANIFEST_NOT_FOUND <==> f.ManifestNotFound?
    ensures code == EXIT_MISSING_FILES <==> f.MissingFiles?
    ensures code == EXIT_INVALID_TOP_DIR <==> f.InvalidTopDir?
    ensures f.RecursionLimit? ==> code == EXIT_UNEXPECTED_ERROR
  {
    match f
    case UnexpectedError => EXIT_UNEXPECTED_ERROR
    case FileError => EXIT_FILE_ERROR
    case JsonError => EXIT_JSON_ERROR
    case InvalidTopDir => EXIT_INVALID_TOP_DIR
    case ModuleNotFound(_) => EXIT_MODULE_NOT_FOUND
    case ManifestNotFound(_) => EXIT_MANIFEST_NOT_FOUND
    case MissingFiles(_) => EXIT_MISSING_FILES
    case RecursionLimit => EXIT_UNEXPECTED_ERROR
  }

  /** The eight status codes are pairwise distinct. */
  lemma ExitCodesDistinct()
    ensures var codes := [EXIT_SUCCESS, EXIT_UNEXPECTED_ERROR, EXIT_FILE_ERROR, EXIT_JSON_ERROR,
                          EXIT_MODULE_NOT_FOUND, EXIT_INVALID_TOP_DIR, EXIT_MANIFEST_NOT_FOUND,
                          EXIT_MISSING_FILES];
            forall i, j :: 0 <= i < j < |codes| ==> codes[i] != codes[j]
  {
  }
}
