/** The error codes of heapstore that the modelled functions return, and the
    result of a function that fills an out-parameter only when it succeeds. */
module Status {

  datatype Status =
    | Success
    | InvalidParam
    | NotInitialized
    | AlreadyInitialized
    | DirCreateFailed
    | OutOfMemory
    | DbInitFailed
    | DbQueryFailed
    | FileOpenFailed
    | ConfigInvalid
    | NotFound
    | FileOperationFailed
    | FileCorrupt
    | Internal

  datatype Result<+T> = Ok(value: T) | Err(error: Status)

  datatype Option<+T> = None | Some(value: T)
}
