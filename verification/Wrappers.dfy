/** Option, Result and the error codes of the domain crate that the modelled operations return. */
module Wrappers {

  datatype Option<+T> = None | Some(value: T)

  datatype Error =
    | InvalidArguments
    | NotFound
    | Forbidden
    | StaleRevision
    | StaleContext
    | InputPending
    | InputConflict
    | ContextChanged
    | NeedsContext
    | CapacityExceeded
    | ProgramIncomplete
    | SetupIncomplete
    | SetupAlreadyApplied
    | SetupExists
    | SetupFileConflict
    | SetupUnavailable
    | TaskDirectoryMismatch
    | StorageUnavailable
    | TransportUnavailable
    | RequestTooLarge
    | InvalidConfiguration
    | InternalInvariant
    | KnowledgeUnavailable
    | Refused(field: string)

  datatype Result<+T> = Ok(value: T) | Err(error: Error)
}
