/** Outcome types shared by all modules, and the exception classes the library raises. */
module Results {

  datatype Option<+T> = None | Some(value: T)

  /** The exception classes that callers can tell apart; message texts are not modelled. */
  datatype Error =
    | EnvOpen                 // UBootEnv: the environment cannot be opened
    | EnvStore                // UBootEnv: the environment cannot be stored
    | EnvAccess               // UBootEnvAccess: the variable does not exist
    | EnvWrite                // UBootEnvWrite: a variable cannot be set
    | NotConvertible          // UBootEnvVarCanNotConvertedIntoReturnType
    | NotAllowedContent       // UBootEnvVarNotAllowedContent
    | UpdateInProgress
    | MissingReboot
    | RebootStateNotDefined   // FirmwareRebootStateNotDefined
    | NotAllowedUpdateState
    | ConfirmRefused          // the confirm* calls without their precondition
    | CommitRequired          // GenericException: a rollback must be committed first
    | RollbackToUncommitted   // GenericException with ECANCELED
    | RollbackToBad           // GenericException with EPERM
    | LoopDevices             // GetLoopDevices: the mounted application cannot be read
    | RaucConfig              // the RAUC configuration cannot be read
    | FirmwareInstall
    | ApplicationInstall
    | ImageTooSmall
    | WrongHeaderVersion
    | WrongHeaderChecksum
    | ImageRead               // OpenApplicationImage raised while reading
    | BufferOverrun           // no exception: more is read than the buffer holds, and what follows is undefined
    | ReadPointOfTime         // the time of signing cannot be parsed
    | ImageWrite              // DuringWriteApplicationImage
    | BundleRejected          // the bundle verification failed

  datatype Result<+T> = Success(value: T) | Failure(error: Error) {
    predicate IsFailure() {
      Failure?
    }
    function PropagateFailure<U>(): (r: Result<U>)
      requires Failure?
    {
      Failure(error)
    }
    function Extract(): T
      requires Success?
    {
      value
    }
  }
}
