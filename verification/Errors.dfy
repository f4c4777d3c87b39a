/** The library's error codes, and results that carry one. */
module Errors {

  datatype Error =
    | FrameLarge     // A0_ERR_FRAME_LARGE
    | Range          // A0_ERR_RANGE
    | InvalidArg     // A0_ERR_INVALID_ARG
    | NotFound       // A0_ERR_NOT_FOUND
    | IterDone       // A0_ERR_ITER_DONE
    | Again          // A0_ERR_AGAIN
    | BadPath        // A0_ERR_BAD_PATH
    | BrokenPipe     // ESPIPE
    | TimedOut       // ETIMEDOUT
    | ShutDown       // ESHUTDOWN

  datatype Option<+T> = None | Some(value: T)

  datatype Result<+T> = Ok(value: T) | Err(error: Error)
}
