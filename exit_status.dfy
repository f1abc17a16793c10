/** How a detector's `main` ends: `Ok(())`, or the `io::Error` it propagates with `?`. */
module ExitStatus {

  /** The errors that reach the end of `main`. */
  datatype IoError =
    | UnameFailed          // `uname` failed (only where `main` propagates it)
    | ProbeFailed(errno: int)  // `io_uring_setup` failed with an error other than `ENOSYS`
    | ProcUnlistable       // `/proc` itself could not be listed

  datatype Exit = Ok | Err(error: IoError)
}
