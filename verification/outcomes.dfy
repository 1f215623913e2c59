/** Failure-carrying values shared by the pipeline stages.
    The source signals failures by raising Python exceptions; each exception
    the core can raise is one `Error` constructor here. */
module Outcomes {

  datatype Option<T> = None | Some(value: T)

  /** The exceptions raised by `VideoTranscriber` (generate_subtitles.py). */
  datatype Error =
    | FpsUndetermined        // ValueError at line 29: the capture reported 0 fps
    | ZeroDivision           // ZeroDivisionError at line 54: the transcript has no words
    | FrameIndexOutOfRange   // IndexError at line 91: more frames read than captions
    | BadFrameName           // ValueError at line 121: int() of a non-numeric name prefix
    | InvalidFps             // ValueError at line 125: fps <= 0 before assembly

  datatype Outcome = Pass | Fail(error: Error)

  datatype Result<T> = Ok(value: T) | Err(error: Error)
}
