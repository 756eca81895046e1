/** Outcomes of the operations of thumbnail_maker.py: a value, or the way the run stops. */
module Results {

  /** Why a run of the script stops early. */
  datatype Error =
      /** `exit_error(message)`: the message is printed and the process exits. */
    | ExitError(message: string)
      /** `Image.open` raised on a downloaded file; nothing in the main loop catches it. */
    | OpenFailed(path: string)

  datatype Result<+T> = Ok(value: T) | Fail(error: Error)

  datatype Option<+T> = None | Some(value: T)
}
