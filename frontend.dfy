/** The uniform result every command hands back to the user interface. */
module Frontend {
  import opened Wrappers

  /** The identity shown for an attached device. */
  datatype DeviceInfo = DeviceInfo(deviceName: string, softwareVersion: string)

  /** An error text (empty on success) next to an optional result. */
  datatype FrontendResult<T> = FrontendResult(error: string, result: Option<T>)

  /** `FrontendResult::error`: a failure carries its text and never a result. */
  function ErrorOf<T>(error: string): (r: FrontendResult<T>)
    ensures r.result.None? && r.error == error
  {
    FrontendResult(error, None)
  }

  /** `FrontendResult::result`: a success carries its result and an empty error text. */
  function ResultOf<T>(value: T): (r: FrontendResult<T>)
    ensures r.result == Some(value) && r.error == ""
  {
    FrontendResult("", Some(value))
  }

  /**
   * A result built by one of the two constructors: the user interface, which
   * tests the error text, reads a failure exactly when there is no result.
   */
  predicate WellFormed<T>(r: FrontendResult<T>)
  {
    r.result.None? <==> r.error != ""
  }

  /** Error texts that are not empty give well-formed failures. */
  lemma ErrorOfWellFormed<T>(error: string)
    requires error != ""
    ensures WellFormed(ErrorOf<T>(error))
  {
  }
}
