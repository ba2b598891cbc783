/** Values shared by every part of the model: optional values, the Python
    exceptions the modelled code can raise, and the outcome of a date check. */
module Common {

  datatype Option<+T> = None | Some(value: T)

  /** The Python exceptions that the modelled functions can raise on bad input. */
  datatype PyError =
    | IndexError        // a list index past the end
    | KeyError          // a dictionary key that is absent
    | ValueError        // int() or float() of text that is not a number
    | AttributeError    // `.group(1)` called on a failed `re.search` (None)
    | ZeroDivisionError // a division by the length of an empty dictionary
    | NameError         // a local variable read before anything was assigned to it

  /** A value, or the exception that ended the computation. */
  datatype Result<+T> = Ok(value: T) | Err(error: PyError)

  /** What a `check_date` function decides: keep the data on disk, fetch new
      data and reboot (`reset()`), stop the program (`exit()`), or die of an
      exception. */
  datatype DateCheck = Keep | Download | Exit | Crash(error: PyError)

  /** A calendar date as `time.localtime` reports it. */
  datatype Date = Date(year: nat, month: nat, day: nat)
}
