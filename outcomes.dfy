/** The outcome of an operation that can raise: the Python exceptions the
    modelled code raises, and the result and optional-value wrappers shared
    by the frame model and the filename expander. */
module Outcomes {

  /** The exceptions the modelled code can raise. */
  datatype Error =
    | NoHeaderFound              // IndexError: no header is held
    | MissingKey(key: string)    // KeyError from `header[KEY]`
    | NotAnInteger(key: string)  // TypeError: a slice bound computed from this keyword is not an integer
    | NotText(key: string)       // AttributeError: `.replace` on a non-string DATE-OBS
    | UnsupportedOperand         // TypeError: `-` on a text header value, or `0 + frame` (a frame has no `__radd__`)
    | NoAttribute                // AttributeError: a region read from the integer 0
    | EmptyPath                  // IndexError: the last character of an empty directory entry
    | UnpackMismatch             // ValueError: a two-way unpack of a split with more than two parts

  datatype Result<+T> = Ok(value: T) | Err(error: Error)

  datatype Option<+T> = None | Some(value: T)
}
