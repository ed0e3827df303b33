/** Outcomes shared by the shell's front end: an optional value (an environment
    variable that may be unset) and a result that records how a C++ operation
    would have failed instead of returning. */
module Results {

  /** The ways the modelled C++ code leaves its normal path. */
  datatype Failure =
    | OutOfRange   // std::string_view::at threw std::out_of_range
    | FellOffEnd   // control reached the end of a value-returning function without a return
    | EmptyInput   // input[0] was read from an empty view

  datatype Option<T> = None | Some(value: T)

  datatype Result<T> = Ok(value: T) | Err(failure: Failure)
}
