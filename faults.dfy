/** The one failure the core can raise: std::unordered_map::at throws std::out_of_range
    when asked for an entity that is not registered in a store. */
module Faults {

  datatype Fault = OutOfRange

  /** A value, or the exception that was thrown instead of producing it. */
  datatype Result<T> = Ok(value: T) | Err(error: Fault)

  /** Completion of an operation that returns nothing: it either ran to the end or threw. */
  datatype Status = Done | Thrown(error: Fault)
}
