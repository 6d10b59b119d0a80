/** Optional values and error-or-value results shared by every module. */
module Results {
  datatype Option<T> = None | Some(value: T)

  /** The value of a computation, or the message of the exception the source throws. */
  datatype Result<T> = Ok(value: T) | Err(error: string)

  /** The outcome of an operation that changes state and returns nothing. */
  datatype Outcome = Done | Fail(error: string)

  /** `noRuleIsMatching()`: the largest `size_t`, reported as the index when no rule matches. */
  const NoRuleIsMatching: nat := 0xFFFF_FFFF_FFFF_FFFF
}
