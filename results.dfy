/** Option stands for a Java reference that may be null; Result for a value or a
    TransactionProcessingException, which carries nothing but its message. */
module Results {

  datatype Option<+T> = None | Some(value: T)

  datatype Result<+T> = Ok(value: T) | Err(message: string)

  /** `Strings.isEmpty` of log4j: true for null and for the zero-length string; no trimming. */
  predicate IsEmpty(s: Option<string>) {
    s.None? || s.value == ""
  }
}
