/** The outcome of a member that can throw: either its value or the kind of
    exception it throws. */
module Results {

  /** The exceptions the modelled members throw.
      IndexOutOfRange: an indexer outside its channels, or `hex[0]` on "".
      DivideByZero: integer division by a zero channel or operand.
      Format: `uint.Parse` of an empty or non-hex string.
      Overflow: `uint.Parse` of a value above uint.MaxValue.
      Argument: a hex string whose length is not 3, 4, 6 or 8. */
  datatype Exception = IndexOutOfRange | DivideByZero | Format | Overflow | Argument

  datatype Result<T> = Ok(value: T) | Throws(exception: Exception)
}
