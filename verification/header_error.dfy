/** The unit error types of the header layer (src/header/error.rs). */
module HeaderError {

  /** Not enough bytes to represent the header. */
  datatype HeaderTruncated = HeaderTruncated

  /** The computed checksum of a header is not all ones. */
  datatype ChecksumAssertion = ChecksumAssertion

  /** A value does not fit the bit field it is meant for. */
  datatype ValueToLarge = ValueToLarge
}
