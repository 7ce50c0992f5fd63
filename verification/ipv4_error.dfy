/**
 * The error of the IPv4 header revision, as src/header/macros.rs,
 * src/header/ip.rs and src/header/internet/ipv4.rs use it. The enum itself
 * is not part of this model; its three variants are the ones those files
 * construct.
 */
module Ipv4Error {

  /** `Truncated`: the slice is shorter than the header claims;
      `Unsupported`: a field holds a value the stack does not handle;
      `Malformed`: a field holds a value no valid header has. */
  datatype Error = Truncated | Unsupported | Malformed
}
