/** The crate-wide error of the older header revisions (src/error.rs). */
module CrateError {

  /** `Length`: the slice is too short for the header; `Unknown`: a field
      holds a value the crate does not know. */
  datatype Error = Length | Unknown
}
