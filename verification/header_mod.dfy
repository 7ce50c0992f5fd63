/**
 * The header casts of the older header revision (src/header/mod.rs):
 * `validate_header!` checks the slice length, `as_header!` and
 * `as_header_mut!` split the slice into the header and its payload.
 *
 * A header type is a `#[repr(C)]` struct of byte arrays, whose alignment of
 * 1 the macro asserts at compile time; only the length is checked at run
 * time. The mutable cast hands out two mutable views of one buffer; they are
 * modelled as the index windows they cover.
 */
module HeaderMod {
  import opened Wrappers
  import opened Primitive
  import opened CrateError

  /** `validate_header!`: `Error::Length` when the slice is shorter than the
      header. */
  function ValidateHeader(size: nat, bytes: Bytes): (r: Result<(), Error>)
    ensures r.Err? <==> |bytes| < size
    ensures r.Err? ==> r.error == Length
  {
    if |bytes| < size then Err(Length) else Ok(())
  }

  /** `as_header!`: the header bytes and the payload after them. */
  function AsHeader(size: nat, bytes: Bytes): (r: Result<(Bytes, Bytes), Error>)
    ensures r.Err? <==> |bytes| < size
    ensures r.Err? ==> r.error == Length
    ensures r.Ok? ==> |r.value.0| == size && r.value.0 + r.value.1 == bytes
  {
    match ValidateHeader(size, bytes)
    case Err(e) => Err(e)
    case Ok(_) => Ok((bytes[..size], bytes[size..]))
  }

  /** The half-open index range `[lo, hi)` of a mutable view into a buffer. */
  datatype Window = Window(lo: nat, hi: nat)
  {
    predicate Disjoint(other: Window)
    {
      hi <= other.lo || other.hi <= lo
    }
  }

  /** `as_header_mut!` on a buffer of `len` bytes: the window of the header
      and the window of the payload. The two mutable views never overlap
      and together cover the whole buffer. */
  function AsHeaderMut(size: nat, len: nat): (r: Result<(Window, Window), Error>)
    ensures r.Err? <==> len < size
    ensures r.Err? ==> r.error == Length
    ensures r.Ok? ==> var (header, payload) := r.value;
      header.Disjoint(payload) && header.lo == 0 && header.hi == size == payload.lo && payload.hi == len
  {
    if len < size then Err(Length) else Ok((Window(0, size), Window(size, len)))
  }
}
