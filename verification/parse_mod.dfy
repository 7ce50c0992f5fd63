/**
 * The header casts of the `parse` revision (src/parse/mod.rs). They check,
 * at compile time, that the header type has alignment 1 and exactly the
 * size the caller names, and at run time that the slice is long enough.
 *
 * The compile-time checks become preconditions: a header type that fails
 * them does not build.
 */
module ParseMod {
  import opened Wrappers
  import opened Primitive
  import opened CrateError
  import HeaderMod

  /** The static layout of a header type: `align_of` and `size_of`. */
  datatype Layout = Layout(align: nat, size: nat)

  /** `validate_header!`. */
  function ValidateHeader(layout: Layout, expectedSize: nat, bytes: Bytes): (r: Result<(), Error>)
    requires layout.align == 1 && layout.size == expectedSize
    ensures r.Err? <==> |bytes| < expectedSize
    ensures r.Err? ==> r.error == Length
  {
    if |bytes| < layout.size then Err(Length) else Ok(())
  }

  /** `as_header!`: the first `expectedSize` bytes and the rest. */
  function AsHeader(layout: Layout, expectedSize: nat, bytes: Bytes): (r: Result<(Bytes, Bytes), Error>)
    requires layout.align == 1 && layout.size == expectedSize
    ensures r.Err? <==> |bytes| < expectedSize
    ensures r.Err? ==> r.error == Length
    ensures r.Ok? ==> |r.value.0| == expectedSize && r.value.0 + r.value.1 == bytes
  {
    match ValidateHeader(layout, expectedSize, bytes)
    case Err(e) => Err(e)
    case Ok(_) => Ok((bytes[..layout.size], bytes[layout.size..]))
  }

  /** `as_header_mut!` on a buffer of `len` bytes: two disjoint windows
      covering the buffer, the first of them `expectedSize` long. */
  function AsHeaderMut(layout: Layout, expectedSize: nat, len: nat)
    : (r: Result<(HeaderMod.Window, HeaderMod.Window), Error>)
    requires layout.align == 1 && layout.size == expectedSize
    ensures r.Err? <==> len < expectedSize
    ensures r.Err? ==> r.error == Length
    ensures r.Ok? ==> var (header, payload) := r.value;
      header.Disjoint(payload) && header.lo == 0 && header.hi == expectedSize == payload.lo && payload.hi == len
  {
    if len < layout.size then Err(Length)
    else Ok((HeaderMod.Window(0, layout.size), HeaderMod.Window(layout.size, len)))
  }

  /** The casts of this revision agree with those of `header/mod.rs` on
      every slice. */
  lemma AgreesWithHeaderMod(layout: Layout, expectedSize: nat, bytes: Bytes)
    requires layout.align == 1 && layout.size == expectedSize
    ensures AsHeader(layout, expectedSize, bytes) == HeaderMod.AsHeader(expectedSize, bytes)
    ensures AsHeaderMut(layout, expectedSize, |bytes|) == HeaderMod.AsHeaderMut(expectedSize, |bytes|)
  {
  }
}
