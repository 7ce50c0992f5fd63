/**
 * Slice helpers of the header layer (src/header/utils.rs): bounds-checked
 * splitting of a byte slice, and the `as_header!` cast of a slice prefix to
 * a header.
 *
 * A header type in this crate is a `#[repr(C)]` struct of byte arrays, so
 * its alignment is 1 and it has no padding; the cast therefore only has to
 * check the length. A header value is modelled by the bytes it covers.
 */
module HeaderUtils {
  import opened Wrappers
  import opened Primitive
  import opened HeaderError

  /** `split_at`: the first `mid` bytes and the rest, or `None` when the
      slice is shorter than `mid`. */
  function SplitAt(s: Bytes, mid: nat): (r: Option<(Bytes, Bytes)>)
    ensures r.None? <==> |s| < mid
    ensures r.Some? ==> |r.value.0| == mid && r.value.0 + r.value.1 == s
  {
    if |s| < mid then None else Some((s[..mid], s[mid..]))
  }

  /** `split_word`: the first two bytes read as a host-order `u16`, and the
      rest. The host is taken to be little-endian (x86-64, AArch64), so the
      first byte is the low half of the word; the ensures say that the
      word's `to_ne_bytes` are the two bytes it was read from. */
  function SplitWord(s: Bytes): (r: Option<(U16, Bytes)>)
    ensures r.None? <==> |s| < 2
    ensures r.Some? ==> [r.value.0 % 0x100, r.value.0 / 0x100] + r.value.1 == s
  {
    match SplitAt(s, 2)
    case None => None
    case Some((word, rest)) => Some((word[0] + word[1] as int * 0x100, rest))
  }

  /** `as_header!`: the first `size` bytes, seen as the header, and the
      payload after them; `HeaderTruncated` when the slice is too short. */
  function AsHeader(size: nat, bytes: Bytes): (r: Result<(Bytes, Bytes), HeaderTruncated>)
    ensures r.Err? <==> |bytes| < size
    ensures r.Ok? ==> |r.value.0| == size && r.value.0 + r.value.1 == bytes
  {
    match SplitAt(bytes, size)
    case Some((header, payload)) => Ok((header, payload))
    case None => Err(HeaderTruncated)
  }
}
