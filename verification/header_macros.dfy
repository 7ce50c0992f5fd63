/**
 * The header helpers of the IPv4 revision (src/header/macros.rs): the
 * length check and split every header cast performs, with the `Truncated`
 * error, and the checksum check `Ipv4::split_header` applies.
 *
 * This `verify_checksum` takes big-endian words from `chunks_exact(2)`, so
 * an odd trailing byte is not added, and folds the carries once before the
 * `u16` addition that decides the outcome. `VerifyChecksumAsWritten` is
 * that code, with the debug-build overflow panics as `None`;
 * `VerifyChecksum` folds twice, which is what the rest of the model uses.
 */
module HeaderMacros {
  import opened Wrappers
  import opened Primitive
  import opened Ipv4Error
  import Checksum

  /** `validate_header!`: `Truncated` when the slice cannot fill the header. */
  function ValidateHeader(size: nat, bytes: Bytes): (r: Result<(), Error>)
    ensures r.Err? <==> |bytes| < size
    ensures r.Err? ==> r.error == Truncated
  {
    if |bytes| < size then Err(Truncated) else Ok(())
  }

  /** `as_header!`: the first `size` bytes and the rest. */
  function AsHeader(size: nat, bytes: Bytes): (r: Result<(Bytes, Bytes), Error>)
    ensures r.Err? <==> |bytes| < size
    ensures r.Err? ==> r.error == Truncated
    ensures r.Ok? ==> |r.value.0| == size && r.value.0 + r.value.1 == bytes
  {
    var v := ValidateHeader(size, bytes);
    if v.Err? then Err(v.error)
    else
      assert bytes[..size] + bytes[size..] == bytes;
      Ok((bytes[..size], bytes[size..]))
  }

  /** The sum of the complete big-endian words of `s`; an odd trailing byte
      is dropped, as `chunks_exact(2)` drops it. */
  function BeWordSum(s: Bytes): nat
    decreases |s|
  {
    if |s| >= 2 then s[0] as int * 0x100 + s[1] as int + BeWordSum(s[2..]) else 0
  }

  /** `BeWordSum` of the suffix from index `i`, indexing instead of
      slicing; `BeWordSumFromSuffix` proves the two agree. */
  function BeWordSumFrom(s: Bytes, i: nat): nat
    decreases |s| - i
  {
    if i + 2 <= |s| then s[i] as int * 0x100 + s[i + 1] as int + BeWordSumFrom(s, i + 2) else 0
  }

  lemma {:induction false} BeWordSumFromSuffix(s: Bytes, i: nat)
    requires i <= |s|
    ensures BeWordSumFrom(s, i) == BeWordSum(s[i..])
    decreases |s| - i
  {
    if i + 2 <= |s| {
      BeWordSumFromSuffix(s, i + 2);
      assert s[i..][2..] == s[i + 2..];
    }
  }

  /** An odd trailing byte does not change the sum. */
  lemma {:induction false} OddByteIgnored(s: Bytes, b: Byte)
    requires |s| % 2 == 0
    ensures BeWordSum(s + [b]) == BeWordSum(s)
    decreases |s|
  {
    if |s| >= 2 {
      assert (s + [b])[2..] == s[2..] + [b];
      OddByteIgnored(s[2..], b);
    }
  }

  /** The sum over `n` bytes is at most `n / 2` words of 0xFFFF; an IPv4
      header of at most 60 bytes stays far below the `u32` limit. */
  lemma {:induction false} BeWordSumBound(s: Bytes)
    ensures BeWordSum(s) <= (|s| / 2) * 0xFFFF
    decreases |s|
  {
    if |s| >= 2 {
      BeWordSumBound(s[2..]);
    }
  }

  /** The outcome of `verify_checksum` as written for a given word sum.
      `None` is a debug-build panic: either the `u32` sum overflows, or
      `high + low` overflows `u16`. */
  function SingleFoldVerdict(sum: nat): (r: Option<Result<(), Error>>)
    ensures r.None? <==> sum > 0xFFFF_FFFF || sum / 0x1_0000 + sum % 0x1_0000 > 0xFFFF
    ensures r.Some? ==> (r.value.Ok? <==> sum > 0 && sum % 0xFFFF == 0)
    ensures r.Some? && r.value.Err? ==> r.value.error == Malformed
  {
    if sum > 0xFFFF_FFFF then None
    else
      var low := sum % 0x1_0000;
      var high := sum / 0x1_0000;
      assert (high + low) % 0xFFFF == sum % 0xFFFF;
      if high + low > 0xFFFF then None
      else if high + low == 0xFFFF then Some(Ok(()))
      else Some(Err(Malformed))
  }

  /** `verify_checksum` as written. */
  function VerifyChecksumAsWritten(bytes: Bytes): (r: Option<Result<(), Error>>)
    ensures r.None? <==>
      BeWordSum(bytes) > 0xFFFF_FFFF || BeWordSum(bytes) / 0x1_0000 + BeWordSum(bytes) % 0x1_0000 > 0xFFFF
    ensures r.Some? ==> (r.value.Ok? <==> BeWordSum(bytes) > 0 && BeWordSum(bytes) % 0xFFFF == 0)
    ensures r.Some? && r.value.Err? ==> r.value.error == Malformed
  {
    SingleFoldVerdict(BeWordSum(bytes))
  }

  /** The outcome of the corrected check for a given word sum: the carries
      folded twice, `Ok` exactly when the result is all ones. */
  function DoubleFoldVerdict(sum: nat): (r: Result<(), Error>)
    requires sum <= 0xFFFF_FFFF
    ensures r.Ok? <==> sum > 0 && sum % 0xFFFF == 0
    ensures r.Err? ==> r.error == Malformed
  {
    var folded := Checksum.Fold(Checksum.Fold(sum));
    Checksum.AllOnes(folded, sum);
    if folded == 0xFFFF then Ok(()) else Err(Malformed)
  }

  /** `verify_checksum` with the carries folded twice: `Ok` exactly when the
      ones' complement sum of the words is all ones, else `Malformed`. */
  function VerifyChecksum(bytes: Bytes): (r: Result<(), Error>)
    requires BeWordSum(bytes) <= 0xFFFF_FFFF
    ensures r.Ok? <==> BeWordSum(bytes) > 0 && BeWordSum(bytes) % 0xFFFF == 0
    ensures r.Err? ==> r.error == Malformed
  {
    DoubleFoldVerdict(BeWordSum(bytes))
  }

  /** The second sample header of the checksum tests with its checksum
      field one higher. */
  const SAMPLE_OVERFLOW: Bytes := [0x45, 0x00, 0x00, 0x73, 0x00, 0x00, 0x40, 0x00, 0x40, 0x11,
                                   0xb8, 0x62, 0xc0, 0xa8, 0x00, 0x01, 0xc0, 0xa8, 0x00, 0xc7]

  /** Its words add up to 0x2FFFE. */
  lemma SampleOverflowSum()
    ensures BeWordSum(SAMPLE_OVERFLOW) == 0x2_FFFE
  {
    assert BeWordSumFrom(SAMPLE_OVERFLOW, 0) == 0x2_FFFE;
    BeWordSumFromSuffix(SAMPLE_OVERFLOW, 0);
    assert SAMPLE_OVERFLOW[0..] == SAMPLE_OVERFLOW;
  }

  /** For a word sum of 0x2FFFE `high + low` is 0x10000: the code as
      written panics, and the corrected check reports `Malformed`. */
  lemma OverflowVerdicts()
    ensures SingleFoldVerdict(0x2_FFFE).None?
    ensures DoubleFoldVerdict(0x2_FFFE) == Err(Malformed)
  {
    var sum := 0x2_FFFE;
    assert sum / 0x1_0000 == 2 && sum % 0x1_0000 == 0xFFFE;
    assert SingleFoldVerdict(sum).None?;
  }

  /** So the sample header makes `verify_checksum` as written panic. */
  lemma SingleFoldOverflows()
    ensures BeWordSum(SAMPLE_OVERFLOW) == 0x2_FFFE
    ensures VerifyChecksumAsWritten(SAMPLE_OVERFLOW).None?
    ensures VerifyChecksum(SAMPLE_OVERFLOW) == Err(Malformed)
  {
    SampleOverflowSum();
    OverflowVerdicts();
  }

  /** Wherever the code as written does not panic, it agrees with the
      corrected check. */
  lemma AsWrittenAgrees(bytes: Bytes)
    requires VerifyChecksumAsWritten(bytes).Some?
    ensures VerifyChecksumAsWritten(bytes).value == VerifyChecksum(bytes)
  {
    var sum := BeWordSum(bytes);
    var once := sum / 0x1_0000 + sum % 0x1_0000;
    assert once % 0xFFFF == sum % 0xFFFF;
  }
}
