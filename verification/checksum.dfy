/**
 * The Internet checksum of the header layer (src/header/checksum.rs): the
 * bytes are added up as 16-bit words in a 32-bit accumulator, a trailing odd
 * byte is added on its own, and the carries are folded back into the low
 * half twice. A header is valid when the folded sum is all ones.
 *
 * The folded sum is the ones' complement sum of the words, that is the word
 * sum modulo 0xFFFF with 0 written as 0xFFFF unless every word is 0
 * (section 1 of RFC 1071). `ChecksumMeaning` proves this of the code.
 */
module Checksum {
  import opened Wrappers
  import opened Primitive
  import opened HeaderError
  import opened HeaderUtils

  /** The value the accumulator of `compute_checksum` would reach without
      overflow: every host-order word, then the odd byte if any. */
  function WordSum(s: Bytes): nat
    decreases |s|
  {
    if |s| >= 2 then s[0] as int + s[1] as int * 0x100 + WordSum(s[2..])
    else if |s| == 1 then s[0] as int
    else 0
  }

  /** `WordSum` of the suffix from index `i`, indexing instead of slicing;
      `WordSumFromSuffix` proves the two agree. */
  function WordSumFrom(s: Bytes, i: nat): nat
    decreases |s| - i
  {
    if i + 2 <= |s| then s[i] as int + s[i + 1] as int * 0x100 + WordSumFrom(s, i + 2)
    else if i + 1 == |s| then s[i] as int
    else 0
  }

  lemma {:induction false} WordSumFromSuffix(s: Bytes, i: nat)
    requires i <= |s|
    ensures WordSumFrom(s, i) == WordSum(s[i..])
    decreases |s| - i
  {
    if i + 2 <= |s| {
      WordSumFromSuffix(s, i + 2);
      assert s[i..][2..] == s[i + 2..];
    }
  }

  /** One carry fold: `(sum >> 16) + (sum & 0xffff)`. */
  function Fold(sum: nat): (r: nat)
    ensures r % 0xFFFF == sum % 0xFFFF
    ensures r == 0 <==> sum == 0
    ensures r <= sum
    ensures sum <= 0xFFFF_FFFF ==> r <= 0x1_FFFE
  {
    sum / 0x1_0000 + sum % 0x1_0000
  }

  /** `compute_checksum` as a value. The last line of the source adds the
      two halves as `u16`; the bound says that addition never overflows. */
  function Checksum(s: Bytes): (r: nat)
    requires WordSum(s) <= 0xFFFF_FFFF
    ensures r <= 0xFFFF
  {
    var sum := Fold(WordSum(s));
    sum / 0x1_0000 + sum % 0x1_0000
  }

  /** `verify_checksum` as a value. */
  function Verify(s: Bytes): Result<(), ChecksumAssertion>
    requires WordSum(s) <= 0xFFFF_FFFF
  {
    if Checksum(s) == 0xFFFF then Ok(()) else Err(ChecksumAssertion)
  }

  /** `compute_checksum`. The `u32` accumulator panics on overflow in a
      debug build; the precondition keeps the input below that point, and
      `FitsAccumulator` shows that any slice of at most 0x20002 bytes
      meets it. */
  method ComputeChecksum(bytes: Bytes) returns (r: nat)
    requires WordSum(bytes) <= 0xFFFF_FFFF
    ensures r == Checksum(bytes)
    ensures r <= 0xFFFF && r % 0xFFFF == WordSum(bytes) % 0xFFFF
  {
    var sum := 0;
    var rest := bytes;
    var next := SplitWord(rest);
    while next.Some?
      invariant next == SplitWord(rest)
      invariant sum + WordSum(rest) == WordSum(bytes)
      decreases |rest|
    {
      sum := sum + next.value.0;
      rest := next.value.1;
      next := SplitWord(rest);
    }
    if |rest| == 1 {
      sum := sum + rest[0] as int;
    }
    sum := sum / 0x1_0000 + sum % 0x1_0000;
    r := sum / 0x1_0000 + sum % 0x1_0000;
    ChecksumMeaning(bytes);
  }

  /** `verify_checksum`. */
  method VerifyChecksum(bytes: Bytes) returns (r: Result<(), ChecksumAssertion>)
    requires WordSum(bytes) <= 0xFFFF_FFFF
    ensures r == Verify(bytes)
    ensures r.Ok? <==> WordSum(bytes) > 0 && WordSum(bytes) % 0xFFFF == 0
  {
    var sum := ComputeChecksum(bytes);
    if sum == 0xFFFF {
      r := Ok(());
    } else {
      r := Err(ChecksumAssertion);
    }
    VerifyMeaning(bytes);
  }

  /** Two folds compute the ones' complement sum of the words: the result is
      congruent to the word sum modulo 0xFFFF and is 0 only for an all-zero
      input. */
  lemma ChecksumMeaning(s: Bytes)
    requires WordSum(s) <= 0xFFFF_FFFF
    ensures Checksum(s) % 0xFFFF == WordSum(s) % 0xFFFF
    ensures Checksum(s) == 0 <==> WordSum(s) == 0
  {
    var once := Fold(WordSum(s));
    assert Checksum(s) == Fold(once);
  }

  /** A slice verifies exactly when its word sum is a non-zero multiple of
      0xFFFF. */
  lemma VerifyMeaning(s: Bytes)
    requires WordSum(s) <= 0xFFFF_FFFF
    ensures Verify(s).Ok? <==> WordSum(s) > 0 && WordSum(s) % 0xFFFF == 0
  {
    ChecksumMeaning(s);
    AllOnes(Checksum(s), WordSum(s));
  }

  /** A folded value of at most 0xFFFF is all ones exactly when the sum it
      is congruent to is a non-zero multiple of 0xFFFF. */
  lemma AllOnes(c: nat, sum: nat)
    requires c <= 0xFFFF && c % 0xFFFF == sum % 0xFFFF
    requires c == 0 <==> sum == 0
    ensures c == 0xFFFF <==> sum > 0 && sum % 0xFFFF == 0
  {
    if sum > 0 && sum % 0xFFFF == 0 {
      assert c == 0 || c == 0xFFFF;
    }
  }

  /** Each word is at most 0xFFFF and the odd byte at most 0xFF. */
  lemma {:induction false} WordSumBound(s: Bytes)
    ensures WordSum(s) <= (|s| / 2) * 0xFFFF + (|s| % 2) * 0xFF
    decreases |s|
  {
    if |s| >= 2 {
      WordSumBound(s[2..]);
    }
  }

  /** A slice of at most 0x20002 bytes never overflows the accumulator. */
  lemma FitsAccumulator(s: Bytes)
    requires |s| <= 0x2_0002
    ensures WordSum(s) <= 0xFFFF_FFFF
  {
    WordSumBound(s);
  }

  /** A slice of `n` bytes 0xFF, as `vec![0xFF; n]` builds it. */
  function Filled(n: nat): (s: Bytes)
    ensures |s| == n && forall i :: 0 <= i < n ==> s[i] == 0xFF
  {
    seq(n, _ => 0xFF)
  }

  lemma {:induction false} FilledSum(n: nat)
    ensures WordSum(Filled(n)) == (n / 2) * 0xFFFF + (n % 2) * 0xFF
    decreases n
  {
    if n >= 2 {
      FilledSum(n - 2);
      assert Filled(n)[2..] == Filled(n - 2);
    }
  }

  /** An even, non-empty run of 0xFF bytes sums to a multiple of 0xFFFF and
      verifies. */
  lemma FilledValid(n: nat)
    requires 0 < n <= 0x2_0002 && n % 2 == 0
    ensures WordSum(Filled(n)) == (n / 2) * 0xFFFF
    ensures Verify(Filled(n)).Ok?
  {
    FilledSum(n);
    FitsAccumulator(Filled(n));
    VerifyMeaning(Filled(n));
  }

  /** 0x20002 bytes of 0xFF sum to 0xFFFF_FFFF, the largest sum the
      accumulator holds (the first fold gives 0x1_FFFE, the second 0xFFFF),
      and the slice verifies. */
  lemma CarriesTwiceValid()
    ensures WordSum(Filled(0x2_0002)) == 0xFFFF_FFFF
    ensures Verify(Filled(0x2_0002)).Ok?
  {
    FilledValid(0x2_0002);
  }

  /** `[0xFF, 0xFF, 0xFF, 0xFF, 0x01]` sums to 0x1_FFFF: the first fold
      leaves a carry, and the slice does not verify. */
  lemma CarriesTwiceInvalid()
    ensures WordSum([0xFF, 0xFF, 0xFF, 0xFF, 0x01]) == 0x1_FFFF
    ensures Fold(0x1_FFFF) == 0x1_0000
    ensures Verify([0xFF, 0xFF, 0xFF, 0xFF, 0x01]).Err?
  {
    var s: Bytes := [0xFF, 0xFF, 0xFF, 0xFF, 0x01];
    assert s[2..][2..] == [0x01];
    assert WordSum(s[2..][2..]) == 1;
  }

  /** Changing a single byte of a slice changes its word sum by `d` or by
      `d * 0x100` (little-endian host), where `d` is the change of the byte. */
  lemma {:induction false} WordSumOneByte(s: Bytes, t: Bytes, i: nat)
    requires |s| == |t| && i < |s|
    requires forall j :: 0 <= j < |s| && j != i ==> s[j] == t[j]
    ensures WordSum(t) - WordSum(s) == (t[i] as int - s[i] as int) * (if i % 2 == 0 then 1 else 0x100)
    decreases |s|
  {
    if |s| >= 2 {
      if i >= 2 {
        WordSumOneByte(s[2..], t[2..], i - 2);
      } else {
        assert s[2..] == t[2..];
      }
    }
  }

  /** The checksum catches every corruption of a single byte. */
  lemma SingleByteErrorDetected(s: Bytes, t: Bytes, i: nat)
    requires |s| == |t| && i < |s| && s[i] != t[i]
    requires forall j :: 0 <= j < |s| && j != i ==> s[j] == t[j]
    requires WordSum(s) <= 0xFFFF_FFFF && WordSum(t) <= 0xFFFF_FFFF
    requires Verify(s).Ok?
    ensures Verify(t).Err?
  {
    WordSumOneByte(s, t, i);
    VerifyMeaning(s);
    VerifyMeaning(t);
    NotMultiple(WordSum(s), WordSum(t));
  }

  /** Two multiples of 0xFFFF differ by 0 or by at least 0xFFFF. */
  lemma NotMultiple(a: nat, b: nat)
    requires a % 0xFFFF == 0 && (0 < b - a < 0xFFFF || 0 < a - b < 0xFFFF)
    ensures b % 0xFFFF != 0
  {
    var ka, kb := a / 0xFFFF, b / 0xFFFF;
    assert a == ka * 0xFFFF + a % 0xFFFF;
    assert b == kb * 0xFFFF + b % 0xFFFF;
  }

  /** A slice whose word sum is known verifies exactly when that sum is a
      non-zero multiple of 0xFFFF. */
  lemma VerifyBySum(s: Bytes, sum: nat)
    requires WordSumFrom(s, 0) == sum <= 0xFFFF_FFFF
    ensures WordSum(s) == sum
    ensures Verify(s).Ok? <==> sum > 0 && sum % 0xFFFF == 0
  {
    WordSumFromSuffix(s, 0);
    assert s[0..] == s;
    VerifyMeaning(s);
  }

  /** The two IPv4 headers of the unit tests, and each with one field
      changed (the total length 0x3c to 0x3d, the protocol 0x11 to 0x10). */
  const SAMPLE_1: Bytes := [0x45, 0x00, 0x00, 0x3c, 0x1c, 0x46, 0x40, 0x00, 0x40, 0x06,
                            0xb1, 0xe6, 0xac, 0x10, 0x0a, 0x63, 0xac, 0x10, 0x0a, 0x0c]
  const SAMPLE_2: Bytes := [0x45, 0x00, 0x00, 0x73, 0x00, 0x00, 0x40, 0x00, 0x40, 0x11,
                            0xb8, 0x61, 0xc0, 0xa8, 0x00, 0x01, 0xc0, 0xa8, 0x00, 0xc7]
  const SAMPLE_1_CORRUPTED: Bytes := [0x45, 0x00, 0x00, 0x3d, 0x1c, 0x46, 0x40, 0x00, 0x40, 0x06,
                                      0xb1, 0xe6, 0xac, 0x10, 0x0a, 0x63, 0xac, 0x10, 0x0a, 0x0c]
  const SAMPLE_2_CORRUPTED: Bytes := [0x45, 0x00, 0x00, 0x73, 0x00, 0x00, 0x40, 0x00, 0x40, 0x10,
                                      0xb8, 0x61, 0xc0, 0xa8, 0x00, 0x01, 0xc0, 0xa8, 0x00, 0xc7]

  /** The first header of the unit tests verifies. */
  lemma SampleHeaderValid()
    ensures WordSum(SAMPLE_1) == 0x1_FFFE
    ensures Verify(SAMPLE_1).Ok?
  {
    VerifyBySum(SAMPLE_1, 0x1_FFFE);
    assert 0x1_FFFE % 0xFFFF == 0;
  }

  /** The second header of the unit tests verifies. */
  lemma SampleHeader2Valid()
    ensures WordSum(SAMPLE_2) == 0x2_FFFD
    ensures Verify(SAMPLE_2).Ok?
  {
    VerifyBySum(SAMPLE_2, 0x2_FFFD);
    assert 0x2_FFFD % 0xFFFF == 0;
  }

  /** The first header with its total length changed does not. */
  lemma SampleHeaderCorrupted()
    ensures WordSum(SAMPLE_1_CORRUPTED) == 0x2_00FE
    ensures Verify(SAMPLE_1_CORRUPTED).Err?
  {
    VerifyBySum(SAMPLE_1_CORRUPTED, 0x2_00FE);
    assert 0x2_00FE % 0xFFFF == 0x100;
  }

  /** The second header with its protocol changed does not. */
  lemma SampleHeader2Corrupted()
    ensures WordSum(SAMPLE_2_CORRUPTED) == 0x2_FEFD
    ensures Verify(SAMPLE_2_CORRUPTED).Err?
  {
    VerifyBySum(SAMPLE_2_CORRUPTED, 0x2_FEFD);
    assert 0x2_FEFD % 0xFFFF == 0xFEFF;
  }
}
