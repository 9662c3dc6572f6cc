/** The Lucas–Lehmer engine's resumable state file: a 24-byte record holding
    the recurrence value s as 8 little-endian bytes followed by the number of
    completed steps as 16 little-endian bytes (`u64::to_le_bytes` and
    `u128::to_le_bytes`). The file itself is a `StateFile` object whose
    contents are absent or a byte sequence. */
module Checkpoint {
  import opened Arith

  type byte = x: nat | x < 256

  /** Width of the recurrence value in the record. */
  const VALUE_BYTES: nat := 8
  /** Width of the step counter in the record. */
  const COUNTER_BYTES: nat := 16
  const RECORD_BYTES: nat := VALUE_BYTES + COUNTER_BYTES

  /** The `width` low-order bytes of x, least significant first. */
  function EncodeLE(x: nat, width: nat): (bs: seq<byte>)
    ensures |bs| == width
  {
    if width == 0 then [] else [x % 256] + EncodeLE(x / 256, width - 1)
  }

  /** The number whose little-endian bytes are bs. */
  function DecodeLE(bs: seq<byte>): nat {
    if bs == [] then 0 else bs[0] + 256 * DecodeLE(bs[1..])
  }

  /** `width` bytes hold a number below 256^width. */
  lemma {:induction false} DecodeLEBound(bs: seq<byte>)
    ensures DecodeLE(bs) < Pow(256, |bs|)
  {
    if bs != [] {
      DecodeLEBound(bs[1..]);
    }
  }

  lemma {:induction false} DecodeEncodeLE(x: nat, width: nat)
    requires x < Pow(256, width)
    ensures DecodeLE(EncodeLE(x, width)) == x
  {
    if width > 0 {
      var bs := EncodeLE(x, width);
      assert bs[1..] == EncodeLE(x / 256, width - 1);
      DecodeEncodeLE(x / 256, width - 1);
    }
  }

  lemma {:induction false} EncodeDecodeLE(bs: seq<byte>)
    ensures EncodeLE(DecodeLE(bs), |bs|) == bs
  {
    if bs != [] {
      var x := DecodeLE(bs);
      var rest := DecodeLE(bs[1..]);
      DivModUnique(x, rest, bs[0], 256);
      EncodeDecodeLE(bs[1..]);
    }
  }

  /** The record written at src/test_prime.rs:121-122. */
  function EncodeCheckpoint(s: nat, i: nat): (bs: seq<byte>)
    requires s < U64 && i < U128
    ensures |bs| == RECORD_BYTES
  {
    EncodeLE(s, VALUE_BYTES) + EncodeLE(i, COUNTER_BYTES)
  }

  /** The record as read back at src/test_prime.rs:88-94: two `read_exact`
      calls, either of which fails on a file that is too short; bytes after
      the first 24 are never read. */
  function DecodeCheckpoint(bs: seq<byte>): (r: Option<(nat, nat)>)
    ensures r.Some? <==> |bs| >= RECORD_BYTES
    ensures r.Some? ==> r.value.0 < U64 && r.value.1 < U128
  {
    if |bs| < VALUE_BYTES then None
    else if |bs| < RECORD_BYTES then None
    else
      ByteWidths();
      DecodeLEBound(bs[..VALUE_BYTES]);
      DecodeLEBound(bs[VALUE_BYTES..RECORD_BYTES]);
      Some((DecodeLE(bs[..VALUE_BYTES]), DecodeLE(bs[VALUE_BYTES..RECORD_BYTES])))
  }

  lemma CheckpointRoundTrip(s: nat, i: nat)
    requires s < U64 && i < U128
    ensures DecodeCheckpoint(EncodeCheckpoint(s, i)) == Some((s, i))
  {
    ByteWidths();
    var bs := EncodeCheckpoint(s, i);
    assert bs[..VALUE_BYTES] == EncodeLE(s, VALUE_BYTES);
    assert bs[VALUE_BYTES..RECORD_BYTES] == EncodeLE(i, COUNTER_BYTES);
    DecodeEncodeLE(s, VALUE_BYTES);
    DecodeEncodeLE(i, COUNTER_BYTES);
  }

  /** A 24-byte file that decodes is exactly the record of what it decodes to. */
  lemma CheckpointCanonical(bs: seq<byte>)
    requires |bs| == RECORD_BYTES
    ensures DecodeCheckpoint(bs).Some?
    ensures EncodeCheckpoint(DecodeCheckpoint(bs).value.0, DecodeCheckpoint(bs).value.1) == bs
  {
    EncodeDecodeLE(bs[..VALUE_BYTES]);
    EncodeDecodeLE(bs[VALUE_BYTES..RECORD_BYTES]);
    assert bs == bs[..VALUE_BYTES] + bs[VALUE_BYTES..RECORD_BYTES];
  }

  /** The state file `lucas_lehmer_state.bin`: absent, or present with some bytes. */
  class StateFile {
    var contents: Option<seq<byte>>
  }
}
