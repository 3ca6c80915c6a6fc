/** The one-byte XOR checksum that ends every 128-byte record. */
module Checksums {
  import opened Bytes
  import opened Errors

  /** XOR of all bytes of `s`, folded from the first to the last. */
  function XorAll(s: seq<byte>): byte
  {
    if |s| == 0 then 0 else XorAll(s[..|s| - 1]) ^ s[|s| - 1]
  }

  /** The bytes the checksum covers: at most the first 127. */
  function Covered(d: seq<byte>): seq<byte>
  {
    if |d| < FRAME - 1 then d else d[..FRAME - 1]
  }

  /** Reference value of the checksum of `d`. */
  function Checksum(d: seq<byte>): byte
  {
    XorAll(Covered(d))
  }

  /** The checksum byte loop: XOR over bytes 0..126, never byte 127 itself. */
  method CalcChecksum(d: seq<byte>) returns (c: byte)
    ensures c == XorAll(Covered(d))
    ensures |d| >= FRAME ==> c == XorAll(d[..FRAME - 1])
  {
    c := 0;
    var i := 0;
    var n := if |d| < FRAME - 1 then |d| else FRAME - 1;
    while i < n
      invariant 0 <= i <= n
      invariant c == XorAll(d[..i])
    {
      assert d[..i + 1][..i] == d[..i];
      c := c ^ d[i];
      i := i + 1;
    }
    assert d[..n] == Covered(d);
  }

  /** `validate_checksum`: fails with BadChecksum when byte 127 is not the
      checksum; indexing byte 127 of a shorter slice panics. */
  function ValidateChecksum(d: seq<byte>): (r: Result<()>)
    ensures r.Success? <==> |d| >= FRAME && XorAll(d[..FRAME - 1]) == d[FRAME - 1]
    ensures r.Failure? && |d| >= FRAME ==> r.error == BadChecksum
    ensures |d| < FRAME ==> r == Failure(IndexOutOfBounds)
  {
    if |d| < FRAME then Failure(IndexOutOfBounds)
    else if Checksum(d) != d[FRAME - 1] then Failure(BadChecksum)
    else Success(())
  }

  predicate ChecksumOk(d: seq<byte>)
  {
    ValidateChecksum(d).Success?
  }

  /** `update_checksum`: stores the checksum into byte 127 (a panic on a
      shorter slice); the result always validates, and nothing else changes. */
  function UpdateChecksum(d: seq<byte>): (r: Result<seq<byte>>)
    ensures r.Success? <==> |d| >= FRAME
    ensures r.Failure? ==> r.error == IndexOutOfBounds
    ensures r.Success? ==> |r.value| == |d| && ChecksumOk(r.value)
    ensures r.Success? ==> forall i | 0 <= i < |d| && i != FRAME - 1 :: r.value[i] == d[i]
  {
    if |d| < FRAME then Failure(IndexOutOfBounds)
    else
      var e := d[FRAME - 1 := Checksum(d)];
      assert e[..FRAME - 1] == d[..FRAME - 1];
      Success(e)
  }

  /** The record with its checksum stamped, for the always-128-byte case. */
  function Stamp(f: FrameBytes): (r: FrameBytes)
    ensures UpdateChecksum(f) == Success(r)
    ensures ChecksumOk(r)
  {
    UpdateChecksum(f).value
  }

  /** The checksum depends on bytes 0..126 only. */
  lemma {:induction false} ChecksumIgnoresByte127(d: seq<byte>, v: byte)
    requires |d| >= FRAME
    ensures Checksum(d[FRAME - 1 := v]) == Checksum(d)
  {
    assert d[FRAME - 1 := v][..FRAME - 1] == d[..FRAME - 1];
  }

  /** Stamping an already valid record changes nothing. */
  lemma StampValid(f: FrameBytes)
    requires ChecksumOk(f)
    ensures Stamp(f) == f
  {
  }

  /** A valid record with byte 127 replaced by any other value fails. */
  lemma {:induction false} OtherChecksumFails(d: seq<byte>, v: byte)
    requires ChecksumOk(d)
    requires v != d[FRAME - 1]
    ensures ValidateChecksum(d[FRAME - 1 := v]) == Failure(BadChecksum)
  {
    ChecksumIgnoresByte127(d, v);
  }

  lemma {:induction false} XorAllSnoc(s: seq<byte>, b: byte)
    ensures XorAll(s + [b]) == XorAll(s) ^ b
  {
    assert (s + [b])[..|s|] == s;
  }

  /** A record validates exactly when all 128 of its bytes XOR to zero. */
  lemma {:induction false} ChecksumOkIffXorZero(d: seq<byte>)
    requires |d| >= FRAME
    ensures ChecksumOk(d) <==> XorAll(d[..FRAME]) == 0
  {
    assert d[..FRAME] == d[..FRAME - 1] + [d[FRAME - 1]];
    XorAllSnoc(d[..FRAME - 1], d[FRAME - 1]);
  }
}
