/** The checksummed multi-record loaders. Each reads `n` consecutive
    128-byte records from the front of a buffer, validating every record's
    checksum before decoding it. The loop pushes a record before it tests the
    count, so a count of 0 never stops normally. */
module Loaders {
  import opened Bytes
  import opened Errors
  import opened Checksums
  import opened Records

  /** A slice validates exactly when its first 128 bytes do. */
  lemma ChecksumOkFirstChunk(s: seq<byte>)
    ensures ChecksumOk(s) <==> FRAME <= |s| && ChecksumOk(Chunk(s, 0))
  {
    if FRAME <= |s| {
      assert Chunk(s, 0)[..FRAME - 1] == s[..FRAME - 1];
    }
  }

  /** The shared loop of the three `load` functions, `have` records in:
      validate the slice, take its first frame, stop once `n` are held,
      otherwise continue on the rest of the slice. */
  function LoadChecked(input: seq<byte>, n: nat, have: nat): (r: Result<seq<FrameBytes>>)
    ensures r.Success? ==> have < n && FRAME * (n - have) <= |input| && |r.value| == n - have
    decreases |input|
  {
    if !ChecksumOk(input) then Failure(ValidateChecksum(input).error)
    else
      var f := Chunk(input, 0);
      if have + 1 == n then Success([f])
      else
        match LoadChecked(input[FRAME..], n, have + 1)
        case Failure(e) => Failure(e)
        case Success(fs) => Success([f] + fs)
  }

  lemma {:induction false} LoadCheckedSpec(input: seq<byte>, n: nat, have: nat)
    ensures var r := LoadChecked(input, n, have);
      r.Success? ==> forall i | 0 <= i < n - have :: r.value[i] == Chunk(input, i) && ChecksumOk(Chunk(input, i))
    ensures var r := LoadChecked(input, n, have);
      have < n && FRAME * (n - have) <= |input| ==>
        (r.Success? <==> forall i | 0 <= i < n - have :: ChecksumOk(Chunk(input, i)))
    ensures var r := LoadChecked(input, n, have);
      have < n && FRAME * (n - have) <= |input| && r.Failure? ==> r.error == BadChecksum
    ensures n <= have ==> LoadChecked(input, n, have).Failure?
    decreases |input|
  {
    ChecksumOkFirstChunk(input);
    if ChecksumOk(input) && have + 1 != n {
      var rest := input[FRAME..];
      LoadCheckedSpec(rest, n, have + 1);
      forall i | 0 <= i < n - have - 1 && FRAME * (i + 2) <= |input|
        ensures Chunk(rest, i) == Chunk(input, i + 1)
      {
        ChunkShift(input, 1, i);
      }
      var r := LoadChecked(input, n, have);
      if r.Success? {
        var fs := LoadChecked(rest, n, have + 1).value;
        assert r.value == [Chunk(input, 0)] + fs;
        assert forall i | 1 <= i < n - have :: r.value[i] == fs[i - 1];
      }
      if have < n && FRAME * (n - have) <= |input| {
        if forall i | 0 <= i < n - have :: ChecksumOk(Chunk(input, i)) {
          assert forall i | 0 <= i < n - have - 1 :: ChecksumOk(Chunk(rest, i)) by {
            forall i | 0 <= i < n - have - 1
              ensures ChecksumOk(Chunk(rest, i))
            {
              assert ChecksumOk(Chunk(input, i + 1));
            }
          }
        }
      }
    }
  }

  /** Records past the `n`-th are never looked at. */
  lemma {:induction false} LoadCheckedIgnoresTail(input: seq<byte>, n: nat, have: nat)
    requires have < n && FRAME * (n - have) <= |input|
    ensures LoadChecked(input, n, have) == LoadChecked(input[..FRAME * (n - have)], n, have)
    decreases n - have
  {
    var cut := input[..FRAME * (n - have)];
    ChecksumOkFirstChunk(input);
    ChecksumOkFirstChunk(cut);
    assert Chunk(cut, 0) == Chunk(input, 0);
    if ChecksumOk(input) && have + 1 != n {
      LoadCheckedIgnoresTail(input[FRAME..], n, have + 1);
      assert cut[FRAME..] == input[FRAME..][..FRAME * (n - have - 1)];
    }
  }

  /** The records of the first `n` frames, each decoded with `decode`. */
  function LoadRecords<T>(input: seq<byte>, n: nat, decode: FrameBytes -> T): (r: Result<seq<T>>)
    ensures r.Success? ==> |r.value| == n && FRAME * n <= |input|
    ensures r.Success? ==> forall i | 0 <= i < n :: r.value[i] == decode(Chunk(input, i))
    ensures 1 <= n && FRAME * n <= |input| ==>
      (r.Success? <==> forall i | 0 <= i < n :: ChecksumOk(Chunk(input, i)))
    ensures 1 <= n && FRAME * n <= |input| && r.Failure? ==> r.error == BadChecksum
    ensures n == 0 ==> r.Failure?
  {
    LoadCheckedSpec(input, n, 0);
    match LoadChecked(input, n, 0)
    case Failure(e) => Failure(e)
    case Success(cs) => Success(seq(|cs|, i requires 0 <= i < |cs| => decode(cs[i])))
  }

  /** `Frame::load`. */
  function LoadFrames(input: seq<byte>, n: nat): (r: Result<seq<Frame>>)
    ensures r.Success? ==> |r.value| == n && FRAME * n <= |input|
    ensures r.Success? ==> forall i | 0 <= i < n :: r.value[i] == Frame(Chunk(input, i))
    ensures 1 <= n && FRAME * n <= |input| ==>
      (r.Success? <==> forall i | 0 <= i < n :: ChecksumOk(Chunk(input, i)))
    ensures 1 <= n && FRAME * n <= |input| && r.Failure? ==> r.error == BadChecksum
    ensures n == 0 ==> r.Failure?
  {
    LoadRecords(input, n, DecodeFrame)
  }

  /** `DirectoryFrame::load`. */
  function LoadDirectoryFrames(input: seq<byte>, n: nat): (r: Result<seq<DirectoryFrame>>)
    ensures r.Success? ==> |r.value| == n && FRAME * n <= |input|
    ensures r.Success? ==> forall i | 0 <= i < n :: r.value[i] == DecodeDirectoryFrame(Chunk(input, i))
    ensures 1 <= n && FRAME * n <= |input| ==>
      (r.Success? <==> forall i | 0 <= i < n :: ChecksumOk(Chunk(input, i)))
    ensures 1 <= n && FRAME * n <= |input| && r.Failure? ==> r.error == BadChecksum
    ensures n == 0 ==> r.Failure?
  {
    LoadRecords(input, n, DecodeDirectoryFrame)
  }

  /** `BrokenFrame::load`. */
  function LoadBrokenFrames(input: seq<byte>, n: nat): (r: Result<seq<BrokenFrame>>)
    ensures r.Success? ==> |r.value| == n && FRAME * n <= |input|
    ensures r.Success? ==> forall i | 0 <= i < n :: r.value[i] == DecodeBrokenFrame(Chunk(input, i))
    ensures 1 <= n && FRAME * n <= |input| ==>
      (r.Success? <==> forall i | 0 <= i < n :: ChecksumOk(Chunk(input, i)))
    ensures 1 <= n && FRAME * n <= |input| && r.Failure? ==> r.error == BadChecksum
    ensures n == 0 ==> r.Failure?
  {
    LoadRecords(input, n, DecodeBrokenFrame)
  }

  /** A loader's outcome depends on its first `n` frames only. */
  lemma LoadRecordsIgnoresTail<T>(input: seq<byte>, n: nat, decode: FrameBytes -> T)
    requires 1 <= n && FRAME * n <= |input|
    ensures LoadRecords(input, n, decode) == LoadRecords(input[..FRAME * n], n, decode)
  {
    LoadCheckedIgnoresTail(input, n, 0);
  }

  /** `n` consecutive frames of `b` from frame `k` on all validate. */
  predicate FramesOk(b: seq<byte>, k: nat, n: nat)
    requires FRAME * (k + n) <= |b|
  {
    forall j | k <= j < k + n :: ChecksumOk(Chunk(b, j))
  }

  /** Frames `k`..`k + n - 1` of `b`, each decoded with `decode`. */
  function DecodeRun<T>(b: seq<byte>, k: nat, n: nat, decode: FrameBytes -> T): (r: seq<T>)
    requires FRAME * (k + n) <= |b|
    ensures |r| == n
    ensures forall i | 0 <= i < n :: r[i] == decode(Chunk(b, k + i))
  {
    seq(n, i requires 0 <= i < n => decode(Chunk(b, k + i)))
  }

  /** A run of frames decoded out of a buffer laid end to end from frames
      `fs` is the same run decoded out of `fs` itself. */
  lemma {:induction false} DecodeRunOfFlatten<T>(fs: seq<FrameBytes>, k: nat, n: nat, decode: FrameBytes -> T, xs: seq<T>)
    requires k + n <= |fs| && |xs| == n
    requires forall i | 0 <= i < n :: decode(fs[k + i]) == xs[i]
    ensures DecodeRun(Flatten(fs), k, n, decode) == xs
  {
    var b := Flatten(fs);
    var r := DecodeRun(b, k, n, decode);
    forall i | 0 <= i < n
      ensures r[i] == xs[i]
    {
      assert Chunk(b, k + i) == fs[k + i];
    }
  }

  /** A loader started at frame `k` of a buffer decodes frames `k`..`k + n - 1`
      when they all validate, and reports BadChecksum otherwise. */
  lemma LoadRecordsAt<T>(b: seq<byte>, k: nat, n: nat, decode: FrameBytes -> T)
    requires 1 <= n && FRAME * (k + n) <= |b|
    ensures LoadRecords(b[FRAME * k..], n, decode)
      == if FramesOk(b, k, n)
         then Success(DecodeRun(b, k, n, decode))
         else Failure(BadChecksum)
  {
    var t := b[FRAME * k..];
    forall i | 0 <= i < n
      ensures Chunk(t, i) == Chunk(b, k + i)
    {
      ChunkShift(b, k, i);
    }
    var r := LoadRecords(t, n, decode);
    if FramesOk(b, k, n) {
      forall i | 0 <= i < n
        ensures ChecksumOk(Chunk(t, i))
      {
        assert ChecksumOk(Chunk(b, k + i));
      }
      assert r.value == DecodeRun(b, k, n, decode);
    } else {
      var j :| k <= j < k + n && !ChecksumOk(Chunk(b, j));
      assert !ChecksumOk(Chunk(t, j - k));
    }
  }
}
