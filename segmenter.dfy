/**
 * `split_audio`: cut a recording into consecutive segments of a fixed
 * length, the last one possibly shorter, and export segment `i` as
 * `<base>_part<i+1>.wav`.
 */
module Segmenter {
  import opened Wrappers
  import opened Audio
  import opened Decimal
  import opened Paths

  const DefaultSegmentLengthMs := 60000

  datatype SplitError = DivisionByZero

  function Min(a: int, b: int): int
  {
    if a <= b then a else b
  }

  /**
   * `math.ceil(total / len)`: for a positive length the least count of
   * segments that covers `total`; for a negative length never positive.
   */
  function CeilDiv(total: nat, len: int): (n: int)
    requires len != 0
    ensures len > 0 ==> n >= 0 && n * len >= total && (n - 1) * len < total
    ensures len < 0 ==> n <= 0
  {
    if len > 0 then
      var q, r := (total + len - 1) / len, (total + len - 1) % len;
      assert q * len + r == total + len - 1;
      assert (q - 1) * len == q * len - len;
      q
    else
      -(total / -len)
  }

  /** First millisecond of segment `i` (inclusive). */
  function SegmentStart(i: nat, len: nat): nat
  {
    i * len
  }

  /** End of segment `i` (exclusive), clipped to the recording. */
  function SegmentEnd(i: nat, len: nat, total: nat): nat
  {
    Min((i + 1) * len, total)
  }

  /**
   * Reference definition of the segmentation: a chunk of `len` frames at a
   * time from the front, the remainder as the last chunk.
   */
  function Chunks(s: Audio, len: nat): seq<Audio>
    requires len > 0
    decreases |s|
  {
    if s == [] then []
    else if |s| <= len then [s]
    else [s[..len]] + Chunks(s[len..], len)
  }

  lemma MulStep(i: int, len: int)
    ensures (i + 1) * len == i * len + len
  {
  }

  lemma CeilDivStep(total: nat, len: nat)
    requires len > 0 && total > len
    ensures CeilDiv(total, len) == CeilDiv(total - len, len) + 1
  {
    var n, m := CeilDiv(total, len), CeilDiv(total - len, len);
    MulStep(m, len);
    MulStep(m - 1, len);
    MulStep(n - 1, len);
    // m + 1 segments cover `total` and m do not, so n lies strictly between m and m + 2
    MulMonotone(n, m, len);
    MulMonotone(m + 1, n - 1, len);
  }

  lemma MulMonotone(a: int, b: int, len: nat)
    ensures a <= b ==> a * len <= b * len
  {
  }

  /** There are `ceil(total / len)` reference chunks. */
  lemma {:induction false} ChunkCount(s: Audio, len: nat)
    requires len > 0
    ensures |Chunks(s, len)| == CeilDiv(|s|, len)
    decreases |s|
  {
    if s == [] {
      assert CeilDiv(0, len) == 0;
    } else if |s| <= len {
      var n := CeilDiv(|s|, len);
      if n >= 2 {
        MulMonotone(1, n - 1, len);
      }
    } else {
      ChunkCount(s[len..], len);
      CeilDivStep(|s|, len);
    }
  }

  /** Chunk `i` is the source's slice `s[i*len : min((i+1)*len, total)]`. */
  lemma {:induction false} ChunkAt(s: Audio, len: nat, i: nat)
    requires len > 0 && i < |Chunks(s, len)|
    ensures SegmentStart(i, len) < SegmentEnd(i, len, |s|) <= |s|
    ensures Chunks(s, len)[i] == s[SegmentStart(i, len)..SegmentEnd(i, len, |s|)]
    decreases |s|
  {
    if |s| <= len {
      assert Chunks(s, len) == [s];
      assert SegmentStart(0, len) == 0;
      assert SegmentEnd(0, len, |s|) == |s|;
    } else if i == 0 {
      assert Chunks(s, len)[0] == s[..len];
      assert SegmentStart(0, len) == 0;
      assert SegmentEnd(0, len, |s|) == len;
    } else {
      var rest := s[len..];
      ChunkAt(rest, len, i - 1);
      assert Chunks(s, len)[i] == Chunks(rest, len)[i - 1];
      MulStep(i - 1, len);
      MulStep(i, len);
      assert SegmentStart(i, len) == len + SegmentStart(i - 1, len);
      assert SegmentEnd(i, len, |s|) == len + SegmentEnd(i - 1, len, |rest|);
    }
  }

  /** Consecutive segments meet exactly: no gap and no overlap. */
  lemma SegmentsContiguous(i: nat, len: nat, total: nat)
    requires len > 0 && i + 1 < CeilDiv(total, len)
    ensures SegmentEnd(i, len, total) == SegmentStart(i + 1, len)
  {
    var n := CeilDiv(total, len);
    MulMonotone(i + 1, n - 1, len);
  }

  /** The segments start at 0 and the last one ends at the end of the recording. */
  lemma SegmentsCover(len: nat, total: nat)
    requires len > 0 && total > 0
    ensures SegmentStart(0, len) == 0
    ensures SegmentEnd(CeilDiv(total, len) - 1, len, total) == total
  {
  }

  /** Every segment but the last is exactly `len` long; the last is between 1 and `len` long. */
  lemma SegmentLengths(i: nat, len: nat, total: nat)
    requires len > 0 && i < CeilDiv(total, len)
    ensures i + 1 < CeilDiv(total, len) ==> SegmentEnd(i, len, total) - SegmentStart(i, len) == len
    ensures i + 1 == CeilDiv(total, len) ==> 0 < SegmentEnd(i, len, total) - SegmentStart(i, len) <= len
  {
    MulStep(i, len);
    if i + 1 < CeilDiv(total, len) {
      SegmentsContiguous(i, len, total);
    }
  }

  /** Concatenating the chunks in order gives the recording back. */
  lemma {:induction false} ChunksRoundTrip(s: Audio, len: nat)
    requires len > 0
    ensures Flatten(Chunks(s, len)) == s
    decreases |s|
  {
    if s == [] {
    } else if |s| <= len {
      FlattenCons(s, []);
    } else {
      ChunksRoundTrip(s[len..], len);
      FlattenCons(s[..len], Chunks(s[len..], len));
      assert s[..len] + s[len..] == s;
    }
  }

  /** The chunk lengths add up to the length of the recording. */
  lemma ChunksTotalLength(s: Audio, len: nat)
    requires len > 0
    ensures TotalLength(Chunks(s, len)) == |s|
  {
    ChunksRoundTrip(s, len);
    FlattenLength(Chunks(s, len));
  }

  /** A non-empty recording no longer than one segment is exported whole, as a single segment. */
  lemma ShortRecordingIsOneSegment(s: Audio, len: nat)
    requires len > 0 && 0 < |s| <= len
    ensures CeilDiv(|s|, len) == 1
    ensures Chunks(s, len) == [s]
  {
    ChunkCount(s, len);
  }

  /** 150000 ms in segments of the default length: two full minutes and a 30000 ms remainder. */
  lemma ExampleSegmentation(s: Audio)
    requires |s| == 150000
    ensures |Chunks(s, DefaultSegmentLengthMs)| == 3
    ensures |Chunks(s, DefaultSegmentLengthMs)[0]| == 60000 && |Chunks(s, DefaultSegmentLengthMs)[1]| == 60000
    ensures |Chunks(s, DefaultSegmentLengthMs)[2]| == 30000
  {
    ChunkCount(s, DefaultSegmentLengthMs);
    ChunkAt(s, DefaultSegmentLengthMs, 0);
    ChunkAt(s, DefaultSegmentLengthMs, 1);
    ChunkAt(s, DefaultSegmentLengthMs, 2);
  }

  /** The name `split_audio` derives segment names from: the input file's base name without extension. */
  function SplitBase(audioPath: string): (base: string)
    ensures '/' !in base
  {
    OsSplitextRoot(OsBasename(audioPath))
  }

  /** `f"{base}_part{i+1}.wav"`: segment names are 1-based. */
  function SegmentFileName(base: string, i: nat): string
  {
    base + "_part" + NatToDecimal(i + 1) + ".wav"
  }

  /** Distinct segments get distinct names. */
  lemma SegmentFileNamesDistinct(base: string, i: nat, j: nat)
    requires SegmentFileName(base, i) == SegmentFileName(base, j)
    ensures i == j
  {
    var a, b := SegmentFileName(base, i), SegmentFileName(base, j);
    var k := |base + "_part"|;
    assert NatToDecimal(i + 1) == a[k..|a| - 4];
    assert NatToDecimal(j + 1) == b[k..|b| - 4];
    NatToDecimalInjective(i + 1, j + 1);
  }

  /** A segment name is a single path component, and its stem is the name without ".wav". */
  lemma SegmentFileNameShape(base: string, i: nat)
    ensures '/' !in base ==> IsComponent(SegmentFileName(base, i))
    ensures Stem(SegmentFileName(base, i)) == base + "_part" + NatToDecimal(i + 1)
    ensures Suffix(SegmentFileName(base, i)) == ".wav"
  {
    var d := NatToDecimal(i + 1);
    assert '/' !in d by {
      assert forall k :: 0 <= k < |d| ==> IsDigit(d[k]);
    }
    StemAndSuffixOf(base + "_part" + d, ".wav");
  }

  /** The files `split_audio` writes, in the order it writes them. */
  function SplitFiles(audio: Audio, base: string, len: nat): (files: seq<WavFile>)
    requires len > 0
    ensures |files| == |Chunks(audio, len)|
  {
    var cs := Chunks(audio, len);
    seq(|cs|, i requires 0 <= i < |cs| => WavFile(SegmentFileName(base, i), cs[i]))
  }

  /**
   * `split_audio(audio_path, segment_length_ms)` on the decoded `audio`:
   * the files it exports, or the failure it prints when the length is zero.
   */
  method SplitAudio(audio: Audio, audioPath: string, segmentLengthMs: int)
    returns (r: Result<seq<WavFile>, SplitError>)
    ensures r.Failure? <==> segmentLengthMs == 0
    ensures segmentLengthMs > 0 ==> r == Success(SplitFiles(audio, SplitBase(audioPath), segmentLengthMs))
    ensures segmentLengthMs < 0 ==> r == Success([])
  {
    if segmentLengthMs == 0 {
      return Failure(DivisionByZero);
    }
    var totalDuration := |audio|;
    var numSegments := CeilDiv(totalDuration, segmentLengthMs);
    var base := SplitBase(audioPath);
    if segmentLengthMs > 0 {
      ChunkCount(audio, segmentLengthMs);
    }
    var files: seq<WavFile> := [];
    var i := 0;
    while i < numSegments
      invariant 0 <= i <= if numSegments > 0 then numSegments else 0
      invariant segmentLengthMs < 0 ==> files == []
      invariant segmentLengthMs > 0 ==> files == SplitFiles(audio, base, segmentLengthMs)[..i]
    {
      var len: nat := segmentLengthMs;
      ChunkAt(audio, len, i);
      var startTime := SegmentStart(i, len);
      var endTime := SegmentEnd(i, len, totalDuration);
      var segment := audio[startTime..endTime];
      files := files + [WavFile(SegmentFileName(base, i), segment)];
      i := i + 1;
    }
    if segmentLengthMs > 0 {
      assert SplitFiles(audio, base, segmentLengthMs)[..i] == SplitFiles(audio, base, segmentLengthMs);
    }
    return Success(files);
  }
}
