/**
 * The denoising pipeline as the interface drives it: `split_audio`, then
 * `remove_noise_from_folder` on the segment folder, then
 * `combine_wav_files_with_suffix` with the denoised suffix.
 */
module Pipeline {
  import opened Wrappers
  import opened Audio
  import opened Decimal
  import opened Paths
  import opened Segmenter
  import opened Enhancer
  import opened Reassembler

  /** The segment folder once both stages have written their files. */
  function ChoppedFolder(audio: Audio, base: string, len: nat, enhance: Audio -> Option<Audio>): Folder
    requires len > 0
  {
    var files := SplitFiles(audio, base, len);
    Written(files + EnhancedFiles(files, enhance))
  }

  /**
   * The enhanced audio of the segments whose enhancement succeeds, in segment
   * order. This is the specification side: it speaks of audio only, with no
   * file names, so that the end-to-end result can be stated without the
   * naming scheme; `EnhancedFilesAudio` ties it to the files the denoising
   * loop writes.
   */
  function EnhancedChunks(chunks: seq<Audio>, enhance: Audio -> Option<Audio>): seq<Audio>
  {
    if chunks == [] then []
    else
      var rest := EnhancedChunks(chunks[1..], enhance);
      match enhance(chunks[0])
      case Some(e) => [e] + rest
      case None => rest
  }

  /** Segment files numbered from segment `k` on. */
  function SegmentFilesFrom(base: string, chunks: seq<Audio>, k: nat): (files: seq<WavFile>)
    ensures |files| == |chunks|
  {
    seq(|chunks|, i requires 0 <= i < |chunks| => WavFile(SegmentFileName(base, k + i), chunks[i]))
  }

  /** Segment `i`'s denoised file is `<base>_part<i+1>_noiseRemovedDF.wav`. */
  lemma EnhancedSegmentFileName(base: string, i: nat)
    ensures EnhancedFileName(SegmentFileName(base, i)) == base + "_part" + NatToDecimal(i + 1) + DenoisedSuffix + ".wav"
  {
    SegmentFileNameShape(base, i);
  }

  /** A segment's name is keyed by its 1-based number. */
  lemma SegmentPartNumber(base: string, i: nat)
    ensures PartNumber(SegmentFileName(base, i), "") == i + 1
  {
    PartNumberOf(base, i + 1, "");
    assert base + "_part" + NatToDecimal(i + 1) + "" + ".wav" == SegmentFileName(base, i);
  }

  /** A denoised segment's name carries the denoised suffix and is keyed by the segment's number. */
  lemma EnhancedPartNumber(base: string, i: nat)
    ensures EndsWith(EnhancedFileName(SegmentFileName(base, i)), DenoisedSuffix + ".wav")
    ensures PartNumber(EnhancedFileName(SegmentFileName(base, i)), DenoisedSuffix) == i + 1
  {
    EnhancedSegmentFileName(base, i);
    var prefix := base + "_part" + NatToDecimal(i + 1);
    assert EnhancedFileName(SegmentFileName(base, i)) == prefix + (DenoisedSuffix + ".wav");
    PartNumberOf(base, i + 1, DenoisedSuffix);
  }

  /** A raw segment's name does not carry the denoised suffix: a digit precedes its ".wav". */
  lemma SegmentNameLacksDenoisedSuffix(base: string, i: nat)
    ensures !EndsWith(SegmentFileName(base, i), DenoisedSuffix + ".wav")
  {
    var d := NatToDecimal(i + 1);
    var name := SegmentFileName(base, i);
    var tail := DenoisedSuffix + ".wav";
    assert name[|name| - 5] == d[|d| - 1];
    assert IsDigit(d[|d| - 1]);
    assert tail[|tail| - 5] == 'F';
  }

  /** Natural order on one recording's segment names follows the segment numbers, in both directions. */
  lemma SegmentNamesInNaturalOrder(base: string, i: nat, j: nat)
    ensures NaturalLess(DenoisedSuffix, EnhancedFileName(SegmentFileName(base, i)), EnhancedFileName(SegmentFileName(base, j))) <==> i < j
  {
    EnhancedPartNumber(base, i);
    EnhancedPartNumber(base, j);
    LexIrreflexive(EnhancedFileName(SegmentFileName(base, i)));
  }

  /** part2 comes before part9, which comes before part10. */
  lemma NaturalOrderExample(base: string)
    ensures NaturalLess(DenoisedSuffix, EnhancedFileName(SegmentFileName(base, 1)), EnhancedFileName(SegmentFileName(base, 8)))
    ensures NaturalLess(DenoisedSuffix, EnhancedFileName(SegmentFileName(base, 8)), EnhancedFileName(SegmentFileName(base, 9)))
  {
    SegmentNamesInNaturalOrder(base, 1, 8);
    SegmentNamesInNaturalOrder(base, 8, 9);
  }

  /** natsorted of the denoised names of parts 9, 10 and 2 is part2, part9, part10. */
  lemma NaturalSortScenario(base: string)
    ensures var n2, n9, n10 := EnhancedFileName(SegmentFileName(base, 1)),
                               EnhancedFileName(SegmentFileName(base, 8)),
                               EnhancedFileName(SegmentFileName(base, 9));
      NaturalOrder(DenoisedSuffix, {n9, n10, n2}) == [n2, n9, n10]
  {
    NaturalOrderExample(base);
    SegmentNamesInNaturalOrder(base, 1, 9);
    NaturalSortOfThree(DenoisedSuffix, EnhancedFileName(SegmentFileName(base, 1)),
      EnhancedFileName(SegmentFileName(base, 8)), EnhancedFileName(SegmentFileName(base, 9)));
  }

  lemma NaturalSortOfThree(suffix: string, a: string, b: string, c: string)
    requires NaturalLess(suffix, a, b) && NaturalLess(suffix, b, c) && NaturalLess(suffix, a, c)
    ensures NaturalOrder(suffix, {b, c, a}) == [a, b, c]
  {
    NaturalOrderIsStrictTotal(suffix, a, a, a);
    NaturalOrderIsStrictTotal(suffix, b, b, b);
    NaturalOrderIsStrictTotal(suffix, c, c, c);
    var sorted := [a, b, c];
    assert StrictlySorted(suffix, sorted);
    SortedUnique(suffix, sorted, NaturalOrder(suffix, {b, c, a}));
  }

  /**
   * The audio of each file, in order. Unlike `Reassembler.Lookups`, which
   * reads audio out of a folder by name, this reads it off a list of files
   * before they are written, so it needs no folder and no distinct names.
   */
  function AudiosOf(files: seq<WavFile>): (audios: seq<Audio>)
    ensures |audios| == |files|
    ensures forall i :: 0 <= i < |files| ==> audios[i] == files[i].audio
  {
    if files == [] then [] else [files[0].audio] + AudiosOf(files[1..])
  }

  /** The denoising stage writes the enhanced audio of the files it reads, in their order. */
  lemma {:induction false} EnhancedFilesAudio(files: seq<WavFile>, enhance: Audio -> Option<Audio>)
    ensures AudiosOf(EnhancedFiles(files, enhance)) == EnhancedChunks(AudiosOf(files), enhance)
    decreases |files|
  {
    if files != [] {
      var rest := files[1..];
      EnhancedFilesAudio(rest, enhance);
      var audios := AudiosOf(files);
      assert audios == [files[0].audio] + AudiosOf(rest);
      assert audios[1..] == AudiosOf(rest);
      var efr := EnhancedFiles(rest, enhance);
      match enhance(files[0].audio) {
        case None =>
        case Some(e) =>
          var h := WavFile(EnhancedFileName(files[0].name), e);
          assert ([h] + efr)[1..] == efr;
      }
    }
  }

  /** The names the denoising stage writes for segments `k`, `k+1`, ... carry the suffix and rising keys above `k`. */
  predicate KeyedAbove(ef: seq<WavFile>, k: nat)
  {
    && (forall j :: 0 <= j < |ef| ==> EndsWith(ef[j].name, DenoisedSuffix + ".wav"))
    && (forall j :: 0 <= j < |ef| ==> k < PartNumber(ef[j].name, DenoisedSuffix))
    && (forall i, j :: 0 <= i < j < |ef| ==> PartNumber(ef[i].name, DenoisedSuffix) < PartNumber(ef[j].name, DenoisedSuffix))
  }

  lemma KeyedAboveCons(h: WavFile, rest: seq<WavFile>, k: nat)
    requires EndsWith(h.name, DenoisedSuffix + ".wav") && PartNumber(h.name, DenoisedSuffix) == k + 1
    requires KeyedAbove(rest, k + 1)
    ensures KeyedAbove([h] + rest, k)
  {
    var ef := [h] + rest;
    assert ef[0] == h;
    forall j | 1 <= j < |ef| ensures ef[j] == rest[j - 1] && k < PartNumber(ef[j].name, DenoisedSuffix) {
    }
    forall i, j | 0 <= i < j < |ef| ensures PartNumber(ef[i].name, DenoisedSuffix) < PartNumber(ef[j].name, DenoisedSuffix) {
      if i > 0 {
        assert ef[i] == rest[i - 1];
      }
    }
  }

  lemma KeyedAboveWeaken(ef: seq<WavFile>, k: nat)
    requires KeyedAbove(ef, k + 1)
    ensures KeyedAbove(ef, k)
  {
  }

  /** Files whose denoised names carry the suffix and the keys `k+1`, `k+2`, ... */
  predicate DenoisedNamesNumbered(files: seq<WavFile>, k: nat)
  {
    forall i :: 0 <= i < |files| ==>
      EndsWith(EnhancedFileName(files[i].name), DenoisedSuffix + ".wav") &&
      PartNumber(EnhancedFileName(files[i].name), DenoisedSuffix) == k + i + 1
  }

  lemma {:induction false} EnhancedNamesKeyed(files: seq<WavFile>, k: nat, enhance: Audio -> Option<Audio>)
    requires DenoisedNamesNumbered(files, k)
    ensures KeyedAbove(EnhancedFiles(files, enhance), k)
    decreases |files|
  {
    if files != [] {
      var rest := files[1..];
      assert DenoisedNamesNumbered(rest, k + 1) by {
        forall i | 0 <= i < |rest| ensures
          EndsWith(EnhancedFileName(rest[i].name), DenoisedSuffix + ".wav") &&
          PartNumber(EnhancedFileName(rest[i].name), DenoisedSuffix) == k + 1 + i + 1
        {
          assert rest[i] == files[i + 1];
        }
      }
      EnhancedNamesKeyed(rest, k + 1, enhance);
      var efr := EnhancedFiles(rest, enhance);
      match enhance(files[0].audio) {
        case None =>
          assert EnhancedFiles(files, enhance) == efr;
          KeyedAboveWeaken(efr, k);
        case Some(e) =>
          var h := WavFile(EnhancedFileName(files[0].name), e);
          assert EnhancedFiles(files, enhance) == [h] + efr;
          KeyedAboveCons(h, efr, k);
      }
    }
  }

  lemma EnhancedSegmentNames(base: string, chunks: seq<Audio>, k: nat, enhance: Audio -> Option<Audio>)
    ensures KeyedAbove(EnhancedFiles(SegmentFilesFrom(base, chunks, k), enhance), k)
  {
    var files := SegmentFilesFrom(base, chunks, k);
    forall i | 0 <= i < |files| ensures
      EndsWith(EnhancedFileName(files[i].name), DenoisedSuffix + ".wav") &&
      PartNumber(EnhancedFileName(files[i].name), DenoisedSuffix) == k + i + 1
    {
      assert files[i] == WavFile(SegmentFileName(base, k + i), chunks[i]);
      EnhancedPartNumber(base, k + i);
    }
    EnhancedNamesKeyed(files, k, enhance);
  }

  /** The name of each file, in order. */
  function NamesOf(files: seq<WavFile>): (names: seq<string>)
    ensures |names| == |files|
  {
    seq(|files|, i requires 0 <= i < |files| => files[i].name)
  }

  /** Raw segment names and denoised names never clash, and each list is free of repeats. */
  lemma ChoppedNamesDistinct(base: string, chunks: seq<Audio>, enhance: Audio -> Option<Audio>)
    ensures var files := SegmentFilesFrom(base, chunks, 0);
      DistinctNames(files + EnhancedFiles(files, enhance))
  {
    var files := SegmentFilesFrom(base, chunks, 0);
    var ef := EnhancedFiles(files, enhance);
    var all := files + ef;
    EnhancedSegmentNames(base, chunks, 0, enhance);
    forall i, j | 0 <= i < j < |all| ensures all[i].name != all[j].name {
      if j < |files| {
        if files[i].name == files[j].name {
          SegmentFileNamesDistinct(base, i, j);
        }
      } else if i < |files| {
        SegmentNameLacksDenoisedSuffix(base, i);
        assert all[j] == ef[j - |files|];
      } else {
        assert all[i] == ef[i - |files|] && all[j] == ef[j - |files|];
      }
    }
  }

  /** Each denoised file is in the folder, holding its own audio. */
  lemma WrittenDenoised(files: seq<WavFile>, ef: seq<WavFile>)
    requires DistinctNames(files + ef)
    ensures forall j :: 0 <= j < |ef| ==> ef[j].name in Written(files + ef) && Written(files + ef)[ef[j].name] == ef[j].audio
  {
    var all := files + ef;
    WrittenValues(all);
    forall j | 0 <= j < |ef| ensures ef[j].name in Written(all) && Written(all)[ef[j].name] == ef[j].audio {
      assert all[|files| + j] == ef[j];
    }
  }

  lemma MatchedIsDenoised(files: seq<WavFile>, ef: seq<WavFile>, suffix: string, y: string)
    requires forall i :: 0 <= i < |files| ==> !EndsWith(files[i].name, suffix + ".wav")
    requires y in Matching(Written(files + ef), suffix)
    ensures y in NamesOf(ef)
  {
    var all := files + ef;
    WrittenKeys(all);
    assert y in Written(all);
    var i :| 0 <= i < |all| && all[i].name == y;
    assert i >= |files|;
    assert all[i] == ef[i - |files|];
    assert NamesOf(ef)[i - |files|] == y;
  }

  /**
   * In a folder holding raw files without the suffix and denoised files with it,
   * the glob matches exactly the denoised files.
   */
  lemma MatchingDenoised(files: seq<WavFile>, ef: seq<WavFile>, suffix: string)
    requires DistinctNames(files + ef)
    requires forall i :: 0 <= i < |files| ==> !EndsWith(files[i].name, suffix + ".wav")
    requires forall j :: 0 <= j < |ef| ==> EndsWith(ef[j].name, suffix + ".wav")
    ensures forall y :: y in Matching(Written(files + ef), suffix) <==> y in NamesOf(ef)
  {
    var all := files + ef;
    var folder := Written(all);
    WrittenDenoised(files, ef);
    var names := NamesOf(ef);
    forall y | y in names ensures y in Matching(folder, suffix) {
      var j :| 0 <= j < |ef| && names[j] == y;
    }
    forall y | y in Matching(folder, suffix) ensures y in names {
      MatchedIsDenoised(files, ef, suffix, y);
    }
  }

  /** The enhanced chunks of successful segments, reassembled: the denoising pipeline end to end. */
  lemma PipelineReassembly(audio: Audio, base: string, len: nat, enhance: Audio -> Option<Audio>)
    requires len > 0
    ensures var ec := EnhancedChunks(Chunks(audio, len), enhance);
      Reassemble(ChoppedFolder(audio, base, len, enhance), DenoisedSuffix) ==
        if ec == [] then Failure(NoWavFilesWithSuffix(DenoisedSuffix)) else Success(Flatten(ec))
  {
    var chunks := Chunks(audio, len);
    var files := SplitFiles(audio, base, len);
    assert files == SegmentFilesFrom(base, chunks, 0);
    var ef := EnhancedFiles(files, enhance);
    var folder := Written(files + ef);
    assert folder == ChoppedFolder(audio, base, len, enhance);
    EnhancedFilesAudio(files, enhance);
    assert AudiosOf(files) == chunks;
    EnhancedSegmentNames(base, chunks, 0, enhance);
    ChoppedNamesDistinct(base, chunks, enhance);
    forall i | 0 <= i < |files| ensures !EndsWith(files[i].name, DenoisedSuffix + ".wav") {
      SegmentNameLacksDenoisedSuffix(base, i);
    }
    MatchingDenoised(files, ef, DenoisedSuffix);
    WrittenDenoised(files, ef);
    var names := NamesOf(ef);
    var matching := Matching(folder, DenoisedSuffix);
    assert StrictlySorted(DenoisedSuffix, names);
    SortedUnique(DenoisedSuffix, names, NaturalOrder(DenoisedSuffix, matching));
    assert Lookups(folder, names) == AudiosOf(ef);
  }

  /** With the identity as enhancement, splitting and recombining gives back the recording. */
  lemma IdentityEnhancementRoundTrip(audio: Audio, base: string, len: nat)
    requires len > 0 && |audio| > 0
    ensures Reassemble(ChoppedFolder(audio, base, len, x => Some(x)), DenoisedSuffix) == Success(audio)
  {
    var chunks := Chunks(audio, len);
    PipelineReassembly(audio, base, len, x => Some(x));
    EnhancedChunksIdentity(chunks);
    ChunksRoundTrip(audio, len);
    ChunkCount(audio, len);
  }

  lemma {:induction false} EnhancedChunksIdentity(chunks: seq<Audio>)
    ensures EnhancedChunks(chunks, x => Some(x)) == chunks
    decreases |chunks|
  {
    if chunks != [] {
      EnhancedChunksIdentity(chunks[1..]);
      assert chunks == [chunks[0]] + chunks[1..];
    }
  }

  /** An empty recording yields no segment at all, so reassembly raises. */
  lemma EmptyRecordingFailsAtReassembly(audio: Audio, base: string, len: nat, enhance: Audio -> Option<Audio>)
    requires len > 0 && |audio| == 0
    ensures Reassemble(ChoppedFolder(audio, base, len, enhance), DenoisedSuffix) == Failure(NoWavFilesWithSuffix(DenoisedSuffix))
  {
    PipelineReassembly(audio, base, len, enhance);
  }

  predicate PreservesLength(enhance: Audio -> Option<Audio>, x: Audio)
  {
    enhance(x).Some? ==> |enhance(x).value| == |x|
  }

  /**
   * Where it succeeds the enhancement keeps the duration, so the recombined
   * stream is never longer than the recording, and a segment whose enhancement
   * failed is missing from it rather than reported.
   */
  lemma {:induction false} EnhancedChunksLength(chunks: seq<Audio>, enhance: Audio -> Option<Audio>, k: nat)
    requires forall i :: 0 <= i < |chunks| ==> PreservesLength(enhance, chunks[i])
    ensures |Flatten(EnhancedChunks(chunks, enhance))| <= |Flatten(chunks)|
    ensures k < |chunks| && enhance(chunks[k]).None? ==>
      |Flatten(EnhancedChunks(chunks, enhance))| <= |Flatten(chunks)| - |chunks[k]|
    ensures (forall i :: 0 <= i < |chunks| ==> enhance(chunks[i]).Some?) ==>
      |Flatten(EnhancedChunks(chunks, enhance))| == |Flatten(chunks)|
    decreases |chunks|
  {
    if chunks != [] {
      var rest := EnhancedChunks(chunks[1..], enhance);
      EnhancedChunksLength(chunks[1..], enhance, if k > 0 then k - 1 else 0);
      FlattenCons(chunks[0], chunks[1..]);
      assert chunks == [chunks[0]] + chunks[1..];
      if enhance(chunks[0]).Some? {
        FlattenCons(enhance(chunks[0]).value, rest);
      }
      if k > 0 && k < |chunks| {
        assert chunks[1..][k - 1] == chunks[k];
      }
    }
  }

  /** A length-preserving enhancement that never fails gives a stream as long as the recording. */
  lemma LengthPreservingPipeline(audio: Audio, base: string, len: nat, enhance: Audio -> Option<Audio>)
    requires len > 0 && |audio| > 0
    requires forall x: Audio :: enhance(x).Some? && |enhance(x).value| == |x|
    ensures Reassemble(ChoppedFolder(audio, base, len, enhance), DenoisedSuffix).Success?
    ensures |Reassemble(ChoppedFolder(audio, base, len, enhance), DenoisedSuffix).value| == |audio|
  {
    var chunks := Chunks(audio, len);
    PipelineReassembly(audio, base, len, enhance);
    EnhancedChunksLength(chunks, enhance, 0);
    ChunksRoundTrip(audio, len);
    ChunkCount(audio, len);
    assert chunks != [];
    assert EnhancedChunks(chunks, enhance) != [] by {
      assert |EnhancedChunks(chunks, enhance)| > 0 by {
        var rest := EnhancedChunks(chunks[1..], enhance);
        assert EnhancedChunks(chunks, enhance) == [enhance(chunks[0]).value] + rest;
      }
    }
  }

  /**
   * When segment `k`'s enhancement fails and the denoiser preserves the length
   * of every stream it does enhance, reassembly still succeeds or fails only
   * for lack of files; it never reports the gap, and what it returns is
   * shorter than the recording.
   */
  lemma SkippedSegmentGoesUnreported(audio: Audio, base: string, len: nat, enhance: Audio -> Option<Audio>, k: nat)
    requires len > 0 && k < |Chunks(audio, len)|
    requires enhance(Chunks(audio, len)[k]).None?
    requires forall x: Audio :: PreservesLength(enhance, x)
    ensures var r := Reassemble(ChoppedFolder(audio, base, len, enhance), DenoisedSuffix);
      r.Success? ==> |r.value| < |audio|
  {
    var chunks := Chunks(audio, len);
    PipelineReassembly(audio, base, len, enhance);
    EnhancedChunksLength(chunks, enhance, k);
    ChunksRoundTrip(audio, len);
    ChunkAt(audio, len, k);
  }
}
