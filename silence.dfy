/**
 * `remove_silence`: the non-silent chunks that pydub's `split_on_silence`
 * returns (an opaque input here) are concatenated into one stream.
 */
module SilenceTrimmer {
  import opened Audio

  const DefaultMinSilenceLenMs := 500
  const DefaultSilenceThreshDbfs := -40
  const DefaultKeepSilenceMs := 100

  /**
   * `processed_audio = AudioSegment.empty()`, then `processed_audio += chunk`
   * for each chunk: the chunks in their given order, nothing between them.
   */
  method RemoveSilence(audioChunks: seq<Audio>) returns (processedAudio: Audio)
    ensures processedAudio == Flatten(audioChunks)
    ensures |processedAudio| == TotalLength(audioChunks)
    ensures forall k :: 0 <= k < |audioChunks| ==>
      Offset(audioChunks, k) + |audioChunks[k]| <= |processedAudio| &&
      processedAudio[Offset(audioChunks, k)..Offset(audioChunks, k) + |audioChunks[k]|] == audioChunks[k]
  {
    processedAudio := [];
    for i := 0 to |audioChunks|
      invariant processedAudio == Flatten(audioChunks[..i])
    {
      assert audioChunks[..i + 1] == audioChunks[..i] + [audioChunks[i]];
      FlattenSnoc(audioChunks[..i], audioChunks[i]);
      processedAudio := processedAudio + audioChunks[i];
    }
    assert audioChunks[..|audioChunks|] == audioChunks;
    FlattenLength(audioChunks);
    forall k | 0 <= k < |audioChunks|
      ensures Offset(audioChunks, k) + |audioChunks[k]| <= |processedAudio|
      ensures processedAudio[Offset(audioChunks, k)..Offset(audioChunks, k) + |audioChunks[k]|] == audioChunks[k]
    {
      FlattenSlice(audioChunks, k);
    }
  }
}
