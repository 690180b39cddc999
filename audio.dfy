/**
 * Audio as pydub's AudioSegment presents it to the pipeline: an ordered
 * sequence of one-millisecond frames, so that `len(audio)` is the length of
 * the sequence, `audio[a:b]` is a slice and `+` is concatenation.
 * A folder of WAV files maps each file name to the audio stored in it.
 */
module Audio {

  /** One PCM sample value; its encoding is not modelled. */
  type Sample = int

  /** The samples (of every channel) that make up one millisecond of sound. */
  type Frame = seq<Sample>

  type Audio = seq<Frame>

  /** The concatenation of `chunks` in order: what `acc += chunk` onto an empty segment builds. */
  function Flatten(chunks: seq<Audio>): Audio
  {
    if chunks == [] then [] else Flatten(chunks[..|chunks| - 1]) + chunks[|chunks| - 1]
  }

  /** The sum of the lengths of `chunks`. */
  function TotalLength(chunks: seq<Audio>): nat
  {
    if chunks == [] then 0 else TotalLength(chunks[..|chunks| - 1]) + |chunks[|chunks| - 1]|
  }

  /** Where chunk `k` starts in `Flatten(chunks)`. */
  function Offset(chunks: seq<Audio>, k: nat): nat
    requires k <= |chunks|
  {
    TotalLength(chunks[..k])
  }

  lemma {:induction false} FlattenLength(chunks: seq<Audio>)
    ensures |Flatten(chunks)| == TotalLength(chunks)
  {
    if chunks != [] {
      FlattenLength(chunks[..|chunks| - 1]);
    }
  }

  lemma {:induction false} FlattenAppend(a: seq<Audio>, b: seq<Audio>)
    ensures Flatten(a + b) == Flatten(a) + Flatten(b)
    decreases |b|
  {
    if b == [] {
      assert a + b == a;
    } else {
      assert (a + b)[..|a + b| - 1] == a + b[..|b| - 1];
      FlattenAppend(a, b[..|b| - 1]);
    }
  }

  lemma FlattenCons(c: Audio, cs: seq<Audio>)
    ensures Flatten([c] + cs) == c + Flatten(cs)
  {
    FlattenAppend([c], cs);
    assert [c][..0] == [];
  }

  lemma FlattenSnoc(cs: seq<Audio>, c: Audio)
    ensures Flatten(cs + [c]) == Flatten(cs) + c
  {
    assert (cs + [c])[..|cs|] == cs;
  }

  /** Each chunk sits, unchanged, at its offset in the concatenation: nothing is inserted or lost. */
  lemma FlattenSlice(chunks: seq<Audio>, k: nat)
    requires k < |chunks|
    ensures Offset(chunks, k) + |chunks[k]| <= |Flatten(chunks)|
    ensures Flatten(chunks)[Offset(chunks, k)..Offset(chunks, k) + |chunks[k]|] == chunks[k]
  {
    var pre, post := chunks[..k], chunks[k + 1..];
    assert chunks == pre + [chunks[k]] + post;
    FlattenAppend(pre + [chunks[k]], post);
    FlattenSnoc(pre, chunks[k]);
    FlattenLength(pre);
  }

  /** One file of a folder: its name (without directory) and the audio it holds. */
  datatype WavFile = WavFile(name: string, audio: Audio)

  /** A directory of WAV files, by file name. */
  type Folder = map<string, Audio>

  /** The folder after exporting `files` in order; a later file replaces an earlier one of the same name. */
  function Written(files: seq<WavFile>): Folder
  {
    if files == [] then map[]
    else Written(files[..|files| - 1])[files[|files| - 1].name := files[|files| - 1].audio]
  }

  predicate DistinctNames(files: seq<WavFile>)
  {
    forall i, j :: 0 <= i < j < |files| ==> files[i].name != files[j].name
  }

  /** The folder holds exactly the names written to it. */
  lemma {:induction false} WrittenKeys(files: seq<WavFile>)
    ensures forall x :: x in Written(files) <==> exists i :: 0 <= i < |files| && files[i].name == x
    decreases |files|
  {
    if files != [] {
      var init, last := files[..|files| - 1], files[|files| - 1];
      WrittenKeys(init);
      assert Written(files) == Written(init)[last.name := last.audio];
      forall x | x in Written(files) ensures exists i :: 0 <= i < |files| && files[i].name == x {
        if x != last.name {
          var i :| 0 <= i < |init| && init[i].name == x;
          assert files[i].name == x;
        }
      }
      forall i | 0 <= i < |files| ensures files[i].name in Written(files) {
        if i < |files| - 1 {
          assert init[i] == files[i];
        }
      }
    }
  }

  /** With distinct names, each written file keeps its own audio. */
  lemma {:induction false} WrittenValues(files: seq<WavFile>)
    requires DistinctNames(files)
    ensures forall i :: 0 <= i < |files| ==> files[i].name in Written(files) && Written(files)[files[i].name] == files[i].audio
    decreases |files|
  {
    if files != [] {
      var init, last := files[..|files| - 1], files[|files| - 1];
      assert DistinctNames(init);
      WrittenValues(init);
      assert Written(files) == Written(init)[last.name := last.audio];
      forall i | 0 <= i < |files| - 1
        ensures files[i].name in Written(files) && Written(files)[files[i].name] == files[i].audio
      {
        assert init[i] == files[i];
        assert files[i].name != last.name;
      }
    }
  }
}
