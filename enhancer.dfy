/**
 * `remove_noise_from_folder`: each file of the segment folder is passed
 * through the denoiser and the result is saved next to it as
 * `stem + "_noiseRemovedDF" + ".wav"`. The denoiser itself is an opaque
 * function; `None` stands for an exception, which the source prints and
 * skips.
 */
module Enhancer {
  import opened Wrappers
  import opened Audio
  import opened Paths

  const DenoisedSuffix := "_noiseRemovedDF"

  /** The file name the enhanced counterpart of `name` is saved under. */
  function EnhancedFileName(name: string): string
  {
    Stem(name) + DenoisedSuffix + ".wav"
  }

  /** `file_path.parent / (file_path.stem + denoised_suffix + ".wav")`. */
  function EnhancedPath(filePath: string): string
  {
    var p := Parse(filePath);
    Render(Join(Parent(p), Parse(EnhancedFileName(Name(p)))))
  }

  /** The enhanced name has the input's stem followed by the denoised suffix, and extension ".wav". */
  lemma EnhancedFileNameShape(name: string)
    requires '/' !in name
    ensures IsComponent(EnhancedFileName(name))
    ensures Stem(EnhancedFileName(name)) == Stem(name) + DenoisedSuffix
    ensures Suffix(EnhancedFileName(name)) == ".wav"
  {
    StemHasNoSlash(name);
    DenoisedNameOf(Stem(name));
  }

  lemma DenoisedNameOf(stem: string)
    requires '/' !in stem
    ensures IsComponent(stem + DenoisedSuffix + ".wav")
    ensures Stem(stem + DenoisedSuffix + ".wav") == stem + DenoisedSuffix
    ensures Suffix(stem + DenoisedSuffix + ".wav") == ".wav"
  {
    StemAndSuffixOf(stem + DenoisedSuffix, ".wav");
  }

  /**
   * The enhanced file is saved in the same directory as its input, under
   * the input's stem followed by the denoised suffix, with extension ".wav".
   */
  lemma EnhancedPathSameDirectory(filePath: string)
    requires Name(Parse(filePath)) != ""
    ensures Parent(Parse(EnhancedPath(filePath))) == Parent(Parse(filePath))
    ensures Name(Parse(EnhancedPath(filePath))) == EnhancedFileName(Name(Parse(filePath)))
    ensures Stem(Name(Parse(EnhancedPath(filePath)))) == Stem(Name(Parse(filePath))) + DenoisedSuffix
    ensures Suffix(Name(Parse(EnhancedPath(filePath)))) == ".wav"
  {
    var p := Parse(filePath);
    assert IsComponent(Name(p));
    EnhancedFileNameShape(Name(p));
    Rename(p, EnhancedFileName(Name(p)));
  }

  /**
   * The files the denoising loop adds, in the order of `files`: one per
   * file whose enhancement succeeds, none for a file whose enhancement fails.
   */
  function EnhancedFiles(files: seq<WavFile>, enhance: Audio -> Option<Audio>): (out: seq<WavFile>)
    ensures |out| <= |files|
  {
    if files == [] then []
    else
      var rest := EnhancedFiles(files[1..], enhance);
      match enhance(files[0].audio)
      case Some(e) => [WavFile(EnhancedFileName(files[0].name), e)] + rest
      case None => rest
  }
}
