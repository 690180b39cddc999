# Denoising pipeline for voice recordings, modelled in Dafny

`process_record.py` cleans up voice recordings in several steps:

1. `split_audio` cuts the decoded recording into one-minute segments. Each segment is saved as `<base>_part<i+1>.wav`.
2. `remove_noise_from_folder` denoises every segment. Each result is saved next to its input as `<stem>_noiseRemovedDF.wav`.
3. `combine_wav_files_with_suffix` reassembles the output. It globs the denoised files, sorts their names in natural order and concatenates their audio.

`remove_silence` joins the non-silent chunks that pydub finds. `add_suffix_before_extension` inserts a text between a file's stem and its extension. `process_record_ui.py` chains split, denoise and combine.

This project models the arithmetic, naming, ordering and accumulation logic of those functions. It proves what they guarantee.

- **Audio** is a sequence of frames, one frame per millisecond. `len(audio)` is the sequence length and `audio[a:b]` is a slice.
- **Folder.** A folder of WAV files is a map from file name to audio. Writing files one after another is a sequence of map updates.
- **Paths.** `pathlib.PurePosixPath` is modelled as an anchor plus components. This covers parsing, `str`, `/`, `.parent`, `.name`, `.stem` and `.suffix` (Python 3.12 rule). `os.path.basename` and the root half of `os.path.splitext` are modelled too.
- **Decimal.** The decimal rendering of `i+1` in segment names is modelled together with its read-back, because the natural sort relies on it.
- **Natural order.** natsort's ordering is modelled as a key plus a tie-break:
  - the key is the part number that sits right before `<suffix>.wav`, and is 0 for other names;
  - names with the same key are compared by code point.

  It is proved to be a strict total order. `natsorted` of a set of names is therefore the unique strictly sorted enumeration of that set.
- **Denoiser.** The denoiser is an opaque function `Audio -> Option<Audio>`. `None` stands for an exception that the loop catches and prints; that file is skipped.
- **Methods.** The three accumulation loops are methods with loop invariants, proved against reference definitions:
  - the segment export loop of `split_audio`;
  - `combined += audio` in `combine_wav_files_with_suffix`;
  - `processed_audio += chunk` in `remove_silence`.

The central result is `Pipeline.PipelineReassembly`. Split the recording, denoise every segment in its folder, then combine with the suffix `_noiseRemovedDF`. The result is the denoised audio of exactly the segments whose enhancement succeeded, in segment order. If no segment was enhanced, the result is the "no WAV files" error. Its corollaries:

- with the identity as denoiser, the round trip returns a non-empty recording unchanged;
- an empty recording fails only at reassembly;
- a denoiser that never fails and preserves length keeps the duration of a non-empty recording;
- with a denoiser that preserves the length of what it enhances, a skipped segment silently shortens the output.

Some behaviours of the code may surprise a reader. The model follows the code:

- **Empty recording.** One might expect segmentation of an empty recording to fail. `split_audio` raises nothing here: `math.ceil(0 / L)` is 0, so it exports no segment and returns the folder. The failure comes later, from `combine_wav_files_with_suffix` (`ValueError`, modelled as `NoWavFilesWithSuffix`). See `Pipeline.EmptyRecordingFailsAtReassembly`.
- **Skipped segments.** One might expect a gap in the segment sequence to be reported. The code has no such check. A segment whose enhancement raised is left out and the remaining ones are concatenated. See `Pipeline.SkippedSegmentGoesUnreported`.
- **Zero segment length.** `segment_length_ms == 0` raises `ZeroDivisionError` inside the `try`. The error is printed and `split_audio` returns `None`. This is `Failure(DivisionByZero)` in `Segmenter.SplitAudio`.
- **Negative segment length.** A negative length gives `ceil(...) <= 0` segments, so nothing is exported and no error is raised.

## Model

| member | source | states |
|---|---|---|
| Audio.Flatten | process_record.py:190-193 | definition: the streams concatenated in order, as `acc += chunk` from an empty segment builds it; its properties are FlattenLength, FlattenAppend and FlattenSlice |
| Audio.Written | process_record.py:73 | definition: the folder after the files are exported in order, a later file replacing an earlier one of the same name; its properties are WrittenKeys and WrittenValues |
| Audio.FlattenLength | process_record.py:190-193 | the concatenation of a list of streams is as long as the sum of their lengths |
| Audio.FlattenAppend | process_record.py:190-193 | concatenating two lists of streams concatenates their concatenations |
| Audio.FlattenSlice | process_record.py:130-132 | in the concatenation, chunk k occupies exactly the frames from its offset (total length of the chunks before it) on, with nothing inserted |
| Audio.WrittenKeys | process_record.py:73 | after the files are exported into a folder, a name is in the folder exactly when some exported file has that name |
| Audio.WrittenValues | process_record.py:73 | when the exported names are distinct, each file in the folder holds the audio exported under its name |
| Decimal.NatToDecimal | process_record.py:70 | `{i+1}` renders a number as a non-empty string of decimal digits with no leading zero, and 0 renders as exactly "0" |
| Decimal.DecimalRoundTrip | process_record.py:184 | reading the rendered digits back as a number gives the number |
| Decimal.NatToDecimalInjective | process_record.py:70 | distinct numbers render differently |
| Paths.Render | process_record.py:155 | definition of `str(path)`, with "." for the empty relative path; ParseRender proves it inverse to Parse |
| Paths.Parent | process_record.py:154 | definition of `.parent`: the path without its last component, an anchor or "." being its own parent; used by Rename and the AddSuffix lemmas |
| Paths.Name | process_record.py:153 | definition of `.name`: the last component or ""; used by Rename and the AddSuffix lemmas |
| Paths.Suffix | process_record.py:154 | definition of `.suffix`: from the last dot, unless that dot is first or last; Stem and StemAndSuffixOf state its relation to the name |
| Paths.AddSuffixBeforeExtension | process_record.py:151-155 | definition of `add_suffix_before_extension`; its properties are AddEmptySuffix, AddSuffixKeepsDirectoryAndExtension and AddSuffixWithoutExtension |
| Paths.Parse | process_record.py:151 | `Path(s)` gives an anchor "", "/" or "//" and components none of which is empty, "." or contains "/" |
| Paths.Join | process_record.py:154 | `p / q` of well-formed paths is well formed |
| Paths.RFind | process_record.py:153 | the index found holds the character and no later index does, or -1 when there is none |
| Paths.Stem | process_record.py:153 | `.stem` followed by `.suffix` is the name again |
| Paths.StemHasNoSlash | process_record.py:153 | the stem of a slash-free name is slash-free |
| Paths.StemAndSuffixOf | process_record.py:153-154 | a name `head + ".ext"` with a non-empty `head` and a dot-free `ext` has stem `head` and suffix `".ext"`, and is one component when both parts are slash-free |
| Paths.ParseRender | process_record.py:155 | `Path(str(p)) == p` for every well-formed path |
| Paths.JoinComponent | process_record.py:154 | `dir / name` for one component appends exactly that component to `dir` |
| Paths.Rename | process_record.py:100 | `p.parent / new_name`, rendered and parsed again, has p's parent and the new name |
| Paths.AddEmptySuffix | process_record.py:151-155 | with an empty suffix the result is the normalized input path, and exactly the input when it is already normalized |
| Paths.AddSuffixKeepsDirectoryAndExtension | process_record.py:151-155 | for a name with an extension and a slash-free suffix: same parent, same extension, stem = old stem + suffix, name = old stem + suffix + extension |
| Paths.SuffixInsertion | process_record.py:153-154 | inserting slash-free text between stem and extension of a component gives a component with the extended stem and the same extension |
| Paths.AddSuffixWithoutExtension | process_record.py:151-155 | for a non-empty name without extension and a suffix with no dot or slash (and, when the suffix is non-empty, a name not ending in "."): same parent, the suffix appended to the name, and still no extension |
| Paths.OsBasename | process_record.py:55 | `os.path.basename` is a slash-free tail of the path |
| Paths.OsBasenameAfterLastSlash | process_record.py:55 | that tail is the whole path or starts right after a slash, so it is the text after the last slash |
| Paths.BasenameExamples | process_record.py:55 | basename of "in/rec.wav" and of "rec.wav" is "rec.wav"; of "in/" it is "" |
| Paths.OsSplitextRoot | process_record.py:55 | `os.path.splitext(name)[0]`: when it cuts, it cuts at the last dot; it leaves the name whole exactly when the last component has no dot or only dots before its last dot (a leading-dot name such as ".bashrc"); slash-free for a slash-free name |
| Paths.SplitextExamples | process_record.py:55 | "a.b.c" gives "a.b"; ".bashrc", "..x" and "d.x/b" are left whole |
| Segmenter.SegmentStart | process_record.py:66 | definition of `start_time = i * L`; SegmentsContiguous and SegmentsCover state how the segments tile the recording |
| Segmenter.SegmentEnd | process_record.py:67 | definition of `end_time = min((i + 1) * L, total)`; see SegmentLengths and SegmentsCover |
| Segmenter.Chunks | process_record.py:65-69 | reference segmentation, `L` frames at a time from the front; ChunkAt, ChunkCount, ChunksRoundTrip and SegmentLengths state what it is |
| Segmenter.SegmentFileName | process_record.py:70 | definition of `f"{base}_part{i+1}.wav"`; see SegmentFileNameShape and SegmentFileNamesDistinct |
| Segmenter.CeilDiv | process_record.py:53 | `math.ceil(total / L)`: for L > 0 the least n with n*L >= total; for L < 0 at most 0 |
| Segmenter.CeilDivStep | process_record.py:53 | one segment more is needed for L more milliseconds |
| Segmenter.ChunkCount | process_record.py:53 | the reference segmentation has `ceil(total / L)` segments |
| Segmenter.ChunkAt | process_record.py:65-69 | segment i is `audio[i*L : min((i+1)*L, total)]`, a non-empty slice |
| Segmenter.SegmentsContiguous | process_record.py:66-67 | each segment ends where the next one starts |
| Segmenter.SegmentsCover | process_record.py:66-67 | the first segment starts at 0 and the last ends at the total duration |
| Segmenter.SegmentLengths | process_record.py:66-69 | every segment but the last lasts exactly L, the last between 1 and L |
| Segmenter.ChunksRoundTrip | process_record.py:65-69 | concatenating the segments in order gives the recording back |
| Segmenter.ChunksTotalLength | process_record.py:65-69 | the segment lengths add up to the total duration |
| Segmenter.ShortRecordingIsOneSegment | process_record.py:53-69 | a non-empty recording no longer than L is one segment equal to the whole recording |
| Segmenter.ExampleSegmentation | process_record.py:53-69 | 150000 ms in segments of the default 60000 ms are three segments of 60000, 60000 and 30000 ms |
| Segmenter.SplitBase | process_record.py:55 | the base name of the segment files contains no slash |
| Segmenter.SegmentFileNamesDistinct | process_record.py:70 | distinct segment numbers give distinct file names |
| Segmenter.SegmentFileNameShape | process_record.py:70 | `<base>_part<i+1>.wav` has stem `<base>_part<i+1>` and suffix ".wav", and is one component for a slash-free base |
| Segmenter.SplitFiles | process_record.py:65-73 | one exported file per segment |
| Segmenter.SplitAudio | process_record.py:39-78 | fails exactly for L == 0; for L > 0 exports segment i as `<base>_part<i+1>.wav` in order; for L < 0 exports nothing |
| Enhancer.EnhancedFileName | process_record.py:100 | definition of `stem + "_noiseRemovedDF" + ".wav"`; see EnhancedFileNameShape |
| Enhancer.EnhancedPath | process_record.py:100 | definition of `file_path.parent / (...)` rendered; see EnhancedPathSameDirectory |
| Enhancer.EnhancedFileNameShape | process_record.py:100 | the denoised name is one component whose stem is the input's stem + `_noiseRemovedDF` and whose suffix is ".wav" |
| Enhancer.DenoisedNameOf | process_record.py:100 | `stem + "_noiseRemovedDF" + ".wav"` has exactly that stem + suffix and extension ".wav" |
| Enhancer.EnhancedPathSameDirectory | process_record.py:100 | the denoised file goes to the input's directory, under the denoised name |
| Enhancer.EnhancedFiles | process_record.py:91-104 | the denoising loop writes at most one file per input file |
| Reassembler.Matching | process_record.py:181 | definition of the glob `**/*<suffix>.wav` on a flat folder; see ReassembleFailsIffNoMatch and MatchingDenoised |
| Reassembler.PartNumber | process_record.py:184 | definition of the sort key; PartNumberOf states its value on segment names |
| Reassembler.NaturalLess | process_record.py:184 | definition of the natural order; NaturalOrderIsStrictTotal proves it a strict total order |
| Reassembler.Reassemble | process_record.py:180-193 | definition of what the combine step computes from a folder; see ReassembleFailsIffNoMatch and CombineWavFilesWithSuffix |
| Reassembler.OutputPath | process_record.py:196 | definition of `output_path / output_filename` as a string; see OutputPathInFolder |
| Reassembler.TrailingDigits | process_record.py:184 | counts exactly the digits at the end of a name chunk |
| Reassembler.PartNumberOf | process_record.py:184 | the sort key of `<prefix>_part<k><suffix>.wav` is k |
| Reassembler.LexIrreflexive | process_record.py:184 | no name sorts before itself by code point |
| Reassembler.LexTransitive | process_record.py:184 | code-point order is transitive |
| Reassembler.LexTotal | process_record.py:184 | any two different names are ordered by code point one way or the other |
| Reassembler.NaturalOrderIsStrictTotal | process_record.py:184 | natural order is irreflexive, transitive and total on distinct names |
| Reassembler.InsertSorted | process_record.py:184 | inserting a new name into a naturally sorted list keeps it sorted and adds just that name |
| Reassembler.LeastExists | process_record.py:184 | every non-empty set of names has a naturally least one |
| Reassembler.NaturalOrder | process_record.py:184 | `natsorted` of a set: strictly sorted, holding exactly the names of the set |
| Reassembler.SortedUnique | process_record.py:184 | two strictly sorted lists with the same names are equal, so the result does not depend on glob order |
| Reassembler.Lookups | process_record.py:191-192 | one loaded stream per name, in the order of the names |
| Reassembler.ReassembleFailsIffNoMatch | process_record.py:186-187 | reassembly fails exactly when no name ends in `<suffix>.wav` |
| Reassembler.OutputPathInFolder | process_record.py:196 | a plain output file name lands directly inside the output folder |
| Reassembler.NatSorted | process_record.py:183-184 | the names, whatever order they arrive in, come out as their natural order |
| Reassembler.Concatenate | process_record.py:190-193 | the accumulator ends as the concatenation of the files' audio in list order |
| Reassembler.CombineWavFilesWithSuffix | process_record.py:157-199 | fails with the suffix exactly when nothing matches; otherwise the combined audio of the matching files in natural order, exported as `output_folder / output_filename` |
| SilenceTrimmer.RemoveSilence | process_record.py:130-132 | the output is the chunks in order with nothing between them; its length is the sum of the chunk lengths and chunk k sits at its offset |
| Pipeline.ChoppedFolder | process_record_ui.py:20-21 | definition of the segment folder after splitting and denoising; see WrittenDenoised and MatchingDenoised |
| Pipeline.EnhancedChunks | process_record.py:91-104 | specification of the denoising loop on audio alone: the enhanced audio of the chunks that succeed, in order; EnhancedFilesAudio ties it to the files written |
| Pipeline.EnhancedSegmentFileName | process_record.py:100 | segment i's denoised file is `<base>_part<i+1>_noiseRemovedDF.wav` |
| Pipeline.SegmentPartNumber | process_record.py:70 | the sort key of segment i's file name is i+1 |
| Pipeline.EnhancedPartNumber | process_record.py:100 | segment i's denoised name matches the glob and has sort key i+1 |
| Pipeline.SegmentNameLacksDenoisedSuffix | process_record.py:181 | raw segment names never match `*_noiseRemovedDF.wav` |
| Pipeline.SegmentNamesInNaturalOrder | process_record.py:184 | denoised segment names of one recording are in natural order exactly when their segment numbers are |
| Pipeline.NaturalOrderExample | process_record.py:184 | part2 sorts before part9, and part9 before part10 |
| Pipeline.NaturalSortScenario | process_record.py:184 | `natsorted` of the part9, part10 and part2 names is part2, part9, part10 |
| Pipeline.EnhancedFilesAudio | process_record.py:91-101 | the denoising loop writes the enhanced audio of the successful files, in their order |
| Pipeline.EnhancedNamesKeyed | process_record.py:100 | denoised names whose keys rise stay rising after failed files are dropped |
| Pipeline.EnhancedSegmentNames | process_record.py:100 | the denoised segment files all match the glob and carry strictly rising sort keys |
| Pipeline.ChoppedNamesDistinct | process_record.py:100 | no two files in the segment folder share a name, raw or denoised |
| Pipeline.WrittenDenoised | process_record.py:101 | each denoised file is in the folder with its own audio |
| Pipeline.MatchingDenoised | process_record.py:181 | the glob on the segment folder matches exactly the denoised files |
| Pipeline.PipelineReassembly | process_record_ui.py:20-27 | split, denoise, combine gives the concatenated denoised audio of the segments that succeeded, in segment order, or the no-files error when none did |
| Pipeline.IdentityEnhancementRoundTrip | process_record_ui.py:20-27 | with the identity as denoiser, the pipeline returns a non-empty recording unchanged |
| Pipeline.EmptyRecordingFailsAtReassembly | process_record_ui.py:20-27 | an empty recording ends in the no-files error from the combine step |
| Pipeline.EnhancedChunksLength | process_record.py:103-104 | with a length-preserving denoiser the successful segments are no longer than the recording, exactly as long when none fails, and a failed segment's length is missing |
| Pipeline.LengthPreservingPipeline | process_record_ui.py:20-27 | for a non-empty recording, a denoiser that never fails and keeps durations makes the combine step succeed with output exactly as long as the recording |
| Pipeline.SkippedSegmentGoesUnreported | process_record.py:103-104 | with a denoiser that preserves the length of every stream it enhances, a segment whose enhancement raised makes a successful output strictly shorter than the recording, and no error names it |

## Left out

- `transform_m4a_to_wav` is left out: it is container decoding and re-encoding through pydub and ffmpeg, which is I/O.
- The DeepFilterNet model is an opaque parameter `Audio -> Option<Audio>`. `init_df`, `load_audio`, resampling and `save_audio` are a foreign library.
- `silence.split_on_silence` is an input to `SilenceTrimmer.RemoveSilence`. Its dBFS threshold detection is unseen library code using floating point. The three keyword defaults are kept as constants only.
- `increase_wav_gain` is left out: it applies a floating-point dB gain.
- `generate_timestamp` is left out: it reads the wall clock.
- `process_record_ui.py` is modelled only as the order of calls in `Pipeline`. Gradio, the workdir and server launch are I/O.
- Exporting at 48 kHz, `os.makedirs`, `mkdir`, `print` and the `assert os.path.isfile` check are not modelled. Neither is the sample-format syncing pydub does when concatenating.
- Segmenter.SplitAudio receives the decoded audio as an argument. It does not model the chopped directory's `os.path.join`/`os.path.dirname` path. It does not model the `None` returned when loading or exporting fails.
- Segmenter.CeilDiv uses exact integer arithmetic. Python's float division differs only for durations above 2^53 ms.
- Segmenter.SplitAudio takes an integer segment length. Float lengths, and thus fractional slice bounds, are not modelled.
- Enhancer.EnhancedFiles goes through the split files in segment order and starts from a folder holding only them. On Python 3.12, `iterdir` lists the folder once before the loop starts. Files already in a reused `_chopped` folder are not modelled, and neither is the `is_file` test.
- Reassembler.Matching models the recursive glob `**/*<suffix>.wav` on a flat folder. Subdirectories and glob metacharacters inside the suffix are not modelled.
- Reassembler.NaturalLess orders by the part number before `<suffix>.wav`, then by code point. It matches natsort for segment names of one recording, but not for arbitrary names: natsort compares every digit run. natsorted sorts full path strings, whose common folder prefix does not change the order.
- Paths.Suffix follows Python 3.12. Python 3.14 also treats a trailing-dot name as having a suffix, and that is not modelled.
- String contents are sequences of code points. Unicode normalisation and byte encodings of file names are not modelled.
