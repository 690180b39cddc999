/**
 * `combine_wav_files_with_suffix`: take the files of a folder whose names
 * end in `<suffix>.wav`, put them in natural order, and concatenate their
 * audio into one stream saved as `output_folder / output_filename`.
 */
module Reassembler {
  import opened Wrappers
  import opened Audio
  import opened Decimal
  import opened Paths

  datatype CombineError = NoWavFilesWithSuffix(suffix: string)

  /** What the combined stream is exported as. */
  datatype Export = Export(path: string, audio: Audio)

  predicate EndsWith(s: string, t: string)
  {
    |t| <= |s| && s[|s| - |t|..] == t
  }

  /** The names the pattern `*<suffix>.wav` matches in a flat folder. */
  function Matching(folder: Folder, suffix: string): set<string>
  {
    set n | n in folder && EndsWith(n, suffix + ".wav")
  }

  /** The number of digits at the end of `m`. */
  function TrailingDigits(m: string): (k: nat)
    ensures k <= |m|
    ensures forall i :: |m| - k <= i < |m| ==> IsDigit(m[i])
    ensures k < |m| ==> !IsDigit(m[|m| - k - 1])
  {
    if m != [] && IsDigit(m[|m| - 1]) then 1 + TrailingDigits(m[..|m| - 1]) else 0
  }

  /**
   * The sort key: the part number of a name `<prefix>_part<digits><suffix>.wav`,
   * and 0 for a name of any other shape.
   */
  function PartNumber(name: string, suffix: string): nat
  {
    var tail := suffix + ".wav";
    if !EndsWith(name, tail) then 0
    else
      var m := name[..|name| - |tail|];
      var k := TrailingDigits(m);
      var digits := m[|m| - k..];
      assert AllDigits(digits) by {
        forall i | 0 <= i < |digits| ensures IsDigit(digits[i]) {
          assert digits[i] == m[|m| - k + i];
        }
      }
      if k > 0 && EndsWith(m[..|m| - k], "_part") then DecimalValue(digits) else 0
  }

  lemma TrailingDigitsAfter(a: string, d: string)
    requires a != [] && !IsDigit(a[|a| - 1]) && AllDigits(d)
    ensures TrailingDigits(a + d) == |d|
    decreases |d|
  {
    if d != [] {
      assert (a + d)[..|a + d| - 1] == a + d[..|d| - 1];
      TrailingDigitsAfter(a, d[..|d| - 1]);
    } else {
      assert a + d == a;
    }
  }

  /** The key of a name built as `<prefix>_part<k><suffix>.wav` is `k`. */
  lemma PartNumberOf(prefix: string, k: nat, suffix: string)
    ensures PartNumber(prefix + "_part" + NatToDecimal(k) + suffix + ".wav", suffix) == k
  {
    var d := NatToDecimal(k);
    var head := prefix + "_part";
    var name := head + d + suffix + ".wav";
    var m := head + d;
    assert name == m + (suffix + ".wav");
    assert name[..|name| - |suffix + ".wav"|] == m;
    TrailingDigitsAfter(head, d);
    assert m[..|m| - |d|] == head && m[|m| - |d|..] == d;
    DecimalRoundTrip(k);
  }

  /** Code-point order on strings, as Python compares `str` values. */
  predicate LexLess(a: string, b: string)
  {
    if a == [] then b != []
    else if b == [] then false
    else if a[0] != b[0] then a[0] < b[0]
    else LexLess(a[1..], b[1..])
  }

  lemma {:induction false} LexIrreflexive(a: string)
    ensures !LexLess(a, a)
  {
    if a != [] {
      LexIrreflexive(a[1..]);
    }
  }

  lemma {:induction false} LexTransitive(a: string, b: string, c: string)
    requires LexLess(a, b) && LexLess(b, c)
    ensures LexLess(a, c)
  {
    if a != [] && b != [] && c != [] && a[0] == b[0] && b[0] == c[0] {
      LexTransitive(a[1..], b[1..], c[1..]);
    }
  }

  lemma {:induction false} LexTotal(a: string, b: string)
    requires a != b
    ensures LexLess(a, b) || LexLess(b, a)
  {
    if a != [] && b != [] && a[0] == b[0] {
      assert a == [a[0]] + a[1..] && b == [b[0]] + b[1..];
      LexTotal(a[1..], b[1..]);
    }
  }

  /**
   * The natural order of names: by part number, so that part2 < part9 <
   * part10, and by plain text between names with the same number.
   */
  predicate NaturalLess(suffix: string, a: string, b: string)
  {
    || PartNumber(a, suffix) < PartNumber(b, suffix)
    || (PartNumber(a, suffix) == PartNumber(b, suffix) && LexLess(a, b))
  }

  /** The natural order is a strict total order. */
  lemma NaturalOrderIsStrictTotal(suffix: string, a: string, b: string, c: string)
    ensures !NaturalLess(suffix, a, a)
    ensures NaturalLess(suffix, a, b) && NaturalLess(suffix, b, c) ==> NaturalLess(suffix, a, c)
    ensures a != b ==> NaturalLess(suffix, a, b) || NaturalLess(suffix, b, a)
  {
    LexIrreflexive(a);
    if NaturalLess(suffix, a, b) && NaturalLess(suffix, b, c) && LexLess(a, b) && LexLess(b, c) {
      LexTransitive(a, b, c);
    }
    if a != b {
      LexTotal(a, b);
    }
  }

  predicate StrictlySorted(suffix: string, s: seq<string>)
  {
    forall i, j :: 0 <= i < j < |s| ==> NaturalLess(suffix, s[i], s[j])
  }

  /** Inserting a new name into a sorted list keeps it sorted and adds just that name. */
  function InsertSorted(suffix: string, s: seq<string>, x: string): (r: seq<string>)
    requires StrictlySorted(suffix, s) && x !in s
    ensures StrictlySorted(suffix, r)
    ensures forall y :: y in r <==> y in s || y == x
    ensures |r| == |s| + 1
  {
    if s == [] then [x]
    else if NaturalLess(suffix, x, s[0]) then
      assert forall j :: 0 < j < |s| ==> NaturalLess(suffix, x, s[j]) by {
        forall j | 0 < j < |s| ensures NaturalLess(suffix, x, s[j]) {
          NaturalOrderIsStrictTotal(suffix, x, s[0], s[j]);
        }
      }
      [x] + s
    else
      NaturalOrderIsStrictTotal(suffix, x, s[0], x);
      var tail := InsertSorted(suffix, s[1..], x);
      assert forall y :: y in tail ==> NaturalLess(suffix, s[0], y);
      [s[0]] + tail
  }

  /** A non-empty set of names has a least one in the natural order. */
  lemma {:induction false} LeastExists(suffix: string, names: set<string>)
    requires names != {}
    ensures exists m :: m in names && forall y :: y in names && y != m ==> NaturalLess(suffix, m, y)
    decreases names
  {
    var x :| x in names;
    if names != {x} {
      var rest := names - {x};
      LeastExists(suffix, rest);
      var m :| m in rest && forall y :: y in rest && y != m ==> NaturalLess(suffix, m, y);
      NaturalOrderIsStrictTotal(suffix, x, m, x);
      if NaturalLess(suffix, x, m) {
        forall y | y in names && y != x ensures NaturalLess(suffix, x, y) {
          if y != m {
            NaturalOrderIsStrictTotal(suffix, x, m, y);
          }
        }
      } else {
        assert x != m && NaturalLess(suffix, m, x);
        forall y | y in names && y != m ensures NaturalLess(suffix, m, y) {
          if y != x {
            assert y in rest;
          }
        }
      }
    }
  }

  /** `natsorted` of a set of names: the names, each once, in natural order. */
  ghost function NaturalOrder(suffix: string, names: set<string>): (s: seq<string>)
    ensures StrictlySorted(suffix, s)
    ensures forall y :: y in s <==> y in names
    decreases names
  {
    if names == {} then []
    else
      LeastExists(suffix, names);
      var m :| m in names && forall y :: y in names && y != m ==> NaturalLess(suffix, m, y);
      var tail := NaturalOrder(suffix, names - {m});
      [m] + tail
  }

  /** Two sorted lists of the same names are the same list: the order does not depend on listing order. */
  lemma {:induction false} SortedUnique(suffix: string, a: seq<string>, b: seq<string>)
    requires StrictlySorted(suffix, a) && StrictlySorted(suffix, b)
    requires forall y :: y in a <==> y in b
    ensures a == b
    decreases |a|
  {
    if a != [] {
      assert a[0] in b;
    }
    if b != [] {
      assert b[0] in a;
    }
    if a != [] {
      if a[0] != b[0] {
        assert b[0] in a && a[0] in b;
        var i :| 0 <= i < |a| && a[i] == b[0];
        var j :| 0 <= j < |b| && b[j] == a[0];
        assert NaturalLess(suffix, a[0], b[0]);
        assert NaturalLess(suffix, b[0], a[0]);
        NaturalOrderIsStrictTotal(suffix, a[0], b[0], a[0]);
        assert false;
      }
      forall y ensures y in a[1..] <==> y in b[1..] {
        NaturalOrderIsStrictTotal(suffix, a[0], a[0], a[0]);
        if y in a[1..] {
          var i :| 1 <= i < |a| && a[i] == y;
          assert NaturalLess(suffix, a[0], a[i]);
          assert y in b && y != b[0];
          var j :| 0 <= j < |b| && b[j] == y;
          assert j != 0;
        }
        if y in b[1..] {
          var j :| 1 <= j < |b| && b[j] == y;
          assert NaturalLess(suffix, b[0], b[j]);
          assert y in a && y != a[0];
          var i :| 0 <= i < |a| && a[i] == y;
          assert i != 0;
        }
      }
      SortedUnique(suffix, a[1..], b[1..]);
      assert a == [a[0]] + a[1..] && b == [b[0]] + b[1..];
    }
  }

  /** The audio of the named files, in the order given. */
  function Lookups(folder: Folder, names: seq<string>): (chunks: seq<Audio>)
    requires forall i :: 0 <= i < |names| ==> names[i] in folder
    ensures |chunks| == |names|
  {
    seq(|names|, i requires 0 <= i < |names| => folder[names[i]])
  }

  /** What `combine_wav_files_with_suffix` produces from a folder: an error or the combined stream. */
  ghost function Reassemble(folder: Folder, suffix: string): Result<Audio, CombineError>
  {
    var names := NaturalOrder(suffix, Matching(folder, suffix));
    assert forall i :: 0 <= i < |names| ==> names[i] in folder by {
      forall i | 0 <= i < |names| ensures names[i] in folder {
        assert names[i] in names;
      }
    }
    if names == [] then Failure(NoWavFilesWithSuffix(suffix))
    else Success(Flatten(Lookups(folder, names)))
  }

  /** Reassembly fails exactly when no file name ends in the suffix and ".wav". */
  lemma ReassembleFailsIffNoMatch(folder: Folder, suffix: string)
    ensures Reassemble(folder, suffix).Failure? <==> Matching(folder, suffix) == {}
  {
    var names := NaturalOrder(suffix, Matching(folder, suffix));
    if Matching(folder, suffix) != {} {
      var x :| x in Matching(folder, suffix);
      assert x in names;
    }
  }

  /** `output_path / output_filename`, as a string. */
  function OutputPath(outputFolder: string, outputFilename: string): string
  {
    Render(Join(Parse(outputFolder), Parse(outputFilename)))
  }

  /** A plain file name lands directly in the output folder. */
  lemma OutputPathInFolder(outputFolder: string, outputFilename: string)
    requires IsComponent(outputFilename)
    ensures Parse(OutputPath(outputFolder, outputFilename)) ==
      PurePath(Parse(outputFolder).root, Parse(outputFolder).parts + [outputFilename])
  {
    JoinComponent(Parse(outputFolder), outputFilename);
  }

  /**
   * `natsorted(names)`: the names arrive in whatever order the file system
   * lists them (an arbitrary choice here) and are inserted in natural order.
   */
  method NatSorted(suffix: string, names: set<string>) returns (sorted: seq<string>)
    ensures sorted == NaturalOrder(suffix, names)
  {
    sorted := [];
    var unsorted := names;
    while unsorted != {}
      invariant unsorted <= names
      invariant StrictlySorted(suffix, sorted)
      invariant forall y :: y in sorted <==> y in names && y !in unsorted
      decreases |unsorted|
    {
      var n :| n in unsorted;
      sorted := InsertSorted(suffix, sorted, n);
      unsorted := unsorted - {n};
    }
    SortedUnique(suffix, sorted, NaturalOrder(suffix, names));
  }

  /** The accumulation loop: `combined = AudioSegment.empty()`, then `combined += audio` per file in order. */
  method Concatenate(folder: Folder, wavFiles: seq<string>) returns (combined: Audio)
    requires forall k :: 0 <= k < |wavFiles| ==> wavFiles[k] in folder
    ensures combined == Flatten(Lookups(folder, wavFiles))
  {
    combined := [];
    var i := 0;
    while i < |wavFiles|
      invariant 0 <= i <= |wavFiles|
      invariant combined == Flatten(Lookups(folder, wavFiles[..i]))
    {
      assert Lookups(folder, wavFiles[..i + 1]) == Lookups(folder, wavFiles[..i]) + [folder[wavFiles[i]]];
      FlattenSnoc(Lookups(folder, wavFiles[..i]), folder[wavFiles[i]]);
      combined := combined + folder[wavFiles[i]];
      i := i + 1;
    }
    assert wavFiles[..i] == wavFiles;
  }

  /**
   * `combine_wav_files_with_suffix(input_folder, output_folder, suffix, output_filename)`
   * on the files of `folder`. The glob hands the names over in an order
   * the file system chooses, modelled by an arbitrary choice.
   */
  method CombineWavFilesWithSuffix(folder: Folder, outputFolder: string, suffix: string, outputFilename: string)
    returns (r: Result<Export, CombineError>)
    ensures r.Failure? <==> Matching(folder, suffix) == {}
    ensures r.Failure? ==> r.error == NoWavFilesWithSuffix(suffix)
    ensures r.Success? ==> Reassemble(folder, suffix) == Success(r.value.audio)
    ensures r.Success? ==> r.value.path == OutputPath(outputFolder, outputFilename)
  {
    var matching := Matching(folder, suffix);
    var wavFiles := NatSorted(suffix, matching);
    ReassembleFailsIffNoMatch(folder, suffix);
    if wavFiles == [] {
      return Failure(NoWavFilesWithSuffix(suffix));
    }
    forall k | 0 <= k < |wavFiles| ensures wavFiles[k] in folder {
      assert wavFiles[k] in wavFiles;
    }
    assert Reassemble(folder, suffix) == Success(Flatten(Lookups(folder, wavFiles)));
    var combined := Concatenate(folder, wavFiles);
    return Success(Export(OutputPath(outputFolder, outputFilename), combined));
  }
}
