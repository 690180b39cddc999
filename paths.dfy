/**
 * The slice of POSIX path handling the pipeline relies on: pathlib's
 * PurePosixPath (parsing, `str`, `/`, `.parent`, `.name`, `.stem`,
 * `.suffix`) and os.path's `basename` and the root half of `splitext`.
 */
module Paths {

  /**
   * A path as pathlib holds it after parsing: its anchor ("", "/" or the
   * POSIX-reserved "//") and its components, none empty and none ".".
   */
  datatype PurePath = PurePath(root: string, parts: seq<string>)

  predicate IsComponent(c: string)
  {
    c != "" && c != "." && '/' !in c
  }

  predicate ValidPath(p: PurePath)
  {
    && (p.root == "" || p.root == "/" || p.root == "//")
    && forall i :: 0 <= i < |p.parts| ==> IsComponent(p.parts[i])
  }

  function LeadingSlashes(s: string): (k: nat)
    ensures k <= |s|
    ensures forall i :: 0 <= i < k ==> s[i] == '/'
    ensures k < |s| ==> s[k] != '/'
  {
    if s != [] && s[0] == '/' then 1 + LeadingSlashes(s[1..]) else 0
  }

  /** One or three or more leading slashes make "/", exactly two make "//". */
  function RootOf(s: string): string
  {
    var k := LeadingSlashes(s);
    if k == 0 then "" else if k == 2 then "//" else "/"
  }

  /** A finished component is kept unless it is empty or ".". */
  function Emit(c: string): seq<string>
  {
    if c == "" || c == "." then [] else [c]
  }

  /** The components of `cur + s`, where `cur` is the component being read. */
  function Components(s: string, cur: string): seq<string>
    decreases |s|
  {
    if s == [] then Emit(cur)
    else if s[0] == '/' then Emit(cur) + Components(s[1..], "")
    else Components(s[1..], cur + [s[0]])
  }

  lemma {:induction false} ComponentsValid(s: string, cur: string)
    requires '/' !in cur
    ensures forall i :: 0 <= i < |Components(s, cur)| ==> IsComponent(Components(s, cur)[i])
    decreases |s|
  {
    if s != [] {
      if s[0] == '/' {
        ComponentsValid(s[1..], "");
      } else {
        ComponentsValid(s[1..], cur + [s[0]]);
      }
    }
  }

  /** `PurePosixPath(s)`. */
  function Parse(s: string): (p: PurePath)
    ensures ValidPath(p)
  {
    ComponentsValid(s, "");
    PurePath(RootOf(s), Components(s, ""))
  }

  function JoinParts(parts: seq<string>): string
  {
    if parts == [] then ""
    else if |parts| == 1 then parts[0]
    else parts[0] + "/" + JoinParts(parts[1..])
  }

  /** `str(path)`: the empty relative path is written ".". */
  function Render(p: PurePath): string
  {
    if p.root == "" && p.parts == [] then "." else p.root + JoinParts(p.parts)
  }

  /** `p / q`: an absolute right operand replaces the left one. */
  function Join(p: PurePath, q: PurePath): (r: PurePath)
    ensures ValidPath(p) && ValidPath(q) ==> ValidPath(r)
  {
    if q.root != "" then q else PurePath(p.root, p.parts + q.parts)
  }

  /** `.parent`: an anchor or "." is its own parent. */
  function Parent(p: PurePath): PurePath
  {
    if p.parts == [] then p else PurePath(p.root, p.parts[..|p.parts| - 1])
  }

  /** `.name`: the last component, or "" when there is none. */
  function Name(p: PurePath): string
  {
    if p.parts == [] then "" else p.parts[|p.parts| - 1]
  }

  /** `s.rfind(c)`: the index of the last `c` in `s`, or -1. */
  function RFind(s: string, c: char): (i: int)
    ensures -1 <= i < |s|
    ensures 0 <= i ==> s[i] == c
    ensures forall k :: i < k < |s| ==> s[k] != c
  {
    if s == [] then -1
    else if s[|s| - 1] == c then |s| - 1
    else RFind(s[..|s| - 1], c)
  }

  /** `.suffix` (Python 3.12 rule): from the last dot, unless that dot is first or last in the name. */
  function Suffix(name: string): string
  {
    var i := RFind(name, '.');
    if 0 < i < |name| - 1 then name[i..] else ""
  }

  /** `.stem`: the name without its suffix. */
  function Stem(name: string): (stem: string)
    ensures stem + Suffix(name) == name
  {
    var i := RFind(name, '.');
    if 0 < i < |name| - 1 then name[..i] else name
  }

  /** The stem of a name is a prefix of it, so it has no slash when the name has none. */
  lemma StemHasNoSlash(name: string)
    requires '/' !in name
    ensures '/' !in Stem(name)
  {
    var stem := Stem(name);
    assert stem == name[..|stem|];
    assert forall k :: 0 <= k < |stem| ==> stem[k] == name[k];
  }

  /** `rfind` finds the occurrence with none after it. */
  lemma RFindLast(s: string, c: char, i: nat)
    requires i < |s| && s[i] == c
    requires forall k :: i < k < |s| ==> s[k] != c
    ensures RFind(s, c) == i
  {
  }

  /** A name `head + ext`, where `head` is non-empty and `ext` is a dot followed by a dot-free text, has stem `head` and suffix `ext`. */
  lemma StemAndSuffixOf(head: string, ext: string)
    requires head != [] && |ext| >= 2 && ext[0] == '.' && '.' !in ext[1..]
    ensures Stem(head + ext) == head
    ensures Suffix(head + ext) == ext
    ensures '/' !in head && '/' !in ext ==> IsComponent(head + ext)
  {
    var name := head + ext;
    assert name[|head|] == '.';
    forall k | |head| < k < |name| ensures name[k] != '.' {
      assert name[k] == ext[1..][k - |head| - 1];
    }
    RFindLast(name, '.', |head|);
    assert name[..|head|] == head && name[|head|..] == ext;
    assert |name| > 1;
  }

  /** `add_suffix_before_extension`: `parent / (stem + suffix + extension)`. */
  function AddSuffixBeforeExtension(filePath: string, suffix: string): string
  {
    var p := Parse(filePath);
    var newStem := Stem(Name(p)) + suffix;
    Render(Join(Parent(p), Parse(newStem + Suffix(Name(p)))))
  }

  // ---- Parsing a rendered path gives the path back ----

  lemma {:induction false} ComponentsOfText(t: string, rest: string, cur: string)
    requires '/' !in t
    ensures Components(t + rest, cur) == Components(rest, cur + t)
    decreases |t|
  {
    if t != [] {
      assert t[0] != '/';
      assert (t + rest)[0] == t[0] && (t + rest)[1..] == t[1..] + rest;
      ComponentsOfText(t[1..], rest, cur + [t[0]]);
      assert cur + [t[0]] + t[1..] == cur + t;
    } else {
      assert t + rest == rest && cur + t == cur;
    }
  }

  lemma {:induction false} ComponentsOfJoinParts(parts: seq<string>)
    requires forall i :: 0 <= i < |parts| ==> IsComponent(parts[i])
    ensures Components(JoinParts(parts), "") == parts
    decreases |parts|
  {
    if |parts| == 1 {
      ComponentsOfText(parts[0], "", "");
      assert parts[0] + "" == parts[0] && "" + parts[0] == parts[0];
      assert JoinParts(parts) == parts[0];
      assert Components("", parts[0]) == Emit(parts[0]) == [parts[0]];
      assert parts == [parts[0]];
    } else if |parts| > 1 {
      var rest := JoinParts(parts[1..]);
      assert JoinParts(parts) == parts[0] + ("/" + rest);
      ComponentsOfText(parts[0], "/" + rest, "");
      assert "" + parts[0] == parts[0];
      assert ("/" + rest)[0] == '/' && ("/" + rest)[1..] == rest;
      assert Emit(parts[0]) == [parts[0]];
      ComponentsOfJoinParts(parts[1..]);
      assert [parts[0]] + parts[1..] == parts;
    }
  }

  lemma JoinPartsStart(parts: seq<string>)
    requires forall i :: 0 <= i < |parts| ==> IsComponent(parts[i])
    ensures parts != [] ==> |parts[0]| > 0 && |JoinParts(parts)| > 0 && JoinParts(parts)[0] == parts[0][0]
  {
    if |parts| > 1 {
      assert JoinParts(parts) == parts[0] + ("/" + JoinParts(parts[1..]));
    }
  }

  /** Leading slashes start no component. */
  lemma {:induction false} ComponentsAfterSlashes(root: string, s: string)
    requires forall i :: 0 <= i < |root| ==> root[i] == '/'
    ensures Components(root + s, "") == Components(s, "")
    decreases |root|
  {
    if root != [] {
      assert (root + s)[0] == '/';
      assert (root + s)[1..] == root[1..] + s;
      ComponentsAfterSlashes(root[1..], s);
    } else {
      assert root + s == s;
    }
  }

  lemma {:induction false} LeadingSlashesOfRoot(root: string, s: string)
    requires forall i :: 0 <= i < |root| ==> root[i] == '/'
    requires s == [] || s[0] != '/'
    ensures LeadingSlashes(root + s) == |root|
    decreases |root|
  {
    if root == [] {
      assert root + s == s;
    } else {
      assert (root + s)[1..] == root[1..] + s;
      LeadingSlashesOfRoot(root[1..], s);
    }
  }

  /** `PurePosixPath(str(p)) == p`. */
  lemma ParseRender(p: PurePath)
    requires ValidPath(p)
    ensures Parse(Render(p)) == p
  {
    if !(p.root == "" && p.parts == []) {
      var body := JoinParts(p.parts);
      JoinPartsStart(p.parts);
      LeadingSlashesOfRoot(p.root, body);
      ComponentsAfterSlashes(p.root, body);
      ComponentsOfJoinParts(p.parts);
      assert Render(p) == p.root + body;
    } else {
      assert Render(p) == ".";
      assert Components(".", "") == Components("", ".");
      assert LeadingSlashes(".") == 0;
    }
  }

  lemma ParseComponent(c: string)
    requires IsComponent(c)
    ensures Parse(c) == PurePath("", [c])
  {
    assert c[0] != '/';
    ComponentsOfText(c, "", "");
    assert c + "" == c && "" + c == c;
  }

  /** Joining a directory with one component and reading the result back gives `dir` extended by it. */
  lemma JoinComponent(dir: PurePath, c: string)
    requires ValidPath(dir) && IsComponent(c)
    ensures Parse(Render(Join(dir, Parse(c)))) == PurePath(dir.root, dir.parts + [c])
  {
    ParseComponent(c);
    ParseRender(PurePath(dir.root, dir.parts + [c]));
  }

  /** Replacing the last component of a path keeps its parent: `p.parent / newName`. */
  lemma Rename(p: PurePath, newName: string)
    requires ValidPath(p) && IsComponent(newName)
    ensures var q := Parse(Render(Join(Parent(p), Parse(newName))));
      Parent(q) == Parent(p) && Name(q) == newName
  {
    JoinComponent(Parent(p), newName);
  }

  // ---- add_suffix_before_extension ----

  /** With an empty suffix the path only gets normalized; a path already in normal form comes back unchanged. */
  lemma AddEmptySuffix(filePath: string)
    ensures AddSuffixBeforeExtension(filePath, "") == Render(Parse(filePath))
    ensures filePath == Render(Parse(filePath)) ==> AddSuffixBeforeExtension(filePath, "") == filePath
  {
    var p := Parse(filePath);
    var n := Name(p);
    assert Stem(n) + "" + Suffix(n) == n;
    if p.parts == [] {
      assert Parse("") == PurePath("", []);
      assert Join(Parent(p), Parse(n)) == p;
    } else {
      assert IsComponent(n);
      ParseComponent(n);
      assert Parent(p).parts + [n] == p.parts;
    }
  }

  /**
   * When the name has an extension, the result lies in the same parent
   * directory, keeps the extension, and its stem is the old stem followed
   * by `suffix`.
   */
  lemma AddSuffixKeepsDirectoryAndExtension(filePath: string, suffix: string)
    requires Suffix(Name(Parse(filePath))) != ""
    requires '/' !in suffix
    ensures var p, q := Parse(filePath), Parse(AddSuffixBeforeExtension(filePath, suffix));
      && Parent(q) == Parent(p)
      && Name(q) == Stem(Name(p)) + suffix + Suffix(Name(p))
      && Stem(Name(q)) == Stem(Name(p)) + suffix
      && Suffix(Name(q)) == Suffix(Name(p))
  {
    var p := Parse(filePath);
    var n := Name(p);
    assert p.parts != [] && IsComponent(n);
    SuffixInsertion(n, suffix);
    JoinComponent(Parent(p), Stem(n) + suffix + Suffix(n));
  }

  /** Inserting a slash-free text between the stem and the extension of a component. */
  lemma SuffixInsertion(n: string, suffix: string)
    requires IsComponent(n) && Suffix(n) != "" && '/' !in suffix
    ensures IsComponent(Stem(n) + suffix + Suffix(n))
    ensures Stem(Stem(n) + suffix + Suffix(n)) == Stem(n) + suffix
    ensures Suffix(Stem(n) + suffix + Suffix(n)) == Suffix(n)
  {
    var i := RFind(n, '.');
    assert 0 < i < |n| - 1;
    var stem, ext := n[..i], n[i..];
    assert stem == Stem(n) && ext == Suffix(n);
    assert '.' !in ext[1..] by {
      forall k | 0 <= k < |ext| - 1 ensures ext[1..][k] != '.' {
        assert ext[1..][k] == n[i + 1 + k];
      }
    }
    StemHasNoSlash(n);
    assert '/' !in ext by {
      assert forall k :: 0 <= k < |ext| ==> ext[k] == n[i + k];
    }
    StemAndSuffixOf(stem + suffix, ext);
  }

  /**
   * When the name has no extension (and does not end in a dot), a suffix
   * without dots is appended to the name and the result still has none.
   */
  lemma AddSuffixWithoutExtension(filePath: string, suffix: string)
    requires Name(Parse(filePath)) != "" && Suffix(Name(Parse(filePath))) == ""
    requires '/' !in suffix && '.' !in suffix
    requires suffix == "" || Name(Parse(filePath))[|Name(Parse(filePath))| - 1] != '.'
    ensures var p, q := Parse(filePath), Parse(AddSuffixBeforeExtension(filePath, suffix));
      && Parent(q) == Parent(p)
      && Name(q) == Name(p) + suffix
      && Stem(Name(q)) == Name(p) + suffix
      && Suffix(Name(q)) == ""
  {
    var p := Parse(filePath);
    var n := Name(p);
    assert IsComponent(n);
    var newName := n + suffix;
    assert Stem(n) == n;
    assert Stem(n) + suffix + Suffix(n) == newName;
    assert RFind(newName, '.') == RFind(n, '.') by {
      assert forall k :: |n| <= k < |newName| ==> newName[k] == suffix[k - |n|];
      assert newName[..|n|] == n;
      if RFind(n, '.') >= 0 {
        assert newName[RFind(n, '.')] == '.';
      }
    }
    assert Suffix(newName) == "";
    assert '/' !in newName by {
      assert forall k :: 0 <= k < |n| ==> newName[k] == n[k];
    }
    JoinComponent(Parent(p), newName);
  }

  // ---- os.path ----

  /** `os.path.basename`: the text after the last slash, or the whole path when it has none. */
  function OsBasename(path: string): (name: string)
    ensures '/' !in name
    ensures |name| <= |path| && path == path[..|path| - |name|] + name
  {
    path[RFind(path, '/') + 1..]
  }

  /** The basename starts right after the last slash, or is the whole path when there is none. */
  lemma OsBasenameAfterLastSlash(path: string)
    ensures var name := OsBasename(path);
      |name| == |path| || path[|path| - |name| - 1] == '/'
  {
  }

  /**
   * `os.path.splitext(path)[0]`: the path up to its last dot, when that dot
   * lies in the last component and something other than a dot precedes it
   * there; otherwise the whole path (leading dots never start an extension).
   */
  function OsSplitextRoot(name: string): (root: string)
    ensures '/' !in name ==> '/' !in root
    ensures root == name || (|root| < |name| && name[..|root|] == root && name[|root|] == '.')
    ensures root != name ==> root == name[..RFind(name, '.')]
    ensures root == name ==> forall k :: RFind(name, '/') < k < RFind(name, '.') ==> name[k] == '.'
    ensures (RFind(name, '.') <= RFind(name, '/') || forall k :: RFind(name, '/') < k < RFind(name, '.') ==> name[k] == '.') ==> root == name
  {
    var d, sep := RFind(name, '.'), RFind(name, '/');
    if d > sep && exists k :: sep < k < d && name[k] != '.' then name[..d] else name
  }

  /** Examples of `basename`. */
  lemma BasenameExamples()
    ensures OsBasename("in/rec.wav") == "rec.wav"
    ensures OsBasename("rec.wav") == "rec.wav"
    ensures OsBasename("in/") == ""
  {
    RFindLast("in/rec.wav", '/', 2);
    RFindLast("in/", '/', 2);
  }

  /** Examples of `splitext`: hidden files keep their name, only the last extension goes. */
  lemma SplitextExamples()
    ensures OsSplitextRoot("a.b.c") == "a.b"
    ensures OsSplitextRoot(".bashrc") == ".bashrc"
    ensures OsSplitextRoot("..x") == "..x"
    ensures OsSplitextRoot("d.x/b") == "d.x/b"
  {
    RFindLast("a.b.c", '.', 3);
    assert "a.b.c"[0] != '.';
    assert "a.b.c"[..3] == "a.b";
    RFindLast(".bashrc", '.', 0);
    RFindLast("..x", '.', 1);
    RFindLast("d.x/b", '/', 3);
  }
}
