/**
 * The path and file-name arithmetic of the unpack engine: the final
 * component of a path, pathlib's `suffix` and `stem`, the glob `*S.*`
 * that `rglob` applies to each file name, and the joining of a folder
 * and a file name. Paths are plain strings separated by '/'.
 */
module Paths {

  type Path = string

  /** Index of the last occurrence of `c` in `s`, or -1 when there is none. */
  function LastIndexOf(s: string, c: char): (i: int)
    ensures -1 <= i < |s|
  {
    if s == [] then -1
    else if s[|s| - 1] == c then |s| - 1
    else LastIndexOf(s[..|s| - 1], c)
  }

  /** `LastIndexOf` finds `c` exactly when it occurs, and nothing after the index is `c`. */
  lemma {:induction false} LastIndexOfSpec(s: string, c: char)
    ensures LastIndexOf(s, c) == -1 <==> c !in s
    ensures 0 <= LastIndexOf(s, c) ==> s[LastIndexOf(s, c)] == c && c !in s[LastIndexOf(s, c) + 1..]
  {
    if s != [] {
      if s[|s| - 1] == c {
        assert s[|s| - 1..] == [c];
      } else {
        var j := LastIndexOf(s[..|s| - 1], c);
        LastIndexOfSpec(s[..|s| - 1], c);
        assert s == s[..|s| - 1] + [s[|s| - 1]];
        assert 0 <= j ==> s[j + 1..] == s[..|s| - 1][j + 1..] + [s[|s| - 1]];
      }
    }
  }

  /** When `c` occurs in `b`, its last occurrence in `a + b` is the one in `b`. */
  lemma {:induction false} LastIndexOfAppend(a: string, b: string, c: char)
    requires c in b
    ensures LastIndexOf(a + b, c) == |a| + LastIndexOf(b, c)
  {
    LastIndexOfSpec(b, c);
    LastIndexOfSpec(a + b, c);
    var i := LastIndexOf(b, c);
    assert (a + b)[|a| + i] == c;
    assert (a + b)[|a| + i + 1..] == b[i + 1..];
  }

  /** The final component of a path (pathlib's `name`), for a path without a trailing '/'. */
  function BaseName(p: Path): string
  {
    p[LastIndexOf(p, '/') + 1..]
  }

  /** The final component has no '/', ends the path, and follows its last '/'. */
  lemma BaseNameIsLastComponent(p: Path)
    ensures '/' !in BaseName(p)
    ensures |BaseName(p)| <= |p| && p[|p| - |BaseName(p)|..] == BaseName(p)
    ensures |BaseName(p)| < |p| ==> p[|p| - |BaseName(p)| - 1] == '/'
  {
    LastIndexOfSpec(p, '/');
  }

  /**
   * pathlib's `suffix` of a file name: from the last '.' to the end, unless
   * that dot is the first or the last character, in which case it is empty.
   */
  function Extension(name: string): string
  {
    var i := LastIndexOf(name, '.');
    if 0 < i < |name| - 1 then name[i..] else ""
  }

  /**
   * The extension is empty exactly when the name is empty, ends in '.', or
   * has no '.' after its first character; otherwise it is a '.' followed by
   * at least one character and no further '.', and it ends the name.
   */
  lemma ExtensionIsPathlibSuffix(name: string)
    ensures Extension(name) == "" <==> name == "" || name[|name| - 1] == '.' || '.' !in name[1..]
    ensures Extension(name) != "" ==>
      |Extension(name)| >= 2 && Extension(name)[0] == '.' && '.' !in Extension(name)[1..]
    ensures |Extension(name)| < |name| || Extension(name) == ""
    ensures name[|name| - |Extension(name)|..] == Extension(name)
  {
    var i := LastIndexOf(name, '.');
    LastIndexOfSpec(name, '.');
    if name != [] && '.' in name[1..] {
      LastIndexOfSpec(name[1..], '.');
      assert name[1..][LastIndexOf(name[1..], '.')] == '.';
      LastIndexOfAppend(name[..1], name[1..], '.');
      assert name[..1] + name[1..] == name;
      if i < |name| - 1 {
        assert name[i + 1..] == name[i..][1..];
      }
    }
  }

  /** pathlib's `stem`: the file name without its extension. */
  function Stem(name: string): (stem: string)
    ensures stem + Extension(name) == name
  {
    ExtensionIsPathlibSuffix(name);
    name[..|name| - |Extension(name)|]
  }

  /** A dotless extension appended to a non-empty name is the extension of the result. */
  lemma ExtensionOfAppended(name: string, ext: string)
    requires name != "" && Extension(name) == ""
    requires ext == "" || (|ext| >= 2 && ext[0] == '.' && '.' !in ext[1..])
    ensures Extension(name + ext) == ext
  {
    ExtensionIsPathlibSuffix(name);
    if ext != "" {
      LastIndexOfAppend(name, ext, '.');
      LastIndexOfSpec(ext, '.');
      var full := name + ext;
      assert ext[1..] == full[|name| + 1..];
      assert full[|name|] == '.';
      assert full[1..][|name| - 1] == '.';
      assert full[|full| - 1] == ext[|ext| - 1] != '.';
    } else {
      assert name + ext == name;
    }
  }

  /**
   * `S` occurs in `name` at position `j` immediately before a '.': the shape
   * of a name matched by the glob `*S.*` (each `*` may match nothing).
   */
  predicate SuffixBeforeDot(name: string, s: string, j: int)
  {
    0 <= j && j + |s| < |name| && name[j..j + |s|] == s && name[j + |s|] == '.'
  }

  /** The glob `*S.*`, read as a property of the name. */
  ghost predicate GlobMatch(name: string, s: string)
  {
    exists j :: SuffixBeforeDot(name, s, j)
  }

  /** Whether `S` stands immediately before a '.' at some position from `k` on. */
  function MatchesFrom(name: string, s: string, k: nat): bool
    decreases |name| - k
  {
    if k + |s| >= |name| then false
    else SuffixBeforeDot(name, s, k) || MatchesFrom(name, s, k + 1)
  }

  /** The scan from `k` finds a position at or after `k` where `S` stands before a '.', if there is one. */
  lemma {:induction false} MatchesFromSpec(name: string, s: string, k: nat)
    ensures MatchesFrom(name, s, k) <==> exists j :: k <= j && SuffixBeforeDot(name, s, j)
    decreases |name| - k
  {
    if k + |s| < |name| {
      MatchesFromSpec(name, s, k + 1);
      assert forall j :: k <= j && SuffixBeforeDot(name, s, j) ==> j == k || k + 1 <= j;
    }
  }

  /** Whether `rglob('*S.*')` selects a file with this name. */
  function NameMatches(name: string, s: string): bool
  {
    MatchesFrom(name, s, 0)
  }

  /** The scan decides the glob `*S.*`. */
  lemma NameMatchesGlob(name: string, s: string)
    ensures NameMatches(name, s) <==> GlobMatch(name, s)
  {
    MatchesFromSpec(name, s, 0);
  }

  /**
   * The file name a match is moved under: `name`, with the matched file's
   * extension appended when `name` has none (`with_suffix`).
   */
  function TargetName(name: string, matched: string): string
  {
    if Extension(name) == "" then name + Extension(matched) else name
  }

  /** An explicit extension in `name` wins; otherwise the matched file's extension is inherited. */
  lemma TargetNameExtension(name: string, matched: string)
    requires name != ""
    ensures Extension(TargetName(name, matched)) ==
      if Extension(name) != "" then Extension(name) else Extension(matched)
    ensures |name| <= |TargetName(name, matched)| && TargetName(name, matched)[..|name|] == name
  {
    if Extension(name) == "" {
      ExtensionIsPathlibSuffix(matched);
      ExtensionOfAppended(name, Extension(matched));
    }
  }

  /** `folder` joined with a file name. */
  function Join(folder: Path, fileName: string): Path
  {
    folder + "/" + fileName
  }

  /** Joining puts the file name, when it is a single component, last and keeps the folder in front. */
  lemma JoinSpec(folder: Path, fileName: string)
    ensures |folder| < |Join(folder, fileName)| && Join(folder, fileName)[..|folder|] == folder
    ensures '/' !in fileName ==> BaseName(Join(folder, fileName)) == fileName
  {
    var p := folder + "/" + fileName;
    if '/' !in fileName {
      assert p == folder + ("/" + fileName);
      assert ("/" + fileName)[0] == '/';
      LastIndexOfAppend(folder, "/" + fileName, '/');
      assert ("/" + fileName)[1..] == fileName;
      LastIndexOfSpec("/" + fileName, '/');
      assert LastIndexOf("/" + fileName, '/') == 0;
    }
  }
}
