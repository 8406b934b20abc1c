/**
 * The two path operations the program uses, `Path.GetFileName` and
 * `Path.Combine`, with the rules they follow on Windows: both '\' and '/'
 * separate directories, and "X:" at the front of a path is a drive root.
 */
module Paths {

  const DirectorySeparator: char := '\\'
  const AltDirectorySeparator: char := '/'

  predicate IsSeparator(c: char) {
    c == DirectorySeparator || c == AltDirectorySeparator
  }

  predicate NoSeparator(s: string) {
    forall i :: 0 <= i < |s| ==> !IsSeparator(s[i])
  }

  predicate IsAsciiLetter(c: char) {
    'a' <= c <= 'z' || 'A' <= c <= 'Z'
  }

  /** "X:" at the front: a drive-relative or drive-absolute path. */
  predicate HasDrive(path: string) {
    |path| >= 2 && IsAsciiLetter(path[0]) && path[1] == ':'
  }

  predicate IsPathRooted(path: string) {
    (|path| >= 1 && IsSeparator(path[0])) || HasDrive(path)
  }

  /**
   * The part of `path` after its last separator: the longest suffix that
   * holds no separator.
   */
  function LastSegment(path: string): (name: string)
    ensures |name| <= |path| && name == path[|path| - |name|..]
    ensures NoSeparator(name)
    ensures |name| < |path| ==> IsSeparator(path[|path| - |name| - 1])
  {
    if path == [] then []
    else if IsSeparator(path[|path| - 1]) then []
    else LastSegment(path[..|path| - 1]) + [path[|path| - 1]]
  }

  /** `Path.GetFileName`: the last segment, never reaching into a drive root. */
  function GetFileName(path: string): (name: string)
    ensures |name| <= |path| && name == path[|path| - |name|..]
    ensures NoSeparator(name)
  {
    if HasDrive(path) then LastSegment(path[2..]) else LastSegment(path)
  }

  /**
   * The file name is the longest suffix that holds no separator and does
   * not run into the "X:" of a drive: what precedes it is a separator or
   * the drive.
   */
  lemma GetFileNameLongest(path: string)
    ensures var name := GetFileName(path);
      |name| < |path| ==> IsSeparator(path[|path| - |name| - 1]) || (HasDrive(path) && |name| == |path| - 2)
    ensures HasDrive(path) ==> |GetFileName(path)| <= |path| - 2
  {
    var name := GetFileName(path);
    if HasDrive(path) && |name| < |path| - 2 {
      var rest := path[2..];
      assert name == LastSegment(rest);
      assert rest[|rest| - |name| - 1] == path[|path| - |name| - 1];
    }
  }

  /**
   * `Path.Combine` of two paths: the directory, a separator unless the
   * directory already ends with one, then the name; a rooted name replaces
   * the directory, and an empty part is ignored.
   */
  function Combine(dir: string, name: string): (path: string)
    ensures |name| <= |path| && path[|path| - |name|..] == name
    ensures name == [] ==> path == dir
    ensures name != [] && (dir == [] || IsPathRooted(name)) ==> path == name
    ensures name != [] && dir != [] && !IsPathRooted(name) ==>
      (IsSeparator(dir[|dir| - 1]) && path == dir + name) ||
      (!IsSeparator(dir[|dir| - 1]) && path == dir + [DirectorySeparator] + name)
  {
    if name == [] then dir
    else if dir == [] || IsPathRooted(name) then name
    else if IsSeparator(dir[|dir| - 1]) || IsSeparator(name[0]) then dir + name
    else dir + [DirectorySeparator] + name
  }

  /** A path whose last separator is followed by `name` has `name` as its last segment. */
  lemma LastSegmentAfterSeparator(prefix: string, name: string)
    requires |prefix| > 0 && IsSeparator(prefix[|prefix| - 1])
    requires NoSeparator(name)
    ensures LastSegment(prefix + name) == name
  {
    var p := prefix + name;
    var r := LastSegment(p);
    if |r| != |name| {
      assert false;
    }
    assert r == p[|p| - |name|..] == name;
  }

  /** Combining a directory with a plain file name and taking the file name back gives the same name. */
  lemma GetFileNameOfCombine(dir: string, name: string)
    requires name != [] && NoSeparator(name) && !IsPathRooted(name)
    ensures GetFileName(Combine(dir, name)) == name
  {
    var p := Combine(dir, name);
    if dir == [] {
      assert p == name;
      assert !HasDrive(p);
      LastSegmentAfterSeparatorOrWhole(name);
    } else {
      var prefix := if IsSeparator(dir[|dir| - 1]) then dir else dir + [DirectorySeparator];
      assert p == prefix + name;
      if HasDrive(p) {
        assert |prefix| > 2;
        assert p[2..] == prefix[2..] + name;
        LastSegmentAfterSeparator(prefix[2..], name);
      } else {
        LastSegmentAfterSeparator(prefix, name);
      }
    }
  }

  lemma LastSegmentAfterSeparatorOrWhole(name: string)
    requires NoSeparator(name)
    ensures LastSegment(name) == name
  {
    var r := LastSegment(name);
    if |r| < |name| {
      assert false;
    }
  }
}
