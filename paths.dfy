/**
 * Rust's `Path::file_name`, `Path::file_stem` and `Path::extension` on
 * Unix path strings, as the blog uses them to pick `.md` files and to
 * derive a post's slug.
 */
module Paths {
  import opened Wrappers

  /** Where the final run of `s` free of `'/'` begins. */
  function ComponentStart(s: string): (k: nat)
    ensures k <= |s| && '/' !in s[k..]
    ensures k == 0 || s[k - 1] == '/'
    ensures s != [] && s[|s| - 1] != '/' ==> k < |s|
    decreases |s|
  {
    if s == [] || s[|s| - 1] == '/' then |s|
    else
      var k := ComponentStart(s[..|s| - 1]);
      assert s[k..] == s[..|s| - 1][k..] + [s[|s| - 1]];
      k
  }

  /** `s` without the `'/'` separators it ends with. */
  function TrimSeparators(s: string): (r: string)
    ensures |r| <= |s| && r == s[..|r|]
    ensures forall i :: |r| <= i < |s| ==> s[i] == '/'
    ensures r == [] || r[|r| - 1] != '/'
    decreases |s|
  {
    if s != [] && s[|s| - 1] == '/' then TrimSeparators(s[..|s| - 1]) else s
  }

  /** A component that `Path::components` reports as `Normal`. */
  predicate IsNormalComponent(name: string) {
    name != [] && '/' !in name && name != "." && name != ".."
  }

  /**
   * `Path::file_name`: the last component of `path` when it is a normal
   * one. Trailing separators and `.` components are not components;
   * a path that ends in `..`, or has no components at all (`""`, `"/"`,
   * `"."`), has no file name.
   */
  function FileName(path: string): (r: Option<string>)
    ensures r.Some? ==> IsNormalComponent(r.value)
    decreases |path|
  {
    var p := TrimSeparators(path);
    if p == [] then None
    else
      var k := ComponentStart(p);
      var last := p[k..];
      if last == "." then FileName(p[..k])
      else if last == ".." then None
      else Some(last)
  }

  /** The last `'.'` of `name`. */
  function LastDot(name: string): (r: Option<nat>)
    ensures r.Some? ==> r.value < |name| && name[r.value] == '.' && '.' !in name[r.value + 1..]
    ensures r.None? ==> '.' !in name
    decreases |name|
  {
    if name == [] then None
    else if name[|name| - 1] == '.' then Some(|name| - 1)
    else
      var r := LastDot(name[..|name| - 1]);
      assert r.Some? ==> name[r.value + 1..] == name[..|name| - 1][r.value + 1..] + [name[|name| - 1]];
      r
  }

  /**
   * Rust's `rsplit_file_at_dot`: the parts of a file name before and after
   * its last dot. `..`, and a name whose only dot leads it, have no
   * "after" part.
   */
  function SplitAtDot(name: string): (Option<string>, Option<string>) {
    if name == ".." then (Some(name), None)
    else
      match LastDot(name)
      case None => (None, Some(name))
      case Some(k) => if k == 0 then (Some(name), None) else (Some(name[..k]), Some(name[k + 1..]))
  }

  /** `Path::file_stem`: `before.or(after)`. */
  function FileStem(path: string): Option<string> {
    match FileName(path)
    case None => None
    case Some(name) =>
      var (before, after) := SplitAtDot(name);
      if before.Some? then before else after
  }

  /** `Path::extension`: `before.and(after)`. */
  function Extension(path: string): Option<string> {
    match FileName(path)
    case None => None
    case Some(name) =>
      var (before, after) := SplitAtDot(name);
      if before.Some? then after else None
  }

  /**
   * Stem and extension recompose the file name: a path has a stem exactly
   * when it has a file name, and an extension only when it has one. The
   * stem is non-empty and holds no `/`. Without an extension the name is
   * the stem; with one it is the stem, a `.` and the extension, and the
   * extension holds no dot.
   */
  lemma StemAndExtension(path: string)
    ensures FileStem(path).Some? <==> FileName(path).Some?
    ensures Extension(path).Some? ==> FileName(path).Some?
    ensures FileName(path).Some? ==>
      var name, stem := FileName(path).value, FileStem(path).value;
      && stem != [] && '/' !in stem
      && match Extension(path)
         case None => name == stem
         case Some(ext) => name == stem + "." + ext && '.' !in ext
  {
    match FileName(path)
    case None =>
    case Some(name) =>
      if name != ".." {
        match LastDot(name)
        case None =>
        case Some(k) =>
          if k > 0 {
            assert name == name[..k] + "." + name[k + 1..];
          }
      }
  }

  /** A file whose extension is `ext` is named its stem, a dot and `ext`. */
  lemma NameOfStemAndExtension(path: string, stem: string, ext: string)
    requires FileStem(path) == Some(stem) && Extension(path) == Some(ext)
    ensures FileName(path) == Some(stem + "." + ext)
  {
    StemAndExtension(path);
  }

  lemma ComponentStartAfterSeparator(dir: string, name: string)
    requires name != [] && '/' !in name
    ensures ComponentStart(dir + "/" + name) == |dir| + 1
    decreases |name|
  {
    var s := dir + "/" + name;
    if |name| == 1 {
      assert s[..|s| - 1] == dir + "/";
    } else {
      assert s[..|s| - 1] == dir + "/" + name[..|name| - 1];
      assert '/' !in name[..|name| - 1] by {
        assert forall i :: 0 <= i < |name| - 1 ==> name[..|name| - 1][i] == name[i];
      }
      ComponentStartAfterSeparator(dir, name[..|name| - 1]);
    }
  }

  /**
   * What `DirEntry::path` builds, a directory joined with an entry's name,
   * has that name as its file name.
   */
  lemma FileNameOfJoin(dir: string, name: string)
    requires IsNormalComponent(name)
    ensures FileName(dir + "/" + name) == Some(name)
  {
    var s := dir + "/" + name;
    assert TrimSeparators(s) == s;
    ComponentStartAfterSeparator(dir, name);
    assert s[|dir| + 1..] == name;
  }

  lemma {:induction false} LastDotBeforeExtension(stem: string, ext: string)
    requires '.' !in ext
    ensures LastDot(stem + "." + ext) == Some(|stem|)
    decreases |ext|
  {
    var name := stem + "." + ext;
    if ext != [] {
      assert name[..|name| - 1] == stem + "." + ext[..|ext| - 1];
      assert '.' !in ext[..|ext| - 1] by {
        assert forall i :: 0 <= i < |ext| - 1 ==> ext[..|ext| - 1][i] == ext[i];
      }
      LastDotBeforeExtension(stem, ext[..|ext| - 1]);
    }
  }

  /**
   * A file `stem.ext` in any directory has that stem and that extension,
   * for a non-empty stem and an extension without dots.
   */
  lemma StemOfJoin(dir: string, stem: string, ext: string)
    requires stem != [] && '/' !in stem
    requires ext != [] && '/' !in ext && '.' !in ext
    ensures FileStem(dir + "/" + stem + "." + ext) == Some(stem)
    ensures Extension(dir + "/" + stem + "." + ext) == Some(ext)
  {
    var name := stem + "." + ext;
    assert name[|stem|] == '.';
    assert |name| >= 3;
    assert '/' !in name;
    FileNameOfJoin(dir, name);
    assert dir + "/" + stem + "." + ext == dir + "/" + name;
    LastDotBeforeExtension(stem, ext);
    assert name[..|stem|] == stem && name[|stem| + 1..] == ext;
  }
}
