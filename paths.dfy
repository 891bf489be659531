/**
 * The parts of a path the settings mapping looks at: the final component
 * (`Path::file_name`) and that component without its extension
 * (`Path::file_stem`). Paths are `/`-separated strings.
 */
module Paths {
  import opened Wrappers

  /** Character `i` of `path` is a separator or the `.` of a `/.` component. */
  predicate Dropped(path: string, i: int)
    requires 0 <= i < |path|
  {
    path[i] == '/' || (path[i] == '.' && 0 < i && path[i - 1] == '/')
  }

  /**
   * `path` without what `Path::components` drops at its end: trailing
   * separators and trailing `.` components (`a/./` ends in `a`). A lone `.`
   * stays, as the current-directory component.
   */
  function TrimTrailing(path: string): (r: string)
    ensures |r| <= |path| && r == path[..|r|]
    ensures r == [] || r[|r| - 1] != '/'
    ensures |r| >= 2 ==> !(r[|r| - 2] == '/' && r[|r| - 1] == '.')
    ensures forall i :: |r| <= i < |path| ==> Dropped(path, i)
  {
    if path != [] && (path[|path| - 1] == '/' || (|path| >= 2 && path[|path| - 2] == '/' && path[|path| - 1] == '.')) then
      var shorter := path[..|path| - 1];
      var r := TrimTrailing(shorter);
      assert forall i :: |r| <= i < |shorter| ==> Dropped(path, i) by {
        forall i | |r| <= i < |shorter|
          ensures Dropped(path, i)
        {
          assert Dropped(shorter, i);
          assert shorter[i] == path[i];
          if 0 < i {
            assert shorter[i - 1] == path[i - 1];
          }
        }
      }
      assert Dropped(path, |path| - 1);
      r
    else path
  }

  /** The text after the last separator of `path`: the longest suffix without one. */
  function LastSegment(path: string): (r: string)
    ensures |r| <= |path| && r == path[|path| - |r|..]
    ensures forall i :: 0 <= i < |r| ==> r[i] != '/'
    ensures r == path || path[|path| - |r| - 1] == '/'
  {
    if path == [] || path[|path| - 1] == '/' then [] else LastSegment(path[..|path| - 1]) + [path[|path| - 1]]
  }

  /** Index of the last `c` in `s`, or -1 when there is none. */
  function LastIndexOf(s: string, c: char): (k: int)
    ensures -1 <= k < |s|
    ensures k >= 0 ==> s[k] == c
    ensures forall i :: k < i < |s| ==> s[i] != c
  {
    if s == [] then -1 else if s[|s| - 1] == c then |s| - 1 else LastIndexOf(s[..|s| - 1], c)
  }

  /** The last segment names no file: it is empty, `.` or `..`. */
  predicate NamesNoFile(segment: string) {
    |segment| == 0 || (segment[0] == '.' && (|segment| == 1 || (|segment| == 2 && segment[1] == '.')))
  }

  /**
   * `Path::file_name`: the last component, unless the path ends in `..`,
   * is the current directory, or has no component after a root.
   */
  function FileName(path: string): (r: Option<string>)
    ensures r.Some? <==> !NamesNoFile(LastSegment(TrimTrailing(path)))
    ensures r.Some? ==> r.value == LastSegment(TrimTrailing(path))
    ensures r.Some? ==> forall i :: 0 <= i < |r.value| ==> r.value[i] != '/'
  {
    var name := LastSegment(TrimTrailing(path));
    if NamesNoFile(name) then None else Some(name)
  }

  /**
   * `Path::file_stem`: the file name up to its last `.`, or the whole file
   * name when it has no `.` or its only `.` opens it (`.bashrc`).
   */
  function FileStem(path: string): (r: Option<string>)
    ensures r.Some? <==> FileName(path).Some?
    ensures r.Some? ==> r.value != [] && r.value <= FileName(path).value
    ensures r.Some? && r.value != FileName(path).value ==>
      && FileName(path).value[|r.value|] == '.'
      && (forall i :: |r.value| < i < |FileName(path).value| ==> FileName(path).value[i] != '.')
    ensures r.Some? && r.value == FileName(path).value ==>
      forall i :: 0 < i < |r.value| ==> r.value[i] != '.'
  {
    match FileName(path)
    case None => None
    case Some(name) =>
      var k := LastIndexOf(name, '.');
      if k <= 0 then Some(name) else Some(name[..k])
  }

  /** Trailing separators and `.` components do not change the file name (`foo.txt/.` names `foo.txt`). */
  lemma FileNameIgnoresTrailing(path: string)
    ensures FileName(path + "/") == FileName(path)
    ensures FileName(path + "/.") == FileName(path)
  {
    FileNameIgnoresSeparator(path);
    FileNameIgnoresDot(path);
  }

  lemma FileNameIgnoresSeparator(path: string)
    ensures FileName(path + "/") == FileName(path)
  {
    TrimIgnoresTrailing(path);
  }

  lemma FileNameIgnoresDot(path: string)
    ensures FileName(path + "/.") == FileName(path)
  {
    TrimIgnoresTrailing(path);
  }

  lemma TrimIgnoresTrailing(path: string)
    ensures TrimTrailing(path + "/") == TrimTrailing(path)
    ensures TrimTrailing(path + "/.") == TrimTrailing(path)
  {
    var p := path + "/";
    assert p[|p| - 1] == '/' && p[..|p| - 1] == path;
    var q := path + "/.";
    assert q[|q| - 1] == '.' && q[|q| - 2] == '/' && q[..|q| - 1] == p;
  }

  /** A name after a directory part is the file name: `dir/clip.gif` names `clip.gif`. */
  lemma FileNameAfterDir(dir: string, name: string)
    requires !NamesNoFile(name)
    requires forall i :: 0 <= i < |name| ==> name[i] != '/'
    ensures FileName(dir + "/" + name) == Some(name)
  {
    var p := dir + "/" + name;
    assert p[|p| - 1] == name[|name| - 1];
    if |name| >= 2 {
      assert p[|p| - 2] == name[|name| - 2];
    } else {
      assert p[|p| - 1] == name[0] != '.';
    }
    assert TrimTrailing(p) == p;
    LastSegmentAfterSeparator(dir, name);
  }

  lemma {:induction false} LastSegmentAfterSeparator(dir: string, name: string)
    requires forall i :: 0 <= i < |name| ==> name[i] != '/'
    ensures LastSegment(dir + "/" + name) == name
  {
    var p := dir + "/" + name;
    if name == [] {
      assert p[|p| - 1] == '/';
    } else {
      var q, c := name[..|name| - 1], name[|name| - 1];
      assert p == (dir + "/" + q) + [c] && c != '/';
      LastSegmentAfterSeparator(dir, q);
      assert name == q + [c];
    }
  }

  /** A name without separators, not opening with `.`, is its own file name. */
  lemma FileNameOfSegment(name: string)
    requires name != [] && name[0] != '.'
    requires forall i :: 0 <= i < |name| ==> name[i] != '/'
    ensures FileName(name) == Some(name)
  {
    assert name[|name| - 1] != '/';
    assert |name| >= 2 ==> name[|name| - 2] != '/';
    assert TrimTrailing(name) == name;
    LastSegmentWhole(name);
  }

  /** A plain name with no separator and no `.` is its own file name and stem. */
  lemma StemOfPlainName(name: string)
    requires name != []
    requires forall i :: 0 <= i < |name| ==> name[i] != '/' && name[i] != '.'
    ensures FileName(name) == Some(name) && FileStem(name) == Some(name)
  {
    FileNameOfSegment(name);
  }

  lemma {:induction false} LastSegmentWhole(s: string)
    requires forall i :: 0 <= i < |s| ==> s[i] != '/'
    ensures LastSegment(s) == s
  {
    if s != [] {
      LastSegmentWhole(s[..|s| - 1]);
    }
  }

  /** The directory name a split defaults to: the file's stem followed by `_frames`. */
  function FramesDirName(file: string): (r: string)
    ensures |r| >= 7 && r[|r| - 7..] == "_frames"
    ensures FileStem(file).Some? ==> r[..|r| - 7] == FileStem(file).value
    ensures FileStem(file).None? ==> |r| == 7
  {
    FileStem(file).GetOr("") + "_frames"
  }

  /** A plain file name `x` gives the directory name `x_frames`. */
  lemma FramesDirOfPlainName(name: string)
    requires name != []
    requires forall i :: 0 <= i < |name| ==> name[i] != '/' && name[i] != '.'
    ensures FramesDirName(name) == name + "_frames"
  {
    StemOfPlainName(name);
  }

  /** A file `base.ext` gives the directory name `base_frames`: the extension is dropped. */
  lemma FramesDirOfDottedName(base: string, ext: string)
    requires base != []
    requires forall i :: 0 <= i < |base| ==> base[i] != '/' && base[i] != '.'
    requires forall i :: 0 <= i < |ext| ==> ext[i] != '/' && ext[i] != '.'
    ensures FramesDirName(base + "." + ext) == base + "_frames"
  {
    DottedNameParts(base, ext);
    FileNameOfSegment(base + "." + ext);
  }

  lemma DottedNameParts(base: string, ext: string)
    requires base != []
    requires forall i :: 0 <= i < |base| ==> base[i] != '/' && base[i] != '.'
    requires forall i :: 0 <= i < |ext| ==> ext[i] != '/' && ext[i] != '.'
    ensures var name := base + "." + ext;
      && name[0] != '.'
      && (forall i :: 0 <= i < |name| ==> name[i] != '/')
      && LastIndexOf(name, '.') == |base|
      && name[..|base|] == base
  {
    var name := base + "." + ext;
    assert forall i :: |base| < i < |name| ==> name[i] == ext[i - |base| - 1];
    assert name[|base|] == '.' && name[0] == base[0];
    assert forall i :: 0 <= i < |base| ==> name[i] == base[i];
    assert name[..|base|] == base;
  }
}
