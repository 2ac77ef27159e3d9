/**
 * The commons-io `FilenameUtils` helpers the file selection uses: `getName`,
 * `removeExtension` and `getBaseName`. Both '/' and '\\' count as separators,
 * as they do in that library regardless of the platform.
 */
module FileNames {
  import opened JavaText

  predicate IsSeparator(c: char) {
    c == '/' || c == '\\'
  }

  /** `indexOfLastSeparator`: the last '/' or '\\', or -1. */
  function LastSeparator(path: string): (r: int)
    ensures -1 <= r < |path|
    ensures 0 <= r ==> IsSeparator(path[r])
    ensures forall k :: r < k < |path| ==> !IsSeparator(path[k])
  {
    if |path| == 0 then -1
    else if IsSeparator(path[|path| - 1]) then |path| - 1
    else LastSeparator(path[..|path| - 1])
  }

  /** `getName`: the part of `path` after its last separator. */
  function GetName(path: string): (r: string)
    ensures |r| <= |path| && r == path[|path| - |r|..]
    ensures forall k :: 0 <= k < |r| ==> !IsSeparator(r[k])
    ensures |r| < |path| ==> IsSeparator(path[|path| - |r| - 1])
  {
    path[LastSeparator(path) + 1..]
  }

  /**
   * `removeExtension`: cuts `path` at its last '.', unless there is no '.' or
   * the last '.' lies before the last separator (a dot in a directory name).
   */
  function RemoveExtension(path: string): (r: string)
    ensures |r| <= |path| && r == path[..|r|]
    ensures |r| < |path| ==> path[|r|] == '.'
    ensures |r| < |path| ==> forall k :: |r| < k < |path| ==> path[k] != '.' && !IsSeparator(path[k])
    ensures |r| == |path| ==> '.' !in GetName(path)
  {
    var ext := LastIndexOf(path, '.');
    var sep := LastSeparator(path);
    if ext == -1 || sep > ext then
      var name := GetName(path);
      assert forall k :: 0 <= k < |name| ==> name[k] == path[|path| - |name| + k];
      path
    else
      path[..ext]
  }

  /** `getBaseName`: the file name without directories and without extension. */
  function GetBaseName(path: string): (r: string)
    ensures |r| <= |GetName(path)| && r == GetName(path)[..|r|]
    ensures |r| < |GetName(path)| ==> GetName(path)[|r|] == '.'
    ensures forall k :: 0 <= k < |r| ==> !IsSeparator(r[k])
  {
    RemoveExtension(GetName(path))
  }

  /** A path without separators is its own file name. */
  lemma GetNameOfPlain(path: string)
    requires forall k :: 0 <= k < |path| ==> !IsSeparator(path[k])
    ensures GetName(path) == path
  {
    assert LastSeparator(path) == -1;
  }

  /** A separator-free name `base + ext`, where `ext` is a '.' and then no '.', has base name `base`. */
  lemma BaseNameOfPlain(base: string, ext: string)
    requires forall k :: 0 <= k < |base| ==> !IsSeparator(base[k])
    requires |ext| > 0 && ext[0] == '.'
    requires forall k :: 0 < k < |ext| ==> ext[k] != '.' && !IsSeparator(ext[k])
    ensures GetBaseName(base + ext) == base
  {
    var name := base + ext;
    assert forall k :: 0 <= k < |base| ==> name[k] == base[k];
    assert forall k :: |base| <= k < |name| ==> name[k] == ext[k - |base|];
    GetNameOfPlain(name);
    LastIndexOfAt(name, '.', |base|);
    assert LastSeparator(name) == -1;
    assert name[..|base|] == base;
  }
}
