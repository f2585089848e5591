/**
 * Filesystem paths and the part of the filesystem the commands observe.
 *
 * A path is the sequence of its components; `Join` appends one component,
 * as `Path::join` does for a relative, single-component argument. The
 * filesystem is the set of paths that currently exist, so `p.exists()`
 * becomes `p in fs`.
 */
module Paths {

  type Path = seq<string>

  /** The existing files and directories at the moment an operation runs. */
  type FileSystem = set<Path>

  /** `p.join(c)` for a single relative component `c`. */
  function Join(p: Path, c: string): (q: Path)
    ensures |q| == |p| + 1 && q[..|p|] == p && q[|p|] == c
  {
    p + [c]
  }

  /** `p.display()`: the components written out, separated by '/'. */
  function Display(p: Path): (s: string)
    ensures |p| == 1 ==> s == p[0]
    ensures |p| > 0 ==> |p[|p| - 1]| <= |s| && s[|s| - |p[|p| - 1]|..] == p[|p| - 1]
  {
    if |p| == 0 then ""
    else if |p| == 1 then p[0]
    else Display(p[..|p| - 1]) + "/" + p[|p| - 1]
  }
}
