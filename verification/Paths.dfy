/** Paths as the sequence of components that `Path::components` yields. */
module Paths {

  datatype Component = RootDir | CurDir | ParentDir | Normal(name: string)

  type Path = seq<Component>

  const STDIN: Path := [Normal("stdin")]
  const STDOUT: Path := [Normal("stdout")]
  const STDERR: Path := [Normal("stderr")]

  predicate IsStdPath(p: Path) {
    p == STDIN || p == STDOUT || p == STDERR
  }

  /** `path.strip_prefix("/").unwrap_or(path)`. */
  function StripRoot(p: Path): Path {
    if p != [] && p[0].RootDir? then p[1..] else p
  }

  /** `path.parent()` is `Some` for every path that is neither empty nor ends in a root. */
  predicate HasParent(p: Path) {
    p != [] && !p[|p| - 1].RootDir?
  }

  function Parent(p: Path): Path
    requires HasParent(p)
  {
    p[..|p| - 1]
  }

  /** `path.ancestors()` yields `p[..k]`: the path itself, then parents until there is none. */
  predicate IsAncestor(p: Path, k: nat) {
    k <= |p| && forall j :: k <= j < |p| ==> !p[j].RootDir?
  }

  /** Neither a root nor `.` nor `..` in it. */
  predicate AllNormal(p: Path) {
    forall k :: 0 <= k < |p| ==> p[k].Normal?
  }
}
