/** The two `os.path` functions the node applies to paths, with their POSIX
    rules: paths are UTF-8 byte strings and `/` is the only separator. */
module Paths {
  import opened Wire

  type Path = seq<byte>

  const Slash: byte := 47

  /** `os.path.join(dir, name)`.  An absolute `name` replaces `dir`; otherwise
      `name` is appended, with a `/` in between unless `dir` is empty or
      already ends in one. */
  function Join(dir: Path, name: Path): Path {
    if name != [] && name[0] == Slash then name
    else if dir == [] || dir[|dir| - 1] == Slash then dir + name
    else dir + [Slash] + name
  }

  /** The joined path ends with `name`; an absolute `name` is the whole
      result; otherwise the result starts with `dir`, followed by a `/` when
      `dir` does not already end in one. */
  lemma JoinSpec(dir: Path, name: Path)
    ensures var p := Join(dir, name);
            |name| <= |p| && p[|p| - |name|..] == name &&
            (name != [] && name[0] == Slash ==> p == name) &&
            (name == [] || name[0] != Slash ==>
               |dir| <= |p| && p[..|dir|] == dir &&
               (|dir| < |p| - |name| ==> p[|dir|] == Slash) &&
               (dir != [] && dir[|dir| - 1] != Slash ==> |p| == |dir| + 1 + |name|))
  {
  }

  /** Two names joined to the same directory give the same path only when
      they are the same name, unless one of them is absolute. */
  lemma JoinInjective(dir: Path, a: Path, b: Path)
    requires a == [] || a[0] != Slash
    requires b == [] || b[0] != Slash
    requires Join(dir, a) == Join(dir, b)
    ensures a == b
  {
    JoinSpec(dir, a);
    JoinSpec(dir, b);
  }

  /** `os.path.basename(p)`: what follows the last `/`, or all of `p` when it
      has none. */
  function Basename(p: Path): Path {
    if p == [] || p[|p| - 1] == Slash then []
    else Basename(p[..|p| - 1]) + [p[|p| - 1]]
  }

  /** The base name is the longest suffix of `p` without a `/`. */
  lemma {:induction false} BasenameSpec(p: Path)
    ensures var r := Basename(p);
            |r| <= |p| && r == p[|p| - |r|..] && Slash !in r &&
            (|r| < |p| ==> p[|p| - |r| - 1] == Slash)
  {
    if p != [] && p[|p| - 1] != Slash {
      var q := p[..|p| - 1];
      BasenameSpec(q);
      assert p == q + [p[|p| - 1]];
    }
  }
}
