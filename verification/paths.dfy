/** Filesystem paths as sequences of components, relative to the process's
    working directory, and the fixed directory layout of `src/io.rs`. */
module Paths {

  import opened Outcomes

  type Path = seq<string>

  /** `SERVER_DIR`: one sub-directory per installed game version. */
  const ServerDir: Path := ["subchunker", "server"]

  /** `JAVA_DIR`: one sub-directory per installed JVM distribution. */
  const JavaDir: Path := ["subchunker", "java"]

  /** `Path::parent`: every component but the last; `None` for the empty path. */
  function Parent(p: Path): (r: Option<Path>)
    ensures r.Some? <==> |p| > 0
    ensures r.Some? ==> r.value + [p[|p| - 1]] == p
  {
    if |p| == 0 then None else Some(p[..|p| - 1])
  }

  /** `p` is `dir` or lies below it. */
  predicate Within(p: Path, dir: Path) {
    |dir| <= |p| && p[..|dir|] == dir
  }
}
