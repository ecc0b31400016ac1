/**
 * File-system paths as sequences of segments, with the `join` rule of Rust's
 * `PathBuf`: joining an absolute path replaces the base, joining a relative
 * path appends its segments to the base.
 */
module Paths {

  /** A path: whether it is rooted, and its segments in order. */
  datatype Path = Path(absolute: bool, segments: seq<string>)

  /** `base.join(p)`. */
  function Join(base: Path, p: Path): Path
  {
    if p.absolute then p else Path(base.absolute, base.segments + p.segments)
  }
}
