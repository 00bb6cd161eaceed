/**
 * The parts of Rust's `std::path` and `std::env` the launcher uses, on Unix:
 * `PathBuf::join`, `env::split_paths`, `Path::file_stem` and `Path::extension`.
 * Paths are strings; the file system itself is not modelled here.
 */
module Paths {
  import opened Wrappers
  import opened Text

  /**
   * `PathBuf::from(base).join(rel)`: an absolute `rel` replaces `base`;
   * otherwise a `/` is put between them unless `base` is empty or already
   * ends with one: a non-empty `base` always meets `rel` at a `/`, and a `/`
   * is added only when `base` lacks one.
   */
  function PathJoin(base: string, rel: string): (r: string)
    ensures |rel| > 0 && rel[0] == '/' ==> r == rel
    ensures !(|rel| > 0 && rel[0] == '/') ==>
      && |base| + |rel| <= |r| <= |base| + |rel| + 1
      && r[..|base|] == base && r[|r| - |rel|..] == rel
      && (|r| == |base| + |rel| + 1 <==> |base| > 0 && base[|base| - 1] != '/')
      && (|r| == |base| + |rel| + 1 ==> r[|base|] == '/')
    ensures |base| > 0 && !(|rel| > 0 && rel[0] == '/') ==> r[|r| - |rel| - 1] == '/'
  {
    if |rel| > 0 && rel[0] == '/' then rel
    else if |base| == 0 || base[|base| - 1] == '/' then base + rel
    else base + "/" + rel
  }

  /** `env::split_paths` on Unix: the pieces of a list separated by `:`, empty ones included. */
  function SplitPaths(list: string): (dirs: seq<string>)
    ensures |dirs| >= 1
    ensures Intercalate(dirs, ":") == list
    ensures forall i :: 0 <= i < |dirs| ==> ':' !in dirs[i]
  {
    SplitOnRoundTrip(list, ":");
    SplitOnCharPieces(list, ':');
    SplitOn(list, ":")
  }

  /** The position of the last `c` in `s`, if any. */
  function LastIndexOf(s: string, c: char): (r: Option<nat>)
    ensures r.None? <==> c !in s
    ensures r.Some? ==> r.value < |s| && s[r.value] == c && c !in s[r.value + 1..]
  {
    if |s| == 0 then None
    else if s[|s| - 1] == c then Some(|s| - 1)
    else
      var r := LastIndexOf(s[..|s| - 1], c);
      assert r.Some? ==> s[r.value + 1..] == s[..|s| - 1][r.value + 1..] + [s[|s| - 1]];
      assert s == s[..|s| - 1] + [s[|s| - 1]];
      r
  }

  /**
   * `file_stem` and `extension` of a file name, as Rust splits it at the last
   * dot: "a.b.desktop" has stem "a.b" and extension "desktop"; a name without
   * a dot after its first character (".desktop", "README") and ".." have no
   * extension, and then the stem is the whole name.
   */
  function StemAndExtension(fileName: string): (r: (string, Option<string>))
    ensures r.1.None? <==> (fileName == ".." || forall i :: 1 <= i < |fileName| ==> fileName[i] != '.')
    ensures r.1.None? ==> r.0 == fileName
    ensures r.1.Some? ==> r.0 + "." + r.1.value == fileName && r.0 != "" && '.' !in r.1.value
  {
    if fileName == ".." then (fileName, None)
    else
      match LastIndexOf(fileName, '.')
      case None => (fileName, None)
      case Some(k) =>
        if k == 0 then (fileName, None)
        else
          assert fileName == fileName[..k] + "." + fileName[k + 1..];
          (fileName[..k], Some(fileName[k + 1..]))
  }
}
