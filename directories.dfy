/**
 * The list of directories searched for `.desktop` files, highest precedence
 * first, as `read_entries` builds it from the XDG Base Directory variables.
 */
module Directories {
  import opened Wrappers
  import opened Paths

  /** The environment variables the launcher reads. */
  datatype Env = Env(
    dataHome: Option<string>,  // XDG_DATA_HOME
    home: Option<string>,      // HOME
    dataDirs: Option<string>,  // XDG_DATA_DIRS
    path: string)              // PATH

  const Applications := "applications"
  const UserApplications := ".local/share/applications"
  const DefaultDirs := ["/usr/local/share/applications", "/usr/share/applications"]

  /** Every directory of `dirs` joined with `sub`, in order. */
  function JoinEach(dirs: seq<string>, sub: string): (r: seq<string>)
    ensures |r| == |dirs| && forall i :: 0 <= i < |dirs| ==> r[i] == PathJoin(dirs[i], sub)
  {
    if |dirs| == 0 then [] else [PathJoin(dirs[0], sub)] + JoinEach(dirs[1..], sub)
  }

  /** The user's own directory: under XDG_DATA_HOME, else under HOME, else none. */
  function PrimaryDir(env: Env): (r: Option<string>)
    ensures r.None? <==> env.dataHome.None? && env.home.None?
    ensures r.Some? ==> |Applications| <= |r.value| && r.value[|r.value| - |Applications|..] == Applications
  {
    match env.dataHome
    case Some(dataHome) => Some(PathJoin(dataHome, Applications))
    case None =>
      match env.home
      case Some(home) =>
        var dir := PathJoin(home, UserApplications);
        assert dir[|dir| - |Applications|..] == dir[|dir| - |UserApplications|..][|UserApplications| - |Applications|..];
        Some(dir)
      case None => None
  }

  /**
   * The system directories: each element of XDG_DATA_DIRS joined with
   * "applications", in the listed order, or the two defaults when it is unset.
   */
  function SecondaryDirs(env: Env): (dirs: seq<string>)
    ensures env.dataDirs.None? ==> dirs == DefaultDirs
    ensures env.dataDirs.Some? ==>
      var listed := SplitPaths(env.dataDirs.value);
      |dirs| == |listed| && forall i :: 0 <= i < |listed| ==> dirs[i] == PathJoin(listed[i], Applications)
  {
    match env.dataDirs
    case None => DefaultDirs
    case Some(list) => JoinEach(SplitPaths(list), Applications)
  }

  /** The primary directory, when there is one, followed by the secondary ones. */
  function AppDirs(env: Env): (dirs: seq<string>)
    ensures env.dataHome.Some? ==>
      |dirs| > 0 && dirs[0] == PathJoin(env.dataHome.value, Applications) && dirs[1..] == SecondaryDirs(env)
    ensures env.dataHome.None? && env.home.Some? ==>
      |dirs| > 0 && dirs[0] == PathJoin(env.home.value, UserApplications) && dirs[1..] == SecondaryDirs(env)
    ensures env.dataHome.None? && env.home.None? ==> dirs == SecondaryDirs(env)
  {
    match PrimaryDir(env)
    case Some(dir) => [dir] + SecondaryDirs(env)
    case None => SecondaryDirs(env)
  }

  /** `more.into_iter().for_each(|p| dirs.push(p))`. */
  method PushAll(dirs: seq<string>, more: seq<string>) returns (r: seq<string>)
    ensures r == dirs + more
  {
    r := dirs;
    for i := 0 to |more|
      invariant r == dirs + more[..i]
    {
      r := r + [more[i]];
    }
    assert more[..|more|] == more;
  }

  /** The first half of `read_entries`: push the primary directory, then each secondary one. */
  method ReadAppDirs(env: Env) returns (dirs: seq<string>)
    ensures dirs == AppDirs(env)
  {
    dirs := [];
    match env.dataHome {
      case Some(dataHome) =>
        dirs := dirs + [PathJoin(dataHome, Applications)];
        assert PrimaryDir(env) == Some(dirs[0]);
      case None =>
        if env.home.Some? {
          dirs := dirs + [PathJoin(env.home.value, UserApplications)];
          assert PrimaryDir(env) == Some(dirs[0]);
        } else {
          assert PrimaryDir(env) == None;
        }
    }
    assert dirs == if PrimaryDir(env).Some? then [PrimaryDir(env).value] else [];
    var secondary := match env.dataDirs
      case Some(list) => JoinEach(SplitPaths(list), Applications)
      case None => DefaultDirs;
    assert secondary == SecondaryDirs(env);
    dirs := PushAll(dirs, secondary);
  }
}
