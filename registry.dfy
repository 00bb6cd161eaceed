/**
 * The second half of `read_entries`: every directory is listed in order, each
 * `.desktop` file in it is decoded, and the entries are merged into a map
 * keyed by file stem in which the first entry seen for a stem stays.
 */
module Registry {
  import opened Wrappers
  import opened Paths
  import opened Entries
  import opened Directories

  /** One item of a directory listing: an entry that could not be read, or a file with its decoded contents. */
  datatype DirItem =
    | Unreadable                            // `file` is an `Err`: the listing stops here
    | File(name: string, ini: Option<Ini>)  // `ini` is `None` when the file does not parse

  /** The result of `fs::read_dir` on a directory. */
  datatype Listing = CannotOpen | Listed(items: seq<DirItem>)

  type ReadDir = string -> Listing

  /** An entry found, with the stem it is merged on. */
  type Candidate = (string, DesktopEntry)

  type EntryMap = map<string, DesktopEntry>

  /**
   * What a file contributes: an entry under its stem when its extension is
   * exactly "desktop", it parses, and `from_ini` accepts it; nothing otherwise.
   */
  function Contribution(name: string, ini: Option<Ini>, pathExists: PathExists, pathVar: string): (r: seq<Candidate>)
    ensures |r| <= 1
    ensures |r| == 1 <==>
      var (stem, ext) := StemAndExtension(name);
      ext == Some("desktop") && ini.Some? && FromIni(stem, ini.value, pathExists, pathVar).Some?
    ensures |r| == 1 ==>
      StemAndExtension(name) == (r[0].0, Some("desktop"))
      && ini.Some? && FromIni(r[0].0, ini.value, pathExists, pathVar) == Some(r[0].1)
  {
    var (stem, ext) := StemAndExtension(name);
    if ext != Some("desktop") then []
    else
      match ini
      case None => []
      case Some(decoded) =>
        match FromIni(stem, decoded, pathExists, pathVar)
        case None => []
        case Some(entry) => [(stem, entry)]
  }

  /** The candidates of one directory, in listing order, up to the first unreadable item. */
  function DirCandidates(items: seq<DirItem>, pathExists: PathExists, pathVar: string): seq<Candidate>
  {
    if |items| == 0 then []
    else
      match items[0]
      case Unreadable => []
      case File(name, ini) =>
        Contribution(name, ini, pathExists, pathVar) + DirCandidates(items[1..], pathExists, pathVar)
  }

  /** The candidates of a listing; a directory that cannot be opened has none. */
  function ListingCandidates(listing: Listing, pathExists: PathExists, pathVar: string): seq<Candidate>
  {
    match listing
    case CannotOpen => []
    case Listed(items) => DirCandidates(items, pathExists, pathVar)
  }

  /** The candidates of all directories, directory by directory. */
  function Candidates(dirs: seq<string>, readDir: ReadDir, pathExists: PathExists, pathVar: string): seq<Candidate>
  {
    if |dirs| == 0 then []
    else ListingCandidates(readDir(dirs[0]), pathExists, pathVar) + Candidates(dirs[1..], readDir, pathExists, pathVar)
  }

  /** `entries.entry(key).or_insert(value)` for each candidate in turn. */
  function InsertAll(m: EntryMap, cs: seq<Candidate>): (r: EntryMap)
    ensures forall k :: k in m ==> k in r && r[k] == m[k]
    ensures forall i :: 0 <= i < |cs| ==> cs[i].0 in r
    decreases |cs|
  {
    if |cs| == 0 then m
    else
      var r := InsertAll(if cs[0].0 in m then m else m[cs[0].0 := cs[0].1], cs[1..]);
      assert forall i :: 1 <= i < |cs| ==> cs[i] == cs[1..][i - 1];
      r
  }

  /** Every candidate found from an environment and a file system, in precedence order. */
  function AllCandidates(env: Env, readDir: ReadDir, pathExists: PathExists): seq<Candidate>
  {
    Candidates(AppDirs(env), readDir, pathExists, env.path)
  }

  /** The registry `read_entries` returns for an environment and a file system. */
  function Merged(env: Env, readDir: ReadDir, pathExists: PathExists): EntryMap
  {
    InsertAll(map[], AllCandidates(env, readDir, pathExists))
  }

  /** Each entry is stored under the stem it was decoded with. */
  predicate KeyedByFilename(m: EntryMap)
  {
    forall k :: k in m ==> m[k].filename == k
  }

  predicate CandidatesNamed(cs: seq<Candidate>)
  {
    forall i :: 0 <= i < |cs| ==> cs[i].1.filename == cs[i].0
  }

  lemma {:induction false} DirCandidatesNamed(items: seq<DirItem>, pathExists: PathExists, pathVar: string)
    ensures CandidatesNamed(DirCandidates(items, pathExists, pathVar))
  {
    if |items| > 0 && items[0].File? {
      DirCandidatesNamed(items[1..], pathExists, pathVar);
    }
  }

  lemma {:induction false} AllCandidatesNamed(dirs: seq<string>, readDir: ReadDir, pathExists: PathExists, pathVar: string)
    ensures CandidatesNamed(Candidates(dirs, readDir, pathExists, pathVar))
  {
    if |dirs| > 0 {
      if readDir(dirs[0]).Listed? {
        DirCandidatesNamed(readDir(dirs[0]).items, pathExists, pathVar);
      }
      AllCandidatesNamed(dirs[1..], readDir, pathExists, pathVar);
    }
  }

  lemma {:induction false} InsertAllNamed(m: EntryMap, cs: seq<Candidate>)
    requires KeyedByFilename(m) && CandidatesNamed(cs)
    ensures KeyedByFilename(InsertAll(m, cs))
    decreases |cs|
  {
    if |cs| > 0 {
      InsertAllNamed(if cs[0].0 in m then m else m[cs[0].0 := cs[0].1], cs[1..]);
    }
  }

  /** The merged registry stores every entry under its own file stem. */
  lemma MergedKeyedByFilename(env: Env, readDir: ReadDir, pathExists: PathExists)
    ensures KeyedByFilename(Merged(env, readDir, pathExists))
  {
    AllCandidatesNamed(AppDirs(env), readDir, pathExists, env.path);
    InsertAllNamed(map[], AllCandidates(env, readDir, pathExists));
  }

  lemma {:induction false} InsertAllAppend(m: EntryMap, a: seq<Candidate>, b: seq<Candidate>)
    ensures InsertAll(m, a + b) == InsertAll(InsertAll(m, a), b)
    decreases |a|
  {
    if |a| > 0 {
      assert (a + b)[1..] == a[1..] + b;
      InsertAllAppend(if a[0].0 in m then m else m[a[0].0 := a[0].1], a[1..], b);
    } else {
      assert a + b == b;
    }
  }

  /**
   * First seen wins: the keys are those already present and those of the
   * candidates; a value already present is never overwritten; and a new key
   * gets the value of its first candidate, whatever comes later.
   */
  lemma {:induction false} FirstSeenWins(m: EntryMap, cs: seq<Candidate>)
    ensures forall k :: k in InsertAll(m, cs) <==> (k in m || exists i :: 0 <= i < |cs| && cs[i].0 == k)
    ensures forall k :: k in m ==> InsertAll(m, cs)[k] == m[k]
    ensures forall i :: 0 <= i < |cs| && cs[i].0 !in m && (forall j :: 0 <= j < i ==> cs[j].0 != cs[i].0)
              ==> InsertAll(m, cs)[cs[i].0] == cs[i].1
    decreases |cs|
  {
    if |cs| > 0 {
      var m' := if cs[0].0 in m then m else m[cs[0].0 := cs[0].1];
      FirstSeenWins(m', cs[1..]);
      forall k ensures k in InsertAll(m, cs) <==> (k in m || exists i :: 0 <= i < |cs| && cs[i].0 == k) {
        if exists i :: 0 <= i < |cs[1..]| && cs[1..][i].0 == k {
          var i :| 0 <= i < |cs[1..]| && cs[1..][i].0 == k;
          assert cs[i + 1].0 == k;
        }
        if exists i :: 0 <= i < |cs| && cs[i].0 == k {
          var i :| 0 <= i < |cs| && cs[i].0 == k;
          if i > 0 {
            assert cs[1..][i - 1].0 == k;
          }
        }
      }
      forall i | 0 <= i < |cs| && cs[i].0 !in m && (forall j :: 0 <= j < i ==> cs[j].0 != cs[i].0)
        ensures InsertAll(m, cs)[cs[i].0] == cs[i].1
      {
        if i > 0 {
          assert cs[0].0 != cs[i].0;
          assert cs[1..][i - 1] == cs[i];
          forall j | 0 <= j < i - 1 ensures cs[1..][j].0 != cs[i].0 {
            assert cs[1..][j] == cs[j + 1];
          }
        }
      }
    }
  }

  lemma CandidatesStep(dirs: seq<string>, i: nat, readDir: ReadDir, pathExists: PathExists, pathVar: string)
    requires i < |dirs|
    ensures Candidates(dirs[i..], readDir, pathExists, pathVar)
         == ListingCandidates(readDir(dirs[i]), pathExists, pathVar) + Candidates(dirs[i + 1..], readDir, pathExists, pathVar)
  {
    assert dirs[i..][0] == dirs[i] && dirs[i..][1..] == dirs[i + 1..];
  }

  lemma DirCandidatesStep(items: seq<DirItem>, j: nat, pathExists: PathExists, pathVar: string)
    requires j < |items| && items[j].File?
    ensures DirCandidates(items[j..], pathExists, pathVar)
         == Contribution(items[j].name, items[j].ini, pathExists, pathVar) + DirCandidates(items[j + 1..], pathExists, pathVar)
  {
    assert items[j..][0] == items[j] && items[j..][1..] == items[j + 1..];
  }

  /**
   * The inner loop of `read_entries`, over one directory's items: up to the
   * first unreadable item, a `.desktop` file that decodes to an entry is
   * inserted under its stem unless the stem is already present.
   */
  method MergeDirectory(entries: EntryMap, items: seq<DirItem>, pathExists: PathExists, pathVar: string)
    returns (merged: EntryMap)
    ensures merged == InsertAll(entries, DirCandidates(items, pathExists, pathVar))
  {
    merged := entries;
    for j := 0 to |items|
      invariant InsertAll(merged, DirCandidates(items[j..], pathExists, pathVar))
             == InsertAll(entries, DirCandidates(items, pathExists, pathVar))
    {
      match items[j] {
        case Unreadable =>
          assert items[j..][0] == items[j];
          break;
        case File(name, ini) =>
          DirCandidatesStep(items, j, pathExists, pathVar);
          InsertAllAppend(merged, Contribution(name, ini, pathExists, pathVar),
                          DirCandidates(items[j + 1..], pathExists, pathVar));
          var (stem, ext) := StemAndExtension(name);
          if ext != Some("desktop") {
            continue;
          }
          if ini.None? {
            continue;
          }
          var entry := FromIni(stem, ini.value, pathExists, pathVar);
          if entry.None? {
            continue;
          }
          if stem !in merged {
            merged := merged[stem := entry.value];
          }
      }
    }
  }

  /**
   * The outer loop of `read_entries`: the directories in order; one that
   * cannot be opened is skipped.
   */
  method MergeEntries(dirs: seq<string>, readDir: ReadDir, pathExists: PathExists, pathVar: string)
    returns (entries: EntryMap)
    ensures entries == InsertAll(map[], Candidates(dirs, readDir, pathExists, pathVar))
  {
    entries := map[];
    for i := 0 to |dirs|
      invariant InsertAll(entries, Candidates(dirs[i..], readDir, pathExists, pathVar))
             == InsertAll(map[], Candidates(dirs, readDir, pathExists, pathVar))
    {
      CandidatesStep(dirs, i, readDir, pathExists, pathVar);
      InsertAllAppend(entries, ListingCandidates(readDir(dirs[i]), pathExists, pathVar),
                      Candidates(dirs[i + 1..], readDir, pathExists, pathVar));
      match readDir(dirs[i]) {
        case CannotOpen =>
        case Listed(items) =>
          entries := MergeDirectory(entries, items, pathExists, pathVar);
      }
    }
  }

  /** `read_entries`: the directory list, then the merge. */
  method ReadEntries(env: Env, readDir: ReadDir, pathExists: PathExists) returns (entries: EntryMap)
    ensures entries == Merged(env, readDir, pathExists)
    ensures var cs := AllCandidates(env, readDir, pathExists);
      && (forall k :: k in entries <==> exists i :: 0 <= i < |cs| && cs[i].0 == k)
      && (forall i :: 0 <= i < |cs| && (forall j :: 0 <= j < i ==> cs[j].0 != cs[i].0)
                      ==> entries[cs[i].0] == cs[i].1)
  {
    var dirs := ReadAppDirs(env);
    entries := MergeEntries(dirs, readDir, pathExists, env.path);
    FirstSeenWins(map[], AllCandidates(env, readDir, pathExists));
  }
}
