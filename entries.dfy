/**
 * A desktop entry as the launcher keeps it (`struct DesktopEntry`), its
 * decoding from the `[Desktop Entry]` section of a `.desktop` file
 * (`DesktopEntry::from_ini`) and the field shown for it (`DesktopEntry::field`).
 */
module Entries {
  import opened Wrappers
  import opened Text
  import opened Paths

  /** The `--entry-type` choice: which field of an entry is shown and matched. */
  datatype EntryType = Name | Command | Filename

  datatype DesktopEntry = DesktopEntry(
    name: string,          // the Name key
    filename: string,      // the file's stem, the key entries are merged on
    exec: string,          // the Exec key, untokenised
    hidden: bool,            // computed once, when the entry is decoded
    terminal: bool,        // Terminal=true
    path: Option<string>)  // the Path key: the working directory to launch in

  /** The keys of one INI section. */
  type Section = map<string, string>

  /** A decoded INI file: its named sections. */
  type Ini = map<string, Section>

  /** Whether a path exists on the file system (`PathBuf::exists`). */
  type PathExists = string -> bool

  const DesktopEntrySection := "Desktop Entry"

  /** `section.get(key)`. */
  function Get(section: Section, key: string): Option<string>
  {
    if key in section then Some(section[key]) else None
  }

  /** Some directory of `dirs`, joined with `file`, exists (`.map(join).any(exists)`). */
  function AnyJoinedExists(dirs: seq<string>, file: string, pathExists: PathExists): bool
  {
    if |dirs| == 0 then false
    else pathExists(PathJoin(dirs[0], file)) || AnyJoinedExists(dirs[1..], file, pathExists)
  }

  /** Directory `i` of `dirs`, joined with `file`, exists. */
  predicate FoundAt(dirs: seq<string>, file: string, pathExists: PathExists, i: int)
  {
    0 <= i < |dirs| && pathExists(PathJoin(dirs[i], file))
  }

  /** The search succeeds exactly when some directory joined with `file` exists. */
  lemma {:induction false} AnyJoinedExistsIff(dirs: seq<string>, file: string, pathExists: PathExists)
    ensures AnyJoinedExists(dirs, file, pathExists) <==> exists i :: FoundAt(dirs, file, pathExists, i)
  {
    if |dirs| > 0 {
      var rest := dirs[1..];
      assert AnyJoinedExists(dirs, file, pathExists)
          == (FoundAt(dirs, file, pathExists, 0) || AnyJoinedExists(rest, file, pathExists));
      AnyJoinedExistsIff(rest, file, pathExists);
      if AnyJoinedExists(rest, file, pathExists) {
        var k :| FoundAt(rest, file, pathExists, k);
        assert dirs[k + 1] == rest[k];
        assert FoundAt(dirs, file, pathExists, k + 1);
      }
      if exists i :: FoundAt(dirs, file, pathExists, i) {
        var i :| FoundAt(dirs, file, pathExists, i);
        if i > 0 {
          assert rest[i - 1] == dirs[i];
          assert FoundAt(rest, file, pathExists, i - 1);
        }
      }
    }
  }

  /** The same search, read over the directories themselves rather than their positions. */
  lemma JoinedSearchIff(dirs: seq<string>, file: string, pathExists: PathExists)
    ensures AnyJoinedExists(dirs, file, pathExists) <==> exists d :: d in dirs && pathExists(PathJoin(d, file))
  {
    AnyJoinedExistsIff(dirs, file, pathExists);
    if AnyJoinedExists(dirs, file, pathExists) {
      var i :| FoundAt(dirs, file, pathExists, i);
      assert dirs[i] in dirs;
    }
    if exists d :: d in dirs && pathExists(PathJoin(d, file)) {
      var d :| d in dirs && pathExists(PathJoin(d, file));
      var i :| 0 <= i < |dirs| && dirs[i] == d;
      assert FoundAt(dirs, file, pathExists, i);
    }
  }

  /**
   * Whether the entry's program is considered present. Without TryExec it is;
   * otherwise the TryExec path must exist, or some directory of PATH joined
   * with the Exec value (not the TryExec value) must exist.
   */
  function ExecExists(section: Section, exec: string, pathExists: PathExists, pathVar: string): (r: bool)
    ensures "TryExec" !in section ==> r
    ensures "TryExec" in section ==>
      (r <==> pathExists(section["TryExec"])
              || exists d :: d in SplitPaths(pathVar) && pathExists(PathJoin(d, exec)))
  {
    match Get(section, "TryExec")
    case None => true
    case Some(tryExec) =>
      if pathExists(tryExec) then true
      else
        var dirs := SplitPaths(pathVar);
        JoinedSearchIff(dirs, exec, pathExists);
        AnyJoinedExists(dirs, exec, pathExists)
  }

  /**
   * `DesktopEntry::from_ini`: an entry only for a `[Desktop Entry]` section
   * whose Type is exactly "Application" and which has Name and Exec keys
   * (present, possibly empty). The entry is hidden when its program is not
   * found or NoDisplay or Hidden is exactly "true"; it wants a terminal
   * exactly when Terminal is "true".
   */
  function FromIni(filename: string, ini: Ini, pathExists: PathExists, pathVar: string): (r: Option<DesktopEntry>)
    ensures r.Some? <==>
      (DesktopEntrySection in ini
       && Get(ini[DesktopEntrySection], "Type") == Some("Application")
       && "Name" in ini[DesktopEntrySection]
       && "Exec" in ini[DesktopEntrySection])
    ensures r.Some? ==>
      var section := ini[DesktopEntrySection];
      && r.value.name == section["Name"]
      && r.value.exec == section["Exec"]
      && r.value.filename == filename
      && r.value.path == Get(section, "Path")
      && (r.value.terminal <==> Get(section, "Terminal") == Some("true"))
      && (r.value.hidden <==>
            (!ExecExists(section, section["Exec"], pathExists, pathVar)
             || Get(section, "NoDisplay") == Some("true")
             || Get(section, "Hidden") == Some("true")))
  {
    if DesktopEntrySection !in ini then None
    else
      var section := ini[DesktopEntrySection];
      if Get(section, "Type") != Some("Application") then None
      else if "Name" !in section then None
      else if "Exec" !in section then None
      else
        var exec := section["Exec"];
        var execExists := ExecExists(section, exec, pathExists, pathVar);
        var hidden := !execExists || Get(section, "NoDisplay") == Some("true") || Get(section, "Hidden") == Some("true");
        Some(DesktopEntry(section["Name"], filename, exec, hidden,
                          Get(section, "Terminal") == Some("true"),
                          Get(section, "Path")))
  }

  /** NoDisplay=true or Hidden=true hides an entry whatever its program's presence. */
  lemma FlagsForceHide(filename: string, ini: Ini, pathExists: PathExists, pathVar: string)
    requires DesktopEntrySection in ini
    requires Get(ini[DesktopEntrySection], "NoDisplay") == Some("true")
          || Get(ini[DesktopEntrySection], "Hidden") == Some("true")
    ensures match FromIni(filename, ini, pathExists, pathVar)
      case Some(e) => e.hidden
      case None => true
  {
  }

  /** Without TryExec an accepted entry is shown unless NoDisplay or Hidden says otherwise. */
  lemma NoTryExecShown(filename: string, ini: Ini, pathExists: PathExists, pathVar: string)
    requires DesktopEntrySection in ini
    requires "TryExec" !in ini[DesktopEntrySection]
    ensures match FromIni(filename, ini, pathExists, pathVar)
      case Some(e) =>
        e.hidden <==> (Get(ini[DesktopEntrySection], "NoDisplay") == Some("true")
                     || Get(ini[DesktopEntrySection], "Hidden") == Some("true"))
      case None => true
  {
  }

  /**
   * A TryExec that names no existing file and whose Exec, joined with every
   * PATH directory, names none either, hides the entry.
   */
  lemma MissingProgramHides(filename: string, ini: Ini, pathExists: PathExists, pathVar: string)
    requires DesktopEntrySection in ini
    requires var section := ini[DesktopEntrySection];
      && "TryExec" in section && "Exec" in section
      && !pathExists(section["TryExec"])
      && forall d :: d in SplitPaths(pathVar) ==> !pathExists(PathJoin(d, section["Exec"]))
    ensures match FromIni(filename, ini, pathExists, pathVar)
      case Some(e) => e.hidden
      case None => true
  {
  }

  /** A file system on which the only program is /usr/bin/firefox. */
  predicate OnlyFirefoxInstalled(p: string)
  {
    p == "/usr/bin/firefox"
  }

  /**
   * Because PATH is searched for the Exec value, a TryExec naming a program by
   * its bare name hides an entry whose Exec carries arguments, even though the
   * program is on PATH.
   */
  lemma BareTryExecWithArguments()
    ensures
      var r := FromIni("firefox", map[DesktopEntrySection := FirefoxSection()], OnlyFirefoxInstalled, "/usr/bin");
      r.Some? && r.value.hidden
  {
    var ini := map[DesktopEntrySection := FirefoxSection()];
    assert DesktopEntrySection in ini && ini[DesktopEntrySection] == FirefoxSection();
    FirefoxKeys();
    FirefoxNotFound();
  }

  lemma FirefoxKeys()
    ensures var s := FirefoxSection();
      && Get(s, "Type") == Some("Application") && "Name" in s
      && "Exec" in s && s["Exec"] == "firefox %u"
  {
  }

  function FirefoxSection(): Section
  {
    map["Type" := "Application", "Name" := "Firefox", "Exec" := "firefox %u", "TryExec" := "firefox"]
  }

  lemma FirefoxNotFound()
    ensures !ExecExists(FirefoxSection(), "firefox %u", OnlyFirefoxInstalled, "/usr/bin")
  {
    UsrBinAlone();
    FirefoxWithArgumentJoined();
    assert !OnlyFirefoxInstalled("/usr/bin/firefox %u");
    assert !OnlyFirefoxInstalled("firefox");
  }

  lemma UsrBinAlone()
    ensures SplitPaths("/usr/bin") == ["/usr/bin"]
  {
    SplitOnCharAbsent("/usr/bin", ':');
  }

  lemma FirefoxWithArgumentJoined()
    ensures PathJoin("/usr/bin", "firefox %u") == "/usr/bin/firefox %u"
  {
  }

  /**
   * `DesktopEntry::field`: the name, the file stem, or the Exec value up to
   * its first space (all of it when it has none, "" when it starts with one).
   * The first piece of `split(" ")` always exists, so the fall-back to the
   * name is never taken.
   */
  function Field(e: DesktopEntry, t: EntryType): string
  {
    match t
    case Name => e.name
    case Filename => e.filename
    case Command => First(SplitOn(e.exec, " ")).GetOr(e.name)
  }

  /**
   * The shown field is the name, the file stem, or the part of Exec before
   * its first space (followed by a space when it is shorter than Exec).
   */
  lemma FieldShape(e: DesktopEntry, t: EntryType)
    ensures t == Name ==> Field(e, t) == e.name
    ensures t == Filename ==> Field(e, t) == e.filename
    ensures t == Command ==>
      var r := Field(e, t);
      && |r| <= |e.exec| && r == e.exec[..|r|]
      && ' ' !in r
      && (|r| < |e.exec| ==> e.exec[|r|] == ' ')
  {
    SplitOnCharPieces(e.exec, ' ');
  }

  /** `iter.nth(0)`. */
  function First(s: seq<string>): Option<string>
  {
    if |s| == 0 then None else Some(s[0])
  }
}
