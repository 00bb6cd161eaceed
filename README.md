# dmenu-desktop, modelled in Dafny

dmenu-desktop is a small launcher for freedesktop.org desktop entries. It
reads the `.desktop` files of the XDG application directories, merges them by
file stem (the first directory that has a stem wins), decides which entries
are hidden, sorts the entries by lower-cased name, and shows one field of
each visible entry (its name, its command or its file name) one per line.
Without `--dmenu` it prints those lines. With `--dmenu` it pipes them into
that picker program. It then looks up the picker's answer among the entries
and spawns that entry's command, wrapped in the `--terminal` template when the
entry asks for a terminal. An answer that matches no entry is run as a
command of its own.

The model follows the single source file `src/main.rs`, one module per concern:

- `Text` (text.dfy) holds the `str` operations the program relies on: `split`,
  `contains`, `replace`, `trim`, lower-casing and `String::cmp`. Each comes with
  its laws: split/join round trip, replace as split-and-join, trim shape, and
  the order laws.
- `Paths` (paths.dfy) holds `PathBuf::join`, `env::split_paths`, and
  `file_stem`/`extension`.
- `Entries` (entries.dfy) holds the `DesktopEntry` record, `from_ini` and `field`.
- `Directories` (directories.dfy) builds the list of application directories
  from the environment: a specification function, and the method that pushes
  onto the vector.
- `Registry` (registry.dfy) holds the directory loops of `read_entries`, as
  methods proved equal to a first-seen-wins fold.
- `Display` (display.dfy) covers collecting the map's values, sorting them
  stably in place in an array, and rendering the text.
- `Launch` (launch.dfy) holds `run_command`, as a function from the picker's
  answer to the outcome.
- `Launcher` (launcher.dfy) holds `main`: read, collect, sort, then print or
  run the picker.

The environment, the file system, the INI parser, the tokenizer
(`shlex::split`) and the picker process enter as parameters:

- `Env` gives the variables;
- `ReadDir` gives directory listings with their already decoded INI contents;
- `PathExists` answers `Path::exists`;
- `Tokenizer` does the tokenising;
- `Picker` returns the picker's standard output.

A run ends in one of these `Outcome`s:

- `Printed`;
- `Failed` with the error `main` returns;
- `Panicked`;
- `Fallback`, which runs the answer as a command;
- `Launched`: the program, arguments and working directory handed to `Command::spawn`.

In several places the code behaves differently from what a reader of the
desktop-entry conventions might expect. The model follows the code:

- when TryExec is not found as given, each PATH directory is joined with the
  **Exec** value, not the TryExec value;
- Name and Exec only need to be present, and may be empty;
- having neither `XDG_DATA_HOME` nor `HOME` is not an error;
- a failed read of a directory item stops that directory's listing instead
  of skipping the item;
- the picker's answer is looked up among **all** entries, hidden ones included.
- the answer is trimmed before it is compared, so an entry whose shown field
  starts or ends with whitespace (a file named " foo.desktop" in filename
  mode, or an Exec such as "foo\t -x" in command mode) is never selected by
  its own line; the answer then runs as a fallback command.

## Model

| member | source | states |
|---|---|---|
| Text.SplitOn | src/main.rs:86 | `str::split` always yields at least one piece, and the first piece is a prefix of the string |
| Text.SplitOnPiecesAvoid | src/main.rs:86 | no piece of a split contains the pattern, for any non-empty pattern (`{}` included) |
| Text.SplitOnRoundTrip | src/main.rs:86 | joining the pieces of a split with the pattern gives back the string |
| Text.ContainsIffOccurs | src/main.rs:155 | `contains(pat)` holds exactly when a copy of `pat` starts at some position of the string |
| Text.ContainsIffSplits | src/main.rs:155 | `contains(pat)` holds exactly when splitting at `pat` gives more than one piece |
| Text.ReplaceAllIsIntercalate | src/main.rs:161 | `replace(pat, rep)` equals splitting at `pat` and joining with `rep` |
| Text.ReplaceAllSelf | src/main.rs:161 | replacing a pattern by itself is the identity |
| Text.NoMatchNoChange | src/main.rs:155-161 | replacing a pattern that does not occur changes nothing |
| Text.SplitOnCharPieces | src/main.rs:86 | splitting on one character: the first piece is the prefix up to the first occurrence, and no piece contains the character |
| Text.SplitOnCharAfter | src/main.rs:99-103 | splitting `x + c + rest`, where `x` has no `c`, gives `x` followed by the pieces of `rest` |
| Text.Trim | src/main.rs:137 | `trim` yields the middle of the string between all-whitespace ends, and the result neither starts nor ends with whitespace |
| Text.TrimStable | src/main.rs:137 | a string without surrounding whitespace is its own trim |
| Text.TrimLine | src/main.rs:137 | trimming a newline-terminated line without surrounding whitespace gives the line |
| Text.LowerChars | src/main.rs:94 | lower-casing keeps the length, works character by character, and leaves no upper-case ASCII letter |
| Text.LowerIdempotent | src/main.rs:94 | lowering a sort key again changes nothing |
| Text.LowerEqualIff | src/main.rs:94 | two names get the same sort key exactly when they differ only in the case of ASCII letters ("Bash" and "bash") |
| Text.LessIrreflexive | src/main.rs:94 | the string order `cmp` is strict |
| Text.LessTransitive | src/main.rs:94 | the string order is transitive |
| Text.LessTotal | src/main.rs:94 | any two distinct strings are ordered one way or the other |
| Text.NotLessTransitive | src/main.rs:94 | "not less than" is transitive |
| Paths.PathJoin | src/main.rs:62 | an absolute `rel` replaces the base; otherwise the result is the base, then `rel`, with a `/` added exactly when the base is non-empty and does not end in one, so a non-empty base always meets `rel` at a `/` |
| Paths.SplitPaths | src/main.rs:61 | `split_paths` gives at least one directory, the directories joined with `:` are the list, and none contains `:` |
| Paths.LastIndexOf | src/main.rs:215-216 | the last position of a character, absent exactly when the character does not occur |
| Paths.StemAndExtension | src/main.rs:215-217 | there is no extension exactly for ".." or a name with no dot after its first character, and then the stem is the whole name; otherwise stem + "." + extension is the name, the stem is non-empty and the extension has no dot |
| Entries.AnyJoinedExistsIff | src/main.rs:61-63 | true exactly when some directory joined with the file exists |
| Entries.JoinedSearchIff | src/main.rs:61-63 | the same search, as: some directory of the list, joined with the file, exists |
| Entries.ExecExists | src/main.rs:56-67 | true without TryExec; otherwise true exactly when the TryExec path exists or some PATH directory joined with the Exec value exists |
| Entries.FromIni | src/main.rs:43-81 | an entry exactly when the Desktop Entry section exists with Type "Application", Name and Exec; then its fields are those keys, it wants a terminal exactly when Terminal is "true", and it is hidden exactly when the program is missing or NoDisplay or Hidden is "true" |
| Entries.FlagsForceHide | src/main.rs:69-71 | NoDisplay=true or Hidden=true hides the entry |
| Entries.NoTryExecShown | src/main.rs:66-71 | without TryExec an entry is hidden only by NoDisplay or Hidden |
| Entries.MissingProgramHides | src/main.rs:56-69 | a missing TryExec whose Exec is found in no PATH directory hides the entry |
| Entries.BareTryExecWithArguments | src/main.rs:56-69 | TryExec=firefox with Exec "firefox %u" and /usr/bin/firefox installed gives a hidden entry, because PATH is searched for the Exec value |
| Entries.FieldShape | src/main.rs:82-88 | the name, the file stem, or the Exec prefix before the first space (a space follows it when it is shorter than Exec) |
| Directories.JoinEach | src/main.rs:192-195 | each directory joined with the subdirectory, in order |
| Directories.PrimaryDir | src/main.rs:183-190 | the user's directory exists exactly when XDG_DATA_HOME or HOME is set, and always ends in "applications" |
| Directories.SecondaryDirs | src/main.rs:191-200 | the two default directories when XDG_DATA_DIRS is unset, else each of its directories joined with "applications" |
| Directories.AppDirs | src/main.rs:182-202 | XDG_DATA_HOME/applications, else HOME/.local/share/applications, else nothing; then the secondary directories |
| Directories.PushAll | src/main.rs:201-202 | pushing every directory appends them in order |
| Directories.ReadAppDirs | src/main.rs:182-202 | the vector the pushes build is the directory list `AppDirs` |
| Registry.Contribution | src/main.rs:214-235 | a file contributes at most one entry, and one exactly when its extension is "desktop", it parses, and `from_ini` accepts it under its stem |
| Registry.InsertAll | src/main.rs:235 | `or_insert` never overwrites a value already present, and every candidate's key ends up present |
| Registry.MergedKeyedByFilename | src/main.rs:230-235 | every merged entry is stored under its own file stem |
| Registry.InsertAllAppend | src/main.rs:205-237 | merging two runs of candidates one after the other is merging them in sequence |
| Registry.FirstSeenWins | src/main.rs:235 | the keys are the old ones and those of the candidates, old values are never overwritten, and a new key keeps its first candidate |
| Registry.MergeDirectory | src/main.rs:209-236 | the loop over one directory merges its candidates up to the first unreadable item |
| Registry.MergeEntries | src/main.rs:204-237 | the loop over the directories merges the candidates of every directory that can be opened, in order |
| Registry.ReadEntries | src/main.rs:181-240 | the map is the first-seen-wins merge of all candidates: its keys are theirs, and each key holds its first candidate |
| Display.SortByNameCorrect | src/main.rs:94 | the sort is sorted by lower-cased name, a permutation, and stable: entries with equal keys keep their order |
| Display.SortByNameSorted | src/main.rs:94 | the sort's result is sorted by lower-cased name |
| Display.SortByNameMultiset | src/main.rs:94 | the sort's result is a permutation of its input |
| Display.SortByNameStable | src/main.rs:94 | the sort keeps the input order among entries with equal keys |
| Display.InsertByNameSorted | src/main.rs:94 | inserting into a sorted list keeps it sorted |
| Display.InsertByNameMultiset | src/main.rs:94 | inserting adds exactly the one entry |
| Display.InsertByNameWithKey | src/main.rs:94 | inserting keeps the order among entries of equal key, the new one last |
| Display.SortEntries | src/main.rs:94 | the in-place sort leaves the array holding the stable sort of its old contents |
| Display.ShiftInsert | src/main.rs:94 | one insertion step places the next entry into the sorted prefix |
| Display.ShiftRight | src/main.rs:94 | the inner loop moves each larger entry one place right and stops where every entry after the gap has a larger key and the one before it does not |
| Display.InsertAfterSmaller | src/main.rs:94 | the insertion puts the entry right after the last entry whose key is not larger, with every larger one after it |
| Display.CollectValues | src/main.rs:93 | the values of the map, one per key: a list of the map's keys, each exactly once in some order, with each value the one stored under its key |
| Display.Visible | src/main.rs:97 | the entries kept are exactly the non-hidden ones |
| Display.VisibleAppend | src/main.rs:97 | the filter distributes over concatenation, so it keeps the input order and multiplicity |
| Display.VisibleSingle | src/main.rs:97 | one entry is kept exactly when it is not hidden |
| Display.Project | src/main.rs:98 | one field per entry, in order |
| Display.Terminated | src/main.rs:99-103 | the fold of a non-empty list ends in a newline and is at least one character per line long |
| Display.TerminatedRoundTrip | src/main.rs:99-103 | splitting the folded text at newlines gives the lines, then an empty piece |
| Display.RenderLines | src/main.rs:95-103 | the text is one line per visible entry, when no field contains a newline |
| Display.RenderEmpty | src/main.rs:95-103 | the text is empty exactly when no entry is visible |
| Launch.Message | src/main.rs:116-165 | the four fixed messages "Invalid dmenu command.", "Invalid command.", "Invalid terminal command" and "Invalid exec key.", and the system's own message for an I/O error of the picker |
| Launch.Find | src/main.rs:135-137 | the first entry whose field equals the answer, and none exactly when no entry matches |
| Launch.CommandString | src/main.rs:152-162 | Exec unless a template is given and the entry wants a terminal; then an error exactly when the template lacks `{}`, else the template's pieces around `{}`, none of which holds `{}`, joined with Exec |
| Launch.Chosen | src/main.rs:135-177 | the outcome for every case. With no match: "Invalid command." for broken quoting, a panic for no tokens, else a fallback running the answer's tokens. With a match: the terminal-template error, "Invalid exec key." for broken quoting, a panic for no tokens, else a launch of the command's tokens in the entry's Path |
| Launch.ChosenCauses | src/main.rs:135-177 | read the other way: a fallback happens only when nothing matched and runs the answer's tokens, a launch only for the matched entry's command in its Path, and "Invalid command." is the failure exactly when nothing matched |
| Launch.RunCommand | src/main.rs:113-177 | broken picker quoting fails with "Invalid dmenu command." and no tokens panic; otherwise a picker I/O error is returned, a non-UTF-8 answer panics, and an answer leads to `Chosen` on its trim |
| Launch.FallbackIgnoresTerminal | src/main.rs:138-150 | an unmatched answer ignores the terminal template and ends in a fallback, a panic or "Invalid command." |
| Launch.TerminalOnlyForTerminalEntries | src/main.rs:153 | for entries that do not want a terminal the template is irrelevant |
| Launch.TemplateWithoutPlaceholder | src/main.rs:153-160 | a template without `{}` fails the run before the entry's command is spawned, when a terminal entry is chosen |
| Launch.XtermTemplate | src/main.rs:161 | "xterm -e {}" makes the command line "xterm -e " followed by Exec |
| Launch.ReplacePlaceholderAtEnd | src/main.rs:161 | a brace-free prefix followed by `{}` becomes the prefix followed by the replacement |
| Launch.PaddedFieldNeverFound | src/main.rs:135-137 | an entry whose shown field starts or ends with whitespace is never the match for any trimmed answer |
| Launch.PaddedFilenameFallsThrough | src/main.rs:135-137 | the file " foo.desktop" in filename mode: its own line, trimmed, matches nothing |
| Launch.AnswerSelectsEntry | src/main.rs:132-137 | when the picker answers an entry's field plus a newline, no other entry shows that field, and the field neither starts nor ends with whitespace, the lookup selects that entry |
| Launcher.Finish | src/main.rs:105-110 | prints the rendered text exactly when no picker is given, and otherwise runs `RunCommand` on the sorted entries and that text |
| Launcher.SortedValues | src/main.rs:93-94 | the list is the stable sort by name of the map's values, taken one per key in some order |
| Launcher.Run | src/main.rs:91-110 | the entry list is the stable sort by name of the merged map's values, one per key; it is sorted and holds every merged entry; the outcome is `Finish` of that list |
| Launcher.PrintsVisibleLines | src/main.rs:105-107 | without a picker the output is one line per visible entry |
| Launcher.HiddenEntryStillSelected | src/main.rs:97-137 | a hidden entry is not shown, yet an answer naming it selects it, when its field is shown by no other entry and neither starts nor ends with whitespace |
| Launcher.FilenameAnswerSelects | src/main.rs:85-137 | with `--entry-type filename`, a lookup of a merged stem itself (the already-trimmed answer) finds exactly the entry merged under that stem |

## Left out

- Command-line parsing by clap is not modelled. `Cli` is given already parsed.
- Reading the environment, the directories and the files is not modelled. These are inputs: `Env`, `ReadDir`, `PathExists`.
- The INI parser, `Ini::load_from_file_opt` without quotes or escapes, is not modelled. A listing item already carries its decoded sections, or `None` when the file did not parse.
- How the parser treats duplicate keys and the general section is not modelled either.
- `shlex::split` is not modelled: the tokenizer is a parameter.
- Processes are not modelled. The picker's spawn, its input and waiting for it are the `Picker` parameter.
- The fallback command's execution, its printed output and its exit status are left out. `Outcome.Fallback` only names what runs.
- When the fallback program cannot be spawned, the source returns that I/O error from `main`, which then exits with it. The model still ends in `Fallback`, because spawning is not modelled.
- The launched entry's spawn error is left out too. Unlike the fallback's, it is only printed, not returned.
- A failed write of the text to the picker is ignored, as in the source (`let _ =`). It belongs to the `Picker` parameter.
- The panic when PATH is unset is not modelled. PATH is taken as a string in `Env`.
- The panic in `file_stem().unwrap().to_str().unwrap()` on non-UTF-8 names is not modelled. File names are strings of Unicode scalar values.
- The panic on a non-UTF-8 picker answer is modelled as `MenuNotUtf8` leading to `Panicked`.
- `Text.Lower`: lower-cases ASCII letters only. Rust's `to_lowercase` applies full Unicode case mapping, which can change the length.
- `HashMap` iteration order is not modelled. `Display.CollectValues` picks the keys in an arbitrary order. `Launcher.Run` fixes the order among equal names only relative to that order, as the source does.
- The `hide` field is named `hidden` in the model, because `hide` is a Dafny keyword.
- `Path` of an entry is kept as a string, not a `PathBuf`.
