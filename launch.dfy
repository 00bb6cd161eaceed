/**
 * `run_command`: start the picker on the rendered text, match its answer
 * against the entries, and decide what to start. Tokenising (`shlex::split`)
 * and the picker process are parameters; the result is the outcome the call
 * ends in, with the program and arguments it spawns.
 */
module Launch {
  import opened Wrappers
  import opened Text
  import opened Entries

  /** `shlex::split`: a command line as tokens, or None when its quoting is broken. */
  type Tokenizer = string -> Option<seq<string>>

  /** What became of the picker process. */
  datatype MenuResult =
    | MenuFailed(reason: string)  // spawning it or waiting for it failed, with the system's message
    | MenuNotUtf8           // it answered with bytes that are not UTF-8
    | MenuExited(stdout: string)

  /** Runs the picker: program, arguments, the text written to its standard input. */
  type Picker = (string, seq<string>, string) -> MenuResult

  /** The errors `run_command` returns. */
  datatype Error =
    | InvalidDmenuCommand
    | MenuIo(reason: string)
    | InvalidCommand
    | InvalidTerminalCommand
    | InvalidExecKey

  /** The message each error carries; an I/O error carries the operating system's. */
  function Message(e: Error): (m: string)
    ensures e == InvalidDmenuCommand ==> m == "Invalid dmenu command."
    ensures e == InvalidCommand ==> m == "Invalid command."
    ensures e == InvalidTerminalCommand ==> m == "Invalid terminal command"
    ensures e == InvalidExecKey ==> m == "Invalid exec key."
    ensures e.MenuIo? ==> m == e.reason
  {
    match e
    case InvalidDmenuCommand => "Invalid dmenu command."
    case MenuIo(reason) => reason
    case InvalidCommand => "Invalid command."
    case InvalidTerminalCommand => "Invalid terminal command"
    case InvalidExecKey => "Invalid exec key."
  }

  /** How a run of the launcher ends. */
  datatype Outcome =
    | Printed(text: string)                  // no picker: the text goes to standard output
    | Failed(error: Error)                   // `Err` returned from `main`
    | Panicked                               // `remove(0)` on no tokens, or `expect` on non-UTF-8 output
    | Fallback(program: string, args: seq<string>)
        // the answer matched nothing: it is run as a command and its output printed;
        // a failure to spawn it would be returned from `main`, which is not modelled
    | Launched(program: string, args: seq<string>, cwd: Option<string>)
        // the selected entry's command is spawned and left running

  /** `entries.iter().find(|e| e.field(entry_type) == choice)`, as an index. */
  function Find(entries: seq<DesktopEntry>, t: EntryType, choice: string): (r: Option<nat>)
    ensures r.None? <==> forall i :: 0 <= i < |entries| ==> Field(entries[i], t) != choice
    ensures r.Some? ==>
      r.value < |entries| && Field(entries[r.value], t) == choice
      && forall i :: 0 <= i < r.value ==> Field(entries[i], t) != choice
  {
    FindFrom(entries, t, choice, 0)
  }

  function FindFrom(entries: seq<DesktopEntry>, t: EntryType, choice: string, from: nat): (r: Option<nat>)
    requires from <= |entries|
    ensures r.None? <==> forall i :: from <= i < |entries| ==> Field(entries[i], t) != choice
    ensures r.Some? ==>
      from <= r.value < |entries| && Field(entries[r.value], t) == choice
      && forall i :: from <= i < r.value ==> Field(entries[i], t) != choice
    decreases |entries| - from
  {
    if from == |entries| then None
    else if Field(entries[from], t) == choice then Some(from)
    else FindFrom(entries, t, choice, from + 1)
  }

  /**
   * The command line to tokenise for the selected entry: its Exec value, or,
   * when a terminal template is given and the entry asks for a terminal, the
   * template with every `{}` replaced by it.
   */
  function CommandString(terminal: Option<string>, e: DesktopEntry): (r: Result<string, Error>)
    ensures r.Err? <==> terminal.Some? && e.terminal && !Contains(terminal.value, "{}")
    ensures r.Err? ==> r.error == InvalidTerminalCommand
    ensures !(terminal.Some? && e.terminal) ==> r == Ok(e.exec)
    ensures terminal.Some? && e.terminal && r.Ok? ==>
      var pieces := SplitOn(terminal.value, "{}");
      && r.value == Intercalate(pieces, e.exec)
      && |pieces| > 1
      && forall i :: 0 <= i < |pieces| ==> !Contains(pieces[i], "{}")
  {
    if terminal.Some? && e.terminal then
      if !Contains(terminal.value, "{}") then Err(InvalidTerminalCommand)
      else
        ReplaceAllIsIntercalate(terminal.value, "{}", e.exec);
        ContainsIffSplits(terminal.value, "{}");
        SplitOnPiecesAvoid(terminal.value, "{}");
        Ok(ReplaceAll(terminal.value, "{}", e.exec))
    else Ok(e.exec)
  }

  /** What follows once the picker has answered `choice` (already trimmed). */
  function Chosen(choice: string, terminal: Option<string>, t: EntryType, entries: seq<DesktopEntry>,
                  split: Tokenizer): (r: Outcome)
    ensures !r.Printed?
    ensures match Find(entries, t, choice)
      case None =>
        (match split(choice)
         case None => r == Failed(InvalidCommand)
         case Some(tokens) => if |tokens| == 0 then r == Panicked else r == Fallback(tokens[0], tokens[1..]))
      case Some(i) =>
        i < |entries|
        && match CommandString(terminal, entries[i])
           case Err(_) => r == Failed(InvalidTerminalCommand)
           case Ok(command) =>
             match split(command)
             case None => r == Failed(InvalidExecKey)
             case Some(tokens) =>
               if |tokens| == 0 then r == Panicked else r == Launched(tokens[0], tokens[1..], entries[i].path)
  {
    match Find(entries, t, choice)
    case None =>
      (match split(choice)
       case None => Failed(InvalidCommand)
       case Some(tokens) =>
         if |tokens| == 0 then Panicked else Fallback(tokens[0], tokens[1..]))
    case Some(i) =>
      var e := entries[i];
      match CommandString(terminal, e)
      case Err(error) => Failed(error)
      case Ok(command) =>
        match split(command)
        case None => Failed(InvalidExecKey)
        case Some(tokens) =>
          if |tokens| == 0 then Panicked else Launched(tokens[0], tokens[1..], e.path)
  }

  /**
   * Read in the other direction: a fallback runs the answer's own tokens and
   * happens only when no entry matched; a launch runs the matched entry's
   * command tokens in its Path; "Invalid command." is the one failure left
   * when nothing matched.
   */
  lemma ChosenCauses(choice: string, terminal: Option<string>, t: EntryType, entries: seq<DesktopEntry>,
                     split: Tokenizer)
    ensures var r := Chosen(choice, terminal, t, entries, split);
      && (r.Fallback? ==> Find(entries, t, choice).None? && split(choice) == Some([r.program] + r.args))
      && (r.Launched? ==>
            Find(entries, t, choice).Some?
            && var e := entries[Find(entries, t, choice).value];
               CommandString(terminal, e).Ok?
               && split(CommandString(terminal, e).value) == Some([r.program] + r.args)
               && r.cwd == e.path)
      && (r.Failed? ==> (Find(entries, t, choice).None? <==> r.error == InvalidCommand))
  {
    var r := Chosen(choice, terminal, t, entries, split);
    match Find(entries, t, choice) {
      case None =>
        match split(choice) {
          case None => assert r == Failed(InvalidCommand);
          case Some(tokens) =>
            if |tokens| > 0 {
              assert r == Fallback(tokens[0], tokens[1..]);
              assert tokens == [tokens[0]] + tokens[1..];
            }
        }
      case Some(i) =>
        var e := entries[i];
        match CommandString(terminal, e) {
          case Err(_) => assert r == Failed(InvalidTerminalCommand);
          case Ok(command) =>
            match split(command) {
              case None => assert r == Failed(InvalidExecKey);
              case Some(tokens) =>
                if |tokens| > 0 {
                  assert r == Launched(tokens[0], tokens[1..], e.path);
                  assert tokens == [tokens[0]] + tokens[1..];
                }
            }
        }
    }
  }

  /** `run_command(cli, entries, entries_string)`. */
  function RunCommand(dmenu: string, terminal: Option<string>, t: EntryType, entries: seq<DesktopEntry>,
                      entriesString: string, split: Tokenizer, picker: Picker): (r: Outcome)
    ensures split(dmenu).None? ==> r == Failed(InvalidDmenuCommand)
    ensures split(dmenu) == Some([]) ==> r.Panicked?
    ensures r.Fallback? || r.Launched? ==>
      exists program, args, out ::
        split(dmenu) == Some([program] + args)
        && picker(program, args, entriesString) == MenuExited(out)
        && r == Chosen(Trim(out), terminal, t, entries, split)
    ensures !r.Printed?
    ensures split(dmenu).Some? && |split(dmenu).value| > 0 ==>
      var menu := split(dmenu).value;
      match picker(menu[0], menu[1..], entriesString)
      case MenuFailed(reason) => r == Failed(MenuIo(reason))
      case MenuNotUtf8 => r == Panicked
      case MenuExited(out) => r == Chosen(Trim(out), terminal, t, entries, split)
  {
    match split(dmenu)
    case None => Failed(InvalidDmenuCommand)
    case Some(menu) =>
      if |menu| == 0 then Panicked
      else
        assert menu == [menu[0]] + menu[1..];
        match picker(menu[0], menu[1..], entriesString)
        case MenuFailed(reason) => Failed(MenuIo(reason))
        case MenuNotUtf8 => Panicked
        case MenuExited(out) => Chosen(Trim(out), terminal, t, entries, split)
  }

  /** An answer that matches no entry leads to the same outcome whatever the terminal template. */
  lemma FallbackIgnoresTerminal(choice: string, terminal: Option<string>, t: EntryType,
                                entries: seq<DesktopEntry>, split: Tokenizer)
    requires forall i :: 0 <= i < |entries| ==> Field(entries[i], t) != choice
    ensures Chosen(choice, terminal, t, entries, split) == Chosen(choice, None, t, entries, split)
    ensures Chosen(choice, terminal, t, entries, split).Fallback?
         || Chosen(choice, terminal, t, entries, split).Panicked?
         || Chosen(choice, terminal, t, entries, split) == Failed(InvalidCommand)
  {
  }

  /** For an entry that does not ask for a terminal, the template does not matter, even one without `{}`. */
  lemma TerminalOnlyForTerminalEntries(choice: string, terminal: Option<string>, t: EntryType,
                                       entries: seq<DesktopEntry>, split: Tokenizer)
    requires forall i :: 0 <= i < |entries| && Field(entries[i], t) == choice ==> !entries[i].terminal
    ensures Chosen(choice, terminal, t, entries, split) == Chosen(choice, None, t, entries, split)
  {
    var f := Find(entries, t, choice);
    if f.Some? {
      assert CommandString(terminal, entries[f.value]) == CommandString(None, entries[f.value]);
    }
  }

  /**
   * A template without `{}` stops the run with an error, before the entry's
   * command is spawned, as soon as the answer selects an entry that asks for
   * a terminal.
   */
  lemma TemplateWithoutPlaceholder(choice: string, template: string, t: EntryType,
                                   entries: seq<DesktopEntry>, split: Tokenizer)
    requires !Contains(template, "{}")
    requires Find(entries, t, choice).Some? && entries[Find(entries, t, choice).value].terminal
    ensures Chosen(choice, Some(template), t, entries, split) == Failed(InvalidTerminalCommand)
  {
  }

  /** The template `xterm -e {}` puts the entry's command line after `xterm -e `. */
  lemma XtermTemplate(e: DesktopEntry)
    requires e.terminal
    ensures CommandString(Some("xterm -e {}"), e) == Ok("xterm -e " + e.exec)
  {
    var tmpl := "xterm -e {}";
    XtermHasPlaceholder();
    assert CommandString(Some(tmpl), e) == Ok(ReplaceAll(tmpl, "{}", e.exec));
    ReplacePlaceholderAtEnd("xterm -e ", e.exec);
    assert tmpl == "xterm -e " + "{}";
  }

  /** The template `xterm -e {}` holds the placeholder. */
  lemma XtermHasPlaceholder()
    ensures Contains("xterm -e {}", "{}")
  {
    var tmpl := "xterm -e {}";
    assert tmpl[9] == '{' && tmpl[10] == '}';
    assert tmpl[9..11] == "{}";
    assert OccursAt(tmpl, "{}", 9);
    ContainsIffOccurs(tmpl, "{}");
  }

  /** Replacing `{}` in a prefix without braces followed by `{}` appends the replacement to the prefix. */
  lemma {:induction false} ReplacePlaceholderAtEnd(prefix: string, rep: string)
    requires forall i :: 0 <= i < |prefix| ==> prefix[i] != '{'
    ensures ReplaceAll(prefix + "{}", "{}", rep) == prefix + rep
    decreases |prefix|
  {
    var s := prefix + "{}";
    if |prefix| == 0 {
      assert s[2..] == [];
    } else {
      assert s[..2] != "{}" by { assert s[0] == prefix[0]; }
      ReplacePlaceholderAtEnd(prefix[1..], rep);
      assert s[1..] == prefix[1..] + "{}";
      assert prefix == [prefix[0]] + prefix[1..];
    }
  }

  /**
   * The answer is trimmed before the lookup, so an entry whose shown field
   * starts or ends with whitespace is never selected by its own line, or by
   * any answer: no picker output trims to that field.
   */
  lemma PaddedFieldNeverFound(entries: seq<DesktopEntry>, t: EntryType, k: nat, out: string)
    requires k < |entries|
    requires var f := Field(entries[k], t); |f| > 0 && (IsWhitespace(f[0]) || IsWhitespace(f[|f| - 1]))
    ensures Find(entries, t, Trim(out)) != Some(k)
  {
    var f, r := Field(entries[k], t), Trim(out);
    if |r| == 0 {
      assert |f| != |r|;
    } else if IsWhitespace(f[0]) {
      assert f[0] != r[0];
    } else {
      assert f[|f| - 1] != r[|r| - 1];
    }
    assert f != r;
  }

  /** In filename mode, the file " foo.desktop" shows " foo", and answering that line finds nothing. */
  lemma PaddedFilenameFallsThrough()
    ensures Find([DesktopEntry("Foo", " foo", "foo", false, false, None)], Filename, Trim(" foo\n")) == None
  {
    var entries := [DesktopEntry("Foo", " foo", "foo", false, false, None)];
    assert IsWhitespace(Field(entries[0], Filename)[0]);
    PaddedFieldNeverFound(entries, Filename, 0, " foo\n");
  }

  /**
   * Choosing a line of the picker's input selects its entry: when the picker
   * answers the shown field of `entries[k]` followed by a newline, no other
   * entry shows the same field, and the field has no surrounding whitespace,
   * the run continues with that entry's command.
   */
  lemma AnswerSelectsEntry(dmenu: string, terminal: Option<string>, t: EntryType, entries: seq<DesktopEntry>,
                           entriesString: string, split: Tokenizer, picker: Picker, k: nat)
    requires k < |entries|
    requires forall i :: 0 <= i < |entries| && i != k ==> Field(entries[i], t) != Field(entries[k], t)
    requires var f := Field(entries[k], t); |f| > 0 ==> !IsWhitespace(f[0]) && !IsWhitespace(f[|f| - 1])
    requires split(dmenu).Some? && |split(dmenu).value| > 0
    requires var menu := split(dmenu).value;
      picker(menu[0], menu[1..], entriesString) == MenuExited(Field(entries[k], t) + "\n")
    ensures Find(entries, t, Field(entries[k], t)) == Some(k)
    ensures RunCommand(dmenu, terminal, t, entries, entriesString, split, picker)
         == Chosen(Field(entries[k], t), terminal, t, entries, split)
  {
    TrimLine(Field(entries[k], t));
  }
}
