/**
 * `main`: read the registry, sort it, render it, then either print the text
 * or hand it to the picker and act on the answer.
 */
module Launcher {
  import opened Wrappers
  import opened Text
  import opened Entries
  import opened Directories
  import opened Registry
  import opened Display
  import opened Launch

  /** The command line: `--entry-type`, `--dmenu` and `--terminal`. */
  datatype Cli = Cli(entryType: EntryType, dmenu: Option<string>, terminal: Option<string>)

  /** `keys` lists every key of `m` exactly once, in some order. */
  predicate OneEach(m: EntryMap, keys: seq<string>)
  {
    && |keys| == |m|
    && (forall i, j :: 0 <= i < j < |keys| ==> keys[i] != keys[j])
    && (forall i :: 0 <= i < |keys| ==> keys[i] in m)
    && (forall k :: k in m ==> k in keys)
  }

  /** The values of `m` under `keys`, in that order. */
  function ValuesAt(m: EntryMap, keys: seq<string>): (vs: seq<DesktopEntry>)
    requires forall i :: 0 <= i < |keys| ==> keys[i] in m
    ensures |vs| == |keys| && forall i :: 0 <= i < |keys| ==> vs[i] == m[keys[i]]
  {
    seq(|keys|, i requires 0 <= i < |keys| => m[keys[i]])
  }

  /** What `main` does once the sorted entries are known. */
  function Finish(cli: Cli, sorted: seq<DesktopEntry>, split: Tokenizer, picker: Picker): (r: Outcome)
    ensures cli.dmenu.None? <==> r.Printed?
    ensures r.Printed? ==> r.text == Render(sorted, cli.entryType)
    ensures cli.dmenu.Some? ==>
      r == RunCommand(cli.dmenu.value, cli.terminal, cli.entryType, sorted, Render(sorted, cli.entryType), split, picker)
  {
    var text := Render(sorted, cli.entryType);
    if cli.dmenu.None? then Printed(text)
    else RunCommand(cli.dmenu.value, cli.terminal, cli.entryType, sorted, text, split, picker)
  }

  /**
   * The whole run: `sorted` is the entry list `main` builds (every merged
   * entry once, sorted by lower-cased name) and `r` how the run ends.
   */
  method Run(cli: Cli, env: Env, readDir: ReadDir, pathExists: PathExists, split: Tokenizer, picker: Picker)
    returns (sorted: seq<DesktopEntry>, r: Outcome, ghost keys: seq<string>)
    ensures SortedByName(sorted)
    ensures var m := Merged(env, readDir, pathExists);
      OneEach(m, keys) && sorted == SortByName(ValuesAt(m, keys))
    ensures var m := Merged(env, readDir, pathExists);
      |sorted| == |m|
      && (forall k :: k in m ==> m[k] in sorted)
      && (forall i :: 0 <= i < |sorted| ==> sorted[i] in m.Values)
    ensures r == Finish(cli, sorted, split, picker)
  {
    var m := ReadEntries(env, readDir, pathExists);
    sorted, keys := SortedValues(m);
    var text := Render(sorted, cli.entryType);
    if cli.dmenu.None? {
      r := Printed(text);
    } else {
      r := RunCommand(cli.dmenu.value, cli.terminal, cli.entryType, sorted, text, split, picker);
    }
  }

  /** `into_values().collect()`, then `sort_by` on the lower-cased names. */
  method SortedValues(m: EntryMap) returns (sorted: seq<DesktopEntry>, ghost keys: seq<string>)
    ensures OneEach(m, keys) && sorted == SortByName(ValuesAt(m, keys))
    ensures SortedByName(sorted)
    ensures |sorted| == |m|
    ensures forall k :: k in m ==> m[k] in sorted
    ensures forall i :: 0 <= i < |sorted| ==> sorted[i] in m.Values
  {
    var values;
    values, keys := CollectValues(m);
    assert values == ValuesAt(m, keys);
    sorted := SortCopy(values);
    SortedValuesHold(m, keys, sorted);
  }

  /** The entries copied into a fresh array and sorted there. */
  method SortCopy(values: seq<DesktopEntry>) returns (sorted: seq<DesktopEntry>)
    ensures sorted == SortByName(values)
  {
    var a := new DesktopEntry[|values|](i requires 0 <= i < |values| => values[i]);
    assert a[..] == values;
    SortEntries(a);
    sorted := a[..];
  }

  /** The stable sort of the values, one per key, is sorted and holds every value. */
  lemma SortedValuesHold(m: EntryMap, keys: seq<string>, sorted: seq<DesktopEntry>)
    requires OneEach(m, keys) && sorted == SortByName(ValuesAt(m, keys))
    ensures SortedByName(sorted)
    ensures |sorted| == |m|
    ensures forall k :: k in m ==> m[k] in sorted
    ensures forall i :: 0 <= i < |sorted| ==> sorted[i] in m.Values
  {
    var values := ValuesAt(m, keys);
    SortByNameCorrect(values);
    assert |sorted| == |multiset(sorted)| == |multiset(values)| == |values|;
    forall k | k in m ensures m[k] in sorted {
      var i :| 0 <= i < |keys| && keys[i] == k;
      assert values[i] == m[k];
      assert m[k] in multiset(values);
    }
    forall i | 0 <= i < |sorted| ensures sorted[i] in m.Values {
      assert sorted[i] in multiset(values);
    }
  }

  /**
   * Without a picker the run prints one line per visible entry, in sorted
   * order, and ends well.
   */
  lemma PrintsVisibleLines(cli: Cli, sorted: seq<DesktopEntry>, split: Tokenizer, picker: Picker)
    requires cli.dmenu.None?
    requires forall e :: e in sorted && !e.hidden ==> '\n' !in Field(e, cli.entryType)
    ensures Finish(cli, sorted, split, picker).Printed?
    ensures SplitOn(Finish(cli, sorted, split, picker).text, "\n")
         == Project(Visible(sorted), cli.entryType) + [""]
  {
    RenderLines(sorted, cli.entryType);
  }

  /**
   * A hidden entry is not offered to the picker, but an answer naming it
   * still selects it: the lookup runs over every entry, hidden ones included.
   */
  lemma HiddenEntryStillSelected(cli: Cli, sorted: seq<DesktopEntry>, split: Tokenizer, picker: Picker, k: nat)
    requires cli.dmenu.Some?
    requires k < |sorted| && sorted[k].hidden
    requires forall i :: 0 <= i < |sorted| && i != k ==>
      Field(sorted[i], cli.entryType) != Field(sorted[k], cli.entryType)
    requires var f := Field(sorted[k], cli.entryType); |f| > 0 ==> !IsWhitespace(f[0]) && !IsWhitespace(f[|f| - 1])
    requires split(cli.dmenu.value).Some? && |split(cli.dmenu.value).value| > 0
    requires var menu := split(cli.dmenu.value).value;
      picker(menu[0], menu[1..], Render(sorted, cli.entryType)) == MenuExited(Field(sorted[k], cli.entryType) + "\n")
    ensures sorted[k] !in Visible(sorted)
    ensures Finish(cli, sorted, split, picker)
         == Chosen(Field(sorted[k], cli.entryType), cli.terminal, cli.entryType, sorted, split)
  {
    AnswerSelectsEntry(cli.dmenu.value, cli.terminal, cli.entryType, sorted, Render(sorted, cli.entryType),
                       split, picker, k);
  }

  /**
   * In `--entry-type filename` mode the shown fields are the merge keys, so
   * distinct entries of one run show distinct fields and the answer selects
   * exactly the entry stored under it.
   */
  lemma FilenameAnswerSelects(m: EntryMap, sorted: seq<DesktopEntry>, key: string)
    requires KeyedByFilename(m) && key in m
    requires |sorted| == |m|
    requires forall k :: k in m ==> m[k] in sorted
    requires forall i :: 0 <= i < |sorted| ==> sorted[i] in m.Values
    ensures exists i :: 0 <= i < |sorted| && Find(sorted, Filename, key) == Some(i) && sorted[i] == m[key]
  {
    var i :| 0 <= i < |sorted| && sorted[i] == m[key];
    var f := Find(sorted, Filename, key);
    assert Field(sorted[i], Filename) == key;
    assert f.Some?;
    var j := f.value;
    assert sorted[j] in m.Values;
    var kj :| kj in m && m[kj] == sorted[j];
    assert sorted[j].filename == kj;
  }
}
