/**
 * What `main` does with the registry before the picker: collect the entries
 * in the map's order, sort them by lower-cased name (a stable sort, in place),
 * and build the text shown: the chosen field of each visible entry, one per
 * line.
 */
module Display {
  import opened Text
  import opened Entries

  /** The key `main` sorts by: the lower-cased name. */
  function SortKey(e: DesktopEntry): string
  {
    Lower(e.name)
  }

  /** No entry comes after one whose key is larger. */
  predicate SortedByName(s: seq<DesktopEntry>)
  {
    forall i, j :: 0 <= i < j < |s| ==> !Less(SortKey(s[j]), SortKey(s[i]))
  }

  /** `x` put after every entry of the sorted `s` whose key is not larger than its own. */
  function InsertByName(s: seq<DesktopEntry>, x: DesktopEntry): seq<DesktopEntry>
    decreases |s|
  {
    if |s| == 0 then [x]
    else if Less(SortKey(x), SortKey(s[|s| - 1])) then InsertByName(s[..|s| - 1], x) + [s[|s| - 1]]
    else s + [x]
  }

  /** The result of `sort_by` on the lower-cased names: insertion sort, which is stable. */
  function SortByName(s: seq<DesktopEntry>): seq<DesktopEntry>
    decreases |s|
  {
    if |s| == 0 then [] else InsertByName(SortByName(s[..|s| - 1]), s[|s| - 1])
  }

  /** The entries of `s` whose key is `k`, in their order in `s`. */
  function WithKey(s: seq<DesktopEntry>, k: string): seq<DesktopEntry>
    decreases |s|
  {
    if |s| == 0 then []
    else WithKey(s[..|s| - 1], k) + (if SortKey(s[|s| - 1]) == k then [s[|s| - 1]] else [])
  }

  lemma SortedExtend(s: seq<DesktopEntry>, z: DesktopEntry)
    requires SortedByName(s)
    requires forall i :: 0 <= i < |s| ==> !Less(SortKey(z), SortKey(s[i]))
    ensures SortedByName(s + [z])
  {
  }

  lemma {:induction false} InsertByNameMultiset(s: seq<DesktopEntry>, x: DesktopEntry)
    ensures multiset(InsertByName(s, x)) == multiset(s) + multiset{x}
    decreases |s|
  {
    if |s| > 0 && Less(SortKey(x), SortKey(s[|s| - 1])) {
      InsertByNameMultiset(s[..|s| - 1], x);
      MultisetSnoc(s);
    }
  }

  lemma {:induction false} InsertByNameSorted(s: seq<DesktopEntry>, x: DesktopEntry)
    requires SortedByName(s)
    ensures SortedByName(InsertByName(s, x))
    decreases |s|
  {
    if |s| > 0 {
      var init, last := s[..|s| - 1], s[|s| - 1];
      if Less(SortKey(x), SortKey(last)) {
        InsertByNameSorted(init, x);
        InsertByNameMultiset(init, x);
        var r := InsertByName(init, x);
        forall i | 0 <= i < |r| ensures !Less(SortKey(last), SortKey(r[i])) {
          assert r[i] in multiset(r);
          if r[i] == x {
            if Less(SortKey(last), SortKey(x)) {
              LessTransitive(SortKey(x), SortKey(last), SortKey(x));
              LessIrreflexive(SortKey(x));
            }
          } else {
            assert r[i] in init;
            var m :| 0 <= m < |init| && init[m] == r[i];
            assert s[m] == r[i];
          }
        }
        SortedExtend(r, last);
      } else {
        forall i | 0 <= i < |s| ensures !Less(SortKey(x), SortKey(s[i])) {
          if i < |s| - 1 {
            NotLessTransitive(SortKey(s[i]), SortKey(last), SortKey(x));
          }
        }
        SortedExtend(s, x);
      }
    }
  }

  /** Appending one entry appends it to the entries of its key and to no other. */
  lemma WithKeySnoc(s: seq<DesktopEntry>, x: DesktopEntry, k: string)
    ensures WithKey(s + [x], k) == WithKey(s, k) + (if SortKey(x) == k then [x] else [])
  {
    assert (s + [x])[..|s|] == s;
  }

  lemma {:induction false} InsertByNameWithKey(s: seq<DesktopEntry>, x: DesktopEntry, k: string)
    ensures WithKey(InsertByName(s, x), k) == WithKey(s, k) + (if SortKey(x) == k then [x] else [])
    decreases |s|
  {
    if |s| == 0 {
      WithKeySnoc([], x, k);
    } else if Less(SortKey(x), SortKey(s[|s| - 1])) {
      InsertByNameWithKey(s[..|s| - 1], x, k);
      InsertBeforeLast(s, x, k);
    } else {
      WithKeySnoc(s, x, k);
    }
  }

  /** The step of `InsertByNameWithKey` where `x` goes before the last entry, which has a larger key. */
  lemma InsertBeforeLast(s: seq<DesktopEntry>, x: DesktopEntry, k: string)
    requires |s| > 0 && Less(SortKey(x), SortKey(s[|s| - 1]))
    requires WithKey(InsertByName(s[..|s| - 1], x), k)
          == WithKey(s[..|s| - 1], k) + (if SortKey(x) == k then [x] else [])
    ensures WithKey(InsertByName(s, x), k) == WithKey(s, k) + (if SortKey(x) == k then [x] else [])
  {
    var init, last := s[..|s| - 1], s[|s| - 1];
    var moved := InsertByName(init, x);
    var lastPart := if SortKey(last) == k then [last] else [];
    assert InsertByName(s, x) == moved + [last];
    assert WithKey(s, k) == WithKey(init, k) + lastPart;
    WithKeySnoc(moved, last, k);
    if SortKey(x) == k {
      LessIrreflexive(SortKey(x));
      assert SortKey(last) != k;
      assert WithKey(moved, k) == WithKey(init, k) + [x];
    } else {
      assert WithKey(moved, k) == WithKey(init, k);
    }
  }

  /**
   * The sort is a stable sort: the result is sorted by key, a permutation of
   * the input, and the entries sharing a key keep their input order.
   */
  lemma SortByNameCorrect(s: seq<DesktopEntry>)
    ensures SortedByName(SortByName(s))
    ensures multiset(SortByName(s)) == multiset(s)
    ensures forall k :: WithKey(SortByName(s), k) == WithKey(s, k)
  {
    SortByNameSorted(s);
    SortByNameMultiset(s);
    forall k ensures WithKey(SortByName(s), k) == WithKey(s, k) {
      SortByNameStable(s, k);
    }
  }

  lemma {:induction false} SortByNameSorted(s: seq<DesktopEntry>)
    ensures SortedByName(SortByName(s))
    decreases |s|
  {
    if |s| > 0 {
      var init, last := s[..|s| - 1], s[|s| - 1];
      var sortedInit := SortByName(init);
      assert SortByName(s) == InsertByName(sortedInit, last);
      SortByNameSorted(init);
      InsertByNameSorted(sortedInit, last);
    }
  }

  lemma {:induction false} SortByNameMultiset(s: seq<DesktopEntry>)
    ensures multiset(SortByName(s)) == multiset(s)
    decreases |s|
  {
    if |s| > 0 {
      var init, last := s[..|s| - 1], s[|s| - 1];
      var sortedInit := SortByName(init);
      assert SortByName(s) == InsertByName(sortedInit, last);
      SortByNameMultiset(init);
      InsertByNameMultiset(sortedInit, last);
      MultisetSnoc(s);
    }
  }

  lemma MultisetSnoc(s: seq<DesktopEntry>)
    requires |s| > 0
    ensures multiset(s) == multiset(s[..|s| - 1]) + multiset{s[|s| - 1]}
  {
    assert s == s[..|s| - 1] + [s[|s| - 1]];
  }

  lemma {:induction false} SortByNameStable(s: seq<DesktopEntry>, k: string)
    ensures WithKey(SortByName(s), k) == WithKey(s, k)
    decreases |s|
  {
    if |s| > 0 {
      var init, last := s[..|s| - 1], s[|s| - 1];
      var sortedInit := SortByName(init);
      assert SortByName(s) == InsertByName(sortedInit, last);
      SortByNameStable(init, k);
      InsertByNameWithKey(sortedInit, last, k);
      assert s == init + [last];
      WithKeySnoc(init, last, k);
    }
  }

  /** `entries.sort_by(|a, b| a.name.to_lowercase().cmp(&b.name.to_lowercase()))`, as an insertion sort in place. */
  method SortEntries(a: array<DesktopEntry>)
    modifies a
    ensures a[..] == SortByName(old(a[..]))
  {
    for i := 0 to a.Length
      invariant a[..i] == SortByName(old(a[..])[..i])
      invariant a[i..] == old(a[..])[i..]
    {
      ghost var before := a[..];
      assert old(a[..])[..i + 1][..i] == old(a[..])[..i];
      assert old(a[..])[..i + 1][i] == before[i];
      ShiftInsert(a, i);
      assert a[i + 1..] == before[i + 1..];
    }
    assert old(a[..])[..a.Length] == old(a[..]);
    assert a[..] == a[..a.Length];
  }

  /** Moves `a[i]` left past every larger entry of the prefix `a[..i]`. */
  method ShiftInsert(a: array<DesktopEntry>, i: nat)
    requires i < a.Length
    modifies a
    ensures a[..i + 1] == InsertByName(old(a[..i]), old(a[i]))
    ensures a[i + 1..] == old(a[i + 1..])
  {
    var x := a[i];
    ghost var before := a[..];
    ghost var p := before[..i];
    var j := ShiftRight(a, i, x);
    ghost var shifted := a[..];
    a[j] := x;
    ghost var after := a[..];
    assert forall k :: 0 <= k < a.Length && k != j ==> after[k] == shifted[k];
    assert forall k :: 0 <= k < i ==> p[k] == before[k];
    InsertAfterSmaller(p, j, x);
    Assemble(after, p, j, x);
    SuffixKept(after, before, i);
    assert a[..i + 1] == after[..i + 1];
  }

  /** Two sequences that agree after position `i` have the same suffix there. */
  lemma SuffixKept(b: seq<DesktopEntry>, c: seq<DesktopEntry>, i: nat)
    requires i < |b| == |c|
    requires forall k :: i < k < |b| ==> b[k] == c[k]
    ensures b[i + 1..] == c[i + 1..]
  {
  }

  /**
   * The inner loop of the insertion: moves each entry of `a[..i]` whose key is
   * larger than `x`'s one place right, from the end, and stops at the gap `j`
   * where `x` belongs.
   */
  method ShiftRight(a: array<DesktopEntry>, i: nat, x: DesktopEntry) returns (j: nat)
    requires i < a.Length
    modifies a
    ensures j <= i
    ensures forall k :: 0 <= k < j ==> a[k] == old(a[k])
    ensures forall k :: j < k <= i ==> a[k] == old(a[k - 1])
    ensures forall k :: i < k < a.Length ==> a[k] == old(a[k])
    ensures forall k :: j <= k < i ==> Less(SortKey(x), SortKey(old(a[k])))
    ensures j == 0 || !Less(SortKey(x), SortKey(old(a[j - 1])))
  {
    j := i;
    while j > 0 && Less(SortKey(x), SortKey(a[j - 1]))
      invariant 0 <= j <= i
      invariant forall k :: 0 <= k < j ==> a[k] == old(a[k])
      invariant forall k :: j < k <= i ==> a[k] == old(a[k - 1])
      invariant forall k :: i < k < a.Length ==> a[k] == old(a[k])
      invariant forall k :: j <= k < i ==> Less(SortKey(x), SortKey(old(a[k])))
    {
      a[j] := a[j - 1];
      j := j - 1;
    }
  }

  /**
   * Where `x` lands in the sorted `p`: after the prefix `p[..j]`, when every
   * entry from `j` on has a larger key and the one before `j` does not.
   */
  lemma {:induction false} InsertAfterSmaller(p: seq<DesktopEntry>, j: nat, x: DesktopEntry)
    requires j <= |p|
    requires forall k :: j <= k < |p| ==> Less(SortKey(x), SortKey(p[k]))
    requires j == 0 || !Less(SortKey(x), SortKey(p[j - 1]))
    ensures InsertByName(p, x) == p[..j] + [x] + p[j..]
    decreases |p|
  {
    if j < |p| {
      var init, last := p[..|p| - 1], p[|p| - 1];
      assert Less(SortKey(x), SortKey(last));
      var moved := InsertByName(init, x);
      assert InsertByName(p, x) == moved + [last];
      assert forall k :: 0 <= k < |init| ==> init[k] == p[k];
      InsertAfterSmaller(init, j, x);
      assert moved == init[..j] + [x] + init[j..];
      assert init[..j] == p[..j];
      assert p[j..] == init[j..] + [last];
      assert moved + [last] == p[..j] + [x] + (init[j..] + [last]);
    } else {
      assert p[..j] == p && p[j..] == [];
    }
  }

  /** An array read back after the shift: the prefix before `j`, then `x`, then the rest moved one right. */
  lemma Assemble(b: seq<DesktopEntry>, p: seq<DesktopEntry>, j: nat, x: DesktopEntry)
    requires j <= |p| < |b|
    requires forall k :: 0 <= k < j ==> b[k] == p[k]
    requires b[j] == x
    requires forall k :: j < k <= |p| ==> b[k] == p[k - 1]
    ensures b[..|p| + 1] == p[..j] + [x] + p[j..]
  {
  }

  /**
   * `read_entries().into_values().collect()`: the map's values in an order
   * nothing constrains, as a `HashMap` yields them. `keys` names the key each
   * value came from: every key exactly once.
   */
  method CollectValues<V(==)>(m: map<string, V>) returns (values: seq<V>, ghost keys: seq<string>)
    ensures |values| == |m| && |keys| == |values|
    ensures forall i, j :: 0 <= i < j < |keys| ==> keys[i] != keys[j]
    ensures forall i :: 0 <= i < |keys| ==> keys[i] in m && values[i] == m[keys[i]]
    ensures forall k :: k in m ==> k in keys
    ensures forall k :: k in m ==> m[k] in values
    ensures forall i :: 0 <= i < |values| ==> values[i] in m.Values
  {
    var ks := Enumerate(m.Keys);
    keys := ks;
    values := seq(|ks|, i requires 0 <= i < |ks| => m[ks[i]]);
    ValuesOfKeys(m, ks, values);
  }

  /** The values read at a list of the map's keys: one per key, and every one of them. */
  lemma ValuesOfKeys<V>(m: map<string, V>, ks: seq<string>, values: seq<V>)
    requires |ks| == |m.Keys|
    requires forall k :: k in m.Keys <==> k in ks
    requires |values| == |ks| && forall i :: 0 <= i < |ks| ==> ks[i] in m && values[i] == m[ks[i]]
    ensures |values| == |m|
    ensures forall k :: k in m ==> m[k] in values
    ensures forall i :: 0 <= i < |values| ==> values[i] in m.Values
  {
    assert |m.Keys| == |m|;
    forall i | 0 <= i < |values| ensures values[i] in m.Values {
      assert ks[i] in m && values[i] == m[ks[i]];
    }
    forall k | k in m ensures m[k] in values {
      var i :| 0 <= i < |ks| && ks[i] == k;
      assert values[i] == m[k];
    }
  }

  /** The elements of a set, each once, in the order the loop happens to pick them. */
  method Enumerate(s: set<string>) returns (keys: seq<string>)
    ensures |keys| == |s|
    ensures forall i, j :: 0 <= i < j < |keys| ==> keys[i] != keys[j]
    ensures forall k :: k in s <==> k in keys
  {
    keys := [];
    var remaining := s;
    while remaining != {}
      invariant remaining <= s
      invariant |keys| + |remaining| == |s|
      invariant forall k :: k in s <==> k in keys || k in remaining
      invariant forall k :: k in keys ==> k !in remaining
      invariant forall i, j :: 0 <= i < j < |keys| ==> keys[i] != keys[j]
      decreases |remaining|
    {
      var k :| k in remaining;
      keys := keys + [k];
      remaining := remaining - {k};
    }
  }

  /** `.filter(|e| !e.hide)`: the entries shown, in order. */
  function Visible(es: seq<DesktopEntry>): (r: seq<DesktopEntry>)
    ensures forall i :: 0 <= i < |r| ==> !r[i].hidden
    ensures forall e :: e in r <==> e in es && !e.hidden
  {
    if |es| == 0 then []
    else if es[0].hidden then Visible(es[1..])
    else [es[0]] + Visible(es[1..])
  }

  /** The filter works entry by entry: it distributes over concatenation. */
  lemma {:induction false} VisibleAppend(a: seq<DesktopEntry>, b: seq<DesktopEntry>)
    ensures Visible(a + b) == Visible(a) + Visible(b)
    decreases |a|
  {
    if |a| > 0 {
      assert (a + b)[0] == a[0] && (a + b)[1..] == a[1..] + b;
      VisibleAppend(a[1..], b);
    } else {
      assert a + b == b;
    }
  }

  /** One entry is kept exactly when it is not hidden. */
  lemma VisibleSingle(e: DesktopEntry)
    ensures Visible([e]) == if e.hidden then [] else [e]
  {
    assert [e][1..] == [];
  }

  /** `.map(|e| e.field(entry_type))`. */
  function Project(es: seq<DesktopEntry>, t: EntryType): (r: seq<string>)
    ensures |r| == |es| && forall i :: 0 <= i < |es| ==> r[i] == Field(es[i], t)
  {
    if |es| == 0 then [] else [Field(es[0], t)] + Project(es[1..], t)
  }

  /** The fold that appends each line and then a newline. */
  function Terminated(lines: seq<string>): (r: string)
    ensures |r| >= |lines|
    ensures |lines| > 0 ==> r[|r| - 1] == '\n'
  {
    if |lines| == 0 then "" else lines[0] + "\n" + Terminated(lines[1..])
  }

  /** The text handed to the picker, or printed when there is none. */
  function Render(es: seq<DesktopEntry>, t: EntryType): string
  {
    Terminated(Project(Visible(es), t))
  }

  /** Splitting the text at newlines gives back the lines, then the empty piece after the last newline. */
  lemma {:induction false} TerminatedRoundTrip(lines: seq<string>)
    requires forall i :: 0 <= i < |lines| ==> '\n' !in lines[i]
    ensures SplitOn(Terminated(lines), "\n") == lines + [""]
  {
    if |lines| > 0 {
      var rest := Terminated(lines[1..]);
      assert Terminated(lines) == lines[0] + ['\n'] + rest;
      TerminatedRoundTrip(lines[1..]);
      assert '\n' !in lines[0];
      SplitOnCharAfter(lines[0], '\n', rest);
      assert lines == [lines[0]] + lines[1..];
    }
  }

  /**
   * The rendered text is the projected field of every visible entry, in
   * sorted order, each followed by a newline: one line per visible entry,
   * provided no field holds a newline itself.
   */
  lemma RenderLines(es: seq<DesktopEntry>, t: EntryType)
    requires forall e :: e in es && !e.hidden ==> '\n' !in Field(e, t)
    ensures SplitOn(Render(es, t), "\n") == Project(Visible(es), t) + [""]
    ensures |Project(Visible(es), t)| == |Visible(es)|
  {
    var vis := Visible(es);
    forall i | 0 <= i < |vis| ensures '\n' !in Project(vis, t)[i] {
      assert vis[i] in vis;
    }
    TerminatedRoundTrip(Project(vis, t));
  }

  /** The text is empty exactly when no entry is visible. */
  lemma RenderEmpty(es: seq<DesktopEntry>, t: EntryType)
    ensures Render(es, t) == "" <==> Visible(es) == []
  {
    var lines := Project(Visible(es), t);
    if |lines| > 0 {
      assert |Terminated(lines)| >= 1;
    }
  }
}
