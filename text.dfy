/**
 * The string operations of Rust's `str` that the launcher relies on:
 * `split` by a pattern, `contains`, `replace`, `trim`, a lower-casing and the
 * lexicographic order `String::cmp`. Strings are sequences of Unicode scalar
 * values, as Rust's `str` is.
 */
module Text {

  /** `parts` joined with `sep` between neighbours (the inverse of `SplitOn`). */
  function Intercalate(parts: seq<string>, sep: string): string
  {
    if |parts| == 0 then ""
    else if |parts| == 1 then parts[0]
    else parts[0] + sep + Intercalate(parts[1..], sep)
  }

  /**
   * `s.split(pat)`: the pieces between the leftmost non-overlapping matches of
   * `pat`, scanning from the left. There is always at least one piece.
   */
  function SplitOn(s: string, pat: string): (parts: seq<string>)
    requires |pat| > 0
    ensures |parts| >= 1
    ensures |parts[0]| <= |s| && parts[0] == s[..|parts[0]|]
    decreases |s|
  {
    if |pat| <= |s| && s[..|pat|] == pat then [""] + SplitOn(s[|pat|..], pat)
    else if |s| == 0 then [""]
    else
      var rest := SplitOn(s[1..], pat);
      assert [s[0]] + rest[0] == s[..|rest[0]| + 1];
      [[s[0]] + rest[0]] + rest[1..]
  }

  /** No piece of a split contains the pattern, for any non-empty pattern. */
  lemma {:induction false} SplitOnPiecesAvoid(s: string, pat: string)
    requires |pat| > 0
    ensures forall i :: 0 <= i < |SplitOn(s, pat)| ==> !Contains(SplitOn(s, pat)[i], pat)
    decreases |s|
  {
    var parts := SplitOn(s, pat);
    if |pat| <= |s| && s[..|pat|] == pat {
      SplitOnPiecesAvoid(s[|pat|..], pat);
      assert parts == [""] + SplitOn(s[|pat|..], pat);
    } else if |s| > 0 {
      SplitOnPiecesAvoid(s[1..], pat);
      var rest := SplitOn(s[1..], pat);
      assert [s[0]] + rest[0] == s[..|rest[0]| + 1];
      PrefixNoMatch(s, [s[0]] + rest[0], pat);
      assert parts == [[s[0]] + rest[0]] + rest[1..];
      forall i | 0 <= i < |parts| ensures !Contains(parts[i], pat) {
        if i > 0 {
          assert parts[i] == rest[i];
        }
      }
    }
  }

  /**
   * A prefix of `s` whose tail has no match, where `s` does not start with the
   * pattern, has no match either.
   */
  lemma PrefixNoMatch(s: string, x: string, pat: string)
    requires |pat| > 0 && 0 < |x| <= |s| && x == s[..|x|]
    requires !(|pat| <= |s| && s[..|pat|] == pat)
    requires !Contains(x[1..], pat)
    ensures !Contains(x, pat)
  {
    if |pat| <= |x| {
      assert x[..|pat|] == s[..|pat|];
    }
  }

  /** `s.contains(pat)`: some position of `s` starts a copy of `pat`. */
  predicate Contains(s: string, pat: string)
    decreases |s|
  {
    |pat| <= |s| && (s[..|pat|] == pat || (|s| > 0 && Contains(s[1..], pat)))
  }

  /** `s.replace(pat, rep)`: every leftmost non-overlapping match of `pat` becomes `rep`. */
  function ReplaceAll(s: string, pat: string, rep: string): string
    requires |pat| > 0
    decreases |s|
  {
    if |pat| <= |s| && s[..|pat|] == pat then rep + ReplaceAll(s[|pat|..], pat, rep)
    else if |s| == 0 then ""
    else [s[0]] + ReplaceAll(s[1..], pat, rep)
  }

  lemma IntercalateCons(c: char, parts: seq<string>, sep: string)
    requires |parts| >= 1
    ensures Intercalate([[c] + parts[0]] + parts[1..], sep) == [c] + Intercalate(parts, sep)
  {
    var q := [[c] + parts[0]] + parts[1..];
    if |parts| > 1 {
      assert q[1..] == parts[1..];
    }
  }

  /** Replacing is splitting and joining the pieces with the replacement. */
  lemma {:induction false} ReplaceAllIsIntercalate(s: string, pat: string, rep: string)
    requires |pat| > 0
    ensures ReplaceAll(s, pat, rep) == Intercalate(SplitOn(s, pat), rep)
    decreases |s|
  {
    if |pat| <= |s| && s[..|pat|] == pat {
      ReplaceAllIsIntercalate(s[|pat|..], pat, rep);
      ReplaceAllAtMatch(s, pat, rep);
    } else if |s| > 0 {
      ReplaceAllIsIntercalate(s[1..], pat, rep);
      ReplaceAllAtChar(s, pat, rep);
    }
  }

  /** The step of `ReplaceAllIsIntercalate` where `s` starts with the pattern. */
  lemma ReplaceAllAtMatch(s: string, pat: string, rep: string)
    requires |pat| > 0 && |pat| <= |s| && s[..|pat|] == pat
    requires ReplaceAll(s[|pat|..], pat, rep) == Intercalate(SplitOn(s[|pat|..], pat), rep)
    ensures ReplaceAll(s, pat, rep) == Intercalate(SplitOn(s, pat), rep)
  {
    var rest := SplitOn(s[|pat|..], pat);
    assert SplitOn(s, pat) == [""] + rest;
    assert ([""] + rest)[1..] == rest;
    assert Intercalate([""] + rest, rep) == "" + rep + Intercalate(rest, rep);
  }

  /** The step of `ReplaceAllIsIntercalate` where `s` does not start with the pattern. */
  lemma ReplaceAllAtChar(s: string, pat: string, rep: string)
    requires |pat| > 0 && |s| > 0 && !(|pat| <= |s| && s[..|pat|] == pat)
    requires ReplaceAll(s[1..], pat, rep) == Intercalate(SplitOn(s[1..], pat), rep)
    ensures ReplaceAll(s, pat, rep) == Intercalate(SplitOn(s, pat), rep)
  {
    var rest := SplitOn(s[1..], pat);
    assert SplitOn(s, pat) == [[s[0]] + rest[0]] + rest[1..];
    IntercalateCons(s[0], rest, rep);
  }

  /** Replacing a pattern by itself changes nothing. */
  lemma {:induction false} ReplaceAllSelf(s: string, pat: string)
    requires |pat| > 0
    ensures ReplaceAll(s, pat, pat) == s
    decreases |s|
  {
    if |pat| <= |s| && s[..|pat|] == pat {
      ReplaceAllSelf(s[|pat|..], pat);
      assert s == s[..|pat|] + s[|pat|..];
    } else if |s| > 0 {
      ReplaceAllSelf(s[1..], pat);
      assert s == [s[0]] + s[1..];
    }
  }

  /** Joining the pieces of a split with the pattern gives the string back. */
  lemma SplitOnRoundTrip(s: string, pat: string)
    requires |pat| > 0
    ensures Intercalate(SplitOn(s, pat), pat) == s
  {
    ReplaceAllIsIntercalate(s, pat, pat);
    ReplaceAllSelf(s, pat);
  }

  /** A string contains the pattern exactly when splitting it gives more than one piece. */
  lemma {:induction false} ContainsIffSplits(s: string, pat: string)
    requires |pat| > 0
    ensures Contains(s, pat) <==> |SplitOn(s, pat)| > 1
    decreases |s|
  {
    if |pat| <= |s| && s[..|pat|] == pat {
    } else if |s| > 0 {
      ContainsIffSplits(s[1..], pat);
    }
  }

  /** A copy of `pat` starts at position `i` of `s`. */
  predicate OccursAt(s: string, pat: string, i: nat)
  {
    i + |pat| <= |s| && s[i..i + |pat|] == pat
  }

  /** A window of `s[1..]` is the window of `s` one position further on. */
  lemma SliceOfTail(s: string, j: nat, n: nat)
    requires j + 1 + n <= |s|
    ensures s[1..][j..j + n] == s[j + 1..j + 1 + n]
  {
    var a, b := s[1..][j..j + n], s[j + 1..j + 1 + n];
    assert |a| == |b| && forall k :: 0 <= k < n ==> a[k] == b[k];
  }

  /** `Contains` holds exactly when some position of `s` starts a copy of `pat`. */
  lemma {:induction false} ContainsIffOccurs(s: string, pat: string)
    ensures Contains(s, pat) <==> exists i: nat :: OccursAt(s, pat, i)
    decreases |s|
  {
    if |pat| <= |s| && s[..|pat|] == pat {
      assert OccursAt(s, pat, 0);
    } else if |s| > 0 {
      assert Contains(s, pat) == Contains(s[1..], pat);
      assert |pat| <= |s| ==> s[0..|pat|] == s[..|pat|];
      assert !OccursAt(s, pat, 0);
      ContainsIffOccurs(s[1..], pat);
      if exists j: nat :: OccursAt(s[1..], pat, j) {
        var j: nat :| OccursAt(s[1..], pat, j);
        SliceOfTail(s, j, |pat|);
        assert OccursAt(s, pat, j + 1);
      }
      if exists i: nat :: OccursAt(s, pat, i) {
        var i: nat :| OccursAt(s, pat, i);
        if i > 0 {
          SliceOfTail(s, i - 1, |pat|);
          assert OccursAt(s[1..], pat, i - 1);
        }
      }
    }
  }

  /** Without a match, replacing leaves the string as it is. */
  lemma NoMatchNoChange(s: string, pat: string, rep: string)
    requires |pat| > 0 && !Contains(s, pat)
    ensures ReplaceAll(s, pat, rep) == s
  {
    ContainsIffSplits(s, pat);
    ReplaceAllIsIntercalate(s, pat, rep);
  }

  /**
   * Splitting on one character: the first piece is the prefix of `s` up to the
   * first `c` (all of `s` when there is none), and no piece contains `c`.
   */
  lemma {:induction false} SplitOnCharPieces(s: string, c: char)
    ensures var parts := SplitOn(s, [c]);
      && |parts[0]| <= |s| && parts[0] == s[..|parts[0]|]
      && (|parts[0]| < |s| ==> s[|parts[0]|] == c)
      && forall i :: 0 <= i < |parts| ==> c !in parts[i]
    decreases |s|
  {
    if 1 <= |s| && s[..1] == [c] {
      SplitOnCharPieces(s[1..], c);
      assert s[0] == c;
    } else if |s| > 0 {
      SplitOnCharPieces(s[1..], c);
      var rest := SplitOn(s[1..], [c]);
      var parts := SplitOn(s, [c]);
      assert parts == [[s[0]] + rest[0]] + rest[1..];
      assert s[0] != c;
      assert s[..|parts[0]|] == [s[0]] + s[1..][..|rest[0]|];
      forall i | 0 <= i < |parts| ensures c !in parts[i] {
        if i > 0 {
          assert parts[i] == rest[i];
        }
      }
    }
  }

  /** A string without `c` splits on `c` into itself alone. */
  lemma SplitOnCharAbsent(s: string, c: char)
    requires c !in s
    ensures SplitOn(s, [c]) == [s]
  {
    SplitOnCharPieces(s, c);
    SplitOnRoundTrip(s, [c]);
  }

  /** A piece free of `c`, then `c`, then more: the split starts with that piece. */
  lemma {:induction false} SplitOnCharAfter(x: string, c: char, rest: string)
    requires c !in x
    ensures SplitOn(x + [c] + rest, [c]) == [x] + SplitOn(rest, [c])
    decreases |x|
  {
    var s := x + [c] + rest;
    if |x| == 0 {
      assert s[..1] == [c];
      assert s[1..] == rest;
    } else {
      assert s[0] == x[0] && x[0] in x;
      assert s[..1] != [c];
      assert s[1..] == x[1..] + [c] + rest;
      SplitOnCharAfter(x[1..], c, rest);
      assert [x[0]] + x[1..] == x;
    }
  }

  /** Rust's `char::is_whitespace`: the characters with Unicode's White_Space property. */
  predicate IsWhitespace(c: char)
  {
    || ('\t' <= c <= '\r')
    || c == ' '
    || c == '\U{85}'
    || c == '\U{A0}'
    || c == '\U{1680}'
    || ('\U{2000}' <= c <= '\U{200A}')
    || c == '\U{2028}'
    || c == '\U{2029}'
    || c == '\U{202F}'
    || c == '\U{205F}'
    || c == '\U{3000}'
  }

  /** `s.trim_start()`: the suffix of `s` left after its leading whitespace. */
  function TrimStart(s: string): (r: string)
    ensures |r| <= |s| && r == s[|s| - |r|..]
    ensures forall k :: 0 <= k < |s| - |r| ==> IsWhitespace(s[k])
    ensures |r| > 0 ==> !IsWhitespace(r[0])
  {
    if |s| > 0 && IsWhitespace(s[0]) then TrimStart(s[1..]) else s
  }

  /** `s.trim_end()`: the prefix of `s` left after its trailing whitespace. */
  function TrimEnd(s: string): (r: string)
    ensures |r| <= |s| && r == s[..|r|]
    ensures forall k :: |r| <= k < |s| ==> IsWhitespace(s[k])
    ensures |r| > 0 ==> !IsWhitespace(r[|r| - 1])
  {
    if |s| > 0 && IsWhitespace(s[|s| - 1]) then TrimEnd(s[..|s| - 1]) else s
  }

  predicate AllWhitespace(s: string)
  {
    forall k :: 0 <= k < |s| ==> IsWhitespace(s[k])
  }

  /**
   * `s.trim()`: `s` is whitespace, then the result, then whitespace, and the
   * result neither starts nor ends with whitespace.
   */
  function Trim(s: string): (r: string)
    ensures exists p, q :: s == p + r + q && AllWhitespace(p) && AllWhitespace(q)
    ensures |r| > 0 ==> !IsWhitespace(r[0]) && !IsWhitespace(r[|r| - 1])
  {
    var t := TrimStart(s);
    var r := TrimEnd(t);
    TrimProperties(s, t, r);
    var p, q := s[..|s| - |t|], t[|r|..];
    assert s == p + r + q && AllWhitespace(p) && AllWhitespace(q);
    r
  }

  /** The leading and trailing whitespace around the middle cut out by `trim`. */
  lemma TrimProperties(s: string, t: string, r: string)
    requires t == TrimStart(s) && r == TrimEnd(t)
    ensures |s| - |t| >= 0 && |r| <= |t|
    ensures s == s[..|s| - |t|] + r + t[|r|..]
    ensures AllWhitespace(s[..|s| - |t|]) && AllWhitespace(t[|r|..])
    ensures |r| > 0 ==> !IsWhitespace(r[0]) && !IsWhitespace(r[|r| - 1])
  {
    Factor(s, t, r);
    LeadingWhitespace(s, t);
    TrailingWhitespace(t, r);
    TrimEnds(s, t, r);
  }

  /** `s` ends with `t`, which starts with `core`: `s` is cut into three. */
  lemma Factor(s: string, t: string, core: string)
    requires |t| <= |s| && t == s[|s| - |t|..]
    requires |core| <= |t| && core == t[..|core|]
    ensures s == s[..|s| - |t|] + core + t[|core|..]
  {
    assert s == s[..|s| - |t|] + t;
    assert t == core + t[|core|..];
  }

  lemma TrimEnds(s: string, t: string, core: string)
    requires t == TrimStart(s) && core == TrimEnd(t)
    ensures |core| > 0 ==> !IsWhitespace(core[0]) && !IsWhitespace(core[|core| - 1])
  {
    if |core| > 0 {
      assert core[0] == t[0];
    }
  }

  lemma LeadingWhitespace(s: string, t: string)
    requires t == TrimStart(s)
    ensures AllWhitespace(s[..|s| - |t|])
  {
    var p := s[..|s| - |t|];
    forall k | 0 <= k < |p| ensures IsWhitespace(p[k]) {
      assert p[k] == s[k];
    }
  }

  lemma TrailingWhitespace(t: string, core: string)
    requires core == TrimEnd(t)
    ensures AllWhitespace(t[|core|..])
  {
    var q := t[|core|..];
    forall k | 0 <= k < |q| ensures IsWhitespace(q[k]) {
      assert q[k] == t[|core| + k];
    }
  }

  /** A string without leading or trailing whitespace is its own trim. */
  lemma TrimStable(s: string)
    requires |s| > 0 ==> !IsWhitespace(s[0]) && !IsWhitespace(s[|s| - 1])
    ensures Trim(s) == s
  {
  }

  /** Trimming removes the newline that ends a line. */
  lemma TrimLine(s: string)
    requires |s| > 0 ==> !IsWhitespace(s[0]) && !IsWhitespace(s[|s| - 1])
    ensures Trim(s + "\n") == s
  {
    var line := s + "\n";
    assert TrimEnd(line) == TrimEnd(line[..|line| - 1]);
    assert line[..|line| - 1] == s;
    if |s| > 0 {
      assert TrimStart(line) == line;
      assert TrimEnd(s) == s;
    } else {
      assert TrimStart(line) == [];
    }
  }

  /** ASCII lower-casing of one character. */
  function LowerChar(c: char): (d: char)
  {
    if 'A' <= c <= 'Z' then (c as int - 'A' as int + 'a' as int) as char else c
  }

  /** Lower-casing of a string, character by character. */
  function Lower(s: string): string
  {
    seq(|s|, i requires 0 <= i < |s| => LowerChar(s[i]))
  }

  /**
   * A lowered string keeps the length, lowers each character in place and
   * holds no upper-case ASCII letter.
   */
  lemma LowerChars(s: string)
    ensures |Lower(s)| == |s| && forall i :: 0 <= i < |s| ==> Lower(s)[i] == LowerChar(s[i])
    ensures forall i :: 0 <= i < |Lower(s)| ==> !('A' <= Lower(s)[i] <= 'Z')
  {
  }

  /** Two characters equal but for the case of an ASCII letter. */
  predicate SameUpToCase(c: char, d: char)
  {
    || c == d
    || ('A' <= c <= 'Z' && d as int == c as int + 32)
    || ('A' <= d <= 'Z' && c as int == d as int + 32)
  }

  /** Lowering twice is lowering once. */
  lemma LowerIdempotent(s: string)
    ensures Lower(Lower(s)) == Lower(s)
  {
    assert forall i :: 0 <= i < |s| ==> LowerChar(Lower(s)[i]) == Lower(s)[i];
  }

  /**
   * Two names get the same sort key exactly when they differ only in the case
   * of ASCII letters, so "Bash" and "bash" sort as equals.
   */
  lemma LowerEqualIff(a: string, b: string)
    ensures Lower(a) == Lower(b) <==> |a| == |b| && forall i :: 0 <= i < |a| ==> SameUpToCase(a[i], b[i])
  {
    if Lower(a) == Lower(b) {
      forall i | 0 <= i < |a| ensures SameUpToCase(a[i], b[i]) {
        assert LowerChar(a[i]) == Lower(a)[i] == Lower(b)[i] == LowerChar(b[i]);
      }
    }
    if |a| == |b| && forall i :: 0 <= i < |a| ==> SameUpToCase(a[i], b[i]) {
      forall i | 0 <= i < |a| ensures Lower(a)[i] == Lower(b)[i] {
        assert SameUpToCase(a[i], b[i]);
      }
    }
  }

  /** `a < b` in Rust's `String` order: lexicographic by character. */
  predicate Less(a: string, b: string)
  {
    if |a| == 0 then |b| > 0
    else if |b| == 0 then false
    else a[0] < b[0] || (a[0] == b[0] && Less(a[1..], b[1..]))
  }

  lemma {:induction false} LessIrreflexive(a: string)
    ensures !Less(a, a)
  {
    if |a| > 0 {
      LessIrreflexive(a[1..]);
    }
  }

  lemma {:induction false} LessTransitive(a: string, b: string, c: string)
    requires Less(a, b) && Less(b, c)
    ensures Less(a, c)
  {
    if |a| > 0 && |b| > 0 && |c| > 0 && a[0] == b[0] == c[0] {
      LessTransitive(a[1..], b[1..], c[1..]);
    }
  }

  lemma {:induction false} LessTotal(a: string, b: string)
    requires a != b
    ensures Less(a, b) || Less(b, a)
  {
    if |a| > 0 && |b| > 0 && a[0] == b[0] {
      assert a == [a[0]] + a[1..] && b == [b[0]] + b[1..];
      LessTotal(a[1..], b[1..]);
    }
  }

  /** "Not after" is transitive: the order is a total preorder for sorting. */
  lemma NotLessTransitive(a: string, b: string, c: string)
    requires !Less(b, a) && !Less(c, b)
    ensures !Less(c, a)
  {
    if a != b && b != c {
      LessTotal(a, b);
      LessTotal(b, c);
      LessTransitive(a, b, c);
      if Less(c, a) {
        LessTransitive(c, a, b);
      }
    }
  }
}
