/**
 The two operations of Rust's `str` that the target-triple translation relies on:
 `contains` with a string pattern and `replace` with a string pattern.  Rust's
 `replace` scans left to right and replaces every non-overlapping occurrence,
 leftmost first; `Split` and `Join` give an independent description of that
 result (cut the input at the occurrences, glue the pieces back with the
 replacement).
 */
module Strings {

  /** `pat` occurs in `s` starting at index `i`. */
  ghost predicate OccursAt(s: string, pat: string, i: int) {
    0 <= i && i + |pat| <= |s| && s[i..i + |pat|] == pat
  }

  lemma OccursAtTail(s: string, pat: string, i: int)
    requires s != [] && 0 <= i
    ensures OccursAt(s[1..], pat, i) <==> OccursAt(s, pat, i + 1)
  {
    if i + |pat| <= |s| - 1 {
      assert s[1..][i..i + |pat|] == s[i + 1..i + 1 + |pat|];
    }
  }

  /** Rust's `str::contains` with a string pattern. */
  function Contains(s: string, pat: string): bool
    decreases |s|
  {
    if pat <= s then true
    else if s == [] then false
    else Contains(s[1..], pat)
  }

  /** `contains` holds exactly when the pattern occurs at some index. */
  lemma {:induction false} ContainsIffOccurs(s: string, pat: string)
    ensures Contains(s, pat) <==> exists i :: OccursAt(s, pat, i)
    decreases |s|
  {
    if pat <= s {
      assert OccursAt(s, pat, 0);
    } else if s != [] {
      ContainsIffOccurs(s[1..], pat);
      if Contains(s, pat) {
        var j :| OccursAt(s[1..], pat, j);
        OccursAtTail(s, pat, j);
      }
      if i :| OccursAt(s, pat, i) {
        assert i != 0;
        OccursAtTail(s, pat, i - 1);
      }
    }
  }

  /** Rust's `str::replace` with a non-empty string pattern. */
  function ReplaceAll(s: string, pat: string, rep: string): string
    requires pat != []
    decreases |s|
  {
    if s == [] then []
    else if pat <= s then rep + ReplaceAll(s[|pat|..], pat, rep)
    else [s[0]] + ReplaceAll(s[1..], pat, rep)
  }

  /** The pieces separated by `sep`, glued back together. */
  function Join(pieces: seq<string>, sep: string): string
    requires pieces != []
  {
    if |pieces| == 1 then pieces[0]
    else pieces[0] + sep + Join(pieces[1..], sep)
  }

  /**
   Rust's `str::split` with a non-empty string pattern: the pieces of `s`
   between its leftmost non-overlapping occurrences of `pat`.  The pieces
   glue back to `s`.
   */
  function Split(s: string, pat: string): (pieces: seq<string>)
    requires pat != []
    ensures pieces != []
    ensures Join(pieces, pat) == s
    decreases |s|
  {
    if s == [] then [[]]
    else if pat <= s then
      var rest := Split(s[|pat|..], pat);
      assert ([[]] + rest)[1..] == rest;
      assert s == pat + s[|pat|..];
      [[]] + rest
    else
      var rest := Split(s[1..], pat);
      JoinConsHead(s[0], rest, pat);
      assert s == [s[0]] + s[1..];
      [[s[0]] + rest[0]] + rest[1..]
  }

  /** No piece of a split contains the pattern. */
  lemma {:induction false} SplitPiecesFree(s: string, pat: string)
    requires pat != []
    ensures forall k :: 0 <= k < |Split(s, pat)| ==> !Contains(Split(s, pat)[k], pat)
    decreases |s|
  {
    if s == [] {
    } else if pat <= s {
      var rest := Split(s[|pat|..], pat);
      SplitPiecesFree(s[|pat|..], pat);
      assert Split(s, pat) == [[]] + rest;
    } else {
      var rest := Split(s[1..], pat);
      SplitPiecesFree(s[1..], pat);
      var first := [s[0]] + rest[0];
      assert Split(s, pat) == [first] + rest[1..];
      JoinStartsWithFirst(rest, pat);
      assert rest[0] <= s[1..];
      assert first <= s by {
        assert s == [s[0]] + s[1..];
      }
      assert !(pat <= first);
      assert first[1..] == rest[0];
    }
  }

  /** A string shorter than the pattern does not contain it. */
  lemma ShorterLacks(s: string, pat: string)
    requires |s| < |pat|
    ensures !Contains(s, pat)
  {
    ContainsIffOccurs(s, pat);
  }

  /**
   The cuts are the leftmost ones: no occurrence of the pattern starts inside a
   piece that a cut follows, so each cut is at the first occurrence left after
   the previous one.
   */
  lemma {:induction false} SplitCutsLeftmost(s: string, pat: string)
    requires pat != []
    ensures forall k :: 0 <= k < |Split(s, pat)| - 1 ==> !Contains(Split(s, pat)[k] + pat[..|pat| - 1], pat)
    decreases |s|
  {
    if s == [] {
    } else if pat <= s {
      var rest := Split(s[|pat|..], pat);
      SplitCutsLeftmost(s[|pat|..], pat);
      assert Split(s, pat) == [[]] + rest;
      ShorterLacks([] + pat[..|pat| - 1], pat);
    } else {
      var rest := Split(s[1..], pat);
      SplitCutsLeftmost(s[1..], pat);
      var first := [s[0]] + rest[0];
      assert Split(s, pat) == [first] + rest[1..];
      if |rest| > 1 {
        CutPrefix(rest, pat);
        assert s == [s[0]] + s[1..];
        FirstPieceLeftmost(s[0], rest[0], pat, s[1..]);
        ConsAppend(s[0], rest[0], pat[..|pat| - 1]);
      }
    }
  }

  /**
   One more character in front of a prefix of `c + t` that leaves the pattern
   out still leaves it out, when `c + t` does not start with the pattern.
   */
  lemma FirstPieceLeftmost(c: char, r: string, pat: string, t: string)
    requires pat != [] && !(pat <= [c] + t)
    requires r + pat[..|pat| - 1] <= t
    requires !Contains(r + pat[..|pat| - 1], pat)
    ensures !Contains([c] + (r + pat[..|pat| - 1]), pat)
  {
    var y := r + pat[..|pat| - 1];
    ConsPrefix(c, y, t);
    if pat <= [c] + y {
      PrefixTransitive(pat, [c] + y, [c] + t);
    }
    ContainsCons(c, y, pat);
  }

  lemma ConsAppend(c: char, r: string, p: string)
    ensures [c] + r + p == [c] + (r + p)
  {
  }

  lemma ConsPrefix(c: char, y: string, t: string)
    requires y <= t
    ensures [c] + y <= [c] + t
  {
  }

  lemma PrefixTransitive(p: string, x: string, s: string)
    requires p <= x && x <= s
    ensures p <= s
  {
  }

  /** A string that neither starts with the pattern nor contains it after its first character lacks it. */
  lemma ContainsCons(c: char, y: string, pat: string)
    requires !(pat <= [c] + y) && !Contains(y, pat)
    ensures !Contains([c] + y, pat)
  {
    assert ([c] + y)[1..] == y;
  }

  /** A piece followed by all but the last character of the separator starts the whole. */
  lemma CutPrefix(rest: seq<string>, pat: string)
    requires |rest| > 1 && pat != []
    ensures rest[0] + pat[..|pat| - 1] <= Join(rest, pat)
  {
    assert Join(rest, pat) == rest[0] + pat + Join(rest[1..], pat);
  }

  lemma JoinStartsWithFirst(pieces: seq<string>, sep: string)
    requires pieces != []
    ensures pieces[0] <= Join(pieces, sep)
  {
  }

  /** Putting one more character in front of the first piece puts it in front of the whole. */
  lemma JoinConsHead(c: char, pieces: seq<string>, sep: string)
    requires pieces != []
    ensures Join([[c] + pieces[0]] + pieces[1..], sep) == [c] + Join(pieces, sep)
  {
    var longer := [[c] + pieces[0]] + pieces[1..];
    if |pieces| > 1 {
      assert longer[1..] == pieces[1..];
    }
  }

  /** Replacing every occurrence is cutting at the occurrences and gluing with the replacement. */
  lemma {:induction false} ReplaceAllIsJoinOfSplit(s: string, pat: string, rep: string)
    requires pat != []
    ensures ReplaceAll(s, pat, rep) == Join(Split(s, pat), rep)
    decreases |s|
  {
    if s == [] {
    } else if pat <= s {
      ReplaceAllIsJoinOfSplit(s[|pat|..], pat, rep);
      JoinSplitFront(s, pat, rep);
    } else {
      ReplaceAllIsJoinOfSplit(s[1..], pat, rep);
      JoinSplitSkip(s, pat, rep);
    }
  }

  lemma JoinSplitFront(s: string, pat: string, rep: string)
    requires pat != [] && pat <= s
    ensures Join(Split(s, pat), rep) == rep + Join(Split(s[|pat|..], pat), rep)
  {
    var rest := Split(s[|pat|..], pat);
    var pieces := [[]] + rest;
    assert Split(s, pat) == pieces;
    assert pieces[1..] == rest;
    calc {
      Join(pieces, rep);
      pieces[0] + rep + Join(pieces[1..], rep);
      rep + Join(rest, rep);
    }
  }

  lemma JoinSplitSkip(s: string, pat: string, rep: string)
    requires pat != [] && s != [] && !(pat <= s)
    ensures Join(Split(s, pat), rep) == [s[0]] + Join(Split(s[1..], pat), rep)
  {
    var rest := Split(s[1..], pat);
    assert Split(s, pat) == [[s[0]] + rest[0]] + rest[1..];
    JoinConsHead(s[0], rest, rep);
  }

  /** Without an occurrence of the pattern, `replace` returns its input unchanged. */
  lemma {:induction false} ReplaceAllWithoutMatch(s: string, pat: string, rep: string)
    requires pat != []
    requires !Contains(s, pat)
    ensures ReplaceAll(s, pat, rep) == s
    decreases |s|
  {
    if s != [] {
      ReplaceAllWithoutMatch(s[1..], pat, rep);
      assert s == [s[0]] + s[1..];
    }
  }

  lemma {:induction false} ReplaceAllNoLonger(s: string, pat: string, rep: string)
    requires pat != [] && |rep| <= |pat|
    ensures |ReplaceAll(s, pat, rep)| <= |s|
    decreases |s|
  {
    if s == [] {
    } else if pat <= s {
      ReplaceAllNoLonger(s[|pat|..], pat, rep);
    } else {
      ReplaceAllNoLonger(s[1..], pat, rep);
    }
  }

  lemma {:induction false} ReplaceAllNoShorter(s: string, pat: string, rep: string)
    requires pat != [] && |rep| >= |pat|
    ensures |ReplaceAll(s, pat, rep)| >= |s|
    decreases |s|
  {
    if s == [] {
    } else if pat <= s {
      ReplaceAllNoShorter(s[|pat|..], pat, rep);
    } else {
      ReplaceAllNoShorter(s[1..], pat, rep);
    }
  }

  /** With an occurrence of the pattern and a different replacement, `replace` changes its input. */
  lemma {:induction false} ReplaceAllWithMatch(s: string, pat: string, rep: string)
    requires pat != [] && rep != pat
    requires Contains(s, pat)
    ensures ReplaceAll(s, pat, rep) != s
    decreases |s|
  {
    if pat <= s {
      var t := s[|pat|..];
      assert s == pat + t;
      if |rep| == |pat| {
        assert ReplaceAll(s, pat, rep)[..|pat|] == rep;
        assert s[..|pat|] == pat;
      } else if |rep| < |pat| {
        ReplaceAllNoLonger(t, pat, rep);
      } else {
        ReplaceAllNoShorter(t, pat, rep);
      }
    } else {
      ReplaceAllWithMatch(s[1..], pat, rep);
      assert ReplaceAll(s, pat, rep)[1..] == ReplaceAll(s[1..], pat, rep);
    }
  }

  // ---------------------------------------------------------------------------
  // Facts for evaluating the operations on given strings

  /** A pattern placed between two strings occurs in the result. */
  lemma ContainsInside(a: string, pat: string, b: string)
    ensures Contains(a + (pat + b), pat)
  {
    assert (a + (pat + b))[|a|..|a| + |pat|] == pat;
    assert OccursAt(a + (pat + b), pat, |a|);
    ContainsIffOccurs(a + (pat + b), pat);
  }

  /** A string lacking one of the pattern's characters does not contain the pattern. */
  lemma MissingChar(s: string, pat: string, c: char)
    requires c in pat && c !in s
    ensures !Contains(s, pat)
  {
    ContainsIffOccurs(s, pat);
  }

  /**
   A prefix in which no occurrence of the pattern starts is copied through
   unchanged.
   */
  lemma {:induction false} ReplaceAllSkip(a: string, p: string, t: string, pat: string, rep: string)
    requires pat != [] && |p| == |pat| - 1 && p <= t
    requires !Contains(a + p, pat)
    ensures ReplaceAll(a + t, pat, rep) == a + ReplaceAll(t, pat, rep)
    decreases |a|
  {
    if a == [] {
      assert a + t == t;
    } else {
      var s, y := a + t, a + p;
      assert y <= s;
      assert !(pat <= s);
      assert s[1..] == a[1..] + t;
      assert y[1..] == a[1..] + p;
      ReplaceAllSkip(a[1..], p, t, pat, rep);
      assert a == [a[0]] + a[1..];
    }
  }

  /** An occurrence at the front is replaced and the rest is processed after it. */
  lemma ReplaceAllFront(pat: string, t: string, rep: string)
    requires pat != []
    ensures ReplaceAll(pat + t, pat, rep) == rep + ReplaceAll(t, pat, rep)
  {
    assert (pat + t)[|pat|..] == t;
  }

  /**
   A pattern that occurs exactly once, after a prefix in which no occurrence
   starts, is replaced and everything around it is kept.
   */
  lemma ReplaceOnce(a: string, pat: string, b: string, rep: string)
    requires pat != []
    requires !Contains(a + pat[..|pat| - 1], pat) && !Contains(b, pat)
    ensures ReplaceAll(a + (pat + b), pat, rep) == a + (rep + b)
  {
    assert pat[..|pat| - 1] <= pat + b;
    ReplaceAllSkip(a, pat[..|pat| - 1], pat + b, pat, rep);
    ReplaceAllFront(pat, b, rep);
    ReplaceAllWithoutMatch(b, pat, rep);
  }
}
