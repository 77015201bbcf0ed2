// String operations that music.py borrows from Python: substring tests
// (`in`), `str.endswith`, literal replacement (`re.sub` with an escaped
// pattern and `str.replace` behave alike), `str.split('\n')[0]` and
// `os.path.splitext` on a bare file name.
module Text {

  datatype Option<+T> = None | Some(value: T) {
    function GetOr(default: T): T {
      match this
      case Some(v) => v
      case None => default
    }
  }

  /** `pat` occurs in `s` starting at index `i`. */
  predicate MatchAt(s: string, pat: string, i: nat) {
    i + |pat| <= |s| && s[i..i + |pat|] == pat
  }

  /** Python's `pat in s`. */
  predicate Contains(s: string, pat: string) {
    exists i | 0 <= i <= |s| :: MatchAt(s, pat, i)
  }

  /** Python's `s.endswith(suffix)`. */
  predicate EndsWith(s: string, suffix: string) {
    |suffix| <= |s| && s[|s| - |suffix|..] == suffix
  }

  /** No proper suffix of `pat` is also a prefix of it, so two occurrences
      of `pat` can never overlap. */
  predicate NoSelfOverlap(pat: string) {
    forall k | 0 < k < |pat| :: !OverlapsBy(pat, k)
  }

  /** The last `|pat| - k` characters of `pat` are also its first ones. */
  predicate OverlapsBy(pat: string, k: nat)
    requires k <= |pat|
  {
    pat[k..] == pat[..|pat| - k]
  }

  /** `k` is the leftmost occurrence of `pat` in `s`. */
  predicate FirstMatchAt(s: string, pat: string, k: nat) {
    MatchAt(s, pat, k) && forall i | 0 <= i < k :: !MatchAt(s, pat, i)
  }

  /** Replaces the occurrences of `pat` found by a left-to-right scan that
      resumes after each replaced occurrence (leftmost, non-overlapping),
      which is what both `re.sub` with a literal pattern and `str.replace`
      do. */
  function ReplaceAll(s: string, pat: string, rep: string): string
    requires |pat| > 0
  {
    ReplaceFrom(s, pat, rep, 0)
  }

  /** The scan of ReplaceAll from index `i` on. */
  function ReplaceFrom(s: string, pat: string, rep: string, i: nat): string
    requires |pat| > 0 && i <= |s|
    decreases |s| - i
  {
    if |s| - i < |pat| then s[i..]
    else if MatchAt(s, pat, i) then rep + ReplaceFrom(s, pat, rep, i + |pat|)
    else [s[i]] + ReplaceFrom(s, pat, rep, i + 1)
  }

  /** From an index past which `pat` does not occur, the rest is kept. */
  lemma {:induction false} ReplaceFromNoMatch(s: string, pat: string, rep: string, i: nat)
    requires |pat| > 0 && i <= |s|
    requires forall j | i <= j <= |s| :: !MatchAt(s, pat, j)
    ensures ReplaceFrom(s, pat, rep, i) == s[i..]
    decreases |s| - i
  {
    if |s| - i >= |pat| {
      ReplaceFromNoMatch(s, pat, rep, i + 1);
      assert [s[i]] + s[i + 1..] == s[i..];
    }
  }

  /** Without an occurrence of `pat` nothing is replaced. */
  lemma ReplaceAllNoMatch(s: string, pat: string, rep: string)
    requires |pat| > 0
    requires !Contains(s, pat)
    ensures ReplaceAll(s, pat, rep) == s
  {
    ReplaceFromNoMatch(s, pat, rep, 0);
  }

  /** One step of the scan past a position where `pat` does not occur. */
  lemma ReplaceFromSkip(s: string, pat: string, rep: string, i: nat)
    requires |pat| > 0 && i + |pat| <= |s|
    requires !MatchAt(s, pat, i)
    ensures ReplaceFrom(s, pat, rep, i) == [s[i]] + ReplaceFrom(s, pat, rep, i + 1)
  {
  }

  /** Putting a kept character in front of a kept stretch. */
  lemma ConsSlice(s: string, i: nat, k: nat, tail: string)
    requires i < k <= |s|
    ensures [s[i]] + (s[i + 1..k] + tail) == s[i..k] + tail
  {
    assert [s[i]] + s[i + 1..k] == s[i..k];
    assert [s[i]] + (s[i + 1..k] + tail) == ([s[i]] + s[i + 1..k]) + tail;
  }

  /** The scan keeps the text up to the next occurrence and replaces it. */
  lemma {:induction false} ReplaceFromUpToMatch(s: string, pat: string, rep: string, i: nat, k: nat)
    requires |pat| > 0 && i <= k
    requires MatchAt(s, pat, k)
    requires forall j | i <= j < k :: !MatchAt(s, pat, j)
    ensures ReplaceFrom(s, pat, rep, i) == s[i..k] + (rep + ReplaceFrom(s, pat, rep, k + |pat|))
    decreases k - i
  {
    var tail := rep + ReplaceFrom(s, pat, rep, k + |pat|);
    if i < k {
      ReplaceFromSkip(s, pat, rep, i);
      ReplaceFromUpToMatch(s, pat, rep, i + 1, k);
      ConsSlice(s, i, k, tail);
    } else {
      assert s[i..k] == [];
    }
  }

  /** An occurrence in `t` is an occurrence in `p + t`, shifted by `|p|`. */
  lemma MatchAtShift(p: string, t: string, pat: string, j: nat)
    ensures MatchAt(p + t, pat, |p| + j) <==> MatchAt(t, pat, j)
  {
    if j + |pat| <= |t| {
      assert (p + t)[|p| + j..|p| + j + |pat|] == t[j..j + |pat|];
    }
  }

  /** Everything before the leftmost occurrence is kept, that occurrence is
      replaced, and the scan resumes right after it. Together with
      ReplaceFromNoMatch this determines ReplaceAll completely. */
  lemma ReplaceAllAtFirstMatch(s: string, pat: string, rep: string, k: nat)
    requires |pat| > 0
    requires FirstMatchAt(s, pat, k)
    ensures ReplaceAll(s, pat, rep) == s[..k] + (rep + ReplaceFrom(s, pat, rep, k + |pat|))
  {
    ReplaceFromUpToMatch(s, pat, rep, 0, k);
  }

  /** A replacement that is no longer than the pattern never lengthens the
      text, and shortens it whenever the pattern occurs. */
  lemma {:induction false} ReplaceFromShrinks(s: string, pat: string, rep: string, i: nat)
    requires 0 < |pat| && i <= |s|
    requires |rep| <= |pat|
    ensures |ReplaceFrom(s, pat, rep, i)| <= |s| - i
    ensures |rep| < |pat| && (exists j | i <= j <= |s| :: MatchAt(s, pat, j))
      ==> |ReplaceFrom(s, pat, rep, i)| < |s| - i
    decreases |s| - i
  {
    if |s| - i >= |pat| {
      if MatchAt(s, pat, i) {
        ReplaceFromShrinks(s, pat, rep, i + |pat|);
      } else {
        ReplaceFromShrinks(s, pat, rep, i + 1);
      }
    }
  }

  lemma ReplaceAllShrinks(s: string, pat: string, rep: string)
    requires 0 < |pat|
    requires |rep| <= |pat|
    ensures |ReplaceAll(s, pat, rep)| <= |s|
    ensures |rep| < |pat| && Contains(s, pat) ==> |ReplaceAll(s, pat, rep)| < |s|
  {
    ReplaceFromShrinks(s, pat, rep, 0);
  }

  /** If `pat` cannot overlap itself and does not occur in `p`, then in
      `p + pat + q` no occurrence starts inside `p`. */
  lemma NoMatchBefore(p: string, pat: string, q: string)
    requires NoSelfOverlap(pat)
    requires !Contains(p, pat)
    ensures FirstMatchAt(p + pat + q, pat, |p|)
  {
    var s := p + pat + q;
    assert s[|p|..|p| + |pat|] == pat;
    forall i | 0 <= i < |p|
      ensures !MatchAt(s, pat, i)
    {
      if i + |pat| <= |p| {
        assert s[i..i + |pat|] == p[i..i + |pat|];
        assert !MatchAt(p, pat, i);
      } else if i + |pat| <= |s| {
        var k := |p| - i;
        assert s[i..i + |pat|][k..] == pat[..|pat| - k];
        assert !OverlapsBy(pat, k);
      }
    }
  }

  /** A suffix of `r` is a suffix of anything that ends with `r`. */
  lemma EndsWithPrepend(a: string, r: string, suffix: string)
    requires EndsWith(r, suffix)
    ensures EndsWith(a + r, suffix)
  {
    assert (a + r)[|a + r| - |suffix|..] == r[|r| - |suffix|..];
  }

  /** A pattern that cannot overlap itself does not occur straddling the
      start of its own trailing occurrence. */
  lemma NoMatchStraddlingEnd(x: string, pat: string, i: nat)
    requires NoSelfOverlap(pat)
    requires i < |x| < i + |pat|
    ensures !MatchAt(x + pat, pat, i)
  {
    var s := x + pat;
    var k := |x| - i;
    assert s[i..i + |pat|][k..] == pat[..|pat| - k];
    assert !OverlapsBy(pat, k);
  }

  /** Replacing a pattern that cannot overlap itself always rewrites a
      trailing occurrence: the result ends with the replacement. */
  lemma {:induction false} ReplaceFromEndsWithReplacement(x: string, pat: string, rep: string, i: nat)
    requires |pat| > 0 && i <= |x|
    requires NoSelfOverlap(pat)
    ensures EndsWith(ReplaceFrom(x + pat, pat, rep, i), rep)
    decreases |x| - i
  {
    var s := x + pat;
    if i == |x| {
      assert s[i..i + |pat|] == pat;
      assert ReplaceFrom(s, pat, rep, i) == rep + ReplaceFrom(s, pat, rep, |s|);
      assert ReplaceFrom(s, pat, rep, |s|) == [];
    } else if MatchAt(s, pat, i) && i + |pat| <= |x| {
      var r := ReplaceFrom(s, pat, rep, i + |pat|);
      assert ReplaceFrom(s, pat, rep, i) == rep + r;
      ReplaceFromEndsWithReplacement(x, pat, rep, i + |pat|);
      EndsWithPrepend(rep, r, rep);
    } else {
      if |x| < i + |pat| {
        NoMatchStraddlingEnd(x, pat, i);
      }
      var r := ReplaceFrom(s, pat, rep, i + 1);
      assert ReplaceFrom(s, pat, rep, i) == [s[i]] + r;
      ReplaceFromEndsWithReplacement(x, pat, rep, i + 1);
      EndsWithPrepend([s[i]], r, rep);
    }
  }

  /** Counting on `x + pat` from `i` on: the trailing occurrence is always
      replaced and the other replacements never lengthen the text; with a
      shorter replacement, one more occurrence wholly inside `x` shortens
      it further, and without one the length is exact. */
  lemma {:induction false} ReplaceFromTrailingLength(x: string, pat: string, rep: string, i: nat)
    requires |pat| > 0 && i <= |x|
    requires |rep| <= |pat|
    requires NoSelfOverlap(pat)
    ensures |ReplaceFrom(x + pat, pat, rep, i)| <= |x| - i + |rep|
    ensures |rep| < |pat| && (exists j | i <= j && j + |pat| <= |x| :: MatchAt(x + pat, pat, j))
      ==> |ReplaceFrom(x + pat, pat, rep, i)| < |x| - i + |rep|
    ensures !(exists j | i <= j && j + |pat| <= |x| :: MatchAt(x + pat, pat, j))
      ==> |ReplaceFrom(x + pat, pat, rep, i)| == |x| - i + |rep|
    decreases |x| - i
  {
    var s := x + pat;
    if i == |x| {
      assert s[i..i + |pat|] == pat;
      assert ReplaceFrom(s, pat, rep, i) == rep + ReplaceFrom(s, pat, rep, |s|);
      assert ReplaceFrom(s, pat, rep, |s|) == [];
    } else if MatchAt(s, pat, i) && i + |pat| <= |x| {
      assert ReplaceFrom(s, pat, rep, i) == rep + ReplaceFrom(s, pat, rep, i + |pat|);
      ReplaceFromTrailingLength(x, pat, rep, i + |pat|);
    } else {
      if |x| < i + |pat| {
        NoMatchStraddlingEnd(x, pat, i);
      }
      assert ReplaceFrom(s, pat, rep, i) == [s[i]] + ReplaceFrom(s, pat, rep, i + 1);
      ReplaceFromTrailingLength(x, pat, rep, i + 1);
      if exists j | i <= j && j + |pat| <= |x| :: MatchAt(s, pat, j) {
        var j :| i <= j && j + |pat| <= |x| && MatchAt(s, pat, j);
        assert j != i;
        assert i + 1 <= j;
      }
    }
  }

  /** An occurrence inside `x` is an occurrence that ends within `x` in
      anything that starts with `x`. */
  lemma MatchInPrefix(x: string, y: string, pat: string)
    ensures Contains(x, pat) <==> exists j | 0 <= j && j + |pat| <= |x| :: MatchAt(x + y, pat, j)
  {
    if exists j | 0 <= j && j + |pat| <= |x| :: MatchAt(x + y, pat, j) {
      var j :| 0 <= j && j + |pat| <= |x| && MatchAt(x + y, pat, j);
      assert (x + y)[j..j + |pat|] == x[j..j + |pat|];
      assert MatchAt(x, pat, j);
    }
    if Contains(x, pat) {
      var j :| 0 <= j <= |x| && MatchAt(x, pat, j);
      assert (x + y)[j..j + |pat|] == x[j..j + |pat|];
      assert MatchAt(x + y, pat, j);
    }
  }

  lemma ReplaceAllEndsWithReplacement(x: string, pat: string, rep: string)
    requires |pat| > 0
    requires NoSelfOverlap(pat)
    ensures EndsWith(ReplaceAll(x + pat, pat, rep), rep)
  {
    ReplaceFromEndsWithReplacement(x, pat, rep, 0);
  }

  /** Python's `s.split('\n')[0]`: the text up to the first newline. The
      three ensures clauses determine the result uniquely. */
  function FirstLine(s: string): (r: string)
    ensures r <= s
    ensures '\n' !in r
    ensures |r| < |s| ==> s[|r|] == '\n'
  {
    if s == [] || s[0] == '\n' then [] else [s[0]] + FirstLine(s[1..])
  }

  /** Index of the last '.' in `s`, or -1 when there is none
      (Python's `s.rfind('.')`). */
  function LastDot(s: string): (r: int)
    ensures -1 <= r < |s|
    ensures r >= 0 ==> s[r] == '.'
    ensures forall i | r < i < |s| :: s[i] != '.'
  {
    if s == [] then -1
    else if s[|s| - 1] == '.' then |s| - 1
    else LastDot(s[..|s| - 1])
  }

  /** Python's `os.path.splitext` on a name without a directory separator:
      the extension starts at the last dot, unless every character before
      that dot is itself a dot (leading dots do not start an extension). */
  function SplitExt(name: string): (r: (string, string))
    ensures r.0 + r.1 == name
    ensures r.1 == [] || (r.1[0] == '.' && '.' !in r.1[1..])
    ensures r.1 != [] ==> exists i | 0 <= i < |r.0| :: r.0[i] != '.'
    ensures r.1 == [] ==> forall i, j | 0 <= i < j < |name| && name[j] == '.' :: name[i] == '.'
  {
    var dot := LastDot(name);
    if dot >= 0 && exists i | 0 <= i < dot :: name[i] != '.' then
      (name[..dot], name[dot..])
    else
      (name, "")
  }

  /** A name built as `title + ".mp3"` splits back into that title, as long
      as the title is not made of dots only. */
  lemma SplitExtOfMp3(title: string)
    requires exists i | 0 <= i < |title| :: title[i] != '.'
    ensures SplitExt(title + ".mp3") == (title, ".mp3")
  {
    var name := title + ".mp3";
    var i :| 0 <= i < |title| && title[i] != '.';
    assert name[i] == title[i];
    assert name[|title|] == '.' && name[|title| + 1] == 'm';
    assert name[|title| + 2] == 'p' && name[|title| + 3] == '3';
    assert LastDot(name) == |title|;
    assert name[..|title|] == title;
  }
}
