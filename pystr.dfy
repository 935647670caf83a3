/** The parts of Python's `str` that the article pipeline relies on: whitespace
    classification, `strip`, `split`, `join`, `replace`, `lower`, `endswith` and `in`. */
module PyStr {

  /** `c.isspace()`: the code points Python counts as whitespace (Unicode White_Space,
      plus the separator controls U+001C to U+001F). */
  predicate IsSpace(c: char) {
    var n := c as int;
    || 0x09 <= n <= 0x0D
    || 0x1C <= n <= 0x20
    || n == 0x85 || n == 0xA0 || n == 0x1680
    || 0x2000 <= n <= 0x200A
    || n == 0x2028 || n == 0x2029 || n == 0x202F || n == 0x205F || n == 0x3000
  }

  predicate AllSpace(s: string) {
    forall i | 0 <= i < |s| :: IsSpace(s[i])
  }

  predicate NoSpace(s: string) {
    forall i | 0 <= i < |s| :: !IsSpace(s[i])
  }

  // ---------------------------------------------------------------------------
  // strip

  /** `r` is `s` with the whitespace at both ends removed: a slice of `s` that starts and
      ends with non-whitespace and has only whitespace around it. */
  ghost predicate StrippedFrom(r: string, s: string) {
    && (r == [] || (!IsSpace(r[0]) && !IsSpace(r[|r| - 1])))
    && exists k :: SlicedAt(r, s, k)
  }

  /** `r` sits in `s` at offset `k` with only whitespace before and after it. */
  predicate SlicedAt(r: string, s: string, k: int) {
    0 <= k <= |s| - |r| && s[k..k + |r|] == r && AllSpace(s[..k]) && AllSpace(s[k + |r|..])
  }

  /** `s.strip()`: whitespace is removed from the front, then from the back, one character
      at a time. */
  function Strip(s: string): string
    decreases |s|
  {
    if s != [] && IsSpace(s[0]) then Strip(s[1..])
    else if s != [] && IsSpace(s[|s| - 1]) then Strip(s[..|s| - 1])
    else s
  }

  /** `strip` removes exactly the whitespace at both ends, and leaves nothing exactly when
      the string is blank. */
  lemma StripSpec(s: string)
    ensures StrippedFrom(Strip(s), s)
    ensures Strip(s) == [] <==> AllSpace(s)
  {
    StripSliced(s);
    StripEmptyIffBlank(s);
  }

  lemma SlicedAfterSpace(r: string, s: string, k: int)
    requires s != [] && IsSpace(s[0]) && SlicedAt(r, s[1..], k)
    ensures SlicedAt(r, s, k + 1)
  {
    var t := s[1..];
    assert s[k + 1..k + 1 + |r|] == t[k..k + |r|];
    assert s[..k + 1] == [s[0]] + t[..k];
    assert s[k + 1 + |r|..] == t[k + |r|..];
  }

  lemma SlicedBeforeSpace(r: string, s: string, k: int)
    requires s != [] && IsSpace(s[|s| - 1]) && SlicedAt(r, s[..|s| - 1], k)
    ensures SlicedAt(r, s, k)
  {
    var t := s[..|s| - 1];
    assert s[k..k + |r|] == t[k..k + |r|];
    assert s[..k] == t[..k];
    assert s[k + |r|..] == t[k + |r|..] + [s[|s| - 1]];
  }

  lemma {:induction false} StripSliced(s: string)
    ensures StrippedFrom(Strip(s), s)
    decreases |s|
  {
    var r := Strip(s);
    if s != [] && IsSpace(s[0]) {
      StripSliced(s[1..]);
      var k :| SlicedAt(r, s[1..], k);
      SlicedAfterSpace(r, s, k);
    } else if s != [] && IsSpace(s[|s| - 1]) {
      StripSliced(s[..|s| - 1]);
      var k :| SlicedAt(r, s[..|s| - 1], k);
      SlicedBeforeSpace(r, s, k);
    } else {
      assert SlicedAt(s, s, 0) by {
        assert s[0..0 + |s|] == s && s[..0] == [] && s[0 + |s|..] == [];
      }
    }
  }

  lemma {:induction false} StripEmptyIffBlank(s: string)
    ensures Strip(s) == [] <==> AllSpace(s)
    decreases |s|
  {
    if s != [] && IsSpace(s[0]) {
      var t := s[1..];
      StripEmptyIffBlank(t);
      assert forall i | 1 <= i < |s| :: s[i] == t[i - 1];
    } else if s != [] && IsSpace(s[|s| - 1]) {
      var t := s[..|s| - 1];
      StripEmptyIffBlank(t);
      assert forall i | 0 <= i < |s| - 1 :: s[i] == t[i];
    }
  }

  /** There is only one way to strip a string, so `StrippedFrom` pins `Strip` down. */
  lemma {:induction false} StrippedFromUnique(r1: string, r2: string, s: string)
    requires StrippedFrom(r1, s) && StrippedFrom(r2, s)
    ensures r1 == r2
  {
    var k1 :| SlicedAt(r1, s, k1);
    var k2 :| SlicedAt(r2, s, k2);
    // Every character of s outside [k, k + |r|) is whitespace, and r starts and ends with
    // non-whitespace, so the first and the last non-whitespace characters of s fix k and |r|.
    forall i | 0 <= i < k1 ensures IsSpace(s[i]) { assert s[i] == s[..k1][i]; }
    forall i | 0 <= i < k2 ensures IsSpace(s[i]) { assert s[i] == s[..k2][i]; }
    forall i | k1 + |r1| <= i < |s| ensures IsSpace(s[i]) { assert s[i] == s[k1 + |r1|..][i - k1 - |r1|]; }
    forall i | k2 + |r2| <= i < |s| ensures IsSpace(s[i]) { assert s[i] == s[k2 + |r2|..][i - k2 - |r2|]; }
    if r1 != [] && r2 != [] {
      assert s[k1] == r1[0] && s[k2] == r2[0];
      assert s[k1 + |r1| - 1] == r1[|r1| - 1] && s[k2 + |r2| - 1] == r2[|r2| - 1];
      assert k1 == k2;
      assert k1 + |r1| == k2 + |r2|;
    }
  }

  /** A string that already starts and ends with non-whitespace is its own strip. */
  lemma StripFixed(s: string)
    requires s == [] || (!IsSpace(s[0]) && !IsSpace(s[|s| - 1]))
    ensures Strip(s) == s
  {
    assert SlicedAt(s, s, 0) by {
      assert s[0..0 + |s|] == s && s[..0] == [] && s[0 + |s|..] == [];
    }
    StripSpec(s);
    StrippedFromUnique(Strip(s), s, s);
  }

  lemma StripIdempotent(s: string)
    ensures Strip(Strip(s)) == Strip(s)
  {
    StripSpec(s);
    StripFixed(Strip(s));
  }

  // ---------------------------------------------------------------------------
  // join and split on one character

  /** `sep.join(parts)`. */
  function Join(sep: string, parts: seq<string>): string {
    if parts == [] then []
    else if |parts| == 1 then parts[0]
    else parts[0] + sep + Join(sep, parts[1..])
  }

  /** `s.split(d)` for a one-character separator `d`: the pieces between the separators,
      empty ones included, so there is always at least one. */
  function Split(s: string, d: char): (parts: seq<string>)
    ensures |parts| >= 1
  {
    if s == [] then [[]]
    else
      var rest := Split(s[1..], d);
      if s[0] == d then [[]] + rest
      else [[s[0]] + rest[0]] + rest[1..]
  }

  /** No piece holds the separator, and there is more than one piece exactly when the
      separator occurs. */
  lemma {:induction false} SplitSpec(s: string, d: char)
    ensures forall i | 0 <= i < |Split(s, d)| :: d !in Split(s, d)[i]
    ensures d in s <==> |Split(s, d)| >= 2
  {
    if s != [] {
      SplitSpec(s[1..], d);
      var rest := Split(s[1..], d);
      if s[0] != d {
        assert d !in [s[0]] + rest[0];
        if d in s {
          assert d in s[1..];
        }
      }
    }
  }

  /** Joining the pieces of a split with the separator gives the string back. */
  lemma {:induction false} JoinSplit(s: string, d: char)
    ensures Join([d], Split(s, d)) == s
  {
    if s != [] {
      var rest := Split(s[1..], d);
      JoinSplit(s[1..], d);
      if s[0] == d {
        assert Split(s, d) == [[]] + rest;
        assert Join([d], Split(s, d)) == [] + [d] + Join([d], rest);
      } else if |rest| == 1 {
        assert Split(s, d) == [[s[0]] + rest[0]];
      } else {
        assert Split(s, d) == [[s[0]] + rest[0]] + rest[1..];
        assert Join([d], rest) == rest[0] + [d] + Join([d], rest[1..]);
      }
    }
  }

  lemma {:induction false} SplitPlain(p: string, d: char)
    requires d !in p
    ensures Split(p, d) == [p]
  {
    if p != [] {
      SplitPlain(p[1..], d);
      assert [p[0]] + p[1..] == p;
    }
  }

  lemma {:induction false} SplitAfter(p: string, t: string, d: char)
    requires d !in p
    ensures Split(p + [d] + t, d) == [p] + Split(t, d)
  {
    if p == [] {
      assert (p + [d] + t)[1..] == t;
    } else {
      assert (p + [d] + t)[1..] == p[1..] + [d] + t;
      SplitAfter(p[1..], t, d);
      assert [p[0]] + p[1..] == p;
    }
  }

  /** Splitting the join of separator-free pieces gives the pieces back. */
  lemma {:induction false} SplitJoin(parts: seq<string>, d: char)
    requires |parts| >= 1
    requires forall i | 0 <= i < |parts| :: d !in parts[i]
    ensures Split(Join([d], parts), d) == parts
  {
    if |parts| == 1 {
      SplitPlain(parts[0], d);
    } else {
      SplitJoin(parts[1..], d);
      SplitAfter(parts[0], Join([d], parts[1..]), d);
    }
  }

  /** The last piece of a split is the longest separator-free suffix. */
  lemma {:induction false} SplitLast(s: string, d: char)
    ensures var parts := Split(s, d); var last := parts[|parts| - 1];
      && |last| <= |s| && s[|s| - |last|..] == last
      && (|last| < |s| ==> s[|s| - |last| - 1] == d)
  {
    if s != [] {
      var t := s[1..];
      SplitLast(t, d);
      var rest := Split(t, d);
      var tail := rest[|rest| - 1];
      if s[0] != d {
        SplitSpec(t, d);
        if |rest| >= 2 {
          assert d in t && d !in tail && t[0..] == t;
        }
      }
      if s[0] == d || |rest| >= 2 {
        assert Split(s, d)[|Split(s, d)| - 1] == tail;
        assert s[|s| - |tail|..] == t[|t| - |tail|..];
        if |tail| < |t| {
          assert s[|s| - |tail| - 1] == t[|t| - |tail| - 1];
        }
      } else {
        assert Split(s, d) == [[s[0]] + tail];
        assert s == [s[0]] + t;
      }
    }
  }

  // ---------------------------------------------------------------------------
  // split on whitespace

  /** The run of non-whitespace characters at the start of `s`. */
  function LeadingWord(s: string): (w: string)
    ensures |w| <= |s| && w == s[..|w|]
    ensures NoSpace(w)
    ensures |w| < |s| ==> IsSpace(s[|w|])
    ensures s != [] && !IsSpace(s[0]) ==> w != []
  {
    if s == [] || IsSpace(s[0]) then [] else [s[0]] + LeadingWord(s[1..])
  }

  /** `s.split()` with no argument: the maximal runs of non-whitespace characters, in order. */
  function Words(s: string): seq<string>
    decreases |s|
  {
    if s == [] then []
    else if IsSpace(s[0]) then Words(s[1..])
    else
      var w := LeadingWord(s);
      [w] + Words(s[|w|..])
  }

  /** A word: a non-empty run of non-whitespace characters. */
  predicate IsWord(w: string) {
    w != [] && NoSpace(w)
  }

  lemma {:induction false} WordsAreWords(s: string)
    ensures forall i | 0 <= i < |Words(s)| :: IsWord(Words(s)[i])
    decreases |s|
  {
    if s != [] {
      if IsSpace(s[0]) {
        WordsAreWords(s[1..]);
      } else {
        var w := LeadingWord(s);
        var rest := Words(s[|w|..]);
        WordsAreWords(s[|w|..]);
        assert Words(s) == [w] + rest;
        forall i | 0 <= i < |Words(s)| ensures IsWord(Words(s)[i]) {
          if i > 0 {
            assert Words(s)[i] == rest[i - 1];
          }
        }
      }
    }
  }

  // ---------------------------------------------------------------------------
  // substring search and replace

  /** `pat in s`. */
  predicate Contains(s: string, pat: string) {
    exists i | 0 <= i <= |s| - |pat| :: OccursAt(s, pat, i)
  }

  predicate OccursAt(s: string, pat: string, i: int) {
    0 <= i <= |s| - |pat| && s[i..i + |pat|] == pat
  }

  lemma ContainsStep(s: string, pat: string)
    requires pat != [] && |pat| <= |s| && s[..|pat|] != pat
    ensures Contains(s, pat) <==> Contains(s[1..], pat)
  {
    if Contains(s, pat) {
      var i :| 0 <= i <= |s| - |pat| && OccursAt(s, pat, i);
      assert i != 0;
      assert s[1..][i - 1..i - 1 + |pat|] == s[i..i + |pat|];
      assert OccursAt(s[1..], pat, i - 1);
    }
    if Contains(s[1..], pat) {
      var j :| 0 <= j <= |s| - 1 - |pat| && OccursAt(s[1..], pat, j);
      assert s[j + 1..j + 1 + |pat|] == s[1..][j..j + |pat|];
      assert OccursAt(s, pat, j + 1);
    }
  }

  /** `s.replace(pat, rep)`: every occurrence of `pat`, scanning from the left without
      overlaps, is replaced by `rep`. */
  function Replace(s: string, pat: string, rep: string): (r: string)
    requires pat != []
    ensures |rep| <= |pat| ==> |r| <= |s|
    ensures |rep| < |pat| && Contains(s, pat) ==> |r| < |s|
    ensures !Contains(s, pat) ==> r == s
    decreases |s|
  {
    if |s| < |pat| then s
    else if s[..|pat|] == pat then
      assert OccursAt(s, pat, 0);
      rep + Replace(s[|pat|..], pat, rep)
    else
      ContainsStep(s, pat);
      [s[0]] + Replace(s[1..], pat, rep)
  }

  // ---------------------------------------------------------------------------
  // lower and endswith

  function LowerChar(c: char): char {
    if 'A' <= c <= 'Z' then (c as int - 'A' as int + 'a' as int) as char else c
  }

  /** `s.lower()`, on the ASCII letters. */
  function Lower(s: string): string {
    seq(|s|, i requires 0 <= i < |s| => LowerChar(s[i]))
  }

  predicate HasUpper(s: string) {
    exists i | 0 <= i < |s| :: 'A' <= s[i] <= 'Z'
  }

  /** Lowering leaves no upper-case letter and changes nothing else; so a string is its own
      lowering exactly when it has no upper-case letter, and lowering twice is lowering once. */
  lemma LowerSpec(s: string)
    ensures !HasUpper(Lower(s))
    ensures forall i | 0 <= i < |s| && !('A' <= s[i] <= 'Z') :: Lower(s)[i] == s[i]
    ensures Lower(s) == s <==> !HasUpper(s)
    ensures Lower(Lower(s)) == Lower(s)
  {
    if HasUpper(s) {
      var i :| 0 <= i < |s| && 'A' <= s[i] <= 'Z';
      assert Lower(s)[i] != s[i];
    }
    if !HasUpper(Lower(s)) {
      assert Lower(Lower(s)) == Lower(s);
    }
  }

  /** `s.endswith(suffix)`. */
  predicate EndsWith(s: string, suffix: string) {
    |suffix| <= |s| && s[|s| - |suffix|..] == suffix
  }
}
