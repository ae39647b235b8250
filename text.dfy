/** The pieces of Python's `str` that the request helpers use: `strip()`,
    `split(sep)` and `replace(old, new)`; with `Join` (Python's
    `sep.join(parts)`) and `SplitOn` as reference definitions that the lemmas
    about them are stated against. */
module Text {

  /** Python's `str.isspace()` for one character: the characters that a
      bare `strip()` removes. */
  predicate IsSpace(c: char) {
    || ('\U{0009}' <= c <= '\U{000D}')
    || ('\U{001C}' <= c <= '\U{0020}')
    || c == '\U{0085}' || c == '\U{00A0}' || c == '\U{1680}'
    || ('\U{2000}' <= c <= '\U{200A}')
    || c == '\U{2028}' || c == '\U{2029}' || c == '\U{202F}'
    || c == '\U{205F}' || c == '\U{3000}'
  }

  predicate AllSpace(s: string) {
    forall i | 0 <= i < |s| :: IsSpace(s[i])
  }

  /** The first index at or after `i` that does not hold whitespace, or
      `|s|`: where `strip()` starts keeping characters. */
  function SkipSpaceForward(s: string, i: nat): (k: nat)
    requires i <= |s|
    ensures i <= k <= |s|
    ensures forall m | i <= m < k :: IsSpace(s[m])
    ensures k < |s| ==> !IsSpace(s[k])
    decreases |s| - i
  {
    if i < |s| && IsSpace(s[i]) then SkipSpaceForward(s, i + 1) else i
  }

  /** Scanning down from `j` but not below `lo`, the end of the last
      character that is not whitespace: where `strip()` stops keeping
      characters. */
  function SkipSpaceBackward(s: string, lo: nat, j: nat): (k: nat)
    requires lo <= j <= |s|
    ensures lo <= k <= j
    ensures forall m | k <= m < j :: IsSpace(s[m])
    ensures k > lo ==> !IsSpace(s[k - 1])
    decreases j
  {
    if j > lo && IsSpace(s[j - 1]) then SkipSpaceBackward(s, lo, j - 1) else j
  }

  /** Python's `s.strip()`: the text between the leading and the trailing
      whitespace. It neither starts nor ends with whitespace, and only
      whitespace is cut off on either side. */
  function Strip(s: string): (r: string)
    ensures r == [] || (!IsSpace(r[0]) && !IsSpace(r[|r| - 1]))
    ensures exists lo, hi | 0 <= lo <= hi <= |s| :: s[lo..hi] == r && AllSpace(s[..lo]) && AllSpace(s[hi..])
  {
    var lo := SkipSpaceForward(s, 0);
    var hi := SkipSpaceBackward(s, lo, |s|);
    assert AllSpace(s[..lo]) && AllSpace(s[hi..]);
    s[lo..hi]
  }

  /** The forward scan stops at the first index that is not whitespace. */
  lemma SkipSpaceForwardStopsAt(s: string, i: nat, k: nat)
    requires i <= k <= |s|
    requires forall m | i <= m < k :: IsSpace(s[m])
    requires k < |s| ==> !IsSpace(s[k])
    ensures SkipSpaceForward(s, i) == k
  {
    // Both scans' contracts pin the index down: any other index would lie
    // inside the skipped whitespace or skip a non-whitespace character.
  }

  /** The backward scan stops behind the last character that is not whitespace. */
  lemma SkipSpaceBackwardStopsAt(s: string, lo: nat, j: nat, k: nat)
    requires lo <= k <= j <= |s|
    requires forall m | k <= m < j :: IsSpace(s[m])
    requires k > lo ==> !IsSpace(s[k - 1])
    ensures SkipSpaceBackward(s, lo, j) == k
  {
  }

  /** Stripping a core that has no whitespace at either end, padded with
      whitespace on both sides, gives back exactly that core: `strip()` removes
      the padding and nothing more. */
  lemma StripPadded(front: string, core: string, back: string)
    requires AllSpace(front) && AllSpace(back)
    requires core == [] || (!IsSpace(core[0]) && !IsSpace(core[|core| - 1]))
    ensures Strip(front + core + back) == core
  {
    var s := front + core + back;
    if core == [] {
      assert forall m | 0 <= m < |s| :: IsSpace(s[m]) by {
        forall m | 0 <= m < |s| ensures IsSpace(s[m]) {
          if m < |front| { assert s[m] == front[m]; } else { assert s[m] == back[m - |front|]; }
        }
      }
      SkipSpaceForwardStopsAt(s, 0, |s|);
      SkipSpaceBackwardStopsAt(s, |s|, |s|, |s|);
    } else {
      var lo, hi := |front|, |front| + |core|;
      assert forall m | 0 <= m < lo :: s[m] == front[m];
      assert forall m | hi <= m < |s| :: s[m] == back[m - hi];
      assert s[lo] == core[0] && s[hi - 1] == core[|core| - 1];
      SkipSpaceForwardStopsAt(s, 0, lo);
      SkipSpaceBackwardStopsAt(s, lo, |s|, hi);
      assert s[lo..hi] == core;
    }
  }

  /** Stripping twice is stripping once. */
  lemma StripIdempotent(s: string)
    ensures Strip(Strip(s)) == Strip(s)
  {
    StripPadded([], Strip(s), []);
    assert [] + Strip(s) + [] == Strip(s);
  }

  /** Python's `s.split(sep)` for a one-character separator: the pieces
      between consecutive separators, always at least one. */
  function Split(s: string, sep: char): (parts: seq<string>)
    ensures |parts| >= 1
    ensures forall k | 0 <= k < |parts| :: sep !in parts[k]
    decreases |s|
  {
    if s == [] then [""]
    else if s[0] == sep then [""] + Split(s[1..], sep)
    else
      var rest := Split(s[1..], sep);
      [[s[0]] + rest[0]] + rest[1..]
  }

  /** Python's `sep.join(parts)`. */
  function Join(parts: seq<string>, sep: string): string
  {
    if |parts| == 0 then ""
    else if |parts| == 1 then parts[0]
    else parts[0] + sep + Join(parts[1..], sep)
  }

  /** Extending the first piece extends the joined text at its front. */
  lemma JoinExtendFirst(x: string, parts: seq<string>, sep: string)
    requires |parts| >= 1
    ensures Join([x + parts[0]] + parts[1..], sep) == x + Join(parts, sep)
  {
    var ps := [x + parts[0]] + parts[1..];
    assert ps[1..] == parts[1..];
  }

  /** Joining the pieces of a split with the same separator gives the text back. */
  lemma {:induction false} JoinSplit(s: string, sep: char)
    ensures Join(Split(s, sep), [sep]) == s
    decreases |s|
  {
    if s == [] {
    } else if s[0] == sep {
      JoinSplit(s[1..], sep);
      var rest := Split(s[1..], sep);
      assert ([""] + rest)[1..] == rest;
      assert s == [sep] + s[1..];
    } else {
      JoinSplit(s[1..], sep);
      var rest := Split(s[1..], sep);
      JoinExtendFirst([s[0]], rest, [sep]);
      assert s == [s[0]] + s[1..];
    }
  }

  /** Text without the separator is one piece. */
  lemma {:induction false} SplitNoSeparator(s: string, sep: char)
    requires sep !in s
    ensures Split(s, sep) == [s]
    decreases |s|
  {
    if s != [] {
      SplitNoSeparator(s[1..], sep);
      assert s == [s[0]] + s[1..];
    }
  }

  /** Splitting at one separator splits the two sides independently. */
  lemma {:induction false} SplitAtSeparator(a: string, sep: char, b: string)
    ensures Split(a + [sep] + b, sep) == Split(a, sep) + Split(b, sep)
    decreases |a|
  {
    var s := a + [sep] + b;
    if a == [] {
      assert s[0] == sep && s[1..] == b;
    } else {
      assert s[0] == a[0] && s[1..] == a[1..] + [sep] + b;
      SplitAtSeparator(a[1..], sep, b);
      var restA, partsB := Split(a[1..], sep), Split(b, sep);
      var rest := Split(s[1..], sep);
      assert rest == restA + partsB;
      if a[0] == sep {
        assert Split(s, sep) == [""] + rest;
        assert Split(a, sep) == [""] + restA;
      } else {
        assert Split(s, sep) == [[a[0]] + rest[0]] + rest[1..];
        assert Split(a, sep) == [[a[0]] + restA[0]] + restA[1..];
        assert rest[0] == restA[0];
        assert rest[1..] == restA[1..] + partsB;
      }
    }
  }

  /** Splitting a join of separator-free pieces gives the pieces back. */
  lemma {:induction false} SplitJoin(parts: seq<string>, sep: char)
    requires |parts| >= 1
    requires forall k | 0 <= k < |parts| :: sep !in parts[k]
    ensures Split(Join(parts, [sep]), sep) == parts
    decreases |parts|
  {
    if |parts| == 1 {
      SplitNoSeparator(parts[0], sep);
    } else {
      SplitJoin(parts[1..], sep);
      SplitNoSeparator(parts[0], sep);
      SplitAtSeparator(parts[0], sep, Join(parts[1..], [sep]));
      assert parts == [parts[0]] + parts[1..];
    }
  }

  /** The piece after the last separator: when `s` is some text ending in a
      separator (or nothing) followed by separator-free text, that text is the
      last piece. */
  lemma LastPiece(head: string, tail: string, sep: char)
    requires head == [] || head[|head| - 1] == sep
    requires sep !in tail
    ensures Split(head + tail, sep)[|Split(head + tail, sep)| - 1] == tail
  {
    SplitNoSeparator(tail, sep);
    if head == [] {
      assert head + tail == tail;
    } else {
      var a := head[..|head| - 1];
      assert head == a + [sep];
      assert head + tail == a + [sep] + tail;
      SplitAtSeparator(a, sep, tail);
      assert Split(head + tail, sep) == Split(a, sep) + [tail];
    }
  }

  /** `pat` occurs in `s` at index `i`. */
  predicate OccursAt(s: string, pat: string, i: int) {
    0 <= i && i + |pat| <= |s| && s[i..i + |pat|] == pat
  }

  predicate Occurs(s: string, pat: string) {
    exists i | 0 <= i <= |s| :: OccursAt(s, pat, i)
  }

  /** Python's `s.replace(pat, rep)` for a non-empty `pat`: scanning from the
      left, every non-overlapping occurrence of `pat` is replaced by `rep`;
      the scan resumes after the replaced occurrence, never inside `rep`. */
  function ReplaceAll(s: string, pat: string, rep: string): string
    requires pat != []
    decreases |s|
  {
    if |s| < |pat| then s
    else if s[..|pat|] == pat then rep + ReplaceAll(s[|pat|..], pat, rep)
    else [s[0]] + ReplaceAll(s[1..], pat, rep)
  }

  /** An occurrence at the front is replaced and the scan goes on after it. */
  lemma ReplaceAllAtMatch(pat: string, s: string, rep: string)
    requires pat != []
    ensures ReplaceAll(pat + s, pat, rep) == rep + ReplaceAll(s, pat, rep)
  {
    assert (pat + s)[..|pat|] == pat;
    assert (pat + s)[|pat|..] == s;
  }

  /** A character at which `pat` does not start is kept, and the scan moves
      on by one character. */
  lemma ReplaceAllSkip(t: string, pat: string, rep: string)
    requires pat != [] && t != []
    requires !OccursAt(t, pat, 0)
    ensures ReplaceAll(t, pat, rep) == [t[0]] + ReplaceAll(t[1..], pat, rep)
  {
    if |t| < |pat| {
      assert |t[1..]| < |pat|;
      assert t == [t[0]] + t[1..];
    }
  }

  /** An occurrence in the tail is an occurrence one position further on. */
  lemma OccursAtTail(t: string, pat: string, i: int)
    requires t != [] && OccursAt(t[1..], pat, i)
    ensures OccursAt(t, pat, i + 1)
  {
    assert t[1..][i..i + |pat|] == t[i + 1..i + 1 + |pat|];
  }

  /** A prefix at none of whose positions `pat` starts is kept as it is. */
  lemma {:induction false} ReplaceAllKeepsPrefix(x: string, s: string, pat: string, rep: string)
    requires pat != []
    requires forall i | 0 <= i < |x| :: !OccursAt(x + s, pat, i)
    ensures ReplaceAll(x + s, pat, rep) == x + ReplaceAll(s, pat, rep)
    decreases |x|
  {
    if x == [] {
      assert x + s == s;
    } else {
      var t := x + s;
      assert t[1..] == x[1..] + s;
      forall i | 0 <= i < |x| - 1
        ensures !OccursAt(x[1..] + s, pat, i)
      {
        if OccursAt(t[1..], pat, i) {
          OccursAtTail(t, pat, i);
        }
      }
      ReplaceAllKeepsPrefix(x[1..], s, pat, rep);
      ReplaceAllSkip(t, pat, rep);
      assert x == [x[0]] + x[1..];
    }
  }

  /** Where `pat` does not occur, `replace` leaves the text unchanged. */
  lemma {:induction false} ReplaceAllNoMatch(s: string, pat: string, rep: string)
    requires pat != []
    requires !Occurs(s, pat)
    ensures ReplaceAll(s, pat, rep) == s
    decreases |s|
  {
    if |s| >= |pat| {
      assert !OccursAt(s, pat, 0);
      assert !Occurs(s[1..], pat) by {
        forall i | OccursAt(s[1..], pat, i) ensures false {
          assert s[1..][i..i + |pat|] == s[i + 1..i + 1 + |pat|];
          assert OccursAt(s, pat, i + 1);
        }
      }
      ReplaceAllNoMatch(s[1..], pat, rep);
      assert s == [s[0]] + s[1..];
    }
  }

  /** Replacing a pattern by itself changes nothing. */
  lemma {:induction false} ReplaceAllSame(s: string, pat: string)
    requires pat != []
    ensures ReplaceAll(s, pat, pat) == s
    decreases |s|
  {
    if |s| >= |pat| {
      if s[..|pat|] == pat {
        ReplaceAllSame(s[|pat|..], pat);
        assert s == s[..|pat|] + s[|pat|..];
      } else {
        ReplaceAllSame(s[1..], pat);
        assert s == [s[0]] + s[1..];
      }
    }
  }

  /** For a one-character pattern, `s.replace(c, rep)` is
      `rep.join(s.split(c))`: every occurrence of the character is replaced. */
  lemma {:induction false} ReplaceCharIsSplitJoin(s: string, c: char, rep: string)
    ensures ReplaceAll(s, [c], rep) == Join(Split(s, c), rep)
    decreases |s|
  {
    if s != [] {
      ReplaceCharIsSplitJoin(s[1..], c, rep);
      var rest := Split(s[1..], c);
      if s[0] == c {
        assert s[..1] == [c];
        assert ([""] + rest)[1..] == rest;
      } else {
        assert s[..1] != [c];
        JoinExtendFirst([s[0]], rest, rep);
      }
    }
  }

  /** Python's `s.split(pat)` for a non-empty separator string: scanning from
      the left, the pieces between consecutive non-overlapping occurrences of
      `pat`, always at least one. */
  function SplitOn(s: string, pat: string): (parts: seq<string>)
    requires pat != []
    ensures |parts| >= 1
    decreases |s|
  {
    if |s| < |pat| then [s]
    else if s[..|pat|] == pat then [""] + SplitOn(s[|pat|..], pat)
    else
      var rest := SplitOn(s[1..], pat);
      [[s[0]] + rest[0]] + rest[1..]
  }

  /** `s.replace(pat, rep) == rep.join(s.split(pat))`: every occurrence the
      split cuts at is replaced, and nothing else changes. */
  lemma {:induction false} ReplaceAllIsSplitOnJoin(s: string, pat: string, rep: string)
    requires pat != []
    ensures ReplaceAll(s, pat, rep) == Join(SplitOn(s, pat), rep)
    decreases |s|
  {
    if |s| >= |pat| {
      if s[..|pat|] == pat {
        ReplaceAllIsSplitOnJoin(s[|pat|..], pat, rep);
        var rest := SplitOn(s[|pat|..], pat);
        assert ([""] + rest)[1..] == rest;
      } else {
        ReplaceAllIsSplitOnJoin(s[1..], pat, rep);
        JoinExtendFirst([s[0]], SplitOn(s[1..], pat), rep);
      }
    }
  }

  /** Joining the pieces of a split with the separator gives the text back. */
  lemma JoinSplitOn(s: string, pat: string)
    requires pat != []
    ensures Join(SplitOn(s, pat), pat) == s
  {
    ReplaceAllIsSplitOnJoin(s, pat, pat);
    ReplaceAllSame(s, pat);
  }

  /** On a one-character separator, the string split is the character split. */
  lemma {:induction false} SplitOnOneChar(s: string, c: char)
    ensures SplitOn(s, [c]) == Split(s, c)
    decreases |s|
  {
    if s != [] {
      SplitOnOneChar(s[1..], c);
      assert s[..1] == [s[0]];
    }
  }

  /** The first piece of a split is a prefix of the text. */
  lemma {:induction false} SplitOnFirstIsPrefix(s: string, pat: string)
    requires pat != []
    ensures |SplitOn(s, pat)[0]| <= |s| && s[..|SplitOn(s, pat)[0]|] == SplitOn(s, pat)[0]
    decreases |s|
  {
    if |s| >= |pat| && s[..|pat|] != pat {
      SplitOnFirstIsPrefix(s[1..], pat);
      var first := SplitOn(s[1..], pat)[0];
      assert s[1..][..|first|] == s[1..1 + |first|];
    }
  }

  /** No piece of a split contains the separator: the leftmost scan cuts at
      every occurrence. */
  lemma {:induction false} SplitOnPiecesFree(s: string, pat: string)
    requires pat != []
    ensures forall k | 0 <= k < |SplitOn(s, pat)| :: !Occurs(SplitOn(s, pat)[k], pat)
    decreases |s|
  {
    var parts := SplitOn(s, pat);
    if |s| < |pat| {
      assert parts == [s];
    } else if s[..|pat|] == pat {
      SplitOnPiecesFree(s[|pat|..], pat);
      var rest := SplitOn(s[|pat|..], pat);
      assert parts == [""] + rest;
      assert !Occurs("", pat);
    } else {
      SplitOnPiecesFree(s[1..], pat);
      SplitOnFirstIsPrefix(s[1..], pat);
      var rest := SplitOn(s[1..], pat);
      var first := [s[0]] + rest[0];
      assert parts == [first] + rest[1..];
      forall i | 0 <= i <= |first|
        ensures !OccursAt(first, pat, i)
      {
        if i == 0 {
          if |pat| <= |first| {
            assert first[..|pat|] == s[..|pat|];
          }
        } else if i + |pat| <= |first| {
          assert first[i..i + |pat|] == rest[0][i - 1..i - 1 + |pat|];
          assert !OccursAt(rest[0], pat, i - 1);
        }
      }
    }
  }
}

