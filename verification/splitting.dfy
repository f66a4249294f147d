/** Splitting, joining and global replacement on a literal, non-empty separator,
    with the left-to-right, non-overlapping semantics of JavaScript's
    `String.prototype.split(sep)`, `Array.prototype.join(sep)` and
    `String.prototype.replace(/sep/g, rep)`. */
module Splitting {
  import opened JsText

  /** A blank line between paragraphs: the separator both conversions split and
      rewrite on. */
  const ParagraphBreak: string := "\n\n"

  /** `s.split(sep)`: the pieces between the non-overlapping occurrences of `sep`
      found scanning from the left. */
  function SplitOn(s: string, sep: string): (parts: seq<string>)
    requires |sep| > 0
    ensures |parts| >= 1
    decreases |s|
  {
    if |s| < |sep| then [s]
    else if s[..|sep|] == sep then [""] + SplitOn(s[|sep|..], sep)
    else
      var rest := SplitOn(s[1..], sep);
      [[s[0]] + rest[0]] + rest[1..]
  }

  /** `parts.join(sep)`. */
  function JoinWith(parts: seq<string>, sep: string): string
  {
    if |parts| == 0 then ""
    else if |parts| == 1 then parts[0]
    else parts[0] + sep + JoinWith(parts[1..], sep)
  }

  /** `s.replace(/pat/g, rep)` for a literal pattern: each occurrence found scanning
      from the left is replaced, and the scan resumes after it. */
  function ReplaceAll(s: string, pat: string, rep: string): string
    requires |pat| > 0
    decreases |s|
  {
    if |s| < |pat| then s
    else if s[..|pat|] == pat then rep + ReplaceAll(s[|pat|..], pat, rep)
    else [s[0]] + ReplaceAll(s[1..], pat, rep)
  }

  /** Number of non-overlapping occurrences of `pat`, counted from the left. */
  function CountOccurrences(s: string, pat: string): nat
    requires |pat| > 0
    decreases |s|
  {
    if |s| < |pat| then 0
    else if s[..|pat|] == pat then 1 + CountOccurrences(s[|pat|..], pat)
    else CountOccurrences(s[1..], pat)
  }

  /** Gluing a character onto the first piece glues it onto the joined text. */
  lemma JoinPrepend(c: char, parts: seq<string>, sep: string)
    requires |parts| >= 1
    ensures JoinWith([[c] + parts[0]] + parts[1..], sep) == [c] + JoinWith(parts, sep)
  {
    var glued := [[c] + parts[0]] + parts[1..];
    assert glued[1..] == parts[1..];
  }

  /** Joining the pieces of a split with the same separator gives back the input. */
  lemma {:induction false} SplitThenJoin(s: string, sep: string)
    requires |sep| > 0
    ensures JoinWith(SplitOn(s, sep), sep) == s
    decreases |s|
  {
    if |s| < |sep| {
    } else if s[..|sep|] == sep {
      var rest := SplitOn(s[|sep|..], sep);
      SplitThenJoin(s[|sep|..], sep);
      assert ([""] + rest)[1..] == rest;
      CutAt(s, |sep|);
    } else {
      var rest := SplitOn(s[1..], sep);
      SplitThenJoin(s[1..], sep);
      JoinPrepend(s[0], rest, sep);
      CutAt(s, 1);
    }
  }

  lemma CutAt(s: string, i: nat)
    requires i <= |s|
    ensures s == s[..i] + s[i..]
  {
  }

  /** The split has one more piece than there are occurrences of the separator. */
  lemma {:induction false} SplitCount(s: string, sep: string)
    requires |sep| > 0
    ensures |SplitOn(s, sep)| == CountOccurrences(s, sep) + 1
    decreases |s|
  {
    if |s| < |sep| {
    } else if s[..|sep|] == sep {
      SplitCount(s[|sep|..], sep);
    } else {
      SplitCount(s[1..], sep);
    }
  }

  /** An occurrence of `pat` in `[c] + t` at a positive offset is one in `t`. */
  lemma OccursShift(c: char, t: string, j: nat, pat: string)
    requires j > 0 && OccursAt([c] + t, j, pat)
    ensures OccursAt(t, j - 1, pat)
  {
    assert ([c] + t)[j..j + |pat|] == t[j - 1..j - 1 + |pat|];
  }

  /** A prefix of `s` that does not start with `sep` holds an occurrence only if its
      tail does. */
  lemma NoOccurrenceAfterHead(s: string, u: string, sep: string)
    requires 1 + |u| <= |s| && s[1..1 + |u|] == u
    requires !StartsWith(s, sep) && !Contains(u, sep)
    ensures !Contains(s[..1 + |u|], sep)
  {
    var ext := s[..1 + |u|];
    assert ext == [s[0]] + u;
    forall j: nat | j <= |ext| ensures !OccursAt(ext, j, sep) {
      if j == 0 {
        assert |sep| <= |ext| ==> ext[..|sep|] == s[..|sep|];
      } else if OccursAt(ext, j, sep) {
        OccursShift(s[0], u, j, sep);
      }
    }
  }

  /** The property `SplitLeftmost` proves of a list of pieces. */
  predicate CutAtFirst(parts: seq<string>, sep: string)
    requires |parts| >= 1 && |sep| > 0
  {
    && (forall k :: 0 <= k < |parts| - 1 ==> !Contains(parts[k] + sep[..|sep| - 1], sep))
    && !Contains(parts[|parts| - 1], sep)
  }

  /** Each piece is cut at the FIRST occurrence of the separator after it: a piece
      followed by all but the last character of the separator holds no occurrence,
      and the last piece holds none at all. */
  lemma {:induction false} SplitLeftmost(s: string, sep: string)
    requires |sep| > 0
    ensures CutAtFirst(SplitOn(s, sep), sep)
    decreases |s|
  {
    if |s| < |sep| {
    } else if s[..|sep|] == sep {
      SplitLeftmost(s[|sep|..], sep);
      LeftmostAfterSeparator(SplitOn(s[|sep|..], sep), sep);
    } else {
      SplitLeftmost(s[1..], sep);
      SplitThenJoin(s[1..], sep);
      LeftmostAfterChar(s, SplitOn(s[1..], sep), sep);
    }
  }

  lemma LeftmostAfterSeparator(rest: seq<string>, sep: string)
    requires |rest| >= 1 && |sep| > 0 && CutAtFirst(rest, sep)
    ensures CutAtFirst([""] + rest, sep)
  {
    var parts := [""] + rest;
    assert |parts[0] + sep[..|sep| - 1]| < |sep|;
    assert forall k :: 1 <= k < |parts| ==> parts[k] == rest[k - 1];
  }

  lemma LeftmostAfterChar(s: string, rest: seq<string>, sep: string)
    requires |s| >= |sep| > 0 && s[..|sep|] != sep
    requires |rest| >= 1 && CutAtFirst(rest, sep) && JoinWith(rest, sep) == s[1..]
    ensures CutAtFirst([[s[0]] + rest[0]] + rest[1..], sep)
  {
    var parts := [[s[0]] + rest[0]] + rest[1..];
    if |rest| > 1 {
      var u := rest[0] + sep[..|sep| - 1];
      assert s[1..] == rest[0] + sep + JoinWith(rest[1..], sep);
      assert s[1..1 + |u|] == u;
      NoOccurrenceAfterHead(s, u, sep);
      assert parts[0] + sep[..|sep| - 1] == s[..1 + |u|];
    } else {
      NoOccurrenceAfterHead(s, rest[0], sep);
      assert parts[0] == s[..1 + |rest[0]|];
    }
    assert forall k :: 1 <= k < |parts| ==> parts[k] == rest[k];
  }

  /** Global replacement is split-then-join: `s.replace(/pat/g, rep)` equals
      `s.split(pat).join(rep)`. */
  lemma {:induction false} ReplaceAllIsSplitJoin(s: string, pat: string, rep: string)
    requires |pat| > 0
    ensures ReplaceAll(s, pat, rep) == JoinWith(SplitOn(s, pat), rep)
    decreases |s|
  {
    if |s| < |pat| {
    } else if s[..|pat|] == pat {
      var rest := SplitOn(s[|pat|..], pat);
      ReplaceAllIsSplitJoin(s[|pat|..], pat, rep);
      assert ([""] + rest)[1..] == rest;
    } else {
      var rest := SplitOn(s[1..], pat);
      ReplaceAllIsSplitJoin(s[1..], pat, rep);
      JoinPrepend(s[0], rest, rep);
    }
  }

  /** Replacing a pattern by itself changes nothing. */
  lemma ReplaceByItself(s: string, pat: string)
    requires |pat| > 0
    ensures ReplaceAll(s, pat, pat) == s
  {
    ReplaceAllIsSplitJoin(s, pat, pat);
    SplitThenJoin(s, pat);
  }

  /** An occurrence in the tail is an occurrence in the whole. */
  lemma ContainsTail(s: string, pat: string)
    requires s != [] && Contains(s[1..], pat)
    ensures Contains(s, pat)
  {
    var j: nat :| j <= |s[1..]| && OccursAt(s[1..], j, pat);
    assert s[j + 1..j + 1 + |pat|] == s[1..][j..j + |pat|];
    assert OccursAt(s, j + 1, pat);
  }

  /** Text without the pattern is returned unchanged. */
  lemma {:induction false} ReplaceAbsent(s: string, pat: string, rep: string)
    requires |pat| > 0 && !Contains(s, pat)
    ensures ReplaceAll(s, pat, rep) == s
    decreases |s|
  {
    if |s| >= |pat| {
      assert !OccursAt(s, 0, pat);
      if Contains(s[1..], pat) {
        ContainsTail(s, pat);
      }
      ReplaceAbsent(s[1..], pat, rep);
      assert s == [s[0]] + s[1..];
    }
  }
}
