/** The reply-to-markdown pipeline of `src/App.js`: the escape normalisation applied
    to a received reply, and `convertToMarkdown`, a fixed sequence of regular
    expression rewrites tuned to Slovak business letters. Each rewrite is a pure
    function on the whole text and the pipeline composes them in source order, so a
    later rewrite sees what an earlier one inserted. */
module Markdown {
  import opened JsText
  import opened Splitting
  import opened Lines

  // ---------------------------------------------------------------------------
  // Escape normalisation: `processedResponse.replace(/\\n/g, '\n')`

  /** The two characters backslash and `n`. */
  const EscapedNewline: string := ['\\', 'n']

  /** Every backslash-`n` pair, found from the left, becomes one newline. */
  function Unescape(s: string): string
  {
    ReplaceAll(s, EscapedNewline, "\n")
  }

  /** The characters between the pairs are kept as they are: the result is the
      input cut at every pair and glued back with newlines. */
  lemma {:induction false} UnescapeKeepsPieces(s: string)
    ensures Unescape(s) == JoinWith(SplitOn(s, EscapedNewline), "\n")
    ensures |SplitOn(s, EscapedNewline)| == CountOccurrences(s, EscapedNewline) + 1
  {
    ReplaceAllIsSplitJoin(s, EscapedNewline, "\n");
    SplitCount(s, EscapedNewline);
  }

  /** The first character of the result: a newline for a leading pair, otherwise
      the first character of the input. */
  lemma UnescapeHead(s: string)
    requires s != []
    ensures Unescape(s) != []
    ensures Unescape(s)[0] == (if StartsWith(s, EscapedNewline) then '\n' else s[0])
  {
  }

  /** No backslash-`n` pair survives: a kept backslash is never followed by `n`. */
  lemma {:induction false} UnescapeLeavesNoPair(s: string)
    ensures !Contains(Unescape(s), EscapedNewline)
    decreases |s|
  {
    var r := Unescape(s);
    if |s| < 2 {
      assert |r| < 2;
    } else if StartsWith(s, EscapedNewline) {
      var rest := Unescape(s[2..]);
      UnescapeLeavesNoPair(s[2..]);
      assert r == "\n" + rest;
      NoPairAfter('\n', rest);
    } else {
      var rest := Unescape(s[1..]);
      UnescapeLeavesNoPair(s[1..]);
      assert r == [s[0]] + rest;
      UnescapeHead(s[1..]);
      assert s[1] != 'n' || s[0] != '\\';
      assert s[0] == '\\' ==> rest[0] != 'n';
      NoPairAfter(s[0], rest);
    }
  }

  /** Putting one character before a text without pairs creates none unless it is
      a backslash in front of an `n`. */
  lemma NoPairAfter(c: char, rest: string)
    requires !Contains(rest, EscapedNewline)
    requires rest != [] && c == '\\' ==> rest[0] != 'n'
    ensures !Contains([c] + rest, EscapedNewline)
  {
    var t := [c] + rest;
    forall j: nat | j <= |t| ensures !OccursAt(t, j, EscapedNewline) {
      if j == 0 {
        assert |t| >= 2 ==> t[0] == c && t[1] == rest[0];
      } else if OccursAt(t, j, EscapedNewline) {
        OccursShift(c, rest, j, EscapedNewline);
      }
    }
  }

  /** Normalising twice is normalising once. */
  lemma UnescapeIdempotent(s: string)
    ensures Unescape(Unescape(s)) == Unescape(s)
  {
    UnescapeLeavesNoPair(s);
    ReplaceAbsent(Unescape(s), EscapedNewline, "\n");
  }

  /** Text without a pair is left exactly as it is. */
  lemma UnescapeWithoutPair(s: string)
    requires !Contains(s, EscapedNewline)
    ensures Unescape(s) == s
  {
    ReplaceAbsent(s, EscapedNewline, "\n");
  }

  // ---------------------------------------------------------------------------
  // Alert keywords: `/\b(DÔLEŽITÉ|UPOZORNENIE|POZNÁMKA|TIP|NOVINKA|AKCIA)\b:/g`

  /** The alternatives, in the order the engine tries them. */
  const Keywords: seq<string> := ["DÔLEŽITÉ", "UPOZORNENIE", "POZNÁMKA", "TIP", "NOVINKA", "AKCIA"]

  /** `\n**🔔 $1:**` for a matched keyword. */
  function Alert(kw: string): string
  {
    "\n**\U{1F514} " + kw + ":**"
  }

  /** The rest of the pattern after one alternative: the keyword, `\b`, then `:`. */
  predicate KeywordMatches(s: string, afterWord: bool, kw: string)
  {
    && |kw| + 1 <= |s|
    && StartsWith(s, kw)
    && BoundaryAt(s, |kw|, afterWord)
    && s[|kw|] == ':'
  }

  /** The first alternative that completes the match at offset 0, if any. */
  function FirstAlternative(s: string, afterWord: bool, alts: seq<string>): (r: Option<string>)
    ensures r.Some? ==> r.value in alts && KeywordMatches(s, afterWord, r.value)
    ensures r.None? ==> forall kw :: kw in alts ==> !KeywordMatches(s, afterWord, kw)
  {
    if alts == [] then None
    else if KeywordMatches(s, afterWord, alts[0]) then Some(alts[0])
    else FirstAlternative(s, afterWord, alts[1..])
  }

  /** The whole pattern at offset 0: the leading `\b`, then the alternation. */
  function KeywordAt(s: string, afterWord: bool): (r: Option<string>)
    ensures r.Some? ==> r.value in Keywords && KeywordMatches(s, afterWord, r.value)
  {
    if BoundaryAt(s, 0, afterWord) then FirstAlternative(s, afterWord, Keywords) else None
  }

  /** The global replacement, scanning from the left; `afterWord` says whether the
      character before offset 0 is a word character. */
  function KeywordPass(s: string, afterWord: bool): string
    decreases |s|
  {
    if s == [] then []
    else match KeywordAt(s, afterWord)
      case Some(kw) => Alert(kw) + KeywordPass(s[|kw| + 1..], IsWordChar(s[|kw|]))
      case None => [s[0]] + KeywordPass(s[1..], IsWordChar(s[0]))
  }

  /** `DÔLEŽITÉ` ends in a non-word letter and is followed by the non-word `:`, so
      the `\b` between them never holds: that alternative can never be rewritten. */
  lemma ImportantNeverMatches(s: string, afterWord: bool)
    ensures !KeywordMatches(s, afterWord, Keywords[0])
    ensures KeywordAt(s, afterWord) != Some(Keywords[0])
  {
    if |Keywords[0]| + 1 <= |s| && StartsWith(s, Keywords[0]) {
      assert s[|Keywords[0]| - 1] == 'É';
    }
  }

  /** The five other keywords are rewritten exactly when no word character comes
      before them: `KW:` at offset 0 is decorated, and the scan goes on after the
      colon. */
  lemma AlertKeywordMatches(s: string, afterWord: bool, i: nat)
    requires 1 <= i < |Keywords| && StartsWith(s, Keywords[i] + ":")
    ensures KeywordAt(s, afterWord) == Some(Keywords[i]) <==> !afterWord
    ensures !afterWord ==>
      KeywordPass(s, afterWord) == Alert(Keywords[i]) + KeywordPass(s[|Keywords[i]| + 1..], false)
  {
    var kw := Keywords[i];
    assert s[..|kw|] == kw && s[|kw|] == ':';
    assert IsWordChar(s[0]) && IsWordChar(s[|kw| - 1]) by {
      assert s[0] == kw[0] && s[|kw| - 1] == kw[|kw| - 1];
      if i == 1 {} else if i == 2 {} else if i == 3 {} else if i == 4 {} else {}
    }
    assert KeywordMatches(s, afterWord, kw);
    ImportantNeverMatches(s, afterWord);
    FirstKeywordByInitial(s, afterWord, i);
  }

  /** The five keywords after `DÔLEŽITÉ` start with five different letters, so the
      first letter of the text decides the alternative. */
  lemma FirstKeywordByInitial(s: string, afterWord: bool, i: nat)
    requires 1 <= i < |Keywords| && StartsWith(s, Keywords[i] + ":")
    requires KeywordMatches(s, afterWord, Keywords[i])
    ensures FirstAlternative(s, afterWord, Keywords) == Some(Keywords[i])
  {
    InitialsDistinct();
    forall m | 0 <= m < i ensures !KeywordMatches(s, afterWord, Keywords[m]) {
      if m == 0 {
        ImportantNeverMatches(s, afterWord);
      } else {
        assert s[0] == Keywords[i][0];
      }
    }
    FirstAlternativeAt(s, afterWord, Keywords, i);
  }

  lemma InitialsDistinct()
    ensures forall m, i :: 1 <= m < i < |Keywords| ==> Keywords[m][0] != Keywords[i][0]
  {
  }

  /** The alternation picks the first alternative that matches. */
  lemma {:induction false} FirstAlternativeAt(s: string, afterWord: bool, alts: seq<string>, i: nat)
    requires i < |alts| && KeywordMatches(s, afterWord, alts[i])
    requires forall m :: 0 <= m < i ==> !KeywordMatches(s, afterWord, alts[m])
    ensures FirstAlternative(s, afterWord, alts) == Some(alts[i])
    decreases i
  {
    if i > 0 {
      assert !KeywordMatches(s, afterWord, alts[0]);
      FirstAlternativeAt(s, afterWord, alts[1..], i - 1);
    }
  }

  /** True when the pass rewrites nothing: no offset starts a match. */
  predicate NoKeywordMatch(s: string, afterWord: bool)
  {
    forall i :: 0 <= i < |s| ==> MatchAt(s, afterWord, i).None?
  }

  /** Text in which no keyword matches passes through unchanged. */
  lemma {:induction false} KeywordPassIdentity(s: string, afterWord: bool)
    requires NoKeywordMatch(s, afterWord)
    ensures KeywordPass(s, afterWord) == s
    decreases |s|
  {
    if s != [] {
      assert s[0..] == s;
      assert MatchAt(s, afterWord, 0) == KeywordAt(s, afterWord);
      assert NoKeywordMatch(s[1..], IsWordChar(s[0])) by {
        assert WordBefore(s, afterWord, 1) == IsWordChar(s[0]);
        forall i | 0 <= i < |s[1..]| ensures MatchAt(s[1..], WordBefore(s, afterWord, 1), i) == MatchAt(s, afterWord, 1 + i) {
          MatchAtShift(s, afterWord, 1, i);
        }
      }
      KeywordPassIdentity(s[1..], IsWordChar(s[0]));
    }
  }

  /** The alert marker a decorated keyword starts with, if any: the inverse of `Alert`. */
  function AlertAt(r: string, alts: seq<string>): (kw: Option<string>)
    ensures kw.Some? ==> kw.value in alts && StartsWith(r, Alert(kw.value))
  {
    if alts == [] then None
    else if StartsWith(r, Alert(alts[0])) then Some(alts[0])
    else AlertAt(r, alts[1..])
  }

  /** Undo the keyword pass: every alert marker becomes the bare `KW:` again. */
  function RestoreAlerts(r: string): string
    decreases |r|
  {
    if r == [] then []
    else match AlertAt(r, Keywords)
      case Some(kw) => kw + ":" + RestoreAlerts(r[|Alert(kw)|..])
      case None => [r[0]] + RestoreAlerts(r[1..])
  }

  const Bell: char := '\U{1F514}'

  predicate NoBell(s: string) {
    forall k :: 0 <= k < |s| ==> s[k] != Bell
  }

  /** A marker is found when it is the only one the text starts with. */
  lemma {:induction false} AlertAtUnique(r: string, alts: seq<string>, kw: string)
    requires kw in alts && StartsWith(r, Alert(kw))
    requires forall other :: other in alts && other != kw ==> !StartsWith(r, Alert(other))
    ensures AlertAt(r, alts) == Some(kw)
  {
    if alts[0] != kw {
      AlertAtUnique(r, alts[1..], kw);
    }
  }

  /** The keywords begin with six different letters, so a marker for one keyword
      is never a prefix of text that starts with the marker for another. */
  lemma AlertAtOwnMarker(kw: string, rest: string)
    requires kw in Keywords
    ensures AlertAt(Alert(kw) + rest, Keywords) == Some(kw)
  {
    var r := Alert(kw) + rest;
    assert r[5] == kw[0];
    forall other | other in Keywords && other != kw
      ensures !StartsWith(r, Alert(other))
    {
      assert Alert(other)[5] == other[0];
    }
    assert StartsWith(r, Alert(kw));
    AlertAtUnique(r, Keywords, kw);
  }

  /** The first character of the pass output: a newline where a keyword matched,
      otherwise the first character of the input. */
  lemma KeywordPassHead(s: string, afterWord: bool)
    requires s != []
    ensures KeywordPass(s, afterWord) != []
    ensures KeywordPass(s, afterWord)[0] == (if KeywordAt(s, afterWord).Some? then '\n' else s[0])
  {
  }

  /** Every bell sits three characters after a newline, as in an alert marker. */
  predicate BellsInMarkers(out: string) {
    forall k :: 0 <= k < |out| && out[k] == Bell ==> k >= 3 && out[k - 3] == '\n'
  }

  /** Every bell in the pass output belongs to an alert marker. */
  lemma {:induction false} BellsOnlyInMarkers(s: string, afterWord: bool)
    requires NoBell(s)
    ensures BellsInMarkers(KeywordPass(s, afterWord))
    decreases |s|
  {
    if s != [] {
      match KeywordAt(s, afterWord)
      case Some(kw) =>
        var out := KeywordPass(s[|kw| + 1..], IsWordChar(s[|kw|]));
        assert NoBell(s[|kw| + 1..]);
        BellsOnlyInMarkers(s[|kw| + 1..], IsWordChar(s[|kw|]));
        AlertBell(kw);
        BellsAfterPrefix(Alert(kw), out);
        assert KeywordPass(s, afterWord) == Alert(kw) + out;
      case None =>
        var out := KeywordPass(s[1..], IsWordChar(s[0]));
        assert NoBell(s[1..]);
        BellsOnlyInMarkers(s[1..], IsWordChar(s[0]));
        assert [s[0]][0] == s[0];
        BellsAfterPrefix([s[0]], out);
        assert KeywordPass(s, afterWord) == [s[0]] + out;
    }
  }

  /** The only bell of a marker is its fourth character. */
  lemma AlertBell(kw: string)
    requires kw in Keywords
    ensures var a := Alert(kw);
      forall k :: 0 <= k < |a| && a[k] == Bell ==> k == 3 && a[0] == '\n'
  {
    var a := Alert(kw);
    assert NoBell(kw) by {
      if kw == Keywords[0] {} else if kw == Keywords[1] {} else if kw == Keywords[2] {}
      else if kw == Keywords[3] {} else if kw == Keywords[4] {} else {}
    }
    assert forall k :: 5 <= k < 5 + |kw| ==> a[k] == kw[k - 5];
  }

  /** The bell property survives putting a prefix in front, when the prefix has it. */
  lemma BellsAfterPrefix(pre: string, out: string)
    requires forall k :: 0 <= k < |pre| && pre[k] == Bell ==> k == 3 && pre[0] == '\n'
    requires BellsInMarkers(out)
    ensures BellsInMarkers(pre + out)
  {
    var r := pre + out;
    forall k | 0 <= k < |r| && r[k] == Bell ensures k >= 3 && r[k - 3] == '\n' {
      if k >= |pre| {
        assert r[k] == out[k - |pre|];
        assert k - |pre| >= 3;
        assert r[k - 3] == out[k - |pre| - 3];
      } else {
        assert r[k] == pre[k];
        assert r[0] == pre[0];
      }
    }
  }

  /** Without a bell in the input, the pass output never starts with `**🔔`. */
  lemma KeywordPassNoStrayMarker(s: string, afterWord: bool)
    requires NoBell(s)
    ensures !StartsWith(KeywordPass(s, afterWord), "**\U{1F514}")
  {
    BellsOnlyInMarkers(s, afterWord);
    var out := KeywordPass(s, afterWord);
    assert |out| >= 3 ==> out[2] != Bell;
  }

  /** The pass loses nothing: for input without a bell character, stripping the
      alert markers again gives back the input. Every rewrite is the keyword and
      its colon, decorated in place; the text after the colon follows at once. */
  lemma {:induction false} KeywordPassRoundTrip(s: string, afterWord: bool)
    requires NoBell(s)
    ensures RestoreAlerts(KeywordPass(s, afterWord)) == s
    decreases |s|
  {
    if s != [] {
      match KeywordAt(s, afterWord)
      case Some(kw) =>
        KeywordPassRoundTrip(s[|kw| + 1..], IsWordChar(s[|kw|]));
        RoundTripAlertStep(s, afterWord, kw);
      case None =>
        KeywordPassRoundTrip(s[1..], IsWordChar(s[0]));
        RoundTripCopyStep(s, afterWord);
    }
  }

  lemma RoundTripAlertStep(s: string, afterWord: bool, kw: string)
    requires NoBell(s) && KeywordAt(s, afterWord) == Some(kw)
    requires RestoreAlerts(KeywordPass(s[|kw| + 1..], IsWordChar(s[|kw|]))) == s[|kw| + 1..]
    ensures RestoreAlerts(KeywordPass(s, afterWord)) == s
  {
    var out := KeywordPass(s[|kw| + 1..], IsWordChar(s[|kw|]));
    KeywordPassAlertStep(s, afterWord, kw);
    RestoreAfterAlert(kw, out);
    KeywordAndRest(s, kw);
  }

  lemma KeywordPassAlertStep(s: string, afterWord: bool, kw: string)
    requires KeywordAt(s, afterWord) == Some(kw)
    ensures KeywordPass(s, afterWord) == Alert(kw) + KeywordPass(s[|kw| + 1..], IsWordChar(s[|kw|]))
  {
  }

  /** An alert marker in front of any output is restored to its keyword and colon. */
  lemma RestoreAfterAlert(kw: string, out: string)
    requires kw in Keywords
    ensures RestoreAlerts(Alert(kw) + out) == kw + ":" + RestoreAlerts(out)
  {
    AlertAtOwnMarker(kw, out);
    assert (Alert(kw) + out)[|Alert(kw)|..] == out;
  }

  lemma KeywordAndRest(s: string, kw: string)
    requires |kw| + 1 <= |s| && StartsWith(s, kw) && s[|kw|] == ':'
    ensures s == kw + ":" + s[|kw| + 1..]
  {
    assert s[..|kw|] == kw;
    assert s == s[..|kw|] + [s[|kw|]] + s[|kw| + 1..];
  }

  lemma RoundTripCopyStep(s: string, afterWord: bool)
    requires NoBell(s) && s != [] && KeywordAt(s, afterWord).None?
    requires RestoreAlerts(KeywordPass(s[1..], IsWordChar(s[0]))) == s[1..]
    ensures RestoreAlerts(KeywordPass(s, afterWord)) == s
  {
    var out := KeywordPass(s[1..], IsWordChar(s[0]));
    assert KeywordPass(s, afterWord) == [s[0]] + out;
    KeywordPassNoStrayMarker(s[1..], IsWordChar(s[0]));
    NoMarkerAfter(s[0], out);
    assert ([s[0]] + out)[1..] == out;
    assert RestoreAlerts([s[0]] + out) == [s[0]] + RestoreAlerts(out);
    assert s == [s[0]] + s[1..];
  }

  /** A character followed by text that does not start with `**🔔` does not
      start an alert marker. */
  lemma NoMarkerAfter(c: char, out: string)
    requires !StartsWith(out, "**\U{1F514}")
    ensures AlertAt([c] + out, Keywords).None?
  {
    var r := [c] + out;
    forall kw | kw in Keywords ensures !StartsWith(r, Alert(kw)) {
      if |Alert(kw)| <= |r| {
        AlertHead(kw);
        assert r[1..4] == out[..3];
        assert r[..|Alert(kw)|][1..4] == r[1..4];
      }
    }
  }

  /** Every alert marker has `**🔔` after its newline. */
  lemma AlertHead(kw: string)
    ensures |Alert(kw)| >= 4 && Alert(kw)[1..4] == "**\U{1F514}"
  {
  }

  // ---------------------------------------------------------------------------
  // The keyword pass over the whole text: every `KW:` is decided where it stands

  /** Whether the character before offset `i` is a word character; `afterWord`
      answers for offset 0. */
  function WordBefore(s: string, afterWord: bool, i: nat): bool
    requires i <= |s|
  {
    if i == 0 then afterWord else IsWordChar(s[i - 1])
  }

  /** The match the pattern finds at offset `i` of the whole text, if any. */
  function MatchAt(s: string, afterWord: bool, i: nat): Option<string>
    requires i <= |s|
  {
    KeywordAt(s[i..], WordBefore(s, afterWord, i))
  }

  /** No match that starts before offset `i` reaches past it. */
  predicate OutsideMatches(s: string, afterWord: bool, i: nat)
    requires i <= |s|
  {
    forall j :: 0 <= j < i && MatchAt(s, afterWord, j).Some? ==> j + |MatchAt(s, afterWord, j).value| < i
  }

  /** How far one step of the scan moves: past the colon of a match, or one character. */
  function ScanStep(s: string, afterWord: bool): (n: nat)
    requires s != []
    ensures 1 <= n <= |s|
  {
    match KeywordAt(s, afterWord)
      case Some(kw) => |kw| + 1
      case None => 1
  }

  /** What one step of the scan writes. */
  function Emitted(s: string, afterWord: bool): string
    requires s != []
  {
    match KeywordAt(s, afterWord)
      case Some(kw) => Alert(kw)
      case None => [s[0]]
  }

  lemma KeywordPassUnfold(s: string, afterWord: bool)
    requires s != []
    ensures KeywordPass(s, afterWord)
      == Emitted(s, afterWord) + KeywordPass(s[ScanStep(s, afterWord)..], WordBefore(s, afterWord, ScanStep(s, afterWord)))
  {
  }

  /** `KW:` tested on a prefix of the text gives the same answer as on the
      whole text once the prefix holds the colon, and never a match the whole
      text lacks. */
  lemma KeywordMatchesPrefix(s: string, afterWord: bool, kw: string, n: nat)
    requires n <= |s|
    ensures KeywordMatches(s[..n], afterWord, kw) ==> KeywordMatches(s, afterWord, kw)
    ensures |kw| + 1 <= n ==> (KeywordMatches(s[..n], afterWord, kw) <==> KeywordMatches(s, afterWord, kw))
  {
    if |kw| + 1 <= n {
      assert s[..n][..|kw|] == s[..|kw|];
    }
  }

  /** Only one alternative can match at an offset, so it is the one the
      alternation reports. */
  lemma KeywordAtIs(s: string, afterWord: bool, kw: string)
    requires kw in Keywords && BoundaryAt(s, 0, afterWord) && KeywordMatches(s, afterWord, kw)
    ensures KeywordAt(s, afterWord) == Some(kw)
  {
    var i :| 0 <= i < |Keywords| && Keywords[i] == kw;
    ImportantNeverMatches(s, afterWord);
    assert 1 <= i;
    assert s[..|kw| + 1] == kw + ":" by {
      assert s[..|kw| + 1] == s[..|kw|] + [s[|kw|]];
    }
    FirstKeywordByInitial(s, afterWord, i);
  }

  /** The match at the start of a prefix of the text: the one the whole text
      has there, unless it runs past the prefix. */
  lemma KeywordAtPrefix(s: string, afterWord: bool, n: nat)
    requires 1 <= n <= |s|
    ensures KeywordAt(s[..n], afterWord).Some? ==> KeywordAt(s, afterWord) == KeywordAt(s[..n], afterWord)
    ensures KeywordAt(s, afterWord).Some? && |KeywordAt(s, afterWord).value| < n ==>
      KeywordAt(s[..n], afterWord) == KeywordAt(s, afterWord)
  {
    assert BoundaryAt(s[..n], 0, afterWord) == BoundaryAt(s, 0, afterWord);
    var short := KeywordAt(s[..n], afterWord);
    var long := KeywordAt(s, afterWord);
    if short.Some? {
      KeywordMatchesPrefix(s, afterWord, short.value, n);
      KeywordAtIs(s, afterWord, short.value);
    }
    if long.Some? && |long.value| < n {
      KeywordMatchesPrefix(s, afterWord, long.value, n);
      KeywordAtIs(s[..n], afterWord, long.value);
    }
  }

  /** Offsets and contexts seen from `s[n..]` are those of `s` shifted by `n`. */
  lemma MatchAtShift(s: string, afterWord: bool, n: nat, j: nat)
    requires n + j <= |s|
    ensures WordBefore(s[n..], WordBefore(s, afterWord, n), j) == WordBefore(s, afterWord, n + j)
    ensures MatchAt(s[n..], WordBefore(s, afterWord, n), j) == MatchAt(s, afterWord, n + j)
  {
    assert s[n..][j..] == s[n + j..];
  }

  lemma OutsideShift(s: string, afterWord: bool, n: nat, i: nat)
    requires n <= i <= |s| && OutsideMatches(s, afterWord, i)
    ensures OutsideMatches(s[n..], WordBefore(s, afterWord, n), i - n)
  {
    forall j | 0 <= j < i - n ensures MatchAt(s[n..], WordBefore(s, afterWord, n), j) == MatchAt(s, afterWord, n + j) {
      MatchAtShift(s, afterWord, n, j);
    }
  }

  /** The first step of the scan is the same on the whole text and on a prefix
      that no match runs past. */
  lemma ScanStepPrefix(s: string, afterWord: bool, i: nat)
    requires 1 <= i <= |s| && OutsideMatches(s, afterWord, i)
    ensures ScanStep(s[..i], afterWord) == ScanStep(s, afterWord) <= i
    ensures Emitted(s[..i], afterWord) == Emitted(s, afterWord)
    ensures WordBefore(s[..i], afterWord, ScanStep(s, afterWord)) == WordBefore(s, afterWord, ScanStep(s, afterWord))
  {
    assert s[0..] == s;
    assert MatchAt(s, afterWord, 0) == KeywordAt(s, afterWord);
    KeywordAtPrefix(s, afterWord, i);
  }

  /** The first step of the scan ends inside a prefix that no match runs past. */
  lemma ScanStepWithin(s: string, afterWord: bool, i: nat)
    requires 1 <= i <= |s| && OutsideMatches(s, afterWord, i)
    ensures ScanStep(s, afterWord) <= i
  {
    ScanStepPrefix(s, afterWord, i);
  }

  lemma SplitStep(s: string, afterWord: bool, i: nat, n: nat, c: bool)
    requires 1 <= i <= |s| && OutsideMatches(s, afterWord, i)
    requires n == ScanStep(s, afterWord) && n <= i && c == WordBefore(s, afterWord, n)
    requires KeywordPass(s[n..], c) == KeywordPass(s[n..][..i - n], c) + KeywordPass(s[n..][i - n..], WordBefore(s[n..], c, i - n))
    ensures KeywordPass(s, afterWord) == KeywordPass(s[..i], afterWord) + KeywordPass(s[i..], WordBefore(s, afterWord, i))
  {
    ScanStepPrefix(s, afterWord, i);
    KeywordPassUnfold(s, afterWord);
    KeywordPassUnfold(s[..i], afterWord);
    SliceShift(s, n, i);
    WordBeforeShift(s, afterWord, n, i);
    // Labelled, so that each step is proved alone and does not burden the next.
    assert A: KeywordPass(s, afterWord) == Emitted(s, afterWord) + KeywordPass(s[n..], c);
    assert B: KeywordPass(s[..i], afterWord) == Emitted(s, afterWord) + KeywordPass(s[n..][..i - n], c);
    assert C: KeywordPass(s[n..], c) == KeywordPass(s[n..][..i - n], c) + KeywordPass(s[i..], WordBefore(s, afterWord, i));
    SharedHeadGlue(KeywordPass(s, afterWord), KeywordPass(s[..i], afterWord), Emitted(s, afterWord),
      KeywordPass(s[n..], c), KeywordPass(s[n..][..i - n], c), KeywordPass(s[i..], WordBefore(s, afterWord, i)));
  }

  /** Two texts that start with the same `head`, where the rest of the longer one
      continues the rest of the shorter one by `back`. */
  lemma SharedHeadGlue(whole: string, prefix: string, head: string, rest: string, front: string, back: string)
    requires whole == head + rest && prefix == head + front && rest == front + back
    ensures whole == prefix + back
  {
  }

  lemma SliceShift(s: string, n: nat, i: nat)
    requires n <= i <= |s|
    ensures s[..i][n..] == s[n..][..i - n]
    ensures s[n..][i - n..] == s[i..]
  {
  }

  lemma WordBeforeShift(s: string, afterWord: bool, n: nat, i: nat)
    requires n <= i <= |s|
    ensures WordBefore(s[n..], WordBefore(s, afterWord, n), i - n) == WordBefore(s, afterWord, i)
  {
  }

  /** The pass is local: at an offset that no match runs past, the output is
      the pass over the text before it followed by the pass over the text after
      it, resumed with the character before the offset. */
  lemma {:induction false} KeywordPassSplit(s: string, afterWord: bool, i: nat)
    requires i <= |s| && OutsideMatches(s, afterWord, i)
    ensures KeywordPass(s, afterWord) == KeywordPass(s[..i], afterWord) + KeywordPass(s[i..], WordBefore(s, afterWord, i))
    decreases i
  {
    if i == 0 {
      assert s[..0] == [] && s[0..] == s;
    } else {
      var n := ScanStep(s, afterWord);
      ScanStepWithin(s, afterWord, i);
      OutsideShift(s, afterWord, n, i);
      var c := WordBefore(s, afterWord, n);
      KeywordPassSplit(s[n..], c, i - n);
      SplitStep(s, afterWord, i, n, c);
    }
  }

  /** The keywords contain no colon. */
  predicate ColonFree(kw: string) {
    forall m :: 0 <= m < |kw| ==> kw[m] != ':'
  }

  lemma KeywordsColonFree()
    ensures forall k :: 0 <= k < |Keywords| ==> |Keywords[k]| > 0 && ColonFree(Keywords[k])
  {
  }

  /** No keyword is a proper suffix of another. */
  lemma KeywordsSuffixFree()
    ensures forall a, b, k :: 0 <= a < |Keywords| && 0 <= b < |Keywords| && 0 < k < |Keywords[a]| ==> Keywords[a][k..] != Keywords[b]
  {
  }

  /** A `KW:` that starts inside the keyword of an earlier `KW0:` ends at its
      colon, so it is a proper suffix of that keyword. */
  lemma InsideIsSuffix(s: string, j: nat, i: nat, kw0: string, kw: string)
    requires j < i <= |s| && j + |kw0| < |s| && s[j..j + |kw0|] == kw0 && s[j + |kw0|] == ':'
    requires ColonFree(kw0) && ColonFree(kw) && |kw| > 0
    ensures i <= j + |kw0| && StartsWith(s[i..], kw + ":") ==> 0 < i - j < |kw0| && kw == kw0[i - j..]
  {
    if i <= j + |kw0| && StartsWith(s[i..], kw + ":") {
      var e := i + |kw|;
      assert forall m :: 0 <= m < |kw| ==> s[i + m] == kw[m] by {
        assert s[i..][..|kw| + 1] == kw + ":";
      }
      assert s[e] == ':' by {
        assert s[i..][..|kw| + 1][|kw|] == ':';
      }
      forall p | j <= p < j + |kw0| ensures s[p] != ':' {
        assert s[p] == s[j..j + |kw0|][p - j];
      }
      forall p | i <= p < e ensures s[p] != ':' {
        assert s[p] == kw[p - i];
      }
      assert e == j + |kw0|;
      assert kw == kw0[i - j..];
    }
  }

  /** A keyword with its colon never starts inside a match that begins earlier. */
  lemma NoKeywordInsideMatch(s: string, afterWord: bool, j: nat, i: nat, k: nat)
    requires j < i <= |s| && MatchAt(s, afterWord, j).Some? && 0 <= k < |Keywords|
    requires StartsWith(s[i..], Keywords[k] + ":")
    ensures j + |MatchAt(s, afterWord, j).value| < i
  {
    var kw0 := MatchAt(s, afterWord, j).value;
    assert s[j..][..|kw0|] == s[j..j + |kw0|];
    KeywordsColonFree();
    KeywordsSuffixFree();
    InsideIsSuffix(s, j, i, kw0, Keywords[k]);
  }

  /** No match runs past an occurrence of a keyword and its colon. */
  lemma OutsideAtKeyword(s: string, afterWord: bool, i: nat, k: nat)
    requires i < |s| && 0 <= k < |Keywords| && StartsWith(s[i..], Keywords[k] + ":")
    ensures OutsideMatches(s, afterWord, i)
  {
    forall j | 0 <= j < i && MatchAt(s, afterWord, j).Some?
      ensures j + |MatchAt(s, afterWord, j).value| < i
    {
      NoKeywordInsideMatch(s, afterWord, j, i, k);
    }
  }

  /** Every occurrence of a keyword and its colon is decided where it stands:
      the pass over the text before it, then the keyword, then the pass over the
      rest. The five alerts are rewritten exactly when no word character comes
      before them; `DÔLEŽITÉ:` is always copied. */
  lemma KeywordDecidedAt(s: string, afterWord: bool, i: nat, k: nat)
    requires i < |s| && 0 <= k < |Keywords| && StartsWith(s[i..], Keywords[k] + ":")
    ensures 1 <= k && !WordBefore(s, afterWord, i) ==>
      KeywordPass(s, afterWord)
        == KeywordPass(s[..i], afterWord) + Alert(Keywords[k]) + KeywordPass(s[i + |Keywords[k]| + 1..], false)
    ensures k == 0 || WordBefore(s, afterWord, i) ==>
      KeywordPass(s, afterWord)
        == KeywordPass(s[..i], afterWord) + [s[i]] + KeywordPass(s[i + 1..], IsWordChar(s[i]))
  {
    if 1 <= k && !WordBefore(s, afterWord, i) {
      AlertAtOffset(s, afterWord, i, k);
    } else {
      CopiedAtOffset(s, afterWord, i, k);
    }
  }

  lemma AlertAtOffset(s: string, afterWord: bool, i: nat, k: nat)
    requires i < |s| && 1 <= k < |Keywords| && StartsWith(s[i..], Keywords[k] + ":")
    requires !WordBefore(s, afterWord, i)
    ensures KeywordPass(s, afterWord)
      == KeywordPass(s[..i], afterWord) + Alert(Keywords[k]) + KeywordPass(s[i + |Keywords[k]| + 1..], false)
  {
    var c := WordBefore(s, afterWord, i);
    var n := |Keywords[k]| + 1;
    assert n <= |s[i..]| by {
      assert |Keywords[k] + ":"| == n;
    }
    OutsideAtKeyword(s, afterWord, i, k);
    KeywordPassSplit(s, afterWord, i);
    KeywordPassAtKeyword(s[i..], c, k);
    SuffixFrom(s, i, n, i + |Keywords[k]| + 1);
    PieceGlue(KeywordPass(s, afterWord), KeywordPass(s[..i], afterWord), KeywordPass(s[i..], c),
      Alert(Keywords[k]), KeywordPass(s[i + |Keywords[k]| + 1..], false));
  }

  lemma CopiedAtOffset(s: string, afterWord: bool, i: nat, k: nat)
    requires i < |s| && 0 <= k < |Keywords| && StartsWith(s[i..], Keywords[k] + ":")
    requires k == 0 || WordBefore(s, afterWord, i)
    ensures KeywordPass(s, afterWord)
      == KeywordPass(s[..i], afterWord) + [s[i]] + KeywordPass(s[i + 1..], IsWordChar(s[i]))
  {
    var c := WordBefore(s, afterWord, i);
    OutsideAtKeyword(s, afterWord, i, k);
    KeywordPassSplit(s, afterWord, i);
    KeywordPassAtKeyword(s[i..], c, k);
    SuffixFrom(s, i, 1, i + 1);
    PieceGlue(KeywordPass(s, afterWord), KeywordPass(s[..i], afterWord), KeywordPass(s[i..], c),
      [s[i]], KeywordPass(s[i + 1..], IsWordChar(s[i])));
  }

  lemma SuffixFrom(s: string, i: nat, n: nat, m: nat)
    requires m == i + n <= |s|
    ensures s[i..][n..] == s[m..]
    ensures i < |s| ==> s[i..][0] == s[i]
  {
  }

  /** A text split after `prefix`, with the tail split again after `head`. */
  lemma PieceGlue(whole: string, prefix: string, tail: string, head: string, rest: string)
    requires whole == prefix + tail && tail == head + rest
    ensures whole == prefix + head + rest
  {
  }

  /** The pass over a text that starts with `KW:`: an alert when the keyword is
      one of the five and no word character comes before it, else a copied
      character. */
  lemma KeywordPassAtKeyword(t: string, afterWord: bool, k: nat)
    requires 0 <= k < |Keywords| && StartsWith(t, Keywords[k] + ":")
    ensures 1 <= k && !afterWord ==>
      KeywordPass(t, afterWord) == Alert(Keywords[k]) + KeywordPass(t[|Keywords[k]| + 1..], false)
    ensures k == 0 || afterWord ==>
      KeywordPass(t, afterWord) == [t[0]] + KeywordPass(t[1..], IsWordChar(t[0]))
  {
    KeywordAtOf(t, afterWord, k);
    if 1 <= k && !afterWord {
      AlertKeywordMatches(t, afterWord, k);
    }
  }

  /** The alternation at a text that starts with `KW:`. */
  lemma KeywordAtOf(t: string, afterWord: bool, k: nat)
    requires 0 <= k < |Keywords| && StartsWith(t, Keywords[k] + ":")
    ensures KeywordAt(t, afterWord) == (if 1 <= k && !afterWord then Some(Keywords[k]) else None)
  {
    if k == 0 {
      ImportantNeverMatches(t, afterWord);
      assert t[0] == 'D';
      InitialsDistinct();
    } else {
      AlertKeywordMatches(t, afterWord, k);
    }
  }

  // ---------------------------------------------------------------------------
  // Bullets: `/^[•·]\s/gm` -> '- '

  predicate IsBullet(c: char) {
    c == '•' || c == '·'
  }

  /** The scan of `s.replace(/^[•·]\s/gm, '- ')`; `atStart` says whether offset 0 is
      a line start. `\s` may be a line terminator, and then the position after the
      match is a line start again. */
  function BulletPass(s: string, atStart: bool): string
    decreases |s|
  {
    if s == [] then []
    else if atStart && |s| >= 2 && IsBullet(s[0]) && IsJsSpace(s[1]) then
      "- " + BulletPass(s[2..], IsLineTerminator(s[1]))
    else [s[0]] + BulletPass(s[1..], IsLineTerminator(s[0]))
  }

  /** A bullet at a line start, followed by one white-space character. */
  predicate BulletAt(s: string, k: nat, atStart: bool)
  {
    k + 1 < |s| && LineStartAt(s, k, atStart) && IsBullet(s[k]) && IsJsSpace(s[k + 1])
  }

  /** What the pass leaves at offset `k`: a dash for a line-initial bullet, a space
      for the white space after it, the input character elsewhere. */
  function BulletOutputAt(s: string, k: nat, atStart: bool): char
    requires k < |s|
  {
    if BulletAt(s, k, atStart) then '-'
    else if k > 0 && BulletAt(s, k - 1, atStart) then ' '
    else s[k]
  }

  /** Looking at a suffix from offset `e` with the right line-start flag sees the
      same bullets. */
  lemma BulletAtShift(s: string, e: nat, k: nat, atStart: bool)
    requires 1 <= e <= |s|
    ensures BulletAt(s[e..], k, IsLineTerminator(s[e - 1])) == BulletAt(s, k + e, atStart)
  {
    if k + e + 1 < |s| {
      assert s[e..][k] == s[k + e] && s[e..][k + 1] == s[k + e + 1];
      if k > 0 { assert s[e..][k - 1] == s[k + e - 1]; }
    }
  }

  /** The pass keeps the length and rewrites exactly the line-initial bullets: the
      output at every offset is `BulletOutputAt`. */
  lemma {:induction false} BulletPassPointwise(s: string, atStart: bool)
    ensures |BulletPass(s, atStart)| == |s|
    ensures forall k :: 0 <= k < |s| ==> BulletPass(s, atStart)[k] == BulletOutputAt(s, k, atStart)
    decreases |s|
  {
    if s == [] {
    } else if atStart && |s| >= 2 && IsBullet(s[0]) && IsJsSpace(s[1]) {
      var flag := IsLineTerminator(s[1]);
      BulletPassPointwise(s[2..], flag);
      BulletMatchStep(s, atStart, BulletPass(s[2..], flag));
    } else {
      var flag := IsLineTerminator(s[0]);
      BulletPassPointwise(s[1..], flag);
      BulletCopyStep(s, atStart, BulletPass(s[1..], flag));
    }
  }

  lemma BulletMatchStep(s: string, atStart: bool, rest: string)
    requires atStart && |s| >= 2 && IsBullet(s[0]) && IsJsSpace(s[1])
    requires |rest| == |s| - 2
    requires forall k :: 0 <= k < |s| - 2 ==> rest[k] == BulletOutputAt(s[2..], k, IsLineTerminator(s[1]))
    ensures var r := "- " + rest;
      forall k :: 0 <= k < |s| ==> r[k] == BulletOutputAt(s, k, atStart)
  {
    var r := "- " + rest;
    assert BulletAt(s, 0, atStart);
    assert !BulletAt(s, 1, atStart);
    forall k | 2 <= k < |s| ensures r[k] == BulletOutputAt(s, k, atStart) {
      BulletAtShift(s, 2, k - 2, atStart);
      if k > 2 { BulletAtShift(s, 2, k - 3, atStart); }
      assert s[2..][k - 2] == s[k];
    }
  }

  lemma BulletCopyStep(s: string, atStart: bool, rest: string)
    requires s != [] && !BulletAt(s, 0, atStart)
    requires |rest| == |s| - 1
    requires forall k :: 0 <= k < |s| - 1 ==> rest[k] == BulletOutputAt(s[1..], k, IsLineTerminator(s[0]))
    ensures var r := [s[0]] + rest;
      forall k :: 0 <= k < |s| ==> r[k] == BulletOutputAt(s, k, atStart)
  {
    var r := [s[0]] + rest;
    forall k | 1 <= k < |s| ensures r[k] == BulletOutputAt(s, k, atStart) {
      BulletAtShift(s, 1, k - 1, atStart);
      if k > 1 { BulletAtShift(s, 1, k - 2, atStart); }
      assert s[1..][k - 1] == s[k];
    }
  }

  // ---------------------------------------------------------------------------
  // Numbered items: `/^(\d+)\.\s/gm` -> '$1. '

  /** Length of the run of ASCII digits at the front (what greedy `\d+` takes). */
  function LeadingDigits(s: string): (d: nat)
    ensures d <= |s|
    ensures forall j :: 0 <= j < d ==> IsDigit(s[j])
    ensures d < |s| ==> !IsDigit(s[d])
  {
    if s != [] && IsDigit(s[0]) then 1 + LeadingDigits(s[1..]) else 0
  }

  /** A line-initial `<digits>.` followed by one white-space character at `k`. */
  predicate NumberedAt(s: string, k: nat, atStart: bool)
    requires k <= |s|
  {
    && LineStartAt(s, k, atStart)
    && var d := LeadingDigits(s[k..]);
    && d > 0 && k + d + 1 < |s| && s[k + d] == '.' && IsJsSpace(s[k + d + 1])
  }

  /** The scan of `s.replace(/^(\d+)\.\s/gm, '$1. ')`. */
  function NumberPass(s: string, atStart: bool): string
    decreases |s|
  {
    if s == [] then []
    else
      var d := LeadingDigits(s);
      if atStart && d > 0 && d + 1 < |s| && s[d] == '.' && IsJsSpace(s[d + 1]) then
        s[..d] + ". " + NumberPass(s[d + 2..], IsLineTerminator(s[d + 1]))
      else [s[0]] + NumberPass(s[1..], IsLineTerminator(s[0]))
  }

  /** Offset `m` holds the white space after a line-initial `<digits>.`. */
  predicate NumberSpaceAt(s: string, m: nat, atStart: bool)
  {
    exists k: nat :: k < m <= |s| && NumberedAt(s, k, atStart) && k + LeadingDigits(s[k..]) + 1 == m
  }

  /** What the pass leaves at offset `m`: a plain space for the white space after a
      line-initial `<digits>.`, the input character elsewhere. */
  function NumberOutputAt(s: string, m: nat, atStart: bool): char
    requires m < |s|
  {
    if NumberSpaceAt(s, m, atStart) then ' ' else s[m]
  }

  /** Looking at a suffix from offset `e` with the right line-start flag sees the
      same numbered items. */
  lemma NumberedAtShift(s: string, e: nat, k: nat, atStart: bool)
    requires 1 <= e && k + e <= |s|
    ensures NumberedAt(s[e..], k, IsLineTerminator(s[e - 1])) == NumberedAt(s, k + e, atStart)
  {
    assert s[e..][k..] == s[k + e..];
    if k > 0 { assert s[e..][k - 1] == s[k + e - 1]; }
    var d := LeadingDigits(s[k + e..]);
    if k + e + d + 1 < |s| {
      assert s[e..][k + d] == s[k + e + d] && s[e..][k + d + 1] == s[k + e + d + 1];
    }
  }

  /** No item starts right after a digit or a full stop: those are not line starts. */
  lemma NotNumberedAfter(s: string, k: nat, atStart: bool)
    requires 0 < k <= |s| && (IsDigit(s[k - 1]) || s[k - 1] == '.')
    ensures !NumberedAt(s, k, atStart)
  {
  }

  /** The pass keeps the length and changes only the white space after each
      line-initial `<digits>.`, which becomes a plain space. */
  lemma {:induction false} NumberPassPointwise(s: string, atStart: bool)
    ensures |NumberPass(s, atStart)| == |s|
    ensures forall m :: 0 <= m < |s| ==> NumberPass(s, atStart)[m] == NumberOutputAt(s, m, atStart)
    decreases |s|
  {
    if s != [] {
      var d := LeadingDigits(s);
      if atStart && d > 0 && d + 1 < |s| && s[d] == '.' && IsJsSpace(s[d + 1]) {
        var flag := IsLineTerminator(s[d + 1]);
        NumberPassPointwise(s[d + 2..], flag);
        NumberMatchStep(s, atStart, NumberPass(s[d + 2..], flag));
      } else {
        var flag := IsLineTerminator(s[0]);
        NumberPassPointwise(s[1..], flag);
        NumberCopyStep(s, atStart, NumberPass(s[1..], flag));
      }
    }
  }

  lemma NumberMatchStep(s: string, atStart: bool, rest: string)
    requires s != []
    requires var d := LeadingDigits(s);
      atStart && d > 0 && d + 1 < |s| && s[d] == '.' && IsJsSpace(s[d + 1])
    requires |rest| == |s| - LeadingDigits(s) - 2
    requires var e := LeadingDigits(s) + 2;
      forall m :: 0 <= m < |rest| ==> rest[m] == NumberOutputAt(s[e..], m, IsLineTerminator(s[e - 1]))
    ensures var r := s[..LeadingDigits(s)] + ". " + rest;
      forall m :: 0 <= m < |s| ==> r[m] == NumberOutputAt(s, m, atStart)
  {
    var d := LeadingDigits(s);
    var r := s[..d] + ". " + rest;
    NumberMatchHead(s, atStart, r);
    NumberMatchTail(s, atStart, rest, r);
  }

  /** The item itself: digits and full stop are kept, the white space becomes a space. */
  lemma NumberMatchHead(s: string, atStart: bool, r: string)
    requires s != []
    requires var d := LeadingDigits(s);
      atStart && d > 0 && d + 1 < |s| && s[d] == '.' && IsJsSpace(s[d + 1])
    requires |r| == |s| && r[..LeadingDigits(s) + 2] == s[..LeadingDigits(s)] + ". "
    ensures forall m :: 0 <= m < LeadingDigits(s) + 2 ==> r[m] == NumberOutputAt(s, m, atStart)
  {
    var d := LeadingDigits(s);
    ItemCharacters(s, r, d);
    NumberMatchDigits(s, atStart, r);
    NumberSpaceAfterItem(s, atStart);
  }

  lemma ItemCharacters(s: string, r: string, d: nat)
    requires d < |s| && s[d] == '.' && d + 2 <= |r| && r[..d + 2] == s[..d] + ". "
    ensures forall m :: 0 <= m <= d ==> r[m] == s[m]
    ensures r[d + 1] == ' '
  {
    var head := s[..d] + ". ";
    forall m | 0 <= m <= d ensures r[m] == s[m] {
      assert r[m] == head[m];
    }
    assert r[d + 1] == head[d + 1];
  }

  lemma NumberMatchDigits(s: string, atStart: bool, r: string)
    requires s != []
    requires var d := LeadingDigits(s);
      d > 0 && d + 1 < |s| && s[d] == '.'
    requires |r| == |s| && forall m :: 0 <= m <= LeadingDigits(s) ==> r[m] == s[m]
    ensures forall m :: 0 <= m <= LeadingDigits(s) ==> r[m] == NumberOutputAt(s, m, atStart)
  {
    forall m | 0 <= m <= LeadingDigits(s) ensures r[m] == NumberOutputAt(s, m, atStart) {
      NoNumberSpaceInItem(s, atStart, m);
    }
  }

  /** Past the item the output is the pass over the rest. */
  lemma NumberMatchTail(s: string, atStart: bool, rest: string, r: string)
    requires s != []
    requires var d := LeadingDigits(s);
      d > 0 && d + 1 < |s| && s[d] == '.'
    requires |rest| == |s| - LeadingDigits(s) - 2
    requires var e := LeadingDigits(s) + 2;
      forall m :: 0 <= m < |rest| ==> rest[m] == NumberOutputAt(s[e..], m, IsLineTerminator(s[e - 1]))
    requires r == s[..LeadingDigits(s)] + ". " + rest
    ensures forall m :: LeadingDigits(s) + 2 <= m < |s| ==> r[m] == NumberOutputAt(s, m, atStart)
  {
    var e := LeadingDigits(s) + 2;
    forall m | e <= m < |s| ensures r[m] == NumberOutputAt(s, m, atStart) {
      assert r[m] == rest[m - e];
      assert s[e..][m - e] == s[m];
      NumberSpaceShiftMatchIn(s, atStart, m);
      NumberSpaceShiftMatchOut(s, atStart, m);
    }
  }

  /** Inside `<digits>.` there is no item space: every item start before it would
      have to follow a digit. */
  lemma NoNumberSpaceInItem(s: string, atStart: bool, m: nat)
    requires s != []
    requires var d := LeadingDigits(s);
      d > 0 && d + 1 < |s| && s[d] == '.'
    requires m <= LeadingDigits(s)
    ensures !NumberSpaceAt(s, m, atStart)
  {
    assert s[0..] == s;
    forall k: nat | k < m ensures !(NumberedAt(s, k, atStart) && k + LeadingDigits(s[k..]) + 1 == m) {
      NoItemInsideItem(s, atStart, k);
    }
  }

  /** No item starts inside another item's `<digits>.`. */
  lemma NoItemInsideItem(s: string, atStart: bool, k: nat)
    requires s != []
    requires var d := LeadingDigits(s);
      d > 0 && d + 1 < |s| && s[d] == '.'
    ensures 0 < k <= LeadingDigits(s) + 1 ==> !NumberedAt(s, k, atStart)
  {
    var d := LeadingDigits(s);
    if 0 < k <= d {
      assert IsDigit(s[k - 1]);
      NotNumberedAfter(s, k, atStart);
    } else if k == d + 1 {
      NotNumberedAfter(s, k, atStart);
    }
  }

  lemma NumberSpaceAfterItem(s: string, atStart: bool)
    requires s != []
    requires var d := LeadingDigits(s);
      atStart && d > 0 && d + 1 < |s| && s[d] == '.' && IsJsSpace(s[d + 1])
    ensures NumberSpaceAt(s, LeadingDigits(s) + 1, atStart)
  {
    assert s[0..] == s;
    assert NumberedAt(s, 0, atStart) && 0 + LeadingDigits(s[0..]) + 1 == LeadingDigits(s) + 1;
  }

  /** After a matched item, a space of the suffix is a space of the input. */
  lemma NumberSpaceShiftMatchIn(s: string, atStart: bool, m: nat)
    requires s != []
    requires var d := LeadingDigits(s);
      d > 0 && d + 1 < |s| && s[d] == '.'
    requires LeadingDigits(s) + 2 <= m < |s|
    ensures var e := LeadingDigits(s) + 2;
      NumberSpaceAt(s[e..], m - e, IsLineTerminator(s[e - 1])) ==> NumberSpaceAt(s, m, atStart)
  {
    var e := LeadingDigits(s) + 2;
    if NumberSpaceAt(s[e..], m - e, IsLineTerminator(s[e - 1])) {
      var k: nat :| k < m - e <= |s[e..]| && NumberedAt(s[e..], k, IsLineTerminator(s[e - 1]))
        && k + LeadingDigits(s[e..][k..]) + 1 == m - e;
      SpaceFromSuffix(s, e, k, m, atStart);
    }
  }

  /** After a matched item, a space of the input is a space of the suffix. */
  lemma NumberSpaceShiftMatchOut(s: string, atStart: bool, m: nat)
    requires s != []
    requires var d := LeadingDigits(s);
      d > 0 && d + 1 < |s| && s[d] == '.'
    requires LeadingDigits(s) + 2 <= m < |s|
    ensures var e := LeadingDigits(s) + 2;
      NumberSpaceAt(s, m, atStart) ==> NumberSpaceAt(s[e..], m - e, IsLineTerminator(s[e - 1]))
  {
    var e := LeadingDigits(s) + 2;
    if NumberSpaceAt(s, m, atStart) {
      var k: nat :| k < m <= |s| && NumberedAt(s, k, atStart) && k + LeadingDigits(s[k..]) + 1 == m;
      assert s[0..] == s;
      NoItemInsideItem(s, atStart, k);
      SpaceToSuffix(s, e, k, m, atStart);
    }
  }

  /** A witness found in the suffix from `e` is a witness in the input. */
  lemma SpaceFromSuffix(s: string, e: nat, k: nat, m: nat, atStart: bool)
    requires 1 <= e <= m <= |s| && k < m - e
    requires NumberedAt(s[e..], k, IsLineTerminator(s[e - 1]))
    requires k + LeadingDigits(s[e..][k..]) + 1 == m - e
    ensures NumberSpaceAt(s, m, atStart)
  {
    NumberedAtShift(s, e, k, atStart);
    assert s[e..][k..] == s[k + e..];
    assert NumberedAt(s, k + e, atStart) && (k + e) + LeadingDigits(s[k + e..]) + 1 == m;
  }

  /** A witness at or after `e` in the input is a witness in the suffix from `e`. */
  lemma SpaceToSuffix(s: string, e: nat, k: nat, m: nat, atStart: bool)
    requires 1 <= e <= k < m <= |s|
    requires NumberedAt(s, k, atStart) && k + LeadingDigits(s[k..]) + 1 == m
    ensures NumberSpaceAt(s[e..], m - e, IsLineTerminator(s[e - 1]))
  {
    NumberedAtShift(s, e, k - e, atStart);
    assert s[e..][k - e..] == s[k..];
    assert NumberedAt(s[e..], k - e, IsLineTerminator(s[e - 1]))
      && (k - e) + LeadingDigits(s[e..][k - e..]) + 1 == m - e;
  }

  lemma NumberCopyStep(s: string, atStart: bool, rest: string)
    requires s != []
    requires var d := LeadingDigits(s);
      !(atStart && d > 0 && d + 1 < |s| && s[d] == '.' && IsJsSpace(s[d + 1]))
    requires |rest| == |s| - 1
    requires forall m :: 0 <= m < |rest| ==> rest[m] == NumberOutputAt(s[1..], m, IsLineTerminator(s[0]))
    ensures var r := [s[0]] + rest;
      forall m :: 0 <= m < |s| ==> r[m] == NumberOutputAt(s, m, atStart)
  {
    var r := [s[0]] + rest;
    assert s[0..] == s;
    assert !NumberedAt(s, 0, atStart);
    forall m | 1 <= m < |s| ensures r[m] == NumberOutputAt(s, m, atStart) {
      assert r[m] == rest[m - 1];
      assert s[1..][m - 1] == s[m];
      NumberSpaceShiftCopyIn(s, atStart, m);
      NumberSpaceShiftCopyOut(s, atStart, m);
    }
  }

  lemma NumberSpaceShiftCopyIn(s: string, atStart: bool, m: nat)
    requires 1 <= m < |s|
    ensures NumberSpaceAt(s[1..], m - 1, IsLineTerminator(s[0])) ==> NumberSpaceAt(s, m, atStart)
  {
    if NumberSpaceAt(s[1..], m - 1, IsLineTerminator(s[0])) {
      var k: nat :| k < m - 1 <= |s[1..]| && NumberedAt(s[1..], k, IsLineTerminator(s[0]))
        && k + LeadingDigits(s[1..][k..]) + 1 == m - 1;
      SpaceFromSuffix(s, 1, k, m, atStart);
    }
  }

  lemma NumberSpaceShiftCopyOut(s: string, atStart: bool, m: nat)
    requires 1 <= m < |s| && !NumberedAt(s, 0, atStart)
    ensures NumberSpaceAt(s, m, atStart) ==> NumberSpaceAt(s[1..], m - 1, IsLineTerminator(s[0]))
  {
    if NumberSpaceAt(s, m, atStart) {
      var k: nat :| k < m <= |s| && NumberedAt(s, k, atStart) && k + LeadingDigits(s[k..]) + 1 == m;
      SpaceToSuffix(s, 1, k, m, atStart);
    }
  }


  /** Without a line-initial bullet the pass changes nothing. */
  lemma BulletPassIdentity(s: string, atStart: bool)
    requires forall k :: 0 <= k < |s| ==> !BulletAt(s, k, atStart)
    ensures BulletPass(s, atStart) == s
  {
    BulletPassPointwise(s, atStart);
  }

  /** Without a line-initial numbered item the pass changes nothing. */
  lemma NumberPassIdentity(s: string, atStart: bool)
    requires forall k :: 0 <= k <= |s| ==> !NumberedAt(s, k, atStart)
    ensures NumberPass(s, atStart) == s
  {
    NumberPassPointwise(s, atStart);
    forall m | 0 <= m < |s| ensures !NumberSpaceAt(s, m, atStart) {
    }
  }

  // ---------------------------------------------------------------------------
  // Paragraph spacing: `/\n\n/g` -> '\n\n'

  /** The last rewrite replaces every blank-line break by the same two characters. */
  function Paragraphs(s: string): string
  {
    ReplaceAll(s, ParagraphBreak, ParagraphBreak)
  }

  /** The paragraph rewrite is the identity. */
  lemma ParagraphsIdentity(s: string)
    ensures Paragraphs(s) == s
  {
    ReplaceByItself(s, ParagraphBreak);
  }

  // ---------------------------------------------------------------------------
  // The whole conversion

  /** One line-anchored rewrite: lines starting with `prefix` get `style`. */
  datatype LineRule = LineRule(prefix: string, style: Style)

  predicate ValidRules(rules: seq<LineRule>) {
    forall k :: 0 <= k < |rules| ==> ValidPrefix(rules[k].prefix)
  }

  /** The line rules that run before the alert keywords, in source order:
      salutations, sign-offs, team signatures. */
  const LetterRules: seq<LineRule> := [
    LineRule("Vážený", Heading),
    LineRule("Dobrý deň", Heading),
    LineRule("Milý", Heading),
    LineRule("S úctou", SignOff),
    LineRule("S pozdravom", SignOff),
    LineRule("Srdečne", SignOff),
    LineRule("S vďakou", SignOff),
    LineRule("Váš tím", Strong),
    LineRule("Tím ", Strong)
  ]

  /** The thanks rule, which runs after the alert keywords. */
  const ThanksRule: LineRule := LineRule("Ďakujeme", Emphasis)

  lemma RulesAreValid()
    ensures ValidRules(LetterRules) && ValidPrefix(ThanksRule.prefix)
  {
    SalutationRulesValid();
    SignOffRulesValid();
    TeamRulesValid();
    assert NoLineTerminator("Ďakujeme");
  }

  lemma SalutationRulesValid()
    ensures forall k :: 0 <= k < 3 ==> ValidPrefix(LetterRules[k].prefix)
  {
    assert NoLineTerminator("Vážený");
    assert NoLineTerminator("Dobrý deň");
    assert NoLineTerminator("Milý");
  }

  lemma SignOffRulesValid()
    ensures forall k :: 3 <= k < 7 ==> ValidPrefix(LetterRules[k].prefix)
  {
    assert NoLineTerminator("S úctou");
    assert NoLineTerminator("S pozdravom");
    assert NoLineTerminator("Srdečne");
    assert NoLineTerminator("S vďakou");
  }

  lemma TeamRulesValid()
    ensures forall k :: 7 <= k < 9 ==> ValidPrefix(LetterRules[k].prefix)
  {
    assert NoLineTerminator("Váš tím");
    assert NoLineTerminator("Tím ");
  }

  /** The rules applied one after the other, each to the whole text. */
  function ApplyRules(s: string, rules: seq<LineRule>): string
    requires ValidRules(rules)
    decreases |rules|
  {
    if rules == [] then s
    else ApplyRules(AnchoredPass(s, rules[0].prefix, rules[0].style, true), rules[1..])
  }

  /** `convertToMarkdown(text)`: empty for an empty reply, otherwise the fourteen
      rewrites in source order. */
  function ConvertToMarkdown(text: string): string
  {
    if text == "" then ""
    else
      RulesAreValid();
      var letter := ApplyRules(text, LetterRules);
      var alerts := KeywordPass(letter, false);
      var thanks := AnchoredPass(alerts, ThanksRule.prefix, ThanksRule.style, true);
      Paragraphs(NumberPass(BulletPass(thanks, true), true))
  }

  /** No line of `s` starts with `prefix`. */
  predicate NoLineStartsWith(s: string, prefix: string) {
    var lines := SplitLines(s).lines;
    forall k :: 0 <= k < |lines| ==> !StartsWith(lines[k], prefix)
  }

  /** A line rule that finds no line leaves the text unchanged. */
  lemma AnchoredPassIdentity(s: string, prefix: string, style: Style)
    requires ValidPrefix(prefix) && NoLineStartsWith(s, prefix)
    ensures AnchoredPass(s, prefix, style, true) == s
  {
    var l := SplitLines(s);
    AnchoredPassIsLineMap(s, prefix, style);
    assert MapLines(l, prefix, style) == l;
    SplitThenJoinLines(s);
  }

  lemma {:induction false} ApplyRulesIdentity(s: string, rules: seq<LineRule>)
    requires ValidRules(rules)
    requires forall k :: 0 <= k < |rules| ==> NoLineStartsWith(s, rules[k].prefix)
    ensures ApplyRules(s, rules) == s
    decreases |rules|
  {
    if rules != [] {
      AnchoredPassIdentity(s, rules[0].prefix, rules[0].style);
      ApplyRulesIdentity(s, rules[1..]);
    }
  }

  /** Text that triggers none of the rewrites: no line starts with a rule's prefix,
      no alert keyword, no line-initial bullet or numbered item. */
  predicate PlainText(text: string) {
    && (forall k :: 0 <= k < |LetterRules| ==> NoLineStartsWith(text, LetterRules[k].prefix))
    && NoLineStartsWith(text, ThanksRule.prefix)
    && NoKeywordMatch(text, false)
    && (forall k :: 0 <= k < |text| ==> !BulletAt(text, k, true))
    && (forall k :: 0 <= k <= |text| ==> !NumberedAt(text, k, true))
  }

  /** Plain text is rendered as it came: the conversion is the identity on it. */
  lemma ConvertPlainText(text: string)
    requires PlainText(text)
    ensures ConvertToMarkdown(text) == text
  {
    if text != "" {
      RulesAreValid();
      ApplyRulesIdentity(text, LetterRules);
      KeywordPassIdentity(text, false);
      AnchoredPassIdentity(text, ThanksRule.prefix, ThanksRule.style);
      BulletPassIdentity(text, true);
      NumberPassIdentity(text, true);
      ParagraphsIdentity(text);
    }
  }

  /** A sign-off line `L` becomes four lines: an empty one, the rule `---`, another
      empty one, and `*L*`, so the sign-off starts a new paragraph after a
      horizontal rule. */
  lemma SignOffLines(line: string)
    requires NoLineTerminator(line)
    ensures SplitLines(Decorate(SignOff, line)) == Layout(["", "---", "", "*" + line + "*"], "\n\n\n")
  {
    var l := Layout(["", "---", "", "*" + line + "*"], "\n\n\n");
    assert l.WellFormed();
    var last := "*" + line + "*";
    var l3 := Layout([last], "");
    var l2 := Layout(["", last], "\n");
    var l1 := Layout(["---", "", last], "\n\n");
    assert l.lines[1..] == l1.lines && l.terms[1..] == l1.terms;
    assert l1.lines[1..] == l2.lines && l1.terms[1..] == l2.terms;
    assert l2.lines[1..] == l3.lines && l2.terms[1..] == l3.terms;
    assert JoinLines(l2) == "\n" + last;
    assert JoinLines(l1) == "---\n\n" + last;
    assert JoinLines(l) == Decorate(SignOff, line);
    JoinThenSplitLines(l);
  }

  /** A heading, strong or emphasis rule rewrites lines in place: the layout of the
      output is the layout of the input with each matching line decorated. */
  lemma InPlaceRuleKeepsLines(s: string, prefix: string, style: Style)
    requires ValidPrefix(prefix) && style != SignOff
    ensures SplitLines(AnchoredPass(s, prefix, style, true)) == MapLines(SplitLines(s), prefix, style)
  {
    var l := SplitLines(s);
    var m := MapLines(l, prefix, style);
    AnchoredPassIsLineMap(s, prefix, style);
    forall k | 0 <= k < |m.lines| ensures NoLineTerminator(m.lines[k]) {
      DecorateKeepsLine(style, l.lines[k]);
    }
    assert m.WellFormed();
    JoinThenSplitLines(m);
  }

  lemma DecorateKeepsLine(style: Style, line: string)
    requires style != SignOff && NoLineTerminator(line)
    ensures NoLineTerminator(Decorate(style, line))
  {
  }
}
