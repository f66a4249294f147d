/** A text as the lines between its line terminators, and the rewrite that a
    multiline regular expression of the shape `^(PREFIX.*?)$` performs: each line
    that begins with PREFIX is replaced by a decoration of the whole line. */
module Lines {
  import opened JsText

  /** Offset of the first line terminator, or the length when there is none: where
      `$` first matches and where `.*` must stop. */
  function LineEnd(s: string): (n: nat)
    ensures n <= |s|
    ensures n < |s| ==> IsLineTerminator(s[n])
    ensures NoLineTerminator(s[..n])
  {
    if s == [] || IsLineTerminator(s[0]) then 0
    else
      var n := 1 + LineEnd(s[1..]);
      assert s[..n] == [s[0]] + s[1..][..n - 1];
      n
  }

  /** The lines of a text and the terminator that ends each one but the last. */
  datatype Layout = Layout(lines: seq<string>, terms: seq<char>)
  {
    predicate Shaped() {
      |lines| == |terms| + 1
    }

    predicate WellFormed() {
      && Shaped()
      && (forall k :: 0 <= k < |lines| ==> NoLineTerminator(lines[k]))
      && (forall k :: 0 <= k < |terms| ==> IsLineTerminator(terms[k]))
    }
  }

  /** Cut a text at every line terminator (`\n`, `\r`, U+2028, U+2029). */
  function SplitLines(s: string): (l: Layout)
    ensures l.WellFormed()
    decreases |s|
  {
    var n := LineEnd(s);
    if n == |s| then Layout([s], [])
    else
      var rest := SplitLines(s[n + 1..]);
      Layout([s[..n]] + rest.lines, [s[n]] + rest.terms)
  }

  /** Glue lines back together, each with its terminator. */
  function JoinLines(l: Layout): string
    requires l.Shaped()
    decreases |l.terms|
  {
    if |l.terms| == 0 then l.lines[0]
    else l.lines[0] + [l.terms[0]] + JoinLines(Layout(l.lines[1..], l.terms[1..]))
  }

  /** Splitting then joining gives back the text. */
  lemma {:induction false} SplitThenJoinLines(s: string)
    ensures JoinLines(SplitLines(s)) == s
    decreases |s|
  {
    var n := LineEnd(s);
    if n < |s| {
      SplitThenJoinLines(s[n + 1..]);
      SplitThenJoinStep(s);
    }
  }

  lemma SplitThenJoinStep(s: string)
    requires LineEnd(s) < |s|
    requires JoinLines(SplitLines(s[LineEnd(s) + 1..])) == s[LineEnd(s) + 1..]
    ensures JoinLines(SplitLines(s)) == s
  {
    var n := LineEnd(s);
    SplitLinesCons(s);
    JoinLinesCons(s[..n], s[n], SplitLines(s[n + 1..]));
    SplitAround(s, n);
  }

  lemma SplitAround(s: string, n: nat)
    requires n < |s|
    ensures s == s[..n] + [s[n]] + s[n + 1..]
  {
  }

  /** Joining a layout with a first line in front puts that line and its
      terminator in front of the joined rest. */
  lemma JoinLinesCons(first: string, t: char, rest: Layout)
    requires rest.Shaped()
    ensures JoinLines(Layout([first] + rest.lines, [t] + rest.terms)) == first + [t] + JoinLines(rest)
  {
    var l := Layout([first] + rest.lines, [t] + rest.terms);
    assert Layout(l.lines[1..], l.terms[1..]) == rest;
  }

  /** A text without terminators is one whole line. */
  lemma LineEndOfClean(line: string)
    requires NoLineTerminator(line)
    ensures LineEnd(line) == |line|
  {
    if line != [] {
      LineEndOfClean(line[1..]);
    }
  }

  /** The first terminator of `line + [t] + rest` is `t` when `line` has none. */
  lemma LineEndOfJoin(line: string, t: char, rest: string)
    requires NoLineTerminator(line) && IsLineTerminator(t)
    ensures var s := line + [t] + rest;
      LineEnd(s) == |line| && s[..|line|] == line && s[|line| + 1..] == rest
  {
    var s := line + [t] + rest;
    if line != [] {
      LineEndOfJoin(line[1..], t, rest);
      assert s[1..] == line[1..] + [t] + rest;
    }
  }

  /** A line that starts with a terminator-free prefix is at least that long. */
  lemma LineEndPastPrefix(s: string, prefix: string)
    requires StartsWith(s, prefix) && NoLineTerminator(prefix)
    ensures LineEnd(s) >= |prefix|
  {
    if prefix != [] {
      assert s[0] == prefix[0];
      LineEndPastPrefix(s[1..], prefix[1..]);
      assert s[1..][..|prefix| - 1] == prefix[1..];
    }
  }

  /** Joining then splitting gives back a well-formed layout: the two are inverse. */
  lemma {:induction false} JoinThenSplitLines(l: Layout)
    requires l.WellFormed()
    ensures SplitLines(JoinLines(l)) == l
    decreases |l.terms|
  {
    if |l.terms| == 0 {
      LineEndOfClean(l.lines[0]);
    } else {
      var tail := Layout(l.lines[1..], l.terms[1..]);
      JoinThenSplitLines(tail);
      JoinThenSplitStep(l.lines[0], l.terms[0], tail);
      LayoutCons(l);
    }
  }

  lemma LayoutCons(l: Layout)
    requires |l.lines| > 0 && |l.terms| > 0
    ensures l == Layout([l.lines[0]] + l.lines[1..], [l.terms[0]] + l.terms[1..])
  {
  }

  lemma JoinThenSplitStep(first: string, t: char, tail: Layout)
    requires tail.Shaped() && NoLineTerminator(first) && IsLineTerminator(t)
    requires SplitLines(JoinLines(tail)) == tail
    ensures SplitLines(JoinLines(Layout([first] + tail.lines, [t] + tail.terms)))
         == Layout([first] + tail.lines, [t] + tail.terms)
  {
    JoinLinesCons(first, t, tail);
    var s := first + [t] + JoinLines(tail);
    LineEndOfJoin(first, t, JoinLines(tail));
    SplitLinesCons(s);
  }

  /** How a matched line is rewritten by the replacement text of a pass. */
  datatype Style =
    | Heading   // '### $1'
    | SignOff   // '\n---\n\n*$1*'
    | Strong    // '**$1**'
    | Emphasis  // '*$1*'

  function Decorate(style: Style, line: string): string
  {
    match style
    case Heading => "### " + line
    case SignOff => "\n---\n\n*" + line + "*"
    case Strong => "**" + line + "**"
    case Emphasis => "*" + line + "*"
  }

  /** What the pass does to one line. */
  function RewriteLine(line: string, prefix: string, style: Style): string
  {
    if StartsWith(line, prefix) then Decorate(style, line) else line
  }

  function MapLines(l: Layout, prefix: string, style: Style): (m: Layout)
    ensures |m.lines| == |l.lines| && m.terms == l.terms
    ensures forall k :: 0 <= k < |l.lines| ==> m.lines[k] == RewriteLine(l.lines[k], prefix, style)
  {
    Layout(seq(|l.lines|, k requires 0 <= k < |l.lines| => RewriteLine(l.lines[k], prefix, style)), l.terms)
  }

  /** A prefix a pass can look for: non-empty and within one line. */
  predicate ValidPrefix(prefix: string) {
    |prefix| > 0 && NoLineTerminator(prefix)
  }

  /** `s.replace(/^(PREFIX.*?)$/gm, REPLACEMENT)` as the regular-expression engine
      runs it: scan from the left; at a line start (`atStart` says whether offset 0
      is one) where the prefix follows, the lazy `.*?` must still reach `$`, so the
      match is the whole line and is decorated; the scan resumes at the terminator,
      which is not a line start. Elsewhere one character is copied. */
  function AnchoredPass(s: string, prefix: string, style: Style, atStart: bool): string
    requires ValidPrefix(prefix)
    decreases |s|
  {
    if s == [] then []
    else if atStart && StartsWith(s, prefix) then
      var n := LineEnd(s);
      LineEndPastPrefix(s, prefix);
      Decorate(style, s[..n]) + AnchoredPass(s[n..], prefix, style, false)
    else [s[0]] + AnchoredPass(s[1..], prefix, style, IsLineTerminator(s[0]))
  }

  /** Away from a line start the pass copies the rest of the line unchanged. */
  lemma {:induction false} AnchoredPassCopiesLine(s: string, prefix: string, style: Style)
    requires ValidPrefix(prefix)
    ensures var n := LineEnd(s);
      AnchoredPass(s, prefix, style, false)
      == s[..n] + AnchoredPass(s[n..], prefix, style, false)
    decreases |s|
  {
    var n := LineEnd(s);
    if n > 0 {
      LineEndOfTail(s);
      AnchoredPassCopyStep(s, prefix, style, false);
      AnchoredPassCopiesLine(s[1..], prefix, style);
      assert s[1..][n - 1..] == s[n..];
      LineSliceGlue(s, n, AnchoredPass(s, prefix, style, false), AnchoredPass(s[1..], prefix, style, false),
        AnchoredPass(s[n..], prefix, style, false));
    } else {
      assert s[..n] == [] && s[n..] == s;
    }
  }

  /** What follows the first line: its terminator and the pass over the next lines. */
  function AfterLine(s: string, prefix: string, style: Style): string
    requires ValidPrefix(prefix)
  {
    var n := LineEnd(s);
    if n == |s| then [] else [s[n]] + AnchoredPass(s[n + 1..], prefix, style, true)
  }

  /** From a terminator (or the end) the pass emits it and restarts at a line start. */
  lemma AnchoredPassAtTerminator(s: string, prefix: string, style: Style)
    requires ValidPrefix(prefix)
    ensures AnchoredPass(s[LineEnd(s)..], prefix, style, false) == AfterLine(s, prefix, style)
  {
    var n := LineEnd(s);
    if n < |s| {
      assert s[n..][0] == s[n];
      assert s[n..][1..] == s[n + 1..];
    }
  }

  /** One line step of the pass from a line start. */
  lemma AnchoredPassLine(s: string, prefix: string, style: Style)
    requires ValidPrefix(prefix)
    ensures AnchoredPass(s, prefix, style, true)
         == RewriteLine(s[..LineEnd(s)], prefix, style) + AfterLine(s, prefix, style)
  {
    if s == [] {
    } else if StartsWith(s, prefix) {
      AnchoredPassLineMatch(s, prefix, style);
    } else {
      AnchoredPassLineOther(s, prefix, style);
    }
  }

  lemma AnchoredPassLineMatch(s: string, prefix: string, style: Style)
    requires ValidPrefix(prefix) && StartsWith(s, prefix)
    ensures AnchoredPass(s, prefix, style, true)
         == Decorate(style, s[..LineEnd(s)]) + AfterLine(s, prefix, style)
    ensures StartsWith(s[..LineEnd(s)], prefix)
  {
    var n := LineEnd(s);
    LineEndPastPrefix(s, prefix);
    assert s[..n][..|prefix|] == s[..|prefix|];
    AnchoredPassAtTerminator(s, prefix, style);
  }

  /** Where no match starts, the pass copies one character. */
  lemma AnchoredPassCopyStep(s: string, prefix: string, style: Style, atStart: bool)
    requires ValidPrefix(prefix) && s != [] && !(atStart && StartsWith(s, prefix))
    ensures AnchoredPass(s, prefix, style, atStart)
         == [s[0]] + AnchoredPass(s[1..], prefix, style, IsLineTerminator(s[0]))
  {
  }

  lemma AnchoredPassLineOther(s: string, prefix: string, style: Style)
    requires ValidPrefix(prefix) && s != [] && !StartsWith(s, prefix)
    ensures AnchoredPass(s, prefix, style, true)
         == s[..LineEnd(s)] + AfterLine(s, prefix, style)
    ensures !StartsWith(s[..LineEnd(s)], prefix)
  {
    var n := LineEnd(s);
    assert |prefix| <= n ==> s[..n][..|prefix|] == s[..|prefix|];
    AnchoredPassCopyStep(s, prefix, style, true);
    if n == 0 {
      AnchoredPassLineOtherEmpty(s, prefix, style);
    } else {
      AnchoredPassLineOtherLong(s, prefix, style);
    }
  }

  lemma AnchoredPassLineOtherEmpty(s: string, prefix: string, style: Style)
    requires ValidPrefix(prefix) && s != [] && LineEnd(s) == 0
    requires AnchoredPass(s, prefix, style, true)
          == [s[0]] + AnchoredPass(s[1..], prefix, style, IsLineTerminator(s[0]))
    ensures AnchoredPass(s, prefix, style, true) == AfterLine(s, prefix, style)
  {
    assert s[1..] == s[0 + 1..];
  }

  lemma AnchoredPassLineOtherLong(s: string, prefix: string, style: Style)
    requires ValidPrefix(prefix) && s != [] && LineEnd(s) > 0
    requires AnchoredPass(s, prefix, style, true)
          == [s[0]] + AnchoredPass(s[1..], prefix, style, IsLineTerminator(s[0]))
    ensures AnchoredPass(s, prefix, style, true)
         == s[..LineEnd(s)] + AfterLine(s, prefix, style)
  {
    var n := LineEnd(s);
    LineEndOfTail(s);
    AnchoredPassRestOfLine(s, prefix, style);
    var whole := AnchoredPass(s, prefix, style, true);
    var rest := AnchoredPass(s[1..], prefix, style, false);
    var after := AfterLine(s, prefix, style);
    LineSliceGlue(s, n, whole, rest, after);
  }

  /** The first character followed by the rest of an `n`-character slice is that slice. */
  lemma LineSliceGlue(s: string, n: nat, whole: string, rest: string, after: string)
    requires 0 < n <= |s|
    requires whole == [s[0]] + rest && rest == s[1..][..n - 1] + after
    ensures whole == s[..n] + after
  {
    assert s[..n] == [s[0]] + s[1..][..n - 1];
  }

  lemma LineEndOfTail(s: string)
    requires s != [] && LineEnd(s) > 0
    ensures !IsLineTerminator(s[0]) && LineEnd(s[1..]) == LineEnd(s) - 1
  {
  }

  lemma AnchoredPassRestOfLine(s: string, prefix: string, style: Style)
    requires ValidPrefix(prefix) && s != [] && LineEnd(s) > 0
    requires LineEnd(s[1..]) == LineEnd(s) - 1
    ensures AnchoredPass(s[1..], prefix, style, false)
         == s[1..][..LineEnd(s) - 1] + AfterLine(s, prefix, style)
  {
    var n := LineEnd(s);
    var t := s[1..];
    AnchoredPassCopiesLine(t, prefix, style);
    assert t[n - 1..] == s[n..];
    AnchoredPassAtTerminator(s, prefix, style);
  }

  /** The rewritten layout of a text with a terminator is the rewritten first line,
      its terminator, and the rewritten layout of the rest. */
  lemma MapSplitCons(s: string, prefix: string, style: Style)
    requires LineEnd(s) < |s|
    ensures var n := LineEnd(s);
      var m := MapLines(SplitLines(s), prefix, style);
      var mrest := MapLines(SplitLines(s[n + 1..]), prefix, style);
      && m.Shaped() && |m.terms| > 0
      && m.lines[0] == RewriteLine(s[..n], prefix, style)
      && m.terms[0] == s[n]
      && Layout(m.lines[1..], m.terms[1..]) == mrest
  {
    var n := LineEnd(s);
    SplitLinesCons(s);
    MapCons(s[..n], s[n], SplitLines(s[n + 1..]), prefix, style);
  }

  lemma SplitLinesCons(s: string)
    requires LineEnd(s) < |s|
    ensures var n := LineEnd(s); var rest := SplitLines(s[n + 1..]);
      SplitLines(s) == Layout([s[..n]] + rest.lines, [s[n]] + rest.terms)
  {
  }

  /** Rewriting the lines of a layout with a first line in front rewrites that line
      and the rest independently. */
  lemma MapCons(first: string, t: char, rest: Layout, prefix: string, style: Style)
    requires rest.Shaped()
    ensures var m := MapLines(Layout([first] + rest.lines, [t] + rest.terms), prefix, style);
      && m.Shaped() && |m.terms| > 0
      && m.lines[0] == RewriteLine(first, prefix, style)
      && m.terms[0] == t
      && Layout(m.lines[1..], m.terms[1..]) == MapLines(rest, prefix, style)
  {
    var l := Layout([first] + rest.lines, [t] + rest.terms);
    var m := MapLines(l, prefix, style);
    var mrest := MapLines(rest, prefix, style);
    assert l.lines[0] == first;
    forall k | 0 <= k < |mrest.lines| ensures m.lines[1..][k] == mrest.lines[k] {
      assert l.lines[k + 1] == rest.lines[k];
    }
    assert m.lines[1..] == mrest.lines;
    assert m.terms[1..] == rest.terms;
  }

  /** The regular-expression pass is exactly "split into lines, rewrite every line
      that begins with the prefix, join again". */
  lemma {:induction false} AnchoredPassIsLineMap(s: string, prefix: string, style: Style)
    requires ValidPrefix(prefix)
    ensures AnchoredPass(s, prefix, style, true)
         == JoinLines(MapLines(SplitLines(s), prefix, style))
    decreases |s|
  {
    AnchoredPassLine(s, prefix, style);
    var n := LineEnd(s);
    var whole := AnchoredPass(s, prefix, style, true);
    var m := MapLines(SplitLines(s), prefix, style);
    if n == |s| {
      assert s[..n] == s;
      assert m.lines == [RewriteLine(s, prefix, style)] && m.terms == [];
    } else {
      var mrest := MapLines(SplitLines(s[n + 1..]), prefix, style);
      var next := AnchoredPass(s[n + 1..], prefix, style, true);
      AnchoredPassIsLineMap(s[n + 1..], prefix, style);
      MapSplitCons(s, prefix, style);
      assert AfterLine(s, prefix, style) == [s[n]] + next;
      assert JoinLines(m) == m.lines[0] + [m.terms[0]] + JoinLines(mrest);
      GlueLine(whole, RewriteLine(s[..n], prefix, style), s[n], next, JoinLines(m), JoinLines(mrest));
    }
  }

  lemma GlueLine(whole: string, first: string, t: char, next: string, joined: string, joinedRest: string)
    requires whole == first + ([t] + next) && next == joinedRest
    requires joined == first + [t] + joinedRest
    ensures whole == joined
  {
  }
}
