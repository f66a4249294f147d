/** The superseded variant in `src/App_origos.js`: its `convertToMarkdown`, two
    single rewrites (the `m` flag without `g` replaces the first match only), and
    `formatResponse`, which cuts a reply into paragraphs and tags each one. */
module Legacy {
  import opened JsText
  import opened Splitting
  import opened Lines

  // ---------------------------------------------------------------------------
  // Greeting: `text.replace(/^(Vážený zákazník,)$/m, '**$1**')`

  const Greeting: string := "Vážený zákazník,"

  /** `^(pat)$` with the `m` flag matches at offset 0 of `s`: `atStart` says
      whether offset 0 is a line start, and a line end must follow `pat`. */
  predicate LineHere(s: string, pat: string, atStart: bool) {
    atStart && StartsWith(s, pat) && (|s| == |pat| || IsLineTerminator(s[|pat|]))
  }

  /** The offset of the line `Vážený zákazník,`, the first one found. */
  function FirstGreeting(s: string): (r: Option<nat>)
    ensures r.Some? ==> OccursAt(s, r.value, Greeting)
  {
    FirstLineMatch(s, Greeting, true)
  }

  /** `$1` in bold. */
  const BoldedGreeting: string := "**" + Greeting + "**"

  /** An offset found in a suffix, moved back to the whole text. */
  function Shift(o: Option<nat>, n: nat): (r: Option<nat>)
    ensures r.Some? <==> o.Some?
    ensures r.Some? ==> r.value == o.value + n
  {
    if o.None? then None else Some(o.value + n)
  }

  /** The offset of the first match of `^(pat)$`, trying offsets from the left. */
  function FirstLineMatch(s: string, pat: string, atStart: bool): (r: Option<nat>)
    ensures r.Some? ==> OccursAt(s, r.value, pat)
    decreases |s|
  {
    if LineHere(s, pat, atStart) then Some(0)
    else if s == [] then None
    else
      var r := FirstLineMatch(s[1..], pat, IsLineTerminator(s[0]));
      OccursInTail(s, pat, r);
      Shift(r, 1)
  }

  lemma OccursInTail(s: string, pat: string, r: Option<nat>)
    requires s != [] && (r.Some? ==> OccursAt(s[1..], r.value, pat))
    ensures Shift(r, 1).Some? ==> OccursAt(s, r.value + 1, pat)
  {
    if r.Some? {
      assert s[r.value + 1..r.value + 1 + |pat|] == s[1..][r.value..r.value + |pat|];
    }
  }

  /** The greeting in bold at the first match; the text is unchanged without one. */
  function BoldGreeting(s: string): string
  {
    SpliceAt(s, FirstGreeting(s), |Greeting|, BoldedGreeting)
  }

  /** `n` characters at the offset found replaced by `rep`; the text is unchanged
      when nothing was found. */
  function SpliceAt(s: string, o: Option<nat>, n: nat, rep: string): string
    requires o.Some? ==> o.value + n <= |s|
  {
    if o.None? then s else s[..o.value] + rep + s[o.value + n..]
  }

  /** The same rewrite stated on lines: the first line equal to the greeting is
      put in bold, every other line is kept. */
  function BoldFirstLine(lines: seq<string>): (r: seq<string>)
    ensures |r| == |lines|
  {
    if lines == [] then []
    else if lines[0] == Greeting then [BoldedGreeting] + lines[1..]
    else [lines[0]] + BoldFirstLine(lines[1..])
  }

  lemma GreetingIsOneLine()
    ensures NoLineTerminator(Greeting) && |Greeting| > 0
  {
  }

  /** Past an offset that is not a match, the scan goes on one character later. */
  lemma FirstLineMatchStep(s: string, pat: string, atStart: bool)
    requires s != [] && !LineHere(s, pat, atStart)
    ensures FirstLineMatch(s, pat, atStart) == Shift(FirstLineMatch(s[1..], pat, IsLineTerminator(s[0])), 1)
  {
  }

  /** Inside a line, away from its start, there is no match: the scan goes on to
      the next line. */
  lemma {:induction false} SkipLine(u: string, t: char, rest: string, pat: string)
    requires NoLineTerminator(u) && IsLineTerminator(t)
    ensures FirstLineMatch(u + [t] + rest, pat, false) == Shift(FirstLineMatch(rest, pat, true), |u| + 1)
    decreases |u|
  {
    var x := u + [t] + rest;
    FirstLineMatchStep(x, pat, false);
    HeadOfLine(u, t, rest);
    if u != [] {
      SkipLine(u[1..], t, rest, pat);
    }
  }

  lemma HeadOfLine(u: string, t: char, rest: string)
    ensures var x := u + [t] + rest;
      && (u == [] ==> x[0] == t && x[1..] == rest)
      && (u != [] ==> x[0] == u[0] && x[1..] == u[1..] + [t] + rest)
  {
    var x := u + [t] + rest;
    if u != [] {
      assert x[1..] == u[1..] + [t] + rest;
    }
  }

  /** The last line, away from its start, holds no match. */
  lemma {:induction false} NoMatchInLastLine(u: string, pat: string)
    requires NoLineTerminator(u)
    ensures FirstLineMatch(u, pat, false) == None
    decreases |u|
  {
    if u != [] {
      NoMatchInLastLine(u[1..], pat);
    }
  }

  /** A match at the start of a line means the line is exactly the greeting. */
  lemma LineHereIsLine(line: string, tail: string, pat: string)
    requires NoLineTerminator(line) && NoLineTerminator(pat)
    requires tail == [] || IsLineTerminator(tail[0])
    ensures LineHere(line + tail, pat, true) <==> line == pat
  {
    var s := line + tail;
    assert forall i :: 0 <= i < |line| ==> s[i] == line[i];
    assert |s| > |line| ==> s[|line|] == tail[0];
    assert s[..|line|] == line;
    assert |line| < |pat| ==> !IsLineTerminator(pat[|line|]);
    assert |line| > |pat| ==> !IsLineTerminator(s[|pat|]);
  }

  /** The scan at the start of a line that is not the greeting moves on to the next
      line. */
  lemma FirstAfterLine(line: string, t: char, rest: string, pat: string)
    requires NoLineTerminator(line) && IsLineTerminator(t)
    requires !LineHere(line + [t] + rest, pat, true)
    ensures FirstLineMatch(line + [t] + rest, pat, true) == Shift(FirstLineMatch(rest, pat, true), |line| + 1)
  {
    var s := line + [t] + rest;
    FirstLineMatchStep(s, pat, true);
    HeadOfLine(line, t, rest);
    if line != [] {
      SkipLine(line[1..], t, rest, pat);
    }
  }

  /** The first match is at the first line equal to the greeting. */
  lemma FirstMatchOfLines(line: string, t: char, rest: string, pat: string)
    requires NoLineTerminator(line) && NoLineTerminator(pat) && IsLineTerminator(t)
    ensures FirstLineMatch(line + [t] + rest, pat, true) ==
      if line == pat then Some(0) else Shift(FirstLineMatch(rest, pat, true), |line| + 1)
  {
    assert line + [t] + rest == line + ([t] + rest);
    LineHereIsLine(line, [t] + rest, pat);
    if line != pat {
      FirstAfterLine(line, t, rest, pat);
    }
  }

  lemma FirstMatchOfLastLine(line: string, pat: string)
    requires NoLineTerminator(line) && NoLineTerminator(pat)
    ensures FirstLineMatch(line, pat, true) == if line == pat then Some(0) else None
  {
    LineHereIsLine(line, [], pat);
    assert line + [] == line;
    if line != pat && line != [] {
      NoMatchInLastLine(line[1..], pat);
    }
  }

  /** Bolding the greeting on the text is bolding the first line that equals it:
      later equal lines, and lines with anything more, are kept. */
  lemma {:induction false} BoldGreetingIsFirstLine(l: Layout)
    requires l.WellFormed()
    ensures BoldGreeting(JoinLines(l)) == JoinLines(Layout(BoldFirstLine(l.lines), l.terms))
    decreases |l.terms|
  {
    var line := l.lines[0];
    if |l.terms| == 0 {
      GreetingIsOneLine();
      FirstMatchOfLastLine(line, Greeting);
      assert BoldFirstLine(l.lines) == if line == Greeting then [BoldedGreeting] else [line];
    } else {
      var t := l.terms[0];
      var restL := Layout(l.lines[1..], l.terms[1..]);
      LayoutCons(l);
      JoinLinesCons(line, t, restL);
      BoldFirstLineHead(l.lines);
      if line == Greeting {
        BoldGreetingFirst(t, JoinLines(restL));
        JoinLinesCons(BoldedGreeting, t, restL);
      } else {
        BoldGreetingIsFirstLine(restL);
        BoldGreetingShift(line, t, JoinLines(restL));
        JoinLinesCons(line, t, Layout(BoldFirstLine(restL.lines), restL.terms));
      }
    }
  }

  /** Replacing `n` characters at offset `k` of `rest` is replacing them at offset
      `|pre| + k` of `pre + rest`. */
  lemma SpliceShift(pre: string, rest: string, k: nat, n: nat, rep: string)
    requires k + n <= |rest|
    ensures var s := pre + rest;
      s[..|pre| + k] + rep + s[|pre| + k + n..] == pre + (rest[..k] + rep + rest[k + n..])
  {
    var s := pre + rest;
    assert s[..|pre| + k] == pre + rest[..k];
    assert s[|pre| + k + n..] == rest[k + n..];
  }

  /** When the first line is not the greeting, the rewrite happens in the rest. */
  lemma BoldGreetingShift(line: string, t: char, rest: string)
    requires NoLineTerminator(line) && IsLineTerminator(t) && line != Greeting
    ensures BoldGreeting(line + [t] + rest) == line + [t] + BoldGreeting(rest)
  {
    GreetingIsOneLine();
    FirstMatchOfLines(line, t, rest, Greeting);
    SpliceAtShift(line + [t], rest, FirstGreeting(rest), |Greeting|, BoldedGreeting);
  }

  lemma SpliceAtShift(pre: string, rest: string, o: Option<nat>, n: nat, rep: string)
    requires o.Some? ==> o.value + n <= |rest|
    ensures SpliceAt(pre + rest, Shift(o, |pre|), n, rep) == pre + SpliceAt(rest, o, n, rep)
  {
    if o.Some? {
      SpliceShift(pre, rest, o.value, n, rep);
    }
  }

  /** A text whose first line is the greeting has that line bolded. */
  lemma BoldGreetingFirst(t: char, rest: string)
    requires IsLineTerminator(t)
    ensures BoldGreeting(Greeting + [t] + rest) == BoldedGreeting + [t] + rest
  {
    var s := Greeting + [t] + rest;
    GreetingIsOneLine();
    FirstMatchOfLines(Greeting, t, rest, Greeting);
    BoldGreetingAt(s);
    assert s[|Greeting|..] == [t] + rest;
  }

  lemma BoldFirstLineHead(lines: seq<string>)
    requires lines != []
    ensures BoldFirstLine(lines) ==
      if lines[0] == Greeting then [BoldedGreeting] + lines[1..] else [lines[0]] + BoldFirstLine(lines[1..])
  {
  }

  /** `BoldGreeting` spelled out at the first match. */
  lemma BoldGreetingAt(s: string)
    ensures FirstGreeting(s).None? ==> BoldGreeting(s) == s
    ensures FirstGreeting(s).Some? ==>
      var k := FirstGreeting(s).value;
      k + |Greeting| <= |s| && BoldGreeting(s) == s[..k] + BoldedGreeting + s[k + |Greeting|..]
  {
  }

  // ---------------------------------------------------------------------------
  // Signature: `text.replace(/(S úctou a vďačnosťou,)\n\n(Váš tím)$/m, '*$1*\n\n*$2*')`

  const Closing: string := "S úctou a vďačnosťou,"
  const Team: string := "Váš tím"
  const Signature: string := Closing + "\n\n" + Team

  /** The pattern matches at offset 0: the two phrases with a blank line between
      them, `Váš tím` ending a line. The closing phrase need not start a line. */
  predicate SignatureHere(s: string) {
    StartsWith(s, Signature) && (|s| == |Signature| || IsLineTerminator(s[|Signature|]))
  }

  /** The offset of the leftmost match. */
  function FirstSignature(s: string): (r: Option<nat>)
    ensures r.Some? ==> r.value + |Signature| <= |s| && SignatureHere(s[r.value..])
    ensures r.Some? ==> forall j :: 0 <= j < r.value ==> !SignatureHere(s[j..])
    ensures r.None? ==> forall j :: 0 <= j <= |s| ==> !SignatureHere(s[j..])
    decreases |s|
  {
    if SignatureHere(s) then
      assert s[0..] == s;
      Some(0)
    else if s == [] then None
    else match FirstSignature(s[1..])
      case None => TailSignatures(s); None
      case Some(k) => TailSignatures(s); Some(k + 1)
  }

  lemma TailSignatures(s: string)
    requires s != []
    ensures forall j :: 1 <= j <= |s| ==> s[j..] == s[1..][j - 1..]
    ensures s[0..] == s
  {
  }

  /** `*$1*\n\n*$2*`: both phrases in italics. */
  const ItalicText: string := "*" + Closing + "*\n\n*" + Team + "*"

  /** Both phrases in italics at the first match; the text is unchanged without one. */
  function ItalicSignature(s: string): string
  {
    match FirstSignature(s)
    case None => s
    case Some(k) => s[..k] + ItalicText + s[k + |Signature|..]
  }

  /** Removing the four inserted asterisks at offset `k` gives back the plain
      signature. */
  function Unitalicise(r: string, k: nat): string
    requires k + |Closing| + |Team| + 6 <= |r|
  {
    Unmark(r, k, |Closing|, |Team|)
  }

  /** The text without the asterisks at `k`, `k + a + 1`, `k + a + 4` and
      `k + a + b + 5` of a marked-up `*A*\n\n*B*` with `|A| == a`, `|B| == b`. */
  function Unmark(r: string, k: nat, a: nat, b: nat): string
    requires k + a + b + 6 <= |r|
  {
    r[..k] + r[k + 1..k + 1 + a] + "\n\n" + r[k + a + 5..k + a + 5 + b] + r[k + a + b + 6..]
  }

  lemma UnmarkPieces(s: string, k: nat, c: string, t: string, w: string, m: string)
    requires w == c + "\n\n" + t && m == "*" + c + "*\n\n*" + t + "*"
    requires OccursAt(s, k, w)
    ensures var r := s[..k] + m + s[k + |w|..];
      k + |c| + |t| + 6 <= |r| && r[k..k + |m|] == m && Unmark(r, k, |c|, |t|) == s
  {
    UnmarkSplice(s[..k], c, t, s[k + |w|..]);
    SpliceBack(s, k, w);
  }

  /** Text is the part before an occurrence, the occurrence, and the part after. */
  lemma SpliceBack(s: string, k: nat, w: string)
    requires OccursAt(s, k, w)
    ensures s == s[..k] + w + s[k + |w|..]
  {
    assert s == s[..k] + s[k..k + |w|] + s[k + |w|..];
  }

  /** Removing the four markers of a marked-up closing and team line, wherever they
      sit, gives back the unmarked text. */
  lemma UnmarkSplice(pre: string, c: string, t: string, post: string)
    ensures var m := "*" + c + "*\n\n*" + t + "*";
      var r := pre + m + post;
      var k := |pre|;
      && k + |c| + |t| + 6 <= |r| && r[k..k + |m|] == m
      && Unmark(r, k, |c|, |t|) == pre + (c + "\n\n" + t) + post
  {
    var m := "*" + c + "*\n\n*" + t + "*";
    var r := pre + m + post;
    var k := |pre|;
    MarkedPieces(c, t, m);
    MiddleSlice(pre, m, post, 0, |m|);
    MiddleSlice(pre, m, post, 1, 1 + |c|);
    MiddleSlice(pre, m, post, |c| + 5, |c| + 5 + |t|);
    assert r[..k] == pre;
    assert r[k + |m|..] == post;
  }

  /** A slice of the middle part of a concatenation. */
  lemma MiddleSlice(pre: string, m: string, post: string, i: nat, j: nat)
    requires i <= j <= |m|
    ensures (pre + m + post)[|pre| + i..|pre| + j] == m[i..j]
  {
  }

  lemma MarkedPieces(c: string, t: string, m: string)
    requires m == "*" + c + "*\n\n*" + t + "*"
    ensures |m| == |c| + |t| + 6
    ensures m[1..1 + |c|] == c && m[|c| + 5..|c| + 5 + |t|] == t
  {
    assert m == "*" + c + "*\n\n*" + (t + "*");
    assert m[|c| + 5..] == t + "*";
  }

  /** The signature rewrite can be undone: the italic markers sit at the first match
      and removing them restores the input. */
  lemma ItalicSignatureRoundTrip(s: string)
    requires FirstSignature(s).Some?
    ensures var k := FirstSignature(s).value;
      var r := ItalicSignature(s);
      k + |ItalicText| <= |r| && r[k..k + |ItalicText|] == ItalicText && Unitalicise(r, k) == s
  {
    var k := FirstSignature(s).value;
    ItalicSignatureAt(s);
    UnmarkPieces(s, k, Closing, Team, Signature, ItalicText);
  }

  lemma ItalicSignatureAt(s: string)
    requires FirstSignature(s).Some?
    ensures var k := FirstSignature(s).value;
      OccursAt(s, k, Signature) && ItalicSignature(s) == s[..k] + ItalicText + s[k + |Signature|..]
  {
    var k := FirstSignature(s).value;
    assert s[k..][..|Signature|] == s[k..k + |Signature|];
  }

  /** The closing phrase need not start a line: after any text without an `S` the
      signature is still rewritten. */
  lemma SignatureAfterText(pre: string)
    requires forall j :: 0 <= j < |pre| ==> pre[j] != 'S'
    ensures ItalicSignature(pre + Signature) == pre + ItalicText
  {
    var s := pre + Signature;
    assert s[|pre|..] == Signature;
    assert Signature[0] == 'S';
    forall j | 0 <= j < |pre| ensures !SignatureHere(s[j..]) {
      assert s[j..][0] == pre[j];
    }
    assert FirstSignature(s) == Some(|pre|);
    assert s[..|pre|] == pre;
    assert s[|pre| + |Signature|..] == [];
  }

  /** `convertToMarkdown` of the variant: the greeting rewrite, then the signature
      rewrite. */
  function LegacyConvert(text: string): string
  {
    ItalicSignature(BoldGreeting(text))
  }

  /** Text in which no line is exactly the greeting and no offset starts the
      signature at the end of a line comes back unchanged. */
  lemma LegacyConvertIdentity(text: string)
    requires forall k :: 0 <= k < |SplitLines(text).lines| ==> SplitLines(text).lines[k] != Greeting
    requires forall j :: 0 <= j <= |text| ==> !SignatureHere(text[j..])
    ensures LegacyConvert(text) == text
  {
    var l := SplitLines(text);
    SplitThenJoinLines(text);
    BoldGreetingIsFirstLine(l);
    BoldFirstLineWithoutGreeting(l.lines);
  }

  /** Without a line equal to the greeting, no line is bolded. */
  lemma {:induction false} BoldFirstLineWithoutGreeting(lines: seq<string>)
    requires forall k :: 0 <= k < |lines| ==> lines[k] != Greeting
    ensures BoldFirstLine(lines) == lines
  {
    if lines != [] {
      BoldFirstLineWithoutGreeting(lines[1..]);
    }
  }

  // ---------------------------------------------------------------------------
  // formatResponse

  /** One child of a normal paragraph: a line of text, or a `<br />`. */
  datatype Piece = LineText(t: string) | Break

  /** One rendered paragraph: a greeting or signature shown whole, or a normal
      paragraph shown line by line. */
  datatype Block = Salutation(text: string) | Body(pieces: seq<Piece>)

  /** The prefixes that make a paragraph a greeting or signature. */
  predicate IsSalutation(p: string) {
    StartsWith(p, "Vážený") || StartsWith(p, "S úctou") || StartsWith(p, "Váš tím")
  }

  /** The lines of a normal paragraph, each but the last followed by a break. */
  function Interleave(lines: seq<string>): (pieces: seq<Piece>)
    requires |lines| >= 1
    ensures |pieces| == 2 * |lines| - 1
    ensures forall k :: 0 <= k < |lines| ==> pieces[2 * k] == LineText(lines[k])
    ensures forall k :: 0 <= k < |lines| - 1 ==> pieces[2 * k + 1] == Break
    decreases |lines|
  {
    if |lines| == 1 then [LineText(lines[0])]
    else
      var rest := Interleave(lines[1..]);
      InterleaveStep(lines, rest);
      [LineText(lines[0]), Break] + rest
  }

  lemma InterleaveStep(lines: seq<string>, rest: seq<Piece>)
    requires |lines| >= 2 && |rest| == 2 * |lines| - 3
    requires forall k :: 0 <= k < |lines| - 1 ==> rest[2 * k] == LineText(lines[1..][k])
    requires forall k :: 0 <= k < |lines| - 2 ==> rest[2 * k + 1] == Break
    ensures var r := [LineText(lines[0]), Break] + rest;
      && (forall k :: 0 <= k < |lines| ==> r[2 * k] == LineText(lines[k]))
      && (forall k :: 0 <= k < |lines| - 1 ==> r[2 * k + 1] == Break)
  {
    var r := [LineText(lines[0]), Break] + rest;
    forall k | 1 <= k < |lines| ensures r[2 * k] == LineText(lines[k]) {
      var j := k - 1;
      assert r[2 * k] == rest[2 * j];
      assert rest[2 * j] == LineText(lines[1..][j]);
    }
    forall k | 1 <= k < |lines| - 1 ensures r[2 * k + 1] == Break {
      var j := k - 1;
      assert r[2 * k + 1] == rest[2 * j + 1];
    }
  }

  const LineBreak: string := "\n"

  function FormatParagraph(p: string): (b: Block)
    ensures b.Salutation? <==> IsSalutation(p)
    ensures b.Salutation? ==> b.text == p
  {
    if IsSalutation(p) then Salutation(p) else Body(Interleave(SplitOn(p, LineBreak)))
  }

  /** `formatResponse(text)`: one block per piece of `text.split('\n\n')`. */
  function FormatResponse(text: string): (blocks: seq<Block>)
    ensures |blocks| == |SplitOn(text, ParagraphBreak)| == CountOccurrences(text, ParagraphBreak) + 1
    ensures forall i :: 0 <= i < |blocks| ==> blocks[i] == FormatParagraph(SplitOn(text, ParagraphBreak)[i])
  {
    var paragraphs := SplitOn(text, ParagraphBreak);
    SplitCount(text, ParagraphBreak);
    seq(|paragraphs|, i requires 0 <= i < |paragraphs| => FormatParagraph(paragraphs[i]))
  }

  /** A normal paragraph: line `k` of the paragraph is child `2k`, with exactly one
      break between consecutive lines and none after the last. */
  lemma BodyShape(p: string)
    requires !IsSalutation(p)
    ensures var lines := SplitOn(p, LineBreak);
      var b := FormatParagraph(p);
      b.Body? && |b.pieces| == 2 * |lines| - 1
      && (forall k :: 0 <= k < |lines| ==> b.pieces[2 * k] == LineText(lines[k]))
      && (forall k :: 0 <= k < |lines| - 1 ==> b.pieces[2 * k + 1] == Break)
      && (forall j :: 0 <= j < |b.pieces| ==> (b.pieces[j] == Break <==> j % 2 == 1))
  {
    var lines := SplitOn(p, LineBreak);
    var pieces := Interleave(lines);
    forall j | 0 <= j < |pieces| ensures pieces[j] == Break <==> j % 2 == 1 {
      if j % 2 == 0 {
        assert pieces[2 * (j / 2)] == LineText(lines[j / 2]);
      } else {
        assert pieces[2 * (j / 2) + 1] == Break;
      }
    }
  }

  // ---------------------------------------------------------------------------
  // Reading the blocks back as text

  /** The text a piece shows: the line itself, or a newline for a break. */
  function Flatten(pieces: seq<Piece>): string
  {
    if pieces == [] then ""
    else (match pieces[0] case LineText(t) => t case Break => LineBreak) + Flatten(pieces[1..])
  }

  function BlockText(b: Block): string
  {
    match b
    case Salutation(text) => text
    case Body(pieces) => Flatten(pieces)
  }

  /** The blocks read back, separated by blank lines. */
  function Unformat(blocks: seq<Block>): string
  {
    JoinWith(seq(|blocks|, i requires 0 <= i < |blocks| => BlockText(blocks[i])), ParagraphBreak)
  }

  lemma {:induction false} FlattenInterleave(lines: seq<string>)
    requires |lines| >= 1
    ensures Flatten(Interleave(lines)) == JoinWith(lines, LineBreak)
    decreases |lines|
  {
    if |lines| > 1 {
      FlattenInterleave(lines[1..]);
      var rest := Interleave(lines[1..]);
      var r := [LineText(lines[0]), Break] + rest;
      assert r[1..][1..] == rest;
      assert Flatten(r) == lines[0] + Flatten(r[1..]);
      assert Flatten(r[1..]) == LineBreak + Flatten(rest);
    }
  }

  /** A paragraph is shown with all of its text. */
  lemma ParagraphRoundTrip(p: string)
    ensures BlockText(FormatParagraph(p)) == p
  {
    if !IsSalutation(p) {
      FlattenInterleave(SplitOn(p, LineBreak));
      SplitThenJoin(p, LineBreak);
    }
  }

  /** Nothing of the reply is lost or reordered: reading the blocks back with a blank
      line between them gives the text. */
  lemma FormatRoundTrip(text: string)
    ensures Unformat(FormatResponse(text)) == text
  {
    var paragraphs := SplitOn(text, ParagraphBreak);
    var blocks := FormatResponse(text);
    var texts := seq(|blocks|, i requires 0 <= i < |blocks| => BlockText(blocks[i]));
    forall i | 0 <= i < |blocks| ensures texts[i] == paragraphs[i] {
      ParagraphRoundTrip(paragraphs[i]);
    }
    assert texts == paragraphs;
    SplitThenJoin(text, ParagraphBreak);
  }
}
