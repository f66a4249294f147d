/** Character classes and small string helpers with the meaning JavaScript gives
    them in a regular expression WITHOUT the `u` flag, and in `String.prototype.trim`.
    Strings are sequences of Unicode scalar values; every character a pattern of the
    modelled program names lies in the Basic Multilingual Plane, so matching on code
    points and matching on UTF-16 code units agree. */
module JsText {

  datatype Option<T> = None | Some(value: T)

  /** The four characters that end a line: `.` refuses them, and in multiline mode
      `^` matches after and `$` before each of them. */
  predicate IsLineTerminator(c: char) {
    c == '\n' || c == '\r' || c == '\U{2028}' || c == '\U{2029}'
  }

  /** The class `\s`, which is also the set `trim()` removes: ECMAScript WhiteSpace
      plus LineTerminator. */
  predicate IsJsSpace(c: char) {
    || c == '\t' || c == '\n' || c == '\U{B}' || c == '\U{C}' || c == '\r' || c == ' '
    || c == '\U{A0}' || c == '\U{1680}' || ('\U{2000}' <= c <= '\U{200A}')
    || c == '\U{2028}' || c == '\U{2029}' || c == '\U{202F}' || c == '\U{205F}'
    || c == '\U{3000}' || c == '\U{FEFF}'
  }

  /** The class `\w` without the `u` flag: ASCII letters, ASCII digits and `_`. */
  predicate IsWordChar(c: char) {
    ('A' <= c <= 'Z') || ('a' <= c <= 'z') || ('0' <= c <= '9') || c == '_'
  }

  /** The class `\d` without the `u` flag: ASCII digits only. */
  predicate IsDigit(c: char) {
    '0' <= c <= '9'
  }

  predicate StartsWith(s: string, prefix: string) {
    |prefix| <= |s| && s[..|prefix|] == prefix
  }

  /** True when `pat` occurs in `s` starting at offset `i`. */
  predicate OccursAt(s: string, i: nat, pat: string) {
    i + |pat| <= |s| && s[i..i + |pat|] == pat
  }

  predicate Contains(s: string, pat: string) {
    exists i: nat :: i <= |s| && OccursAt(s, i, pat)
  }

  predicate NoLineTerminator(s: string) {
    forall k :: 0 <= k < |s| ==> !IsLineTerminator(s[k])
  }

  /** True when every character is removed by `trim()`. */
  predicate IsBlank(s: string) {
    forall k :: 0 <= k < |s| ==> IsJsSpace(s[k])
  }

  /** The assertion `\b` at offset `p`: exactly one of the characters on either
      side of `p` is a word character; outside the string counts as non-word.
      `afterWord` says whether the character just before offset 0 is a word
      character, so that the predicate can be asked of a suffix of the input. */
  predicate BoundaryAt(s: string, p: nat, afterWord: bool)
    requires p <= |s|
  {
    (if p == 0 then afterWord else IsWordChar(s[p - 1])) != (p < |s| && IsWordChar(s[p]))
  }

  /** `^` in multiline mode at offset `k`: the start of input or just after a line
      terminator. `atStart` says whether offset 0 is itself a line start, so that the
      predicate can be asked of a suffix of the input. */
  predicate LineStartAt(s: string, k: nat, atStart: bool)
    requires k <= |s|
  {
    if k == 0 then atStart else IsLineTerminator(s[k - 1])
  }

  /** The input without the white space `trim()` removes at the front. */
  function TrimStart(s: string): (r: string)
    ensures |r| <= |s| && r == s[|s| - |r|..]
    ensures forall k :: 0 <= k < |s| - |r| ==> IsJsSpace(s[k])
    ensures r == [] || !IsJsSpace(r[0])
  {
    if s != [] && IsJsSpace(s[0]) then TrimStart(s[1..]) else s
  }

  /** The input without the white space `trim()` removes at the back. */
  function TrimEnd(s: string): (r: string)
    ensures |r| <= |s| && r == s[..|r|]
    ensures forall k :: |r| <= k < |s| ==> IsJsSpace(s[k])
    ensures r == [] || !IsJsSpace(r[|r| - 1])
  {
    if s != [] && IsJsSpace(s[|s| - 1]) then TrimEnd(s[..|s| - 1]) else s
  }

  /** `String.prototype.trim`: the input without its leading and trailing white
      space; empty exactly when the input is blank. */
  function Trim(s: string): (r: string)
    ensures exists i: nat :: OccursAt(s, i, r) && IsBlank(s[..i]) && IsBlank(s[i + |r|..])
    ensures r == [] || (!IsJsSpace(r[0]) && !IsJsSpace(r[|r| - 1]))
    ensures r == [] <==> IsBlank(s)
  {
    var front := TrimStart(s);
    var r := TrimEnd(front);
    TrimPieces(s, front, r);
    r
  }

  /** What `TrimStart` and `TrimEnd` promise, put together: the kept middle sits
      between two blank pieces, and it is empty exactly when the input is blank. */
  lemma TrimPieces(s: string, front: string, r: string)
    requires |front| <= |s| && front == s[|s| - |front|..]
    requires forall k :: 0 <= k < |s| - |front| ==> IsJsSpace(s[k])
    requires front == [] || !IsJsSpace(front[0])
    requires |r| <= |front| && r == front[..|r|]
    requires forall k :: |r| <= k < |front| ==> IsJsSpace(front[k])
    requires r == [] || !IsJsSpace(r[|r| - 1])
    ensures exists i: nat :: OccursAt(s, i, r) && IsBlank(s[..i]) && IsBlank(s[i + |r|..])
    ensures r == [] || (!IsJsSpace(r[0]) && !IsJsSpace(r[|r| - 1]))
    ensures r == [] <==> IsBlank(s)
  {
    var i := |s| - |front|;
    SliceOfSlice(s, i, |r|);
    TrimSides(s, front, r);
    TrimOccurs(s, i, r);
    if r == [] {
      assert front == [];
    } else {
      assert s[i] == front[0];
      NotBlank(s, i);
    }
  }

  /** What `TrimStart` and `TrimEnd` remove around the kept middle is blank. */
  lemma TrimSides(s: string, front: string, r: string)
    requires |front| <= |s| && front == s[|s| - |front|..]
    requires forall k :: 0 <= k < |s| - |front| ==> IsJsSpace(s[k])
    requires |r| <= |front| && r == front[..|r|]
    requires forall k :: |r| <= k < |front| ==> IsJsSpace(front[k])
    ensures IsBlank(s[..|s| - |front|])
    ensures IsBlank(s[|s| - |front| + |r|..])
  {
    var tail := s[|s| - |front| + |r|..];
    forall m | 0 <= m < |tail| ensures IsJsSpace(tail[m]) {
      assert tail[m] == front[|r| + m];
    }
  }

  lemma SliceOfSlice(s: string, i: nat, n: nat)
    requires i + n <= |s|
    ensures s[i..][..n] == s[i..i + n]
  {
  }

  lemma NotBlank(s: string, i: nat)
    requires i < |s| && !IsJsSpace(s[i])
    ensures !IsBlank(s)
  {
  }

  lemma TrimOccurs(s: string, i: nat, r: string)
    requires i + |r| <= |s| && r == s[i..i + |r|]
    requires IsBlank(s[..i]) && IsBlank(s[i + |r|..])
    ensures exists j: nat :: OccursAt(s, j, r) && IsBlank(s[..j]) && IsBlank(s[j + |r|..])
  {
    assert OccursAt(s, i, r);
  }

}
