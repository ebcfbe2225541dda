/** The parts of Go's `strings` package the modelled code relies on. */
module Text {

  /** `unicode.IsSpace` */
  predicate IsSpace(c: char) {
    || c in {'\t', '\n', '\U{000B}', '\U{000C}', '\r', ' ', '\U{0085}', '\U{00A0}', '\U{1680}'}
    || '\U{2000}' <= c <= '\U{200A}'
    || c in {'\U{2028}', '\U{2029}', '\U{202F}', '\U{205F}', '\U{3000}'}
  }

  function TrimLeft(space: char -> bool, s: string): string {
    if s != "" && space(s[0]) then TrimLeft(space, s[1..]) else s
  }

  function TrimRight(space: char -> bool, s: string): string {
    if s != "" && space(s[|s| - 1]) then TrimRight(space, s[..|s| - 1]) else s
  }

  function Trim(space: char -> bool, s: string): string {
    TrimRight(space, TrimLeft(space, s))
  }

  /** `strings.TrimSpace` */
  function TrimSpace(s: string): string {
    Trim(IsSpace, s)
  }

  /** Nothing to trim at either end. */
  predicate IsTrimmed(space: char -> bool, s: string) {
    s != "" ==> !space(s[0]) && !space(s[|s| - 1])
  }

  lemma {:induction false} TrimRightKeepsStart(space: char -> bool, s: string)
    ensures TrimRight(space, s) <= s
    ensures TrimRight(space, s) != "" ==> !space(TrimRight(space, s)[|TrimRight(space, s)| - 1])
    decreases |s|
  {
    if s != "" && space(s[|s| - 1]) {
      TrimRightKeepsStart(space, s[..|s| - 1]);
    }
  }

  lemma {:induction false} TrimLeftStart(space: char -> bool, s: string)
    ensures TrimLeft(space, s) != "" ==> !space(TrimLeft(space, s)[0])
    ensures forall c :: c in TrimLeft(space, s) ==> c in s
    decreases |s|
  {
    if s != "" && space(s[0]) {
      TrimLeftStart(space, s[1..]);
    }
  }

  /** Trimming leaves nothing to trim, invents no character, and keeps what is trimmed already. */
  lemma TrimTrims(space: char -> bool, s: string)
    ensures IsTrimmed(space, Trim(space, s))
    ensures forall c :: c in Trim(space, s) ==> c in s
    ensures IsTrimmed(space, s) ==> Trim(space, s) == s
  {
    TrimLeftStart(space, s);
    TrimRightKeepsStart(space, TrimLeft(space, s));
  }

  ghost predicate AllSpace(space: char -> bool, s: string) {
    forall i :: 0 <= i < |s| ==> space(s[i])
  }

  lemma {:induction false} TrimLeftCuts(space: char -> bool, s: string) returns (left: string)
    ensures s == left + TrimLeft(space, s) && AllSpace(space, left)
    decreases |s|
  {
    left := "";
    if s != "" && space(s[0]) {
      var rest := TrimLeftCuts(space, s[1..]);
      left := [s[0]] + rest;
    }
  }

  lemma {:induction false} TrimRightCuts(space: char -> bool, s: string) returns (right: string)
    ensures s == TrimRight(space, s) + right && AllSpace(space, right)
    decreases |s|
  {
    right := "";
    if s != "" && space(s[|s| - 1]) {
      var rest := TrimRightCuts(space, s[..|s| - 1]);
      right := rest + [s[|s| - 1]];
    }
  }

  /** Trimming cuts off white space at both ends and nothing else. */
  lemma TrimCuts(space: char -> bool, s: string) returns (left: string, right: string)
    ensures s == left + Trim(space, s) + right && AllSpace(space, left) && AllSpace(space, right)
    ensures IsTrimmed(space, Trim(space, s))
  {
    left := TrimLeftCuts(space, s);
    right := TrimRightCuts(space, TrimLeft(space, s));
    TrimTrims(space, s);
  }

  lemma {:induction false} TrimLeftFinds(space: char -> bool, left: string, rest: string)
    requires AllSpace(space, left) && (rest != "" ==> !space(rest[0]))
    ensures TrimLeft(space, left + rest) == rest
    decreases |left|
  {
    if left == "" {
      assert left + rest == rest;
    } else {
      TrimLeftFinds(space, left[1..], rest);
      assert (left + rest)[1..] == left[1..] + rest;
    }
  }

  lemma {:induction false} TrimRightFinds(space: char -> bool, text: string, right: string)
    requires AllSpace(space, right) && (text != "" ==> !space(text[|text| - 1]))
    ensures TrimRight(space, text + right) == text
    decreases |right|
  {
    if right == "" {
      assert text + right == text;
    } else {
      TrimRightFinds(space, text, right[..|right| - 1]);
      assert (text + right)[..|text + right| - 1] == text + right[..|right| - 1];
    }
  }

  /** A trimmed text is found between any white space. */
  lemma TrimFinds(space: char -> bool, left: string, text: string, right: string)
    requires AllSpace(space, left) && AllSpace(space, right) && text != "" && IsTrimmed(space, text)
    ensures Trim(space, left + text + right) == text
  {
    assert left + text + right == left + (text + right);
    assert (text + right)[0] == text[0];
    TrimLeftFinds(space, left, text + right);
    TrimRightFinds(space, text, right);
  }

  /** Only white space trims to nothing. */
  lemma BlankExactly(space: char -> bool, s: string)
    ensures Trim(space, s) == "" <==> AllSpace(space, s)
  {
    var left, right := TrimCuts(space, s);
    if Trim(space, s) != "" {
      var t := Trim(space, s);
      assert s[|left|] == t[0];
    }
  }

  /** The upper-case letter of the same name. */
  function UpperOf(c: char): char {
    if 'a' <= c <= 'z' then c - 32 as char else c
  }

  /** `s` is `t` with some of its letters in upper case. */
  ghost predicate SameButForCase(s: string, t: string) {
    |s| == |t| && forall i :: 0 <= i < |s| ==> s[i] == t[i] || s[i] == UpperOf(t[i])
  }

  ghost predicate IsLower(t: string) {
    forall i :: 0 <= i < |t| ==> !('A' <= t[i] <= 'Z') && t[i] < '\U{0080}'
  }

  /** Lower-casing gives a text back from every way of writing it in capitals. */
  lemma ToLowerUndoesCase(s: string, t: string)
    requires SameButForCase(s, t) && IsLower(t)
    ensures ToLower(s) == t
  {
    forall i | 0 <= i < |s|
      ensures ToLower(s)[i] == t[i]
    {
    }
  }

  /** `unicode.ToLower` on the letters that have an ASCII lower case; other letters stay as they are. */
  function LowerChar(c: char): char {
    if 'A' <= c <= 'Z' then c + 32 as char
    else if c == '\U{0130}' then 'i'
    else if c == '\U{212A}' then 'k'
    else c
  }

  function ToLower(s: string): string {
    seq(|s|, i requires 0 <= i < |s| => LowerChar(s[i]))
  }

  predicate OccursAt(s: string, part: string, i: nat) {
    i + |part| <= |s| && s[i..i + |part|] == part
  }

  /** `strings.Contains` */
  predicate Contains(s: string, part: string) {
    exists i: nat :: i <= |s| && OccursAt(s, part, i)
  }

  /** The first place of `c` in `s` from `k` on, or -1. */
  function IndexFrom(s: string, c: char, k: nat): (i: int)
    requires k <= |s|
    ensures i == -1 || (k <= i < |s| && s[i] == c)
    ensures forall j :: k <= j < (if i < 0 then |s| else i) ==> s[j] != c
    decreases |s| - k
  {
    if k == |s| then -1 else if s[k] == c then k else IndexFrom(s, c, k + 1)
  }

  /** `strings.IndexByte` */
  function IndexOf(s: string, c: char): (i: int)
    ensures i == -1 || (0 <= i < |s| && s[i] == c)
    ensures forall j :: 0 <= j < (if i < 0 then |s| else i) ==> s[j] != c
  {
    IndexFrom(s, c, 0)
  }

  ghost predicate Lacks(s: string, c: char) {
    forall j :: 0 <= j < |s| ==> s[j] != c
  }

  /** A text cut at the first separator. */
  lemma CutAtFirst(a: string, c: char, b: string)
    requires Lacks(a, c)
    ensures var s := a + ([c] + b);
            IndexOf(s, c) == |a| && s[..|a|] == a && s[|a| + 1..] == b
  {
    var s := a + ([c] + b);
    assert s[|a|] == c;
    assert forall j :: 0 <= j < |a| ==> s[j] == a[j];
  }

  lemma NotFound(s: string, c: char)
    requires Lacks(s, c)
    ensures IndexOf(s, c) == -1
  {
  }

  /** Writing `c` as a backslash and `code`, and a backslash as two of them. */
  function Escape(c: char, code: char, s: string): string {
    if s == "" then ""
    else (if s[0] == c then ['\\', code] else if s[0] == '\\' then ['\\', '\\'] else [s[0]]) + Escape(c, code, s[1..])
  }

  function Unescape(c: char, code: char, s: string): string {
    if s == "" then ""
    else if s[0] == '\\' && |s| > 1 then [if s[1] == code then c else s[1]] + Unescape(c, code, s[2..])
    else [s[0]] + Unescape(c, code, s[1..])
  }

  lemma {:induction false} UnescapeInverts(c: char, code: char, s: string)
    requires code != '\\' && c != '\\'
    ensures Unescape(c, code, Escape(c, code, s)) == s
  {
    if s != "" {
      UnescapeInverts(c, code, s[1..]);
      var e := Escape(c, code, s);
      if s[0] == c || s[0] == '\\' {
        assert e[2..] == Escape(c, code, s[1..]);
      } else {
        assert e[1..] == Escape(c, code, s[1..]);
      }
    }
  }

  lemma {:induction false} EscapeHides(c: char, code: char, s: string)
    requires c != code && c != '\\'
    ensures c !in Escape(c, code, s)
  {
    if s != "" {
      EscapeHides(c, code, s[1..]);
    }
  }
}
