/**
 Splitting text at newlines, shared by everything in the repository that reads a stream of lines:
 the worker's log buffer, the browser's log reader and the editor of command arguments.
 */
module Lines {

  datatype Split = Split(lines: seq<string>, tail: string)

  /** Position of the first newline, or `|s|` when there is none. */
  function FirstNewline(s: string): (i: nat)
    ensures i <= |s|
  {
    if s == "" || s[0] == '\n' then 0 else 1 + FirstNewline(s[1..])
  }

  lemma {:induction false} FirstNewlineIsFirst(s: string)
    ensures '\n' !in s[..FirstNewline(s)]
    ensures FirstNewline(s) < |s| ==> s[FirstNewline(s)] == '\n'
  {
    if s != "" && s[0] != '\n' {
      FirstNewlineIsFirst(s[1..]);
      var i := FirstNewline(s);
      assert s[..i] == [s[0]] + s[1..][..i - 1];
    }
  }

  /** The newline-terminated lines of `s`, and the unterminated rest. */
  function SplitLines(s: string): Split
    decreases |s|
  {
    var i := FirstNewline(s);
    if i == |s| then Split([], s)
    else
      var rest := SplitLines(s[i + 1..]);
      Split([s[..i]] + rest.lines, rest.tail)
  }

  /** One line with its newline put back in front of `rest`. */
  function Line(line: string, rest: string): string {
    line + (['\n'] + rest)
  }

  /** The text made of `lines`, each with its newline, and then `tail`. */
  function Joined(lines: seq<string>, tail: string): string {
    if lines == [] then tail else Line(lines[0], Joined(lines[1..], tail))
  }

  ghost predicate Newlineless(lines: seq<string>) {
    forall k :: 0 <= k < |lines| ==> '\n' !in lines[k]
  }

  lemma SplitOne(line: string, rest: string)
    requires '\n' !in line
    ensures SplitLines(Line(line, rest)).tail == SplitLines(rest).tail
    ensures SplitLines(Line(line, rest)).lines == [line] + SplitLines(rest).lines
  {
    var s := Line(line, rest);
    FirstNewlineIsFirst(s);
    assert s[|line|] == '\n' && s[..|line|] == line && s[|line| + 1..] == rest;
  }

  lemma SplitNone(s: string)
    requires '\n' !in s
    ensures SplitLines(s) == Split([], s)
  {
    FirstNewlineIsFirst(s);
  }

  /** Splitting inverts joining: the split is the only way to cut the text into newline-free pieces. */
  lemma {:induction false} SplitUnique(lines: seq<string>, tail: string)
    requires Newlineless(lines) && '\n' !in tail
    ensures SplitLines(Joined(lines, tail)) == Split(lines, tail)
    decreases |lines|
  {
    if lines == [] {
      SplitNone(tail);
    } else {
      SplitUnique(lines[1..], tail);
      SplitOne(lines[0], Joined(lines[1..], tail));
    }
  }

  ghost predicate JoinsTo(split: Split, s: string) {
    Joined(split.lines, split.tail) == s && Newlineless(split.lines) && '\n' !in split.tail
  }

  lemma JoinOne(line: string, rest: Split, s: string)
    requires JoinsTo(rest, s) && '\n' !in line
    ensures JoinsTo(Split([line] + rest.lines, rest.tail), Line(line, s))
  {
    assert ([line] + rest.lines)[1..] == rest.lines;
  }

  /** Joining inverts splitting. */
  lemma {:induction false} SplitJoins(s: string)
    ensures JoinsTo(SplitLines(s), s)
    decreases |s|
  {
    var i := FirstNewline(s);
    FirstNewlineIsFirst(s);
    if i == |s| {
      assert s[..i] == s;
    } else {
      var rest := s[i + 1..];
      SplitJoins(rest);
      JoinOne(s[..i], SplitLines(rest), rest);
      assert s == Line(s[..i], rest);
    }
  }

  lemma {:induction false} JoinedConcat(a: seq<string>, b: seq<string>, tail: string)
    ensures Joined(a + b, tail) == Joined(a, Joined(b, tail))
    decreases |a|
  {
    if a == [] {
      assert a + b == b;
    } else {
      JoinedConcat(a[1..], b, tail);
      assert (a + b)[1..] == a[1..] + b;
    }
  }

  lemma {:induction false} JoinedTail(a: seq<string>, tail: string, more: string)
    ensures Joined(a, tail) + more == Joined(a, tail + more)
    decreases |a|
  {
    if a != [] {
      JoinedTail(a[1..], tail, more);
      LineTail(a[0], Joined(a[1..], tail), more);
    }
  }

  lemma LineTail(line: string, rest: string, more: string)
    ensures Line(line, rest) + more == Line(line, rest + more)
  {
  }

  /** Cutting the input anywhere and carrying the tail over gives the split of the whole. */
  lemma SplitConcat(a: string, b: string)
    ensures SplitLines(a + b).lines == SplitLines(a).lines + SplitLines(SplitLines(a).tail + b).lines
    ensures SplitLines(a + b).tail == SplitLines(SplitLines(a).tail + b).tail
  {
    var first := SplitLines(a);
    var second := SplitLines(first.tail + b);
    SplitJoins(a);
    SplitJoins(first.tail + b);
    JoinedTail(first.lines, first.tail, b);
    JoinedConcat(first.lines, second.lines, second.tail);
    SplitUnique(first.lines + second.lines, second.tail);
  }
}
