/**
 The editor of task commands shows one argument per line and reads the lines back on saving.
 Source: frontend/src/task-editor.tsx, taskDraftFromRecord and commandArguments.
 */
module CommandText {
  import opened Lines
  import opened Seqs
  import opened Text

  /** `String.prototype.trim` removes white space and line terminators. */
  predicate IsJsSpace(c: char) {
    (IsSpace(c) && c != '\U{0085}') || c == '\U{FEFF}'
  }

  /** The browser trims a byte order mark and keeps a next-line character, where Go does the opposite. */
  lemma BrowserSpaces()
    ensures IsJsSpace('\U{FEFF}') && !IsSpace('\U{FEFF}') && !IsJsSpace('\U{0085}') && IsSpace('\U{0085}')
    ensures forall c :: c != '\U{FEFF}' && c != '\U{0085}' ==> IsJsSpace(c) == IsSpace(c)
  {
  }

  /** `split('\n')`: the lines and whatever follows the last newline. */
  function Pieces(value: string): seq<string> {
    SplitLines(value).lines + [SplitLines(value).tail]
  }

  function NonBlank(pieces: seq<string>): seq<string> {
    if pieces == [] then []
    else
      var line := Trim(IsJsSpace, pieces[|pieces| - 1]);
      NonBlank(pieces[..|pieces| - 1]) + if line != "" then [line] else []
  }

  /** `commandArguments` */
  function CommandArguments(value: string): seq<string> {
    NonBlank(Pieces(value))
  }

  /** `command.join('\n')` */
  function CommandTextOf(arguments: seq<string>): string {
    if arguments == [] then ""
    else Joined(arguments[..|arguments| - 1], arguments[|arguments| - 1])
  }

  /** An argument that survives the editor: not empty, nothing to trim, no newline. */
  predicate Editable(argument: string) {
    argument != "" && IsTrimmed(IsJsSpace, argument) && '\n' !in argument
  }

  lemma {:induction false} NonBlankPieces(pieces: seq<string>, k: nat)
    requires Newlineless(pieces) && k < |NonBlank(pieces)|
    ensures Editable(NonBlank(pieces)[k])
    decreases |pieces|
  {
    var init, last := pieces[..|pieces| - 1], pieces[|pieces| - 1];
    TrimTrims(IsJsSpace, last);
    if k < |NonBlank(init)| {
      NonBlankPieces(init, k);
    }
  }

  lemma {:induction false} NonBlankKeeps(pieces: seq<string>)
    requires forall k :: 0 <= k < |pieces| ==> Editable(pieces[k])
    ensures NonBlank(pieces) == pieces
    decreases |pieces|
  {
    if pieces != [] {
      NonBlankKeeps(pieces[..|pieces| - 1]);
      TrimTrims(IsJsSpace, pieces[|pieces| - 1]);
      Unsnoc(pieces);
    }
  }

  ghost predicate AllEditable(arguments: seq<string>) {
    forall k :: 0 <= k < |arguments| ==> Editable(arguments[k])
  }

  lemma EditableSurvives(arguments: seq<string>)
    requires AllEditable(arguments)
    ensures CommandArguments(CommandTextOf(arguments)) == arguments
  {
    if arguments == [] {
      SplitNone("");
      assert [""][..0] == [];
    } else {
      SplitUnique(arguments[..|arguments| - 1], arguments[|arguments| - 1]);
      assert Pieces(CommandTextOf(arguments)) == arguments;
      NonBlankKeeps(arguments);
    }
  }

  lemma ReadBackIsEditable(value: string)
    ensures AllEditable(CommandArguments(value))
  {
    SplitJoins(value);
    forall k | 0 <= k < |CommandArguments(value)|
      ensures Editable(CommandArguments(value)[k])
    {
      NonBlankPieces(Pieces(value), k);
    }
  }

  /** Opening a command and saving it gives back the same command exactly when every argument is editable. */
  lemma CommandRoundTrip(arguments: seq<string>)
    ensures CommandArguments(CommandTextOf(arguments)) == arguments <==> AllEditable(arguments)
  {
    if AllEditable(arguments) {
      EditableSurvives(arguments);
    }
    ReadBackIsEditable(CommandTextOf(arguments));
  }
}
