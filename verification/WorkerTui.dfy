/**
 The terminal view of the worker's log: it mirrors the buffer on every tick, filters by stream and
 scrolls; the view shows a window of the visible lines.
 Source: backend/cmd/worker/main_tui.go.
 */
module WorkerTui {
  import opened WorkerLog

  const LOG_START: int := 9
  const FILTER_ROW: int := 7

  function Max(a: int, b: int): int {
    if a < b then b else a
  }

  function Min(a: int, b: int): int {
    if a < b then a else b
  }

  /** `visibleEntries`, over the first `n` entries */
  function Visible(entries: seq<Entry>, n: nat, stderrOnly: bool): seq<Entry>
    requires n <= |entries|
  {
    if n == 0 then []
    else if !stderrOnly || entries[n - 1].stream == Stderr then Visible(entries, n - 1, stderrOnly) + [entries[n - 1]]
    else Visible(entries, n - 1, stderrOnly)
  }

  method VisibleEntries(entries: seq<Entry>, stderrOnly: bool) returns (visible: seq<Entry>)
    ensures visible == Visible(entries, |entries|, stderrOnly)
  {
    visible := [];
    for i := 0 to |entries|
      invariant visible == Visible(entries, i, stderrOnly)
    {
      if !stderrOnly || entries[i].stream == Stderr {
        visible := visible + [entries[i]];
      }
    }
  }

  /** An entry is shown exactly when it is among the entries and, under the filter, from stderr. */
  lemma {:induction false} VisibleHas(entries: seq<Entry>, n: nat, stderrOnly: bool, e: Entry)
    requires n <= |entries|
    ensures e in Visible(entries, n, stderrOnly) <==> e in entries[..n] && (stderrOnly ==> e.stream == Stderr)
  {
    if n > 0 {
      VisibleHas(entries, n - 1, stderrOnly, e);
      assert entries[..n] == entries[..n - 1] + [entries[n - 1]];
    }
  }

  /** Without the filter everything is shown, and with it the numbers stay in order. */
  lemma {:induction false} VisibleInOrder(entries: seq<Entry>, n: nat, stderrOnly: bool)
    requires n <= |entries| && forall i, j :: 0 <= i < j < |entries| ==> entries[i].sequence < entries[j].sequence
    ensures var shown := Visible(entries, n, stderrOnly);
            forall i, j :: 0 <= i < j < |shown| ==> shown[i].sequence < shown[j].sequence
    ensures !stderrOnly ==> Visible(entries, n, stderrOnly) == entries[..n]
  {
    if n > 0 {
      VisibleInOrder(entries, n - 1, stderrOnly);
      var before := Visible(entries, n - 1, stderrOnly);
      forall i | 0 <= i < |before|
        ensures before[i].sequence < entries[n - 1].sequence
      {
        VisibleHas(entries, n - 1, stderrOnly, before[i]);
      }
    }
  }

  /** `logHeight` */
  function LogHeight(height: int): int {
    Max(height - LOG_START - 1, 1)
  }

  /** `maxScroll`, for `lines` visible lines */
  function MaxScroll(lines: int, height: int): int {
    Max(lines - LogHeight(height), 0)
  }

  /** The slice bounds computed by `View` */
  function Window(lines: int, height: int, offset: int): (int, int) {
    var start := Max(lines - LogHeight(height) - offset, 0);
    (start, Min(start + LogHeight(height), lines))
  }

  /**
   The slice is always valid and always full: as many lines as fit, or all of them. Within the scroll
   range it ends `offset` lines before the newest one, whatever the terminal's height.
   */
  lemma WindowIsFull(lines: nat, height: int, offset: nat)
    ensures var (start, end) := Window(lines, height, offset);
            && 0 <= start <= end <= lines
            && end - start == Min(LogHeight(height), lines)
            && (offset <= MaxScroll(lines, height) <==> end == lines - offset)
  {
  }

  /** Nine rows above the log and one below it: what is left of the terminal, and at least one row. */
  lemma LogHeightIs(height: int)
    ensures LogHeight(height) == if height > 11 then height - 10 else 1
  {
  }

  datatype Key = KeyAll | KeyStderr | KeyTab | KeyUp | KeyDown | KeyPageUp | KeyPageDown | KeyHome | KeyEnd | KeyOther

  datatype Mouse = WheelUp | WheelDown | LeftPress(x: int, y: int) | OtherMouse

  class TuiModel {
    var mirror: Mirror
    var offset: int
    var height: int
    var stderr: bool

    constructor ()
      ensures mirror == Mirror([], 0) && offset == 0 && height == 24 && !stderr
    {
      mirror, offset, height, stderr := Mirror([], 0), 0, 24, false;
    }

    function Lines(): seq<Entry>
      reads this
    {
      Visible(mirror.entries, |mirror.entries|, stderr)
    }

    function Limit(): int
      reads this
    {
      MaxScroll(|Lines()|, height)
    }

    ghost predicate InRange()
      reads this
    {
      0 <= offset <= Limit()
    }

    /** `updateTick`: after it the model holds exactly the buffer's entries and is scrolled within range. */
    method UpdateTick(logs: LogBuffer)
      requires logs.Valid() && mirror.Follows(Log(logs.history, logs.partial)) && offset >= 0
      modifies this
      ensures mirror.entries == logs.entries && mirror.after == logs.next
      ensures mirror.Follows(Log(logs.history, logs.partial))
      ensures stderr == old(stderr) && height == old(height)
      ensures offset == Min(old(offset), Limit()) && InRange()
    {
      ghost var log := Log(logs.history, logs.partial);
      var snapshot := logs.TakeSnapshot(mirror.after);
      PollCatchesUp(log, mirror);
      var entries := if snapshot.reset then snapshot.entries else mirror.entries + snapshot.entries;
      if |entries| > MAX_ENTRIES {
        entries := entries[|entries| - MAX_ENTRIES..];
      }
      var after := mirror.after;
      if |snapshot.entries| > 0 {
        after := snapshot.entries[|snapshot.entries| - 1].sequence;
      }
      mirror := Mirror(entries, after);
      assert logs.history[..|logs.history|] == logs.history;
      offset := Min(offset, Limit());
    }

    /** `updateKey`: the mirror is untouched, and an offset in range stays in range. */
    method UpdateKey(key: Key)
      requires offset >= 0
      modifies `offset, `stderr
      ensures offset >= 0 && (old(InRange()) ==> InRange())
      ensures stderr == match key case KeyAll => false case KeyStderr => true case KeyTab => !old(stderr) case _ => old(stderr)
      ensures offset == match key
                        case KeyAll | KeyStderr | KeyTab | KeyEnd => 0
                        case KeyUp => Min(old(offset) + 1, Limit())
                        case KeyDown => Max(old(offset) - 1, 0)
                        case KeyPageUp => Min(old(offset) + LogHeight(height), Limit())
                        case KeyPageDown => Max(old(offset) - LogHeight(height), 0)
                        case KeyHome => Limit()
                        case KeyOther => old(offset)
    {
      match key
      case KeyAll => stderr, offset := false, 0;
      case KeyTab => stderr, offset := !stderr, 0;
      case KeyStderr => stderr, offset := true, 0;
      case KeyUp => offset := Min(offset + 1, Limit());
      case KeyDown => offset := Max(offset - 1, 0);
      case KeyPageUp => offset := Min(offset + LogHeight(height), Limit());
      case KeyPageDown => offset := Max(offset - LogHeight(height), 0);
      case KeyHome => offset := Limit();
      case KeyEnd => offset := 0;
      case KeyOther =>
    }

    /** `updateMouse`: three lines a notch, and the filter row sets the filter by column. */
    method UpdateMouse(event: Mouse)
      requires offset >= 0
      modifies `offset, `stderr
      ensures offset >= 0 && (old(InRange()) ==> InRange())
      ensures stderr == if event.LeftPress? && event.y == 7 then event.x >= 20 else old(stderr)
      ensures offset == match event
                        case WheelUp => Min(old(offset) + 3, Limit())
                        case WheelDown => Max(old(offset) - 3, 0)
                        case LeftPress(_, y) => if y == 7 then 0 else old(offset)
                        case OtherMouse => old(offset)
    {
      match event
      case WheelUp => offset := Min(offset + 3, Limit());
      case WheelDown => offset := Max(offset - 3, 0);
      case LeftPress(x, y) =>
        if y == FILTER_ROW {
          stderr, offset := x >= 20, 0;
        }
      case OtherMouse =>
    }

    /** The lines `View` prints. */
    method VisibleWindow() returns (lines: seq<Entry>)
      requires offset >= 0
      ensures |lines| == Min(LogHeight(height), |Lines()|)
      ensures InRange() ==> lines == Lines()[|Lines()| - offset - |lines|..|Lines()| - offset]
    {
      WindowIsFull(|Lines()|, height, offset);
      var (start, end) := Window(|Lines()|, height, offset);
      lines := Lines()[start..end];
    }
  }
}
