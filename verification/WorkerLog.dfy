/**
 The worker's in-memory log: two byte streams are cut into numbered lines, only the newest lines are
 kept, and pollers mirror the buffer incrementally.
 Source: backend/cmd/worker/log_buffer.go and the poll loop of backend/cmd/worker/main_tui.go.
 */
module WorkerLog {
  import opened Lines
  import opened Seqs

  const MAX_ENTRIES: nat := 500

  datatype Stream = Stdout | Stderr

  datatype Entry = Entry(sequence: nat, stream: Stream, text: string)

  /** What a poller receives: the entries it has not seen, and whether it must discard its copy. */
  datatype Snapshot = Snapshot(entries: seq<Entry>, reset: bool)

  function LastN<T>(s: seq<T>, n: nat): seq<T> {
    if |s| > n then s[|s| - n..] else s
  }

  function StripCR(line: string): string {
    if line != "" && line[|line| - 1] == '\r' then line[..|line| - 1] else line
  }

  /** `text` is `line` without the one carriage return at its end, if there is one. */
  ghost predicate LessOneCR(line: string, text: string) {
    if line != "" && line[|line| - 1] == '\r' then line == text + ['\r'] else line == text
  }

  lemma StripCRStrips(line: string)
    ensures LessOneCR(line, StripCR(line))
  {
  }

  /** The entries that `lines` become when `issued` sequence numbers are already taken. */
  function Numbered(issued: nat, stream: Stream, lines: seq<string>): (entries: seq<Entry>)
    ensures |entries| == |lines|
    ensures forall i :: 0 <= i < |lines| ==> entries[i].sequence == issued + i + 1
  {
    if lines == [] then []
    else
      var init := lines[..|lines| - 1];
      Numbered(issued, stream, init) + [Entry(issued + |lines|, stream, StripCR(lines[|init|]))]
  }

  /** Reading a stream's unterminated tail; a missing map key reads as the empty string. */
  function Pending(partial: map<Stream, string>, stream: Stream): string {
    if stream in partial then partial[stream] else ""
  }

  /** Sequence numbers count the recorded lines from one, without a hole. */
  ghost predicate Sequenced(history: seq<Entry>) {
    forall i :: 0 <= i < |history| ==> history[i].sequence == i + 1
  }

  /** The entries among the first `n` that come after a sequence number. */
  function Newer(entries: seq<Entry>, n: nat, after: nat): seq<Entry>
    requires n <= |entries|
  {
    if n == 0 then []
    else if entries[n - 1].sequence > after then Newer(entries, n - 1, after) + [entries[n - 1]]
    else Newer(entries, n - 1, after)
  }

  /** In a stretch of the history numbered from `base + 1` on, those are the entries from one position on. */
  lemma {:induction false} NewerOfSequenced(entries: seq<Entry>, base: nat, n: nat, after: nat)
    requires n <= |entries| && forall i :: 0 <= i < |entries| ==> entries[i].sequence == base + i + 1
    ensures Newer(entries, n, after)
            == if after <= base then entries[..n] else if after - base <= n then entries[after - base..n] else []
    decreases n
  {
    if n > 0 {
      NewerOfSequenced(entries, base, n - 1, after);
      if base < after < base + n {
        Slice(entries, after - base, n);
      }
    }
  }

  /** The write loop has handled `done` and has `pending` left to cut. */
  ghost predicate Consumed(all: Split, done: seq<string>, pending: string) {
    all == Split(done + SplitLines(pending).lines, SplitLines(pending).tail)
  }

  lemma ConsumeLine(all: Split, done: seq<string>, pending: string)
    requires Consumed(all, done, pending)
    requires FirstNewline(pending) < |pending|
    ensures Consumed(all, done + [pending[..FirstNewline(pending)]], pending[FirstNewline(pending) + 1..])
  {
    var i := FirstNewline(pending);
    var rest := SplitLines(pending[i + 1..]).lines;
    Assoc(done, [pending[..i]], rest);
  }

  lemma NumberLine(issued: nat, stream: Stream, done: seq<string>, line: string)
    ensures Numbered(issued, stream, done + [line])
            == Numbered(issued, stream, done) + [Entry(issued + |done| + 1, stream, StripCR(line))]
  {
    Snoc(done, line);
  }

  lemma HistoryGrows(before: seq<Entry>, history: seq<Entry>, stream: Stream, done: seq<string>, line: string)
    requires history == before + Numbered(|before|, stream, done)
    ensures history + [Entry(|history| + 1, stream, StripCR(line))] == before + Numbered(|before|, stream, done + [line])
  {
    NumberLine(|before|, stream, done, line);
    Assoc(before, Numbered(|before|, stream, done), [Entry(|history| + 1, stream, StripCR(line))]);
  }

  class LogBuffer {
    var entries: seq<Entry>
    var next: nat
    var partial: map<Stream, string>
    /** Every line ever recorded, evicted ones included. */
    ghost var history: seq<Entry>

    ghost predicate Valid()
      reads this
    {
      && Sequenced(history)
      && next == |history|
      && entries == LastN(history, MAX_ENTRIES)
    }

    constructor ()
      ensures Valid()
      ensures history == [] && partial == map[Stdout := "", Stderr := ""]
    {
      entries, next, history := [], 0, [];
      partial := map[Stdout := "", Stderr := ""];
    }

    /** `appendLocked` */
    method Append(stream: Stream, text: string)
      requires Valid()
      modifies `entries, `next, `history
      ensures Valid()
      ensures history == old(history) + [Entry(old(|history|) + 1, stream, text)]
    {
      next := next + 1;
      entries := entries + [Entry(next, stream, text)];
      if |entries| > MAX_ENTRIES {
        entries := entries[|entries| - MAX_ENTRIES..];
      }
      history := history + [Entry(next, stream, text)];
    }

    /** One complete line: a single trailing carriage return is removed. */
    method RecordLine(stream: Stream, raw: string)
      requires Valid()
      modifies `entries, `next, `history
      ensures Valid()
      ensures history == old(history) + [Entry(old(|history|) + 1, stream, StripCR(raw))]
      ensures LessOneCR(raw, history[old(|history|)].text)
    {
      var line := raw;
      if line != "" && line[|line| - 1] == '\r' {
        line := line[..|line| - 1];
      }
      Append(stream, line);
    }

    /** The loop of `logWriter.Write`: record every complete line and hand back the rest. */
    method RecordLines(stream: Stream, text: string) returns (pending: string)
      requires Valid()
      modifies `entries, `next, `history
      ensures Valid()
      ensures history == old(history) + Numbered(old(|history|), stream, SplitLines(text).lines)
      ensures pending == SplitLines(text).tail
    {
      pending := text;
      ghost var all, before, done: seq<string> := SplitLines(text), history, [];
      assert [] + all.lines == all.lines;
      while true
        invariant Valid() && Consumed(all, done, pending)
        invariant history == before + Numbered(|before|, stream, done)
        decreases |pending|
      {
        var lineEnd := FirstNewline(pending);
        if lineEnd == |pending| {
          break;
        }
        ConsumeLine(all, done, pending);
        HistoryGrows(before, history, stream, done, pending[..lineEnd]);
        RecordLine(stream, pending[..lineEnd]);
        done, pending := done + [pending[..lineEnd]], pending[lineEnd + 1..];
      }
      assert done + [] == done;
    }

    /** `logWriter.Write` */
    method Write(stream: Stream, data: string) returns (n: nat)
      requires Valid()
      modifies this
      ensures Valid()
      ensures n == |data|
      ensures Log(history, partial) == Log(old(history), old(partial)).Written(stream, data)
    {
      var pending := RecordLines(stream, Pending(partial, stream) + data);
      partial := partial[stream := pending];
      n := |data|;
    }

    method TakeSnapshot(after: nat) returns (snapshot: Snapshot)
      requires Valid()
      ensures snapshot == Log(history, partial).SnapshotAfter(after)
    {
      var reset, unseen := false, [];
      if entries == [] {
        return Snapshot([], false);
      }
      var oldest := entries[0].sequence;
      if after < oldest - 1 {
        reset := true;
      }
      for i := 0 to |entries|
        invariant unseen == Newer(entries, i, after)
      {
        if entries[i].sequence > after {
          unseen := unseen + [entries[i]];
        }
      }
      snapshot := Snapshot(unseen, reset);
    }
  }

  /** The value of a `LogBuffer`: everything recorded so far and the unterminated tail of each stream. */
  datatype Log = Log(history: seq<Entry>, partial: map<Stream, string>) {

    ghost predicate Valid() {
      Sequenced(history)
    }

    function Entries(): seq<Entry> {
      LastN(history, MAX_ENTRIES)
    }

    function Written(stream: Stream, data: string): Log {
      var split := SplitLines(Pending(partial, stream) + data);
      Log(history + Numbered(|history|, stream, split.lines), partial[stream := split.tail])
    }

    function SnapshotAfter(after: nat): Snapshot {
      if history == [] then Snapshot([], false)
      else Snapshot(Newer(Entries(), |Entries()|, after), after < Entries()[0].sequence - 1)
    }
  }

  const EMPTY := Log([], map[Stdout := "", Stderr := ""])

  // ---- Chunking independence ----

  datatype Chunk = Chunk(stream: Stream, data: string)

  function WriteAll(writes: seq<Chunk>): Log {
    if writes == [] then EMPTY
    else
      var last := writes[|writes| - 1];
      WriteAll(writes[..|writes| - 1]).Written(last.stream, last.data)
  }

  /** The bytes written to one stream, whatever was written to the other in between. */
  function Bytes(writes: seq<Chunk>, stream: Stream): string {
    if writes == [] then ""
    else
      var last := writes[|writes| - 1];
      var before := Bytes(writes[..|writes| - 1], stream);
      if last.stream == stream then before + last.data else before
  }

  function Texts(history: seq<Entry>, stream: Stream): seq<string> {
    if history == [] then []
    else
      var last := history[|history| - 1];
      Texts(history[..|history| - 1], stream) + if last.stream == stream then [last.text] else []
  }

  function Stripped(lines: seq<string>): seq<string> {
    if lines == [] then []
    else Stripped(lines[..|lines| - 1]) + [StripCR(lines[|lines| - 1])]
  }

  lemma {:induction false} StrippedConcat(a: seq<string>, b: seq<string>)
    ensures Stripped(a + b) == Stripped(a) + Stripped(b)
    decreases |b|
  {
    if b == [] {
      assert a + b == a;
    } else {
      StrippedConcat(a, b[..|b| - 1]);
      assert (a + b)[..|a + b| - 1] == a + b[..|b| - 1];
    }
  }

  lemma {:induction false} StrippedAt(lines: seq<string>, k: nat)
    requires k < |lines|
    ensures |Stripped(lines)| == |lines| && LessOneCR(lines[k], Stripped(lines)[k])
    decreases |lines|
  {
    StripCRStrips(lines[k]);
    if k < |lines| - 1 {
      StrippedAt(lines[..|lines| - 1], k);
    } else if |lines| > 1 {
      StrippedAt(lines[..|lines| - 1], 0);
    }
  }

  lemma TextsSnoc(history: seq<Entry>, e: Entry, of: Stream)
    ensures Texts(history + [e], of) == Texts(history, of) + if e.stream == of then [e.text] else []
  {
    Snoc(history, e);
  }

  ghost predicate AddsTexts(history: seq<Entry>, added: seq<Entry>, of: Stream, texts: seq<string>) {
    Texts(history + added, of) == Texts(history, of) + texts
  }

  lemma AddsOneMore(history: seq<Entry>, added: seq<Entry>, of: Stream, texts: seq<string>, e: Entry)
    requires AddsTexts(history, added, of, texts)
    ensures AddsTexts(history, added + [e], of, if e.stream == of then texts + [e.text] else texts)
  {
    Assoc(history, added, [e]);
    TextsSnoc(history + added, e, of);
    Assoc(Texts(history, of), texts, [e.text]);
  }

  lemma {:induction false} TextsOfNumbered(history: seq<Entry>, issued: nat, stream: Stream, lines: seq<string>, of: Stream)
    ensures AddsTexts(history, Numbered(issued, stream, lines), of, if stream == of then Stripped(lines) else [])
    decreases |lines|
  {
    if lines == [] {
      assert history + [] == history;
    } else {
      var init := lines[..|lines| - 1];
      TextsOfNumbered(history, issued, stream, init, of);
      AddsOneMore(history, Numbered(issued, stream, init), of, if stream == of then Stripped(init) else [],
                  Entry(issued + |lines|, stream, StripCR(lines[|init|])));
    }
  }

  /** The stream has received `bytes` and the log shows exactly their lines and tail. */
  ghost predicate Shows(log: Log, stream: Stream, bytes: string) {
    && Texts(log.history, stream) == Stripped(SplitLines(bytes).lines)
    && Pending(log.partial, stream) == SplitLines(bytes).tail
  }

  lemma WriteShows(log: Log, w: Chunk, stream: Stream, before: string)
    requires Shows(log, stream, before)
    ensures Shows(log.Written(w.stream, w.data), stream, if w.stream == stream then before + w.data else before)
  {
    var lines := SplitLines(Pending(log.partial, w.stream) + w.data).lines;
    TextsOfNumbered(log.history, |log.history|, w.stream, lines, stream);
    if w.stream == stream {
      SplitConcat(before, w.data);
      StrippedConcat(SplitLines(before).lines, lines);
    }
  }

  lemma {:induction false} WritesShow(writes: seq<Chunk>, stream: Stream)
    ensures Shows(WriteAll(writes), stream, Bytes(writes, stream))
    decreases |writes|
  {
    if writes == [] {
      SplitNone("");
    } else {
      var init := writes[..|writes| - 1];
      WritesShow(init, stream);
      WriteShows(WriteAll(init), writes[|init|], stream, Bytes(init, stream));
    }
  }

  /** The texts are the lines, one for one, each less one carriage return at its end. */
  ghost predicate TextsOfLines(texts: seq<string>, lines: seq<string>) {
    |texts| == |lines| && forall k :: 0 <= k < |lines| ==> LessOneCR(lines[k], texts[k])
  }

  /**
   For every interleaving of writes to the two streams, the lines recorded for a stream are the
   newline-terminated lines of that stream's bytes, less one carriage return each, and the pending
   partial is the unterminated tail: how the bytes were cut leaves no trace.
   */
  lemma ChunkingIndependence(writes: seq<Chunk>, stream: Stream)
    ensures var log, split := WriteAll(writes), SplitLines(Bytes(writes, stream));
            TextsOfLines(Texts(log.history, stream), split.lines) && Pending(log.partial, stream) == split.tail
  {
    WritesShow(writes, stream);
    StrippedTexts(SplitLines(Bytes(writes, stream)).lines);
  }

  lemma StrippedTexts(lines: seq<string>)
    ensures TextsOfLines(Stripped(lines), lines)
  {
    if lines != [] {
      StrippedAt(lines, 0);
    }
    forall k | 0 <= k < |lines|
      ensures k < |Stripped(lines)| && LessOneCR(lines[k], Stripped(lines)[k])
    {
      StrippedAt(lines, k);
    }
  }

  /** What a write records, in the terms of its lines. */
  lemma {:induction false} NumberedAt(issued: nat, stream: Stream, lines: seq<string>, k: nat)
    requires k < |lines|
    ensures var e := Numbered(issued, stream, lines)[k];
            e.sequence == issued + k + 1 && e.stream == stream && LessOneCR(lines[k], e.text)
    decreases |lines|
  {
    StripCRStrips(lines[k]);
    if k < |lines| - 1 {
      NumberedAt(issued, stream, lines[..|lines| - 1], k);
    }
  }

  // ---- Mirror refinement ----

  /** A poller's own copy of the buffer and the last sequence number it received. */
  datatype Mirror = Mirror(entries: seq<Entry>, after: nat) {

    /** `updateTick` */
    function Update(snapshot: Snapshot): Mirror {
      var appended := if snapshot.reset then snapshot.entries else entries + snapshot.entries;
      var kept := if |appended| > MAX_ENTRIES then appended[|appended| - MAX_ENTRIES..] else appended;
      var cursor := if snapshot.entries != [] then snapshot.entries[|snapshot.entries| - 1].sequence else after;
      Mirror(kept, cursor)
    }

    /** The mirror shows what the buffer held when `after` lines had been recorded. */
    ghost predicate Follows(log: Log) {
      && after <= |log.history|
      && entries == LastN(log.history[..after], MAX_ENTRIES)
    }
  }

  datatype World = World(log: Log, mirror: Mirror)

  datatype Action = Write(stream: Stream, data: string) | Poll

  function Step(w: World, a: Action): World
    requires w.log.Valid()
  {
    match a
    case Write(stream, data) => w.(log := w.log.Written(stream, data))
    case Poll => w.(mirror := w.mirror.Update(w.log.SnapshotAfter(w.mirror.after)))
  }

  function Run(w: World, actions: seq<Action>): (r: World)
    requires w.log.Valid()
    ensures r.log.Valid()
    decreases |actions|
  {
    if actions == [] then w
    else Step(Run(w, actions[..|actions| - 1]), actions[|actions| - 1])
  }

  /** What a snapshot holds: the missing suffix of the history, or the whole buffer on a reset. */
  lemma SnapshotContents(log: Log, after: nat)
    requires log.Valid() && after <= |log.history|
    ensures var snapshot := log.SnapshotAfter(after);
            && (snapshot.reset <==> after + 500 < |log.history|)
            && snapshot.entries == if snapshot.reset then log.history[|log.history| - 500..] else log.history[after..]
  {
    var h, entries := log.history, log.Entries();
    var base := |h| - |entries|;
    assert entries == h[base..];
    NewerOfSequenced(entries, base, |entries|, after);
    Whole(entries);
    if base < after {
      assert entries[after - base..|entries|] == h[after..];
    }
  }

  lemma LastNConcat<T>(a: seq<T>, b: seq<T>, n: nat)
    ensures LastN(LastN(a, n) + b, n) == LastN(a + b, n)
  {
  }

  lemma PollCatchesUp(log: Log, mirror: Mirror)
    requires log.Valid() && mirror.Follows(log)
    ensures mirror.Update(log.SnapshotAfter(mirror.after)) == Mirror(log.Entries(), |log.history|)
  {
    var h, after := log.history, mirror.after;
    var snapshot := log.SnapshotAfter(after);
    SnapshotContents(log, after);
    if !snapshot.reset {
      LastNConcat(h[..after], h[after..], MAX_ENTRIES);
      assert h[..after] + h[after..] == h;
    }
  }

  lemma {:induction false} MirrorFollows(actions: seq<Action>)
    ensures var w := Run(World(EMPTY, Mirror([], 0)), actions);
            w.mirror.Follows(w.log)
    decreases |actions|
  {
    if actions != [] {
      var init := actions[..|actions| - 1];
      MirrorFollows(init);
      var w := Run(World(EMPTY, Mirror([], 0)), init);
      match actions[|actions| - 1]
      case Write(stream, data) =>
        assert w.log.Written(stream, data).history[..w.mirror.after] == w.log.history[..w.mirror.after];
      case Poll =>
        PollCatchesUp(w.log, w.mirror);
        assert w.log.history[..|w.log.history|] == w.log.history;
    }
  }

  /**
   After every poll of every run the poller holds exactly the buffer's entries, the newest
   `MAX_ENTRIES` lines of the whole history, and its cursor is the last sequence number issued.
   */
  lemma MirrorAfterPoll(actions: seq<Action>)
    ensures var w := Run(World(EMPTY, Mirror([], 0)), actions + [Poll]);
            && w.mirror.entries == w.log.Entries()
            && w.mirror.after == |w.log.history|
  {
    MirrorFollows(actions);
    var w := Run(World(EMPTY, Mirror([], 0)), actions);
    assert (actions + [Poll])[..|actions|] == actions;
    PollCatchesUp(w.log, w.mirror);
  }
}
