/**
 The browser follows a run's log by cursor: it asks for the chunks after the last one it holds, reads
 the newline-delimited reply in arbitrary pieces, may lose the connection in the middle of a line, and
 asks again. Connections that outlive a reconnect keep delivering.
 Source: frontend/src/run-logs.tsx and the in-memory log endpoint of backend/internal/api/runs.go.
 */
module LogCursor {
  import opened Common
  import opened Lines
  import opened Seqs
  import opened Text
  import opened Numerals
  import opened LogStream

  const MAX_CHUNKS_PER_READ: nat := 1000
  const MAX_RESPONSE_BYTES: nat := 8 * 1024 * 1024
  const MAX_VISIBLE_LOG_CHARS: nat := 200_000

  // ---- Server ----

  /** The chunks of `log[..n]` after a sequence number. */
  function PendingTo(log: seq<LogChunk>, n: nat, after: int): seq<LogChunk>
    requires n <= |log|
  {
    if n == 0 then []
    else if log[n - 1].sequence <= after then PendingTo(log, n - 1, after)
    else PendingTo(log, n - 1, after) + [log[n - 1]]
  }

  function Pending(log: seq<LogChunk>, after: int): seq<LogChunk> {
    PendingTo(log, |log|, after)
  }

  predicate FitsResponse(chunks: seq<LogChunk>) {
    |chunks| <= MAX_CHUNKS_PER_READ && Size(chunks) <= MAX_RESPONSE_BYTES
  }

  /** What is pending after a sequence number: the chunks of the log with a larger one. */
  lemma {:induction false} PendingHas(log: seq<LogChunk>, n: nat, after: int, c: LogChunk)
    requires n <= |log|
    ensures c in PendingTo(log, n, after) <==> c in log[..n] && c.sequence > after
  {
    if n > 0 {
      PendingHas(log, n - 1, after, c);
      assert log[..n] == log[..n - 1] + [log[n - 1]];
    }
  }

  lemma {:induction false} PendingGrows(log: seq<LogChunk>, after: int, i: nat, n: nat)
    requires i <= n <= |log|
    ensures |PendingTo(log, i, after)| <= |PendingTo(log, n, after)|
    ensures Size(PendingTo(log, i, after)) <= Size(PendingTo(log, n, after))
    decreases n
  {
    if i < n {
      PendingGrows(log, after, i, n - 1);
      SizeSnoc(PendingTo(log, n - 1, after), log[n - 1]);
    }
  }

  /** `memoryLogsResponse`: the whole backlog, or the 413 reply when it does not fit. */
  method LogsResponse(log: seq<LogChunk>, after: int) returns (reply: Option<seq<LogChunk>>)
    ensures reply.Some? <==> |Pending(log, after)| <= 1000 && Size(Pending(log, after)) <= 8_388_608
    ensures reply.Some? ==> reply.value == Pending(log, after)
    ensures reply.Some? <==> FitsResponse(Pending(log, after))
  {
    var filtered: seq<LogChunk> := [];
    var bytes: nat := 0;
    for i := 0 to |log|
      invariant filtered == PendingTo(log, i, after) && bytes == Size(filtered)
      invariant FitsResponse(filtered)
    {
      var chunk := log[i];
      if chunk.sequence <= after {
        continue;
      }
      SizeSnoc(filtered, chunk);
      PendingGrows(log, after, i + 1, |log|);
      if |filtered| == MAX_CHUNKS_PER_READ || |chunk.text| > MAX_RESPONSE_BYTES - bytes {
        return None;
      }
      filtered := filtered + [chunk];
      bytes := bytes + |chunk.text|;
    }
    reply := Some(filtered);
  }

  // ---- Wire format ----

  /** One JSON object per line; only its round trip and the absence of raw newlines matter here. */
  datatype Codec = Codec(enc: LogChunk -> string, dec: string -> Option<LogChunk>)

  ghost predicate Lawful(codec: Codec) {
    forall c :: codec.dec(codec.enc(c)) == Some(c) && codec.enc(c) != "" && '\n' !in codec.enc(c)
  }

  function WriteChunk(c: LogChunk): string {
    Signed(c.sequence) + ([':'] + Escape('\n', 'n', c.text))
  }

  function ReadChunk(line: string): Option<LogChunk> {
    var i := IndexOf(line, ':');
    if i < 0 then None else Some(LogChunk(ParseSigned(line[..i]), Unescape('\n', 'n', line[i + 1..])))
  }

  lemma ReadAtColon(number: string, text: string)
    requires SignedChars(number)
    ensures ReadChunk(number + ([':'] + text)) == Some(LogChunk(ParseSigned(number), Unescape('\n', 'n', text)))
  {
    CutAtFirst(number, ':', text);
  }

  lemma ChunkRoundTrip(c: LogChunk)
    ensures ReadChunk(WriteChunk(c)) == Some(c)
  {
    SignedParses(c.sequence);
    UnescapeInverts('\n', 'n', c.text);
    ReadAtColon(Signed(c.sequence), Escape('\n', 'n', c.text));
  }

  lemma ChunkHasNoNewline(c: LogChunk)
    ensures WriteChunk(c) != "" && '\n' !in WriteChunk(c)
  {
    SignedParses(c.sequence);
    EscapeHides('\n', 'n', c.text);
  }

  /** There is such a format: the number, a colon and the text with its newlines escaped. */
  lemma LawfulCodecExists()
    ensures Lawful(Codec(WriteChunk, ReadChunk))
  {
    forall c
      ensures ReadChunk(WriteChunk(c)) == Some(c) && WriteChunk(c) != "" && '\n' !in WriteChunk(c)
    {
      ChunkRoundTrip(c);
      ChunkHasNoNewline(c);
    }
  }

  function Encoded(codec: Codec, chunks: seq<LogChunk>): seq<string> {
    seq(|chunks|, i requires 0 <= i < |chunks| => codec.enc(chunks[i]))
  }

  /** `parseLogLine`, with its fallback for a line that is not JSON. */
  function ParseLine(codec: Codec, line: string, cursor: int): LogChunk {
    match codec.dec(line)
    case Some(chunk) => chunk
    case None => LogChunk(cursor + 1, line)
  }

  /** `lines.filter(Boolean).map(parseLogLine)` */
  function ParseLines(codec: Codec, lines: seq<string>, cursor: int): seq<LogChunk> {
    if lines == [] then []
    else
      var last := lines[|lines| - 1];
      ParseLines(codec, lines[..|lines| - 1], cursor) + if last == "" then [] else [ParseLine(codec, last, cursor)]
  }

  lemma {:induction false} ParseEncoded(codec: Codec, chunks: seq<LogChunk>, cursor: int)
    requires Lawful(codec)
    ensures ParseLines(codec, Encoded(codec, chunks), cursor) == chunks
    decreases |chunks|
  {
    if chunks != [] {
      var init, last := chunks[..|chunks| - 1], chunks[|chunks| - 1];
      ParseEncoded(codec, init, cursor);
      var lines := Encoded(codec, chunks);
      assert lines[..|lines| - 1] == Encoded(codec, init);
      assert lines[|init|] == codec.enc(last);
    }
  }

  // ---- Client and server as steps ----

  datatype Connection = Connection(rest: string, buffer: string)

  datatype Client = Client(chunks: seq<LogChunk>, gap: bool, cursor: int)

  /** `requests` are the cursors of the requests that are on their way to the server. */
  datatype World = World(log: seq<LogChunk>, client: Client, requests: seq<int>, connections: seq<Connection>)

  datatype Action =
    | Append(skip: nat, text: string)
    | Request
    | Reply(request: nat)
    | Abort(request: nat)
    | Read(connection: nat, count: nat)
    | Drop(connection: nat)

  const START := World([], Client([], false, 0), [], [])

  ghost function Received(codec: Codec, budget: Budget, client: Client, lines: seq<string>): Client {
    var chunks := ParseLines(codec, lines, client.cursor);
    if chunks == [] then client
    else
      var merge := Merged(client.chunks, chunks, budget);
      Client(merge.chunks, merge.gap, merge.lastSequence)
  }

  /** A new connection carrying the backlog, or none when the server refuses it. */
  function Answered(codec: Codec, w: World, backlog: seq<LogChunk>): World {
    if FitsResponse(backlog) then
      w.(connections := w.connections + [Connection(Joined(Encoded(codec, backlog), ""), "")])
    else w
  }

  /** How many characters a read takes. */
  function Taken(c: Connection, count: nat): (n: nat)
    ensures n <= |c.rest|
  {
    if count < |c.rest| then count else |c.rest|
  }

  /** The client and the connection after `n` characters were read. */
  ghost function ReadFrom(codec: Codec, budget: Budget, client: Client, c: Connection, n: nat): (Client, Connection)
    requires n <= |c.rest|
  {
    var split := SplitLines(c.buffer + c.rest[..n]);
    (Received(codec, budget, client, split.lines), Connection(c.rest[n..], split.tail))
  }

  function Without(w: World, i: nat): World
    requires i < |w.requests|
  {
    w.(requests := w.requests[..i] + w.requests[i + 1..])
  }

  ghost function Step(codec: Codec, budget: Budget, w: World, a: Action): World {
    match a
    case Append(skip, text) =>
      w.(log := w.log + [LogChunk(LastSequence(w.log) + 1 + skip, text)])
    case Request =>
      w.(requests := w.requests + [w.client.cursor])
    case Reply(i) =>
      if i < |w.requests| then Answered(codec, Without(w, i), Pending(w.log, w.requests[i])) else w
    case Abort(i) =>
      if i < |w.requests| then Without(w, i) else w
    case Read(i, count) =>
      if i < |w.connections| then
        var (client, c) := ReadFrom(codec, budget, w.client, w.connections[i], Taken(w.connections[i], count));
        World(w.log, client, w.requests, w.connections[i := c])
      else w
    case Drop(i) =>
      if i < |w.connections| then w.(connections := w.connections[..i] + w.connections[i + 1..]) else w
  }

  ghost function Run(codec: Codec, budget: Budget, w: World, actions: seq<Action>): World
    decreases |actions|
  {
    if actions == [] then w
    else Step(codec, budget, Run(codec, budget, w, actions[..|actions| - 1]), actions[|actions| - 1])
  }

  // ---- What a connection still carries ----

  /** The connection has yet to deliver the chunks `log[from..to]`, less the bytes in its buffer. */
  ghost predicate Carries(codec: Codec, log: seq<LogChunk>, c: Connection, from: nat, to: nat) {
    && from <= to <= |log|
    && c.buffer + c.rest == Joined(Encoded(codec, log[from..to]), "")
  }

  lemma EncodedNewlineless(codec: Codec, chunks: seq<LogChunk>)
    requires Lawful(codec)
    ensures Newlineless(Encoded(codec, chunks))
  {
  }

  /** Reading any number of characters completes some whole lines and leaves the rest on the way. */
  lemma ReadCompletesLines(lines: seq<string>, got: string, rest: string) returns (m: nat)
    requires Newlineless(lines) && got + rest == Joined(lines, "")
    ensures m <= |lines|
    ensures SplitLines(got).lines == lines[..m]
    ensures SplitLines(got).tail + rest == Joined(lines[m..], "")
    ensures rest == "" ==> m == |lines|
  {
    SplitUnique(lines, "");
    SplitConcat(got, rest);
    var tail := SplitLines(got).tail;
    m := |SplitLines(got).lines|;
    SplitJoins(tail + rest);
    if rest == "" {
      assert got + rest == got;
    }
  }

  // ---- What the client holds ----

  ghost predicate Positive(log: seq<LogChunk>) {
    forall i :: 0 <= i < |log| ==> log[i].sequence > 0
  }

  ghost predicate Within(chunks: seq<LogChunk>, log: seq<LogChunk>) {
    forall c :: c in chunks ==> c in log
  }

  ghost predicate Unbounded(budget: Budget, log: seq<LogChunk>) {
    budget.Chars? ==> Size(log) < budget.max
  }

  /** The client has been handed the chunks `log[..k]`. */
  ghost predicate Holds(log: seq<LogChunk>, client: Client, k: nat, budget: Budget) {
    && k <= |log|
    && Ascending(client.chunks)
    && client.cursor == LastSequence(log[..k])
    && LastSequence(client.chunks) == client.cursor
    && Within(client.chunks, log[..k])
    && client.gap == HasGap(client.chunks)
    && (Unbounded(budget, log[..k]) ==> client.chunks == log[..k])
  }

  lemma {:induction false} AddedDuplicates(m: map<int, string>, s: seq<LogChunk>)
    requires forall i :: 0 <= i < |s| ==> s[i].sequence in m
    ensures Added(m, s) == m
    decreases |s|
  {
    if s != [] {
      AddedDuplicates(m, s[..|s| - 1]);
    }
  }

  lemma {:induction false} AddedNew(a: seq<LogChunk>, b: seq<LogChunk>)
    requires Ascending(a + b)
    ensures Added(View(a), b) == View(a + b)
    decreases |b|
  {
    if b == [] {
      assert a + b == a;
    } else {
      var init := b[..|b| - 1];
      var s := a + b;
      assert s[..|s| - 1] == a + init;
      assert Ascending(a + init);
      AddedNew(a, init);
      ViewInit(s);
    }
  }

  lemma AddedAgain(log: seq<LogChunk>, k: nat, from: nat, to: nat)
    requires Ascending(log) && from <= to <= k <= |log|
    ensures Added(View(log[..k]), log[from..to]) == View(log[..k])
  {
    forall i | 0 <= i < to - from
      ensures log[from..to][i].sequence in View(log[..k])
    {
      ViewAt(log[..k], from + i);
    }
    AddedDuplicates(View(log[..k]), log[from..to]);
  }

  lemma AddedAgainThenNew(held: seq<LogChunk>, again: seq<LogChunk>, novel: seq<LogChunk>)
    requires Added(View(held), again) == View(held) && Ascending(held + novel)
    ensures Added(View(held), again + novel) == View(held + novel)
  {
    AddedConcat(View(held), again, novel);
    AddedNew(held, novel);
  }

  /** Overlapping deliveries of one log add up: `log[..k]` and `log[from..to]` make `log[..max(k, to)]`. */
  lemma AddedOverlap(log: seq<LogChunk>, k: nat, from: nat, to: nat)
    requires Ascending(log) && k <= |log| && from <= to <= |log| && from <= k
    ensures Added(View(log[..k]), log[from..to]) == View(log[..if to < k then k else to])
  {
    if to <= k {
      AddedAgain(log, k, from, to);
    } else {
      AddedAgain(log, k, from, k);
      Cuts(log, from, k, to);
      AddedAgainThenNew(log[..k], log[from..k], log[k..to]);
    }
  }

  /** Every entry of `m` is a chunk of `log`. */
  ghost predicate DrawnFrom(m: map<int, string>, log: seq<LogChunk>) {
    forall k :: k in m ==> LogChunk(k, m[k]) in log
  }

  lemma {:induction false} ViewDrawn(s: seq<LogChunk>, log: seq<LogChunk>)
    requires Within(s, log)
    ensures DrawnFrom(View(s), log)
    decreases |s|
  {
    if s != [] {
      var last := s[|s| - 1];
      assert last in s && LogChunk(last.sequence, last.text) == last;
      ViewDrawn(s[..|s| - 1], log);
    }
  }

  lemma {:induction false} AddedDrawn(m: map<int, string>, s: seq<LogChunk>, log: seq<LogChunk>)
    requires DrawnFrom(m, log) && Within(s, log)
    ensures DrawnFrom(Added(m, s), log)
    decreases |s|
  {
    if s != [] {
      var last := s[|s| - 1];
      assert last in s && LogChunk(last.sequence, last.text) == last;
      AddedDrawn(m, s[..|s| - 1], log);
    }
  }

  lemma OrderedDrawn(m: map<int, string>, log: seq<LogChunk>)
    requires DrawnFrom(m, log)
    ensures Within(Ordered(m), log)
  {
    var s := Ordered(m);
    forall c | c in s
      ensures c in log
    {
      var i :| 0 <= i < |s| && s[i] == c;
      ViewAt(s, i);
      assert LogChunk(c.sequence, m[c.sequence]) == c;
    }
  }

  /** The newest number delivered is the newest number held. */
  lemma NewestOf(m: map<int, string>, log: seq<LogChunk>)
    requires Ascending(log) && log != [] && DrawnFrom(m, log)
    requires log[|log| - 1].sequence in m
    ensures LastSequence(Ordered(m)) == LastSequence(log)
  {
    var s, k := Ordered(m), log[|log| - 1].sequence;
    var i := FindInView(s, k);
    OrderedDrawn(m, log);
    var last := s[|s| - 1];
    assert last in log;
  }

  lemma {:induction false} AddedHas(m: map<int, string>, s: seq<LogChunk>, k: int)
    requires k in m || exists i :: 0 <= i < |s| && s[i].sequence == k
    ensures k in Added(m, s)
    decreases |s|
  {
    if s != [] && s[|s| - 1].sequence != k {
      AddedHas(m, s[..|s| - 1], k);
    }
  }

  lemma WithinPrefix(chunks: seq<LogChunk>, log: seq<LogChunk>, k: nat, more: nat)
    requires k <= more <= |log| && Within(chunks, log[..k])
    ensures Within(chunks, log[..more])
  {
    forall c | c in chunks
      ensures c in log[..more]
    {
      var i :| 0 <= i < k && log[..k][i] == c;
      assert log[..more][i] == c;
    }
  }

  lemma RangeWithin(log: seq<LogChunk>, from: nat, to: nat)
    requires from <= to <= |log|
    ensures Within(log[from..to], log[..to])
  {
    forall c | c in log[from..to]
      ensures c in log[..to]
    {
      var i :| 0 <= i < to - from && log[from..to][i] == c;
      assert log[..to][from + i] == c;
    }
  }

  /** Delivering `log[from..to]` to a client that holds `log[..k]`: what the merge is drawn from. */
  lemma DeliveryDrawn(log: seq<LogChunk>, client: Client, k: nat, from: nat, to: nat, budget: Budget)
    requires Ascending(log) && Holds(log, client, k, budget)
    requires from < to <= |log| && from <= k
    ensures var reach := if to < k then k else to;
            var m := Added(View(client.chunks), log[from..to]);
            DrawnFrom(m, log[..reach])
  {
    var reach := if to < k then k else to;
    WithinPrefix(client.chunks, log, k, reach);
    RangeWithin(log, from, to);
    WithinPrefix(log[from..to], log, to, reach);
    ViewDrawn(client.chunks, log[..reach]);
    AddedDrawn(View(client.chunks), log[from..to], log[..reach]);
  }

  lemma DeliveryReaches(log: seq<LogChunk>, client: Client, k: nat, from: nat, to: nat, budget: Budget)
    requires Ascending(log) && Positive(log) && Holds(log, client, k, budget)
    requires from < to <= |log| && from <= k
    ensures var reach := if to < k then k else to;
            var m := Added(View(client.chunks), log[from..to]);
            log[reach - 1].sequence in m
  {
    if to < k {
      assert log[..k][k - 1] == log[k - 1];
      assert client.chunks != [];
      ViewAt(client.chunks, |client.chunks| - 1);
      AddedHas(View(client.chunks), log[from..to], log[k - 1].sequence);
    } else {
      assert log[from..to][to - 1 - from].sequence == log[to - 1].sequence;
      AddedHas(View(client.chunks), log[from..to], log[to - 1].sequence);
    }
  }

  lemma SizeOfPrefix(log: seq<LogChunk>, k: nat)
    requires k <= |log|
    ensures Size(log[..k]) <= Size(log)
  {
    assert log == log[..k] + log[k..];
    SizeConcat(log[..k], log[k..]);
  }

  lemma DeliveryExact(log: seq<LogChunk>, client: Client, k: nat, from: nat, to: nat, budget: Budget)
    requires Ascending(log) && Holds(log, client, k, budget)
    requires from < to <= |log| && from <= k
    requires Unbounded(budget, log[..if to < k then k else to])
    ensures Merged(client.chunks, log[from..to], budget).chunks == log[..if to < k then k else to]
  {
    var reach := if to < k then k else to;
    SizeOfPrefix(log[..reach], k);
    assert log[..reach][..k] == log[..k];
    AddedOverlap(log, k, from, to);
    OrderedOfView(log[..reach], budget);
  }

  lemma OrderedOfView(log: seq<LogChunk>, budget: Budget)
    requires Ascending(log) && Unbounded(budget, log)
    ensures Trimmed(Ordered(View(log)), budget) == log
  {
    ViewDetermines(Ordered(View(log)), log);
    assert log[..|log|] == log;
    RoomForAll(log, |log|, budget, 0);
  }

  /** Everything merged so far comes from the log up to `reach`, and the newest chunk there is included. */
  lemma DeliveryNewest(log: seq<LogChunk>, client: Client, k: nat, from: nat, to: nat, budget: Budget)
    requires Ascending(log) && Positive(log) && Holds(log, client, k, budget)
    requires from < to <= |log| && from <= k
    ensures var reach := if to < k then k else to;
            var all := Ordered(Added(View(client.chunks), log[from..to]));
            Within(all, log[..reach]) && LastSequence(all) == LastSequence(log[..reach])
  {
    var reach := if to < k then k else to;
    var m := Added(View(client.chunks), log[from..to]);
    DeliveryDrawn(log, client, k, from, to, budget);
    DeliveryReaches(log, client, k, from, to, budget);
    assert log[..reach][reach - 1] == log[reach - 1];
    NewestOf(m, log[..reach]);
    OrderedDrawn(m, log[..reach]);
  }

  lemma DeliveryKept(log: seq<LogChunk>, client: Client, k: nat, from: nat, to: nat, budget: Budget)
    requires budget != Chars(0)
    requires Ascending(log) && Positive(log) && Holds(log, client, k, budget)
    requires from < to <= |log| && from <= k
    ensures var merge := Merged(client.chunks, log[from..to], budget);
            Holds(log, Client(merge.chunks, merge.gap, merge.lastSequence), if to < k then k else to, budget)
  {
    DeliveryNewest(log, client, k, from, to, budget);
    MergeUnderBudget(client.chunks, log[from..to], budget);
    if Unbounded(budget, log[..if to < k then k else to]) {
      DeliveryExact(log, client, k, from, to, budget);
    }
  }

  // ---- The invariant of every run ----

  ghost predicate Delivering(codec: Codec, log: seq<LogChunk>, c: Connection, k: nat) {
    exists from: nat, to: nat :: Carries(codec, log, c, from, to) && from <= k
  }

  ghost predicate Inv(codec: Codec, budget: Budget, w: World, k: nat) {
    && Ascending(w.log) && Positive(w.log)
    && Holds(w.log, w.client, k, budget)
    && (forall i :: 0 <= i < |w.requests| ==> Asked(w.log, w.requests[i], k))
    && forall i :: 0 <= i < |w.connections| ==> Delivering(codec, w.log, w.connections[i], k)
  }

  /** The cursor of a request is a place in the log that the client has reached. */
  ghost predicate Asked(log: seq<LogChunk>, cursor: int, k: nat) {
    exists j: nat :: j <= k && j <= |log| && cursor == LastSequence(log[..j])
  }

  lemma AskedLater(log: seq<LogChunk>, more: seq<LogChunk>, cursor: int, k: nat, reach: nat)
    requires Asked(log, cursor, k) && k <= reach
    ensures Asked(log + more, cursor, reach)
  {
    var j: nat :| j <= k && j <= |log| && cursor == LastSequence(log[..j]);
    assert (log + more)[..j] == log[..j];
  }

  lemma DeliveringLater(codec: Codec, log: seq<LogChunk>, more: seq<LogChunk>, c: Connection, k: nat, reach: nat)
    requires Delivering(codec, log, c, k) && k <= reach
    ensures Delivering(codec, log + more, c, reach)
  {
    var from: nat, to: nat :| Carries(codec, log, c, from, to) && from <= k;
    assert (log + more)[from..to] == log[from..to];
    assert Carries(codec, log + more, c, from, to);
  }

  lemma AppendKeepsInv(codec: Codec, budget: Budget, w: World, k: nat, skip: nat, text: string)
    requires Inv(codec, budget, w, k)
    ensures Inv(codec, budget, Step(codec, budget, w, Append(skip, text)), k)
  {
    var more := [LogChunk(LastSequence(w.log) + 1 + skip, text)];
    assert (w.log + more)[..k] == w.log[..k];
    forall i | 0 <= i < |w.connections|
      ensures Delivering(codec, w.log + more, w.connections[i], k)
    {
      DeliveringLater(codec, w.log, more, w.connections[i], k, k);
    }
    forall i | 0 <= i < |w.requests|
      ensures Asked(w.log + more, w.requests[i], k)
    {
      AskedLater(w.log, more, w.requests[i], k, k);
    }
  }

  lemma {:induction false} PendingSuffixTo(log: seq<LogChunk>, k: nat, n: nat, after: int)
    requires Ascending(log) && k <= |log| && n <= |log|
    requires k == 0 ==> forall i :: 0 <= i < |log| ==> log[i].sequence > after
    requires k > 0 ==> after == log[k - 1].sequence
    ensures PendingTo(log, n, after) == if k <= n then log[k..n] else []
    decreases n
  {
    if n > 0 {
      PendingSuffixTo(log, k, n - 1, after);
      if k < n {
        Slice(log, k, n);
      }
    }
  }

  /** A client at position `k` of the log is behind by exactly the rest of it. */
  lemma PendingIsSuffix(log: seq<LogChunk>, k: nat)
    requires Ascending(log) && Positive(log) && k <= |log|
    ensures Pending(log, LastSequence(log[..k])) == log[k..]
  {
    PendingSuffixTo(log, k, |log|, LastSequence(log[..k]));
    assert log[k..|log|] == log[k..];
  }

  lemma ReplyCarries(codec: Codec, log: seq<LogChunk>, k: nat)
    requires k <= |log|
    ensures Carries(codec, log, Connection(Joined(Encoded(codec, log[k..]), ""), ""), k, |log|)
  {
    assert log[k..|log|] == log[k..];
    var text := Joined(Encoded(codec, log[k..]), "");
    assert "" + text == text;
  }

  lemma AnswerKeepsInv(codec: Codec, budget: Budget, w: World, j: nat, k: nat)
    requires Inv(codec, budget, w, k) && j <= k
    ensures Inv(codec, budget, Answered(codec, w, w.log[j..]), k)
  {
    ReplyCarries(codec, w.log, j);
    OpenKeepsInv(codec, budget, w, k, Connection(Joined(Encoded(codec, w.log[j..]), ""), ""));
  }

  lemma RequestKeepsInv(codec: Codec, budget: Budget, w: World, k: nat)
    requires Inv(codec, budget, w, k)
    ensures Inv(codec, budget, Step(codec, budget, w, Request), k)
  {
    assert Asked(w.log, w.client.cursor, k);
  }

  lemma AbortKeepsInv(codec: Codec, budget: Budget, w: World, k: nat, i: nat)
    requires Inv(codec, budget, w, k)
    ensures Inv(codec, budget, Step(codec, budget, w, Abort(i)), k)
  {
  }

  lemma ReplyKeepsInv(codec: Codec, budget: Budget, w: World, k: nat, i: nat)
    requires Inv(codec, budget, w, k)
    ensures Inv(codec, budget, Step(codec, budget, w, Reply(i)), k)
  {
    if i < |w.requests| {
      assert Asked(w.log, w.requests[i], k);
      var j: nat :| j <= k && j <= |w.log| && w.requests[i] == LastSequence(w.log[..j]);
      PendingIsSuffix(w.log, j);
      AbortKeepsInv(codec, budget, w, k, i);
      AnswerKeepsInv(codec, budget, Without(w, i), j, k);
    }
  }

  lemma OpenKeepsInv(codec: Codec, budget: Budget, w: World, k: nat, c: Connection)
    requires Inv(codec, budget, w, k) && Delivering(codec, w.log, c, k)
    ensures Inv(codec, budget, w.(connections := w.connections + [c]), k)
  {
  }

  lemma DropKeepsInv(codec: Codec, budget: Budget, w: World, k: nat, i: nat)
    requires Inv(codec, budget, w, k)
    ensures Inv(codec, budget, Step(codec, budget, w, Drop(i)), k)
  {
  }

  /** One read on one connection: the lines it completes and the range of chunks they encode. */
  lemma ReadDelivers(codec: Codec, log: seq<LogChunk>, c: Connection, n: nat, from: nat, to: nat) returns (mid: nat)
    requires Lawful(codec) && Carries(codec, log, c, from, to) && n <= |c.rest|
    ensures from <= mid <= to
    ensures SplitLines(c.buffer + c.rest[..n]).lines == Encoded(codec, log[from..mid])
    ensures Carries(codec, log, Connection(c.rest[n..], SplitLines(c.buffer + c.rest[..n]).tail), mid, to)
    ensures n == |c.rest| ==> mid == to
  {
    var chunks := log[from..to];
    var lines := Encoded(codec, chunks);
    assert c.buffer + c.rest[..n] + c.rest[n..] == c.buffer + c.rest;
    EncodedNewlineless(codec, chunks);
    var m := ReadCompletesLines(lines, c.buffer + c.rest[..n], c.rest[n..]);
    mid := from + m;
    EncodedSlices(codec, chunks, m);
    assert log[from..mid] == chunks[..m] && log[mid..to] == chunks[m..];
  }

  lemma EncodedSlices(codec: Codec, chunks: seq<LogChunk>, m: nat)
    requires m <= |chunks|
    ensures Encoded(codec, chunks)[..m] == Encoded(codec, chunks[..m])
    ensures Encoded(codec, chunks)[m..] == Encoded(codec, chunks[m..])
  {
  }

  function Later(k: nat, mid: nat): nat {
    if mid < k then k else mid
  }

  /** What one read does to its own connection, which carries `log[from..to]`, and to the client. */
  lemma ReadOne(codec: Codec, budget: Budget, log: seq<LogChunk>, client: Client, c: Connection, n: nat, k: nat, from: nat, to: nat)
      returns (mid: nat)
    requires Lawful(codec) && budget != Chars(0) && n <= |c.rest|
    requires Ascending(log) && Positive(log)
    requires Holds(log, client, k, budget) && Carries(codec, log, c, from, to) && from <= k
    ensures from <= mid <= to && (n == |c.rest| ==> mid == to)
    ensures Holds(log, ReadFrom(codec, budget, client, c, n).0, Later(k, mid), budget)
    ensures Carries(codec, log, ReadFrom(codec, budget, client, c, n).1, mid, to)
  {
    mid := ReadDelivers(codec, log, c, n, from, to);
    ParseEncoded(codec, log[from..mid], client.cursor);
    if from < mid {
      DeliveryKept(log, client, k, from, mid, budget);
    }
  }

  lemma ReadStep(codec: Codec, budget: Budget, w: World, k: nat, i: nat, count: nat, from: nat, to: nat) returns (mid: nat)
    requires Lawful(codec) && budget != Chars(0) && Inv(codec, budget, w, k)
    requires i < |w.connections| && Carries(codec, w.log, w.connections[i], from, to) && from <= k
    ensures from <= mid <= to && (count >= |w.connections[i].rest| ==> mid == to)
    ensures var v := Step(codec, budget, w, Read(i, count));
            Inv(codec, budget, v, Later(k, mid)) && Carries(codec, w.log, v.connections[i], mid, to)
  {
    var c := w.connections[i];
    var n := Taken(c, count);
    mid := ReadOne(codec, budget, w.log, w.client, c, n, k, from, to);
    var (client, after) := ReadFrom(codec, budget, w.client, c, n);
    ReadGives(codec, budget, w, k, i, client, after, mid, to);
  }

  lemma ReadGives(codec: Codec, budget: Budget, w: World, k: nat, i: nat, client: Client, c: Connection, mid: nat, to: nat)
    requires Inv(codec, budget, w, k) && i < |w.connections|
    requires Holds(w.log, client, Later(k, mid), budget) && Carries(codec, w.log, c, mid, to)
    ensures Inv(codec, budget, World(w.log, client, w.requests, w.connections[i := c]), Later(k, mid))
  {
    LaterServes(codec, w, k, Later(k, mid));
    assert Delivering(codec, w.log, c, Later(k, mid));
    ReceivedKeepsInv(codec, budget, w, client, i, c, Later(k, mid));
  }

  /** What is on its way stays within reach of a client that has moved on. */
  lemma LaterServes(codec: Codec, w: World, k: nat, reach: nat)
    requires k <= reach
    requires forall j :: 0 <= j < |w.connections| ==> Delivering(codec, w.log, w.connections[j], k)
    requires forall j :: 0 <= j < |w.requests| ==> Asked(w.log, w.requests[j], k)
    ensures forall j :: 0 <= j < |w.connections| ==> Delivering(codec, w.log, w.connections[j], reach)
    ensures forall j :: 0 <= j < |w.requests| ==> Asked(w.log, w.requests[j], reach)
  {
    assert w.log + [] == w.log;
    forall j | 0 <= j < |w.connections|
      ensures Delivering(codec, w.log, w.connections[j], reach)
    {
      DeliveringLater(codec, w.log, [], w.connections[j], k, reach);
    }
    forall j | 0 <= j < |w.requests|
      ensures Asked(w.log, w.requests[j], reach)
    {
      AskedLater(w.log, [], w.requests[j], k, reach);
    }
  }

  lemma ReceivedKeepsInv(codec: Codec, budget: Budget, w: World, client: Client, i: nat, c: Connection, reach: nat)
    requires Ascending(w.log) && Positive(w.log) && Holds(w.log, client, reach, budget)
    requires i < |w.connections| && Delivering(codec, w.log, c, reach)
    requires forall j :: 0 <= j < |w.connections| ==> Delivering(codec, w.log, w.connections[j], reach)
    requires forall j :: 0 <= j < |w.requests| ==> Asked(w.log, w.requests[j], reach)
    ensures Inv(codec, budget, World(w.log, client, w.requests, w.connections[i := c]), reach)
  {
  }

  lemma ReadKeepsInv(codec: Codec, budget: Budget, w: World, k: nat, i: nat, count: nat) returns (reach: nat)
    requires Lawful(codec) && budget != Chars(0)
    requires Inv(codec, budget, w, k)
    ensures k <= reach
    ensures Inv(codec, budget, Step(codec, budget, w, Read(i, count)), reach)
  {
    reach := k;
    if i < |w.connections| {
      assert Delivering(codec, w.log, w.connections[i], k);
      var from: nat, to: nat :| Carries(codec, w.log, w.connections[i], from, to) && from <= k;
      var mid := ReadStep(codec, budget, w, k, i, count, from, to);
      reach := Later(k, mid);
    }
  }

  lemma {:induction false} InvHolds(codec: Codec, budget: Budget, actions: seq<Action>) returns (k: nat)
    requires Lawful(codec) && budget != Chars(0)
    ensures Inv(codec, budget, Run(codec, budget, START, actions), k)
    decreases |actions|
  {
    if actions == [] {
      k := 0;
    } else {
      var init := actions[..|actions| - 1];
      k := InvHolds(codec, budget, init);
      var w := Run(codec, budget, START, init);
      match actions[|actions| - 1]
      case Append(skip, text) => AppendKeepsInv(codec, budget, w, k, skip, text);
      case Request => RequestKeepsInv(codec, budget, w, k);
      case Reply(i) => ReplyKeepsInv(codec, budget, w, k, i);
      case Abort(i) => AbortKeepsInv(codec, budget, w, k, i);
      case Read(i, count) => k := ReadKeepsInv(codec, budget, w, k, i, count);
      case Drop(i) => DropKeepsInv(codec, budget, w, k, i);
    }
  }

  /** The server's chunks up to a cursor. */
  function Upto(log: seq<LogChunk>, cursor: int): seq<LogChunk> {
    UptoIn(log, |log|, cursor)
  }

  function UptoIn(log: seq<LogChunk>, n: nat, cursor: int): seq<LogChunk>
    requires n <= |log|
  {
    if n == 0 then []
    else if log[n - 1].sequence <= cursor then UptoIn(log, n - 1, cursor) + [log[n - 1]]
    else UptoIn(log, n - 1, cursor)
  }

  lemma {:induction false} UptoInPrefix(log: seq<LogChunk>, k: nat, n: nat, cursor: int)
    requires Ascending(log) && k <= |log| && n <= |log|
    requires k == 0 ==> forall i :: 0 <= i < |log| ==> log[i].sequence > cursor
    requires k > 0 ==> cursor == log[k - 1].sequence
    ensures UptoIn(log, n, cursor) == log[..if n < k then n else k]
    decreases n
  {
    if n > 0 {
      UptoInPrefix(log, k, n - 1, cursor);
    }
  }

  lemma UptoIsPrefix(log: seq<LogChunk>, k: nat)
    requires Ascending(log) && Positive(log) && k <= |log|
    ensures Upto(log, LastSequence(log[..k])) == log[..k]
  {
    UptoInPrefix(log, k, |log|, LastSequence(log[..k]));
  }

  /**
   Lossless cursor protocol. After every run of appends, connects, partial reads and disconnects, over
   any number of overlapping connections, the client holds exactly the server's chunks up to its
   cursor as long as their text stays below the budget; over the budget it still holds only such
   chunks, in order, and the newest of them, so the cursor never skips a chunk it has not been given.
   */
  lemma LosslessCursor(codec: Codec, budget: Budget, actions: seq<Action>)
    requires Lawful(codec) && budget != Chars(0)
    ensures var w := Run(codec, budget, START, actions);
            var given := Upto(w.log, w.client.cursor);
            && Ascending(w.client.chunks)
            && Within(w.client.chunks, given)
            && LastSequence(w.client.chunks) == LastSequence(given) == w.client.cursor
            && (Unbounded(budget, given) ==> w.client.chunks == given)
  {
    var k := InvHolds(codec, budget, actions);
    var w := Run(codec, budget, START, actions);
    UptoIsPrefix(w.log, k);
  }

  /** Asking, getting the reply at once and reading it to its end. */
  function CatchUp(codec: Codec, w: World): seq<Action> {
    [Request, Reply(|w.requests|),
     Read(|w.connections|, |Joined(Encoded(codec, Pending(w.log, w.client.cursor)), "")|)]
  }

  /** The connection a fresh request gets. */
  function Fresh(codec: Codec, w: World): Connection {
    Connection(Joined(Encoded(codec, Pending(w.log, w.client.cursor)), ""), "")
  }

  lemma FreshReply(codec: Codec, budget: Budget, w: World)
    requires FitsResponse(Pending(w.log, w.client.cursor))
    ensures Step(codec, budget, Step(codec, budget, w, Request), Reply(|w.requests|)) ==
            w.(connections := w.connections + [Fresh(codec, w)])
  {
    var asked := Step(codec, budget, w, Request);
    assert asked.requests[..|w.requests|] + asked.requests[|w.requests| + 1..] == w.requests;
  }

  lemma RunThree(codec: Codec, budget: Budget, w: World, a: Action, b: Action, c: Action)
    ensures Run(codec, budget, w, [a, b, c]) == Step(codec, budget, Step(codec, budget, Step(codec, budget, w, a), b), c)
  {
    assert [a, b, c][..2] == [a, b] && [a, b][..1] == [a] && [a][..0] == [];
    assert Run(codec, budget, w, []) == w;
    assert Run(codec, budget, w, [a]) == Step(codec, budget, w, a);
    assert Run(codec, budget, w, [a, b]) == Step(codec, budget, Step(codec, budget, w, a), b);
  }

  /** Reading a reply to its end brings the cursor to the newest chunk the server had when it answered. */
  lemma WholeReplyCatchesUp(codec: Codec, budget: Budget, actions: seq<Action>)
    requires Lawful(codec) && budget != Chars(0)
    ensures var w := Run(codec, budget, START, actions);
            FitsResponse(Pending(w.log, w.client.cursor)) ==>
              Run(codec, budget, w, CatchUp(codec, w)).client.cursor == LastSequence(w.log)
  {
    var k := InvHolds(codec, budget, actions);
    var w := Run(codec, budget, START, actions);
    if FitsResponse(Pending(w.log, w.client.cursor)) {
      CatchesUp(codec, budget, w, k);
    }
  }

  lemma CatchesUp(codec: Codec, budget: Budget, w: World, k: nat)
    requires Lawful(codec) && budget != Chars(0) && Inv(codec, budget, w, k)
    requires FitsResponse(Pending(w.log, w.client.cursor))
    ensures Run(codec, budget, w, CatchUp(codec, w)).client.cursor == LastSequence(w.log)
  {
    var i := |w.connections|;
    var connected := w.(connections := w.connections + [Fresh(codec, w)]);
    FreshReply(codec, budget, w);
    RunThree(codec, budget, w, Request, Reply(|w.requests|), Read(i, |Fresh(codec, w).rest|));
    PendingIsSuffix(w.log, k);
    RequestKeepsInv(codec, budget, w, k);
    ReplyKeepsInv(codec, budget, Step(codec, budget, w, Request), k, |w.requests|);
    ReadToEnd(codec, budget, connected, i, k);
  }

  lemma ReadToEnd(codec: Codec, budget: Budget, w: World, i: nat, k: nat)
    requires Lawful(codec) && budget != Chars(0)
    requires Inv(codec, budget, w, k) && i < |w.connections|
    requires w.connections[i] == Connection(Joined(Encoded(codec, w.log[k..]), ""), "")
    ensures Step(codec, budget, w, Read(i, |w.connections[i].rest|)).client.cursor == LastSequence(w.log)
  {
    ReplyCarries(codec, w.log, k);
    ReadWhole(codec, budget, w.log, w.client, w.connections[i], k);
  }

  lemma ReadWhole(codec: Codec, budget: Budget, log: seq<LogChunk>, client: Client, c: Connection, k: nat)
    requires Lawful(codec) && budget != Chars(0) && Ascending(log) && Positive(log)
    requires Holds(log, client, k, budget) && Carries(codec, log, c, k, |log|)
    ensures Received(codec, budget, client, SplitLines(c.buffer + c.rest[..|c.rest|]).lines).cursor == LastSequence(log)
  {
    var mid := ReadDelivers(codec, log, c, |c.rest|, k, |log|);
    ParseEncoded(codec, log[k..mid], client.cursor);
    Whole(log);
    if k < mid {
      DeliveryKept(log, client, k, k, mid, budget);
    }
  }

  /**
   The limit on one reply can starve a client: once its backlog no longer fits and no connection is
   open, nothing that happens later ever reaches it.
   */
  lemma {:induction false} OversizedBacklogStarves(codec: Codec, budget: Budget, w: World, actions: seq<Action>)
    requires Starved(w)
    ensures Starved(Run(codec, budget, w, actions))
    ensures Run(codec, budget, w, actions).client == w.client
    decreases |actions|
  {
    if actions != [] {
      var init := actions[..|actions| - 1];
      OversizedBacklogStarves(codec, budget, w, init);
      StarvedStep(codec, budget, Run(codec, budget, w, init), actions[|init|]);
    }
  }

  /** No connection is open, and neither a request on its way nor a new one can be answered. */
  ghost predicate Starved(w: World) {
    && w.connections == [] && !FitsResponse(Pending(w.log, w.client.cursor))
    && forall i :: 0 <= i < |w.requests| ==> w.requests[i] <= w.client.cursor
  }

  lemma {:induction false} PendingToSame(s: seq<LogChunk>, t: seq<LogChunk>, n: nat, after: int)
    requires n <= |s| && n <= |t| && forall k :: 0 <= k < n ==> s[k] == t[k]
    ensures PendingTo(s, n, after) == PendingTo(t, n, after)
  {
    if n > 0 {
      PendingToSame(s, t, n - 1, after);
    }
  }

  /** An older cursor has the longer backlog. */
  lemma {:induction false} OlderHasMore(log: seq<LogChunk>, n: nat, older: int, after: int)
    requires n <= |log| && older <= after
    ensures |PendingTo(log, n, after)| <= |PendingTo(log, n, older)|
    ensures Size(PendingTo(log, n, after)) <= Size(PendingTo(log, n, older))
  {
    if n > 0 {
      OlderHasMore(log, n - 1, older, after);
      SizeSnoc(PendingTo(log, n - 1, after), log[n - 1]);
      SizeSnoc(PendingTo(log, n - 1, older), log[n - 1]);
    }
  }

  lemma StarvedStep(codec: Codec, budget: Budget, w: World, a: Action)
    requires Starved(w)
    ensures Starved(Step(codec, budget, w, a)) && Step(codec, budget, w, a).client == w.client
  {
    match a
    case Append(_, _) =>
      var log := Step(codec, budget, w, a).log;
      PendingGrows(log, w.client.cursor, |w.log|, |log|);
      PendingToSame(log, w.log, |w.log|, w.client.cursor);
    case Reply(i) =>
      if i < |w.requests| {
        OlderHasMore(w.log, |w.log|, w.requests[i], w.client.cursor);
      }
    case _ =>
  }

  /** Appending `n` empty chunks. */
  function Appends(n: nat): seq<Action> {
    if n == 0 then [] else Appends(n - 1) + [Append(0, "")]
  }

  lemma {:induction false} AppendsOnly(codec: Codec, budget: Budget, n: nat)
    ensures var w := Run(codec, budget, START, Appends(n));
            |w.log| == n && w.client == START.client && w.connections == [] && w.requests == []
  {
    if n > 0 {
      AppendsOnly(codec, budget, n - 1);
      Snoc(Appends(n - 1), Append(0, ""));
    }
  }

  /** The starving state is reached by 1001 chunks before the first request. */
  lemma StarvedIsReachable(codec: Codec, budget: Budget) returns (actions: seq<Action>)
    requires Lawful(codec) && budget != Chars(0)
    ensures Starved(Run(codec, budget, START, actions))
  {
    actions := Appends(MAX_CHUNKS_PER_READ + 1);
    AppendsOnly(codec, budget, MAX_CHUNKS_PER_READ + 1);
    var k := InvHolds(codec, budget, actions);
    var w := Run(codec, budget, START, actions);
    PendingIsSuffix(w.log, 0);
  }

  lemma StarvedWhenTooMuch(codec: Codec, budget: Budget, w: World, k: nat)
    requires Inv(codec, budget, w, k) && w.connections == [] && !FitsResponse(Pending(w.log, w.client.cursor))
    ensures Starved(w) && w.client.cursor < LastSequence(w.log)
  {
    PendingIsSuffix(w.log, k);
    Whole(w.log);
    forall i | 0 <= i < |w.requests|
      ensures w.requests[i] <= w.client.cursor
    {
      assert Asked(w.log, w.requests[i], k);
    }
  }

  /** Some later run brings the client the newest chunk the server has. */
  ghost predicate Deliverable(codec: Codec, budget: Budget, w: World) {
    exists more :: Run(codec, budget, w, more).client.cursor >= LastSequence(w.log)
  }

  /**
   From every reachable state without an open connection, the newest chunk can still be delivered exactly
   when the backlog fits one reply.
   */
  lemma DeliverableExactly(codec: Codec, budget: Budget, actions: seq<Action>)
    requires Lawful(codec) && budget != Chars(0)
    requires Run(codec, budget, START, actions).connections == []
    ensures var w := Run(codec, budget, START, actions);
            Deliverable(codec, budget, w) <==> FitsResponse(Pending(w.log, w.client.cursor))
  {
    var k := InvHolds(codec, budget, actions);
    DeliverableFrom(codec, budget, Run(codec, budget, START, actions), k);
  }

  lemma DeliverableFrom(codec: Codec, budget: Budget, w: World, k: nat)
    requires Lawful(codec) && budget != Chars(0) && Inv(codec, budget, w, k) && w.connections == []
    ensures Deliverable(codec, budget, w) <==> FitsResponse(Pending(w.log, w.client.cursor))
  {
    if FitsResponse(Pending(w.log, w.client.cursor)) {
      CatchesUp(codec, budget, w, k);
    } else {
      StarvedWhenTooMuch(codec, budget, w, k);
      forall more
        ensures Run(codec, budget, w, more).client == w.client
      {
        OversizedBacklogStarves(codec, budget, w, more);
      }
    }
  }

  // ---- With connections open ----

  lemma {:induction false} RunFirst(codec: Codec, budget: Budget, w: World, a: Action, more: seq<Action>)
    ensures Run(codec, budget, w, [a] + more) == Run(codec, budget, Step(codec, budget, w, a), more)
    decreases |more|
  {
    if more == [] {
      assert [a] + more == [a] && [a][..0] == [];
      assert Run(codec, budget, w, []) == w;
    } else {
      var init, last := more[..|more| - 1], more[|more| - 1];
      RunFirst(codec, budget, w, a, init);
      RunLast(codec, budget, w, [a] + init, last);
      Unsnoc(more);
      Assoc([a], init, [last]);
    }
  }

  lemma RunLast(codec: Codec, budget: Budget, w: World, actions: seq<Action>, a: Action)
    ensures Run(codec, budget, w, actions + [a]) == Step(codec, budget, Run(codec, budget, w, actions), a)
  {
    Snoc(actions, a);
  }

  /** A longer backlog needs more room. */
  lemma LongerSuffix(log: seq<LogChunk>, j: nat, k: nat)
    requires j <= k <= |log|
    ensures FitsResponse(log[j..]) ==> FitsResponse(log[k..])
  {
    assert log[j..] == log[j..k] + log[k..];
    SizeConcat(log[j..k], log[k..]);
  }

  lemma GrownSuffix(log: seq<LogChunk>, more: seq<LogChunk>, k: nat)
    requires k <= |log|
    ensures FitsResponse((log + more)[k..]) ==> FitsResponse(log[k..])
  {
    assert (log + more)[k..] == log[k..] + more;
    SizeConcat(log[k..], more);
  }

  /** The connection still has chunks to deliver, up to `log[..to]`. */
  ghost predicate StillCarries(codec: Codec, log: seq<LogChunk>, c: Connection, k: nat, to: nat) {
    exists from: nat :: from <= k && from < to && Carries(codec, log, c, from, to)
  }

  /** What the client has or an open connection brings it: the chunks up to `reach`. */
  ghost predicate Available(codec: Codec, w: World, k: nat, reach: nat) {
    reach == k || exists i :: 0 <= i < |w.connections| && StillCarries(codec, w.log, w.connections[i], k, reach)
  }

  /** From one such place the rest of the log fits one reply. */
  ghost predicate Bridged(codec: Codec, w: World, k: nat) {
    exists reach: nat :: reach <= |w.log| && Available(codec, w, k, reach) && FitsResponse(w.log[reach..])
  }

  lemma DeliverableByReading(codec: Codec, budget: Budget, w: World, k: nat, i: nat, reach: nat)
    requires Lawful(codec) && budget != Chars(0) && Inv(codec, budget, w, k)
    requires i < |w.connections| && k < reach <= |w.log| && StillCarries(codec, w.log, w.connections[i], k, reach)
    requires FitsResponse(w.log[reach..])
    ensures Deliverable(codec, budget, w)
  {
    var from: nat :| from <= k && from < reach && Carries(codec, w.log, w.connections[i], from, reach);
    var read := Read(i, |w.connections[i].rest|);
    var mid := ReadStep(codec, budget, w, k, i, |w.connections[i].rest|, from, reach);
    var v := Step(codec, budget, w, read);
    PendingIsSuffix(v.log, reach);
    CatchesUp(codec, budget, v, reach);
    DeliverableAfter(codec, budget, w, read, CatchUp(codec, v));
  }

  lemma DeliverableAfter(codec: Codec, budget: Budget, w: World, a: Action, more: seq<Action>)
    requires Run(codec, budget, Step(codec, budget, w, a), more).client.cursor >= LastSequence(w.log)
    ensures Deliverable(codec, budget, w)
  {
    RunFirst(codec, budget, w, a, more);
  }

  lemma BridgedIsDeliverable(codec: Codec, budget: Budget, w: World, k: nat)
    requires Lawful(codec) && budget != Chars(0) && Inv(codec, budget, w, k) && Bridged(codec, w, k)
    ensures Deliverable(codec, budget, w)
  {
    var reach: nat :| reach <= |w.log| && Available(codec, w, k, reach) && FitsResponse(w.log[reach..]);
    if reach <= k {
      LongerSuffix(w.log, reach, k);
      PendingIsSuffix(w.log, k);
      CatchesUp(codec, budget, w, k);
    } else {
      var i :| 0 <= i < |w.connections| && StillCarries(codec, w.log, w.connections[i], k, reach);
      DeliverableByReading(codec, budget, w, k, i, reach);
    }
  }

  /** All the connection can do ends before chunk `bound` with too much left to ask for. */
  ghost predicate DeadEnd(codec: Codec, log: seq<LogChunk>, c: Connection, k: nat, bound: nat) {
    exists from: nat, to: nat :: Carries(codec, log, c, from, to) && from <= k && Short(log, from, to, bound)
  }

  ghost predicate Short(log: seq<LogChunk>, from: nat, to: nat, bound: nat) {
    to <= |log| && (from == to || (to < bound && !FitsResponse(log[to..])))
  }

  ghost predicate AllDeadEnds(codec: Codec, log: seq<LogChunk>, connections: seq<Connection>, k: nat, bound: nat) {
    forall i :: 0 <= i < |connections| ==> DeadEnd(codec, log, connections[i], k, bound)
  }

  ghost predicate Behind(log: seq<LogChunk>, k: nat, bound: nat) {
    k < bound <= |log| && !FitsResponse(log[k..])
  }

  ghost predicate Stuck(codec: Codec, budget: Budget, w: World, k: nat, bound: nat) {
    Inv(codec, budget, w, k) && Behind(w.log, k, bound) && AllDeadEnds(codec, w.log, w.connections, k, bound)
  }

  lemma DeadEndLater(codec: Codec, log: seq<LogChunk>, more: seq<LogChunk>, c: Connection, k: nat, reach: nat, bound: nat)
    requires DeadEnd(codec, log, c, k, bound) && k <= reach
    ensures DeadEnd(codec, log + more, c, reach, bound)
  {
    var from: nat, to: nat :| Carries(codec, log, c, from, to) && from <= k && Short(log, from, to, bound);
    assert (log + more)[from..to] == log[from..to];
    GrownSuffix(log, more, to);
    assert Carries(codec, log + more, c, from, to) && Short(log + more, from, to, bound);
  }

  lemma AllDeadEndsLater(
    codec: Codec, log: seq<LogChunk>, more: seq<LogChunk>, connections: seq<Connection>, k: nat, reach: nat, bound: nat)
    requires AllDeadEnds(codec, log, connections, k, bound) && k <= reach
    ensures AllDeadEnds(codec, log + more, connections, reach, bound)
  {
    forall i | 0 <= i < |connections|
      ensures DeadEnd(codec, log + more, connections[i], reach, bound)
    {
      DeadEndLater(codec, log, more, connections[i], k, reach, bound);
    }
  }

  lemma StuckAppend(codec: Codec, budget: Budget, w: World, k: nat, bound: nat, more: seq<LogChunk>)
    requires Behind(w.log, k, bound) && AllDeadEnds(codec, w.log, w.connections, k, bound)
    ensures Behind(w.log + more, k, bound) && AllDeadEnds(codec, w.log + more, w.connections, k, bound)
  {
    GrownSuffix(w.log, more, k);
    AllDeadEndsLater(codec, w.log, more, w.connections, k, k, bound);
  }

  /** While too much is left, no request gets an answer. */
  lemma NoAnswer(codec: Codec, budget: Budget, w: World, k: nat, bound: nat, i: nat)
    requires Inv(codec, budget, w, k) && Behind(w.log, k, bound) && i < |w.requests|
    ensures Step(codec, budget, w, Reply(i)) == Without(w, i)
  {
    assert Asked(w.log, w.requests[i], k);
    var j: nat :| j <= k && j <= |w.log| && w.requests[i] == LastSequence(w.log[..j]);
    PendingIsSuffix(w.log, j);
    LongerSuffix(w.log, j, k);
  }

  lemma ReadEnds(
    codec: Codec, log: seq<LogChunk>, connections: seq<Connection>, i: nat, c: Connection, k: nat, mid: nat, from: nat, to: nat, bound: nat)
    requires Behind(log, k, bound) && AllDeadEnds(codec, log, connections, k, bound) && i < |connections|
    requires from <= mid <= to && Short(log, from, to, bound) && from <= k && Carries(codec, log, c, mid, to)
    ensures Behind(log, Later(k, mid), bound) && AllDeadEnds(codec, log, connections[i := c], Later(k, mid), bound)
  {
    var reach := Later(k, mid);
    assert log + [] == log;
    AllDeadEndsLater(codec, log, [], connections, k, reach, bound);
    assert Short(log, mid, to, bound);
    assert DeadEnd(codec, log, c, reach, bound);
    LongerSuffix(log, mid, to);
  }

  lemma StuckRead(codec: Codec, budget: Budget, w: World, k: nat, bound: nat, i: nat, count: nat) returns (reach: nat)
    requires Lawful(codec) && budget != Chars(0) && Stuck(codec, budget, w, k, bound)
    ensures Stuck(codec, budget, Step(codec, budget, w, Read(i, count)), reach, bound)
  {
    reach := k;
    if i < |w.connections| {
      assert DeadEnd(codec, w.log, w.connections[i], k, bound);
      var from: nat, to: nat :| Carries(codec, w.log, w.connections[i], from, to) && from <= k && Short(w.log, from, to, bound);
      var mid := ReadStep(codec, budget, w, k, i, count, from, to);
      reach := Later(k, mid);
      var v := Step(codec, budget, w, Read(i, count));
      ReadEnds(codec, w.log, w.connections, i, v.connections[i], k, mid, from, to, bound);
      assert v.connections == w.connections[i := v.connections[i]];
    }
  }

  lemma StuckQuiet(codec: Codec, budget: Budget, w: World, k: nat, bound: nat, a: Action)
    requires Stuck(codec, budget, w, k, bound) && (a.Request? || a.Reply? || a.Abort? || a.Drop?)
    ensures Stuck(codec, budget, Step(codec, budget, w, a), k, bound) && Step(codec, budget, w, a).log == w.log
  {
    match a
    case Request => RequestKeepsInv(codec, budget, w, k);
    case Reply(i) =>
      ReplyKeepsInv(codec, budget, w, k, i);
      if i < |w.requests| {
        NoAnswer(codec, budget, w, k, bound, i);
      }
    case Abort(i) => AbortKeepsInv(codec, budget, w, k, i);
    case Drop(i) => DropKeepsInv(codec, budget, w, k, i);
  }

  lemma StuckStep(codec: Codec, budget: Budget, w: World, k: nat, bound: nat, a: Action) returns (reach: nat)
    requires Lawful(codec) && budget != Chars(0) && Stuck(codec, budget, w, k, bound)
    ensures Stuck(codec, budget, Step(codec, budget, w, a), reach, bound)
    ensures w.log <= Step(codec, budget, w, a).log
  {
    reach := k;
    match a
    case Append(skip, text) =>
      AppendKeepsInv(codec, budget, w, k, skip, text);
      StuckAppend(codec, budget, w, k, bound, [LogChunk(LastSequence(w.log) + 1 + skip, text)]);
    case Read(i, count) => reach := StuckRead(codec, budget, w, k, bound, i, count);
    case _ => StuckQuiet(codec, budget, w, k, bound, a);
  }

  lemma {:induction false} StuckRun(codec: Codec, budget: Budget, w: World, k: nat, bound: nat, actions: seq<Action>) returns (reach: nat)
    requires Lawful(codec) && budget != Chars(0) && Stuck(codec, budget, w, k, bound)
    ensures Stuck(codec, budget, Run(codec, budget, w, actions), reach, bound)
    ensures w.log <= Run(codec, budget, w, actions).log
    decreases |actions|
  {
    reach := k;
    if actions != [] {
      var init := actions[..|actions| - 1];
      reach := StuckRun(codec, budget, w, k, bound, init);
      reach := StuckStep(codec, budget, Run(codec, budget, w, init), reach, bound, actions[|init|]);
    }
  }

  lemma StuckIsBehind(codec: Codec, budget: Budget, w: World, v: World, k: nat)
    requires Stuck(codec, budget, v, k, |w.log|) && w.log <= v.log
    ensures v.client.cursor < LastSequence(w.log)
  {
    var n := |w.log|;
    assert v.log[..n] == w.log && w.log[n - 1] == v.log[n - 1];
    assert k > 0 ==> v.log[..k][k - 1] == v.log[k - 1];
  }

  lemma UnbridgedIsStuck(codec: Codec, budget: Budget, w: World, k: nat)
    requires Inv(codec, budget, w, k) && !Bridged(codec, w, k)
    ensures Stuck(codec, budget, w, k, |w.log|)
  {
    assert Available(codec, w, k, k);
    forall i | 0 <= i < |w.connections|
      ensures DeadEnd(codec, w.log, w.connections[i], k, |w.log|)
    {
      assert Delivering(codec, w.log, w.connections[i], k);
      var from: nat, to: nat :| Carries(codec, w.log, w.connections[i], from, to) && from <= k;
      if from < to {
        assert StillCarries(codec, w.log, w.connections[i], k, to);
        assert Available(codec, w, k, to);
      }
      assert Short(w.log, from, to, |w.log|);
    }
    assert k < |w.log|;
  }

  /**
   From every reachable state, connections open or not, the newest chunk can still be delivered exactly
   when the rest of the log fits one reply from the client's place or from where an open connection ends.
   */
  lemma DeliverableThroughConnections(codec: Codec, budget: Budget, actions: seq<Action>)
    requires Lawful(codec) && budget != Chars(0)
    ensures var w := Run(codec, budget, START, actions);
            Deliverable(codec, budget, w) <==> Bridged(codec, w, |Upto(w.log, w.client.cursor)|)
  {
    var k := InvHolds(codec, budget, actions);
    var w := Run(codec, budget, START, actions);
    UptoIsPrefix(w.log, k);
    DeliverableWhenBridged(codec, budget, w, k);
  }

  lemma DeliverableWhenBridged(codec: Codec, budget: Budget, w: World, k: nat)
    requires Lawful(codec) && budget != Chars(0) && Inv(codec, budget, w, k)
    ensures Deliverable(codec, budget, w) <==> Bridged(codec, w, k)
  {
    if Bridged(codec, w, k) {
      BridgedIsDeliverable(codec, budget, w, k);
    } else {
      UnbridgedIsStuck(codec, budget, w, k);
      forall more
        ensures Run(codec, budget, w, more).client.cursor < LastSequence(w.log)
      {
        var reach := StuckRun(codec, budget, w, k, |w.log|, more);
        StuckIsBehind(codec, budget, w, Run(codec, budget, w, more), reach);
      }
    }
  }

  // ---- The reader itself ----

  /** The state after reading `pieces` one after another on one connection. */
  ghost function ReadAll(codec: Codec, budget: Budget, client: Client, buffer: string, pieces: seq<string>): (Client, string) {
    if pieces == [] then (client, buffer)
    else
      var (before, held) := ReadAll(codec, budget, client, buffer, pieces[..|pieces| - 1]);
      var split := SplitLines(held + pieces[|pieces| - 1]);
      (Received(codec, budget, before, split.lines), split.tail)
  }

  function Concat(pieces: seq<string>): string {
    if pieces == [] then "" else Concat(pieces[..|pieces| - 1]) + pieces[|pieces| - 1]
  }

  function Reads(i: nat, pieces: seq<string>): seq<Action> {
    if pieces == [] then [] else Reads(i, pieces[..|pieces| - 1]) + [Read(i, |pieces[|pieces| - 1]|)]
  }

  /** Reading in pieces is a run of `Read` steps, so what holds of every run holds of the read loop. */
  lemma {:induction false} ReadingIsRunning(codec: Codec, budget: Budget, w: World, i: nat, pieces: seq<string>, rest: string)
    requires i < |w.connections| && w.connections[i].rest == Concat(pieces) + rest
    ensures var later := Run(codec, budget, w, Reads(i, pieces));
            && |later.connections| == |w.connections|
            && later.connections[i].rest == rest
            && ReadAll(codec, budget, w.client, w.connections[i].buffer, pieces) == (later.client, later.connections[i].buffer)
    decreases |pieces|
  {
    if pieces == [] {
      assert Concat(pieces) + rest == rest;
    } else {
      var init, last := pieces[..|pieces| - 1], pieces[|pieces| - 1];
      assert Concat(pieces) + rest == Concat(init) + (last + rest);
      ReadingIsRunning(codec, budget, w, i, init, last + rest);
      assert Reads(i, pieces)[..|Reads(i, pieces)| - 1] == Reads(i, init);
      assert (last + rest)[..|last|] == last && (last + rest)[|last|..] == rest;
    }
  }

  /** The state behind `useLogStream`: the visible chunks, the gap flag and the `lastSequence` ref. */
  class LogReader {
    var chunks: seq<LogChunk>
    var gap: bool
    var lastSequence: int
    const budget: Budget := Chars(MAX_VISIBLE_LOG_CHARS)

    constructor ()
      ensures Value() == START.client
    {
      chunks, gap, lastSequence := [], false, 0;
    }

    ghost function Value(): Client
      reads this
    {
      Client(chunks, gap, lastSequence)
    }

    /** The `setState` callback of `useLogStream`. */
    method OnChunks(incoming: seq<LogChunk>)
      modifies this
      ensures var merge := Merged(old(chunks), incoming, Chars(200_000));
              Value() == Client(merge.chunks, merge.gap, merge.lastSequence)
    {
      var merge := MergeChunks(chunks, incoming, budget);
      lastSequence := merge.lastSequence;
      chunks, gap := merge.chunks, merge.gap;
    }

    /** `consumeLogStream`: read to the end of `pieces`; an unterminated last line is discarded. */
    method Consume(codec: Codec, pieces: seq<string>)
      modifies this
      ensures Value() == ReadAll(codec, budget, old(Value()), "", pieces).0
    {
      var buffer := "";
      for i := 0 to |pieces|
        invariant ReadAll(codec, budget, old(Value()), "", pieces[..i]) == (Value(), buffer)
      {
        assert pieces[..i + 1][..i] == pieces[..i];
        buffer := buffer + pieces[i];
        var split := SplitLines(buffer);
        buffer := split.tail;
        var incoming := ParseLines(codec, split.lines, lastSequence);
        if incoming != [] {
          OnChunks(incoming);
        }
      }
      assert pieces[..|pieces|] == pieces;
    }
  }
}
