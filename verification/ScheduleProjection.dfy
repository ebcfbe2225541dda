/**
 The seven-day projection of all schedules: from cron expressions to the segments marked as conflicted.
 Source: backend/internal/controlplane/projection.go.
 */
module ScheduleProjection {
  import opened Common
  import opened Cron
  import opened CronSchedule
  import opened Durations
  import opened Numerals
  import opened Projection

  const HORIZON: int := 7 * 24 * 3600 * SECOND

  datatype ProjectionError = TimeRequired | IncompleteInput | InvalidDuration | NextFireFailed | NonIncreasing

  /** A schedule as the projection reads it; `local` is its time zone. */
  datatype Input = Input(
    scheduleId: string, taskId: string, taskVersionId: string, expression: string,
    local: int -> int, durationSeconds: int, resources: set<string>)
  {
    predicate Complete() {
      scheduleId != "" && taskId != "" && taskVersionId != "" && expression != ""
    }
  }

  /**
   What a schedule does: whether its expression can be read, whether its time zone has a fixed offset,
   whether any day can meet its fields, and the instants it fires at.
   */
  datatype Plan = Plan(readable: bool, fixed: bool, possible: bool, fires: iset<int>)

  ghost function PlanOf(input: Input): Plan {
    match ReadCron(input.expression)
    case None => Plan(false, false, false, iset{})
    case Some(f) => PlanFor(f, input.local)
  }

  ghost function PlanFor(f: Fields, local: int -> int): Plan {
    Plan(true, HasFixedOffset(local), Satisfiable(f), iset t | Fires(f, local, t))
  }

  ghost predicate HasFixedOffset(local: int -> int) {
    exists offset :: FixedOffset(local, offset)
  }

  /** The instants the expression of a schedule is meant for. */
  ghost function MeantInstants(input: Input): iset<int> {
    match ParseCron(input.expression)
    case None => iset{}
    case Some(f) => iset t | Fires(f, input.local, t)
  }

  /** A schedule fires at the instants it is meant for if, and with a fixed offset only if, it is read as meant. */
  lemma PlanIsMeantExactly(input: Input)
    requires PlanOf(input).readable
    ensures ReadAsMeant(input.expression) ==> PlanOf(input).fires == MeantInstants(input)
    ensures PlanOf(input).fixed && PlanOf(input).fires == MeantInstants(input) ==> ReadAsMeant(input.expression)
  {
    ReadCronExactly(input.expression);
    InstantsAreMeantExactly(ReadCron(input.expression).value, ParseCron(input.expression).value, input.local);
  }

  lemma InstantsAreMeantExactly(f: Fields, g: Fields, local: int -> int)
    ensures SameMeaning(f, g) ==> (iset t | Fires(f, local, t)) == (iset t | Fires(g, local, t))
    ensures HasFixedOffset(local) && (iset t | Fires(f, local, t)) == (iset t | Fires(g, local, t)) ==> SameMeaning(f, g)
  {
    var a, b := iset t | Fires(f, local, t), iset t | Fires(g, local, t);
    SameMinutesExactly(f, g);
    if HasFixedOffset(local) && a == b {
      forall t ensures Fires(f, local, t) <==> Fires(g, local, t) {
        assert t in a <==> t in b;
      }
      var offset :| FixedOffset(local, offset);
      SameInstantsExactly(f, g, local, offset);
    }
  }

  // ---- Occurrence ids ----

  /** `time.RFC3339Nano` in UTC writes different instants differently, and never an at sign. */
  ghost predicate LawfulFormat(format: int -> string) {
    && (forall t :: '@' !in format(t))
    && (forall s, t :: format(s) == format(t) ==> s == t)
  }

  /** There is such a format: the number itself, in decimal notation. */
  lemma DecimalFormatIsLawful()
    ensures LawfulFormat(Signed)
  {
    forall t ensures '@' !in Signed(t) {
      SignedParses(t);
    }
    forall s, t | Signed(s) == Signed(t) ensures s == t {
      SignedParses(s);
      SignedParses(t);
    }
  }

  function OccurrenceId(format: int -> string, scheduleId: string, at: int): string {
    scheduleId + (['@'] + format(at))
  }

  /** An occurrence id determines its schedule and its time, even when schedule ids contain at signs. */
  lemma OccurrenceIdDetermines(format: int -> string, a: string, s: int, b: string, t: int)
    requires LawfulFormat(format) && OccurrenceId(format, a, s) == OccurrenceId(format, b, t)
    ensures a == b && s == t
  {
    SplitAtLastSign(a, format(s), b, format(t));
  }

  lemma SignAndTail(a: string, f: string)
    ensures var x := a + (['@'] + f);
            && |x| == |a| + 1 + |f| && x[|a|] == '@' && x[..|a|] == a && x[|a| + 1..] == f
            && forall k :: |a| < k < |x| ==> x[k] == f[k - |a| - 1]
  {
  }

  /** Every at sign is at or before the one that a sign-free tail follows. */
  lemma LastSign(x: string, i: nat, j: nat, f: string)
    requires |x| == i + 1 + |f| && '@' !in f && j < |x| && x[j] == '@'
    requires forall k :: i < k < |x| ==> x[k] == f[k - i - 1]
    ensures j <= i
  {
  }

  lemma SplitAtLastSign(a: string, f: string, b: string, g: string)
    requires '@' !in f && '@' !in g && a + (['@'] + f) == b + (['@'] + g)
    ensures a == b && f == g
  {
    SignAndTail(a, f);
    SignAndTail(b, g);
    var x := a + (['@'] + f);
    LastSign(x, |a|, |b|, f);
    LastSign(x, |b|, |a|, g);
  }

  lemma IdsDiffer(format: int -> string, p: Occurrence, a: string, q: Occurrence, b: string)
    requires LawfulFormat(format)
    requires p.id == OccurrenceId(format, a, p.start) && q.id == OccurrenceId(format, b, q.start)
    requires a != b || p.start != q.start
    ensures p.id != q.id
  {
    if p.id == q.id {
      OccurrenceIdDetermines(format, a, p.start, b, q.start);
    }
  }

  // ---- One schedule ----

  ghost predicate WindowOf(w: Window, input: Input, format: int -> string) {
    && w.occurrence.id == OccurrenceId(format, input.scheduleId, w.occurrence.start)
    && w.occurrence.end == w.occurrence.start + Seconds(input.durationSeconds)
    && w.resources == input.resources
    && w.occurrence.start < w.occurrence.end
  }

  /** The windows of one schedule: within the horizon, in increasing order, each of the configured duration. */
  ghost predicate WindowsOf(windows: seq<Window>, input: Input, format: int -> string, start: int, end: int) {
    && (forall i :: 0 <= i < |windows| ==> WindowOf(windows[i], input, format) && start < windows[i].occurrence.start < end)
    && (forall i, j :: 0 <= i < j < |windows| ==> windows[i].occurrence.start < windows[j].occurrence.start)
  }

  ghost predicate StartsAt(windows: seq<Window>, t: int) {
    exists i :: 0 <= i < |windows| && windows[i].occurrence.start == t
  }

  /** Between `start` and `end` a window starts exactly when the schedule fires. */
  ghost predicate Exactly(windows: seq<Window>, fires: iset<int>, start: int, end: int) {
    forall t :: start < t < end ==> (StartsAt(windows, t) <==> t in fires)
  }

  ghost predicate Silent(fires: iset<int>, a: int, b: int) {
    forall t :: a < t < b ==> t !in fires
  }

  /** When a schedule in a time zone of fixed offset can be projected. */
  ghost predicate Projectable(input: Input, plan: Plan, start: int, end: int) {
    && input.scheduleId != "" && input.taskId != "" && input.taskVersionId != "" && input.expression != ""
    && input.durationSeconds > 0 && plan.possible
    && (Seconds(input.durationSeconds) > 0 || Silent(plan.fires, start, end))
  }

  /** The schedule's next occurrence after `now`, as the plan has it. */
  ghost predicate NextIs(plan: Plan, now: int, next: Option<int>) {
    && (next.Some? ==> plan.readable)
    && (next.Some? ==>
          plan.possible && now < next.value && next.value in plan.fires && Silent(plan.fires, now, next.value))
    && (plan.fixed && next.None? ==> !plan.possible)
  }

  method NextOf(input: Input, now: int) returns (next: Option<int>)
    ensures NextIs(PlanOf(input), now, next)
  {
    next := NextFire(input.expression, input.local, now);
    ReadCronExactly(input.expression);
    if ReadCron(input.expression).Some? {
      AnswerIsNext(ReadCron(input.expression).value, input.local, now, next);
    }
  }

  lemma AnswerIsNext(f: Fields, local: int -> int, now: int, next: Option<int>)
    requires Answers(f, local, now, next)
    ensures NextIs(PlanFor(f, local), now, next)
  {
  }

  lemma NextWindow(windows: seq<Window>, w: Window, input: Input, format: int -> string, start: int, cursor: int, end: int)
    requires WindowsOf(windows, input, format, start, end) && WindowOf(w, input, format)
    requires start <= cursor < w.occurrence.start < end
    requires forall i :: 0 <= i < |windows| ==> windows[i].occurrence.start <= cursor
    ensures WindowsOf(windows + [w], input, format, start, end)
    ensures forall t :: StartsAt(windows + [w], t) <==> StartsAt(windows, t) || t == w.occurrence.start
    ensures forall i :: 0 <= i <= |windows| ==> (windows + [w])[i].occurrence.start <= w.occurrence.start
  {
    var more := windows + [w];
    forall t
      ensures StartsAt(more, t) <==> StartsAt(windows, t) || t == w.occurrence.start
    {
      if i :| 0 <= i < |windows| && windows[i].occurrence.start == t {
        assert more[i].occurrence.start == t;
      }
      assert more[|windows|] == w;
    }
  }

  ghost predicate UpTo(windows: seq<Window>, input: Input, plan: Plan, format: int -> string, start: int, cursor: int, end: int) {
    && WindowsOf(windows, input, format, start, end)
    && (forall i :: 0 <= i < |windows| ==> windows[i].occurrence.start <= cursor)
    && (windows != [] ==> Seconds(input.durationSeconds) > 0)
    && (start < cursor ==> plan.readable && plan.possible)
    && Exactly(windows, plan.fires, start, cursor + 1)
  }

  lemma OneMoreWindow(
    windows: seq<Window>, w: Window, input: Input, plan: Plan, format: int -> string, start: int, cursor: int, end: int)
    requires UpTo(windows, input, plan, format, start, cursor, end) && WindowOf(w, input, format)
    requires start <= cursor < w.occurrence.start < end && NextIs(plan, cursor, Some(w.occurrence.start))
    ensures UpTo(windows + [w], input, plan, format, start, w.occurrence.start, end)
  {
    NextWindow(windows, w, input, format, start, cursor, end);
  }

  /** The loop of `projectScheduleInput`. */
  method ProjectWindows(input: Input, start: int, end: int, format: int -> string)
      returns (result: Result<seq<Window>, ProjectionError>)
    requires start < end && input.Complete() && input.durationSeconds > 0
    ensures var plan := PlanOf(input);
            && (result.Ok? ==> plan.readable && WindowsOf(result.value, input, format, start, end))
            && (result.Ok? ==> Exactly(result.value, plan.fires, start, end))
            && (plan.fixed ==> (result.Ok? <==> Projectable(input, plan, start, end)))
            && (!plan.readable ==> result == Err(NextFireFailed))
  {
    ghost var plan := PlanOf(input);
    var windows: seq<Window> := [];
    var cursor := start;
    while true
      invariant start <= cursor < end && UpTo(windows, input, plan, format, start, cursor, end)
      decreases end - cursor
    {
      var next := NextOf(input, cursor);
      if next.None? {
        return Err(NextFireFailed);
      }
      if next.value <= cursor {
        return Err(NonIncreasing);
      }
      if next.value >= end {
        return Ok(windows);
      }
      var finish := next.value + Seconds(input.durationSeconds);
      if finish <= next.value {
        return Err(InvalidDuration);
      }
      var w := Window(Occurrence(OccurrenceId(format, input.scheduleId, next.value), next.value, finish), input.resources);
      OneMoreWindow(windows, w, input, plan, format, start, cursor, end);
      windows := windows + [w];
      cursor := next.value;
    }
  }

  /** `projectScheduleInput` */
  method ProjectScheduleInput(input: Input, start: int, end: int, format: int -> string)
      returns (result: Result<seq<Window>, ProjectionError>)
    requires start < end
    ensures var plan := PlanOf(input);
            && (result.Ok? ==> plan.readable && WindowsOf(result.value, input, format, start, end))
            && (result.Ok? ==> Exactly(result.value, plan.fires, start, end))
            && (plan.fixed ==> (result.Ok? <==> Projectable(input, plan, start, end)))
            && (input.scheduleId == "" || input.taskId == "" || input.taskVersionId == "" || input.expression == "" ==>
                  result == Err(IncompleteInput))
            && (input.Complete() && input.durationSeconds <= 0 ==> result == Err(InvalidDuration))
            && (input.Complete() && input.durationSeconds > 0 && !plan.readable ==> result == Err(NextFireFailed))
  {
    if !input.Complete() {
      return Err(IncompleteInput);
    }
    if input.durationSeconds <= 0 {
      return Err(InvalidDuration);
    }
    result := ProjectWindows(input, start, end, format);
  }

  // ---- All schedules ----

  ghost predicate DistinctSchedules(inputs: seq<Input>) {
    forall i, j :: 0 <= i < j < |inputs| ==> inputs[i].scheduleId != inputs[j].scheduleId
  }

  /** A window belongs to one schedule only. */
  lemma OtherSchedule(w: Window, a: Input, b: Input, format: int -> string)
    requires LawfulFormat(format) && a.scheduleId != b.scheduleId && WindowOf(w, a, format)
    ensures !WindowOf(w, b, format)
  {
    if WindowOf(w, b, format) {
      OccurrenceIdDetermines(format, a.scheduleId, w.occurrence.start, b.scheduleId, w.occurrence.start);
    }
  }

  ghost predicate AmongFirst(w: Window, inputs: seq<Input>, n: nat, format: int -> string)
    requires n <= |inputs|
  {
    exists i :: 0 <= i < n && WindowOf(w, inputs[i], format)
  }

  /** Every window belongs to one of the first `n` schedules. */
  ghost predicate DrawnFrom(windows: seq<Window>, inputs: seq<Input>, n: nat, format: int -> string)
    requires n <= |inputs|
  {
    forall k :: 0 <= k < |windows| ==> AmongFirst(windows[k], inputs, n, format)
  }

  /** A window of the schedule starts at `t`. */
  ghost predicate Shows(windows: seq<Window>, input: Input, format: int -> string, t: int) {
    exists k :: 0 <= k < |windows| && WindowOf(windows[k], input, format) && windows[k].occurrence.start == t
  }

  /** Within the horizon the schedule has a window at exactly the instants it fires at. */
  ghost predicate ShownExactly(windows: seq<Window>, input: Input, plan: Plan, format: int -> string, start: int, end: int) {
    forall t :: start < t < end ==> (Shows(windows, input, format, t) <==> t in plan.fires)
  }

  lemma NoneOf(windows: seq<Window>, inputs: seq<Input>, n: nat, format: int -> string, k: nat)
    requires n < |inputs| && DistinctSchedules(inputs) && LawfulFormat(format)
    requires DrawnFrom(windows, inputs, n, format) && k < |windows|
    ensures !WindowOf(windows[k], inputs[n], format)
  {
    assert AmongFirst(windows[k], inputs, n, format);
    var i :| 0 <= i < n && WindowOf(windows[k], inputs[i], format);
    OtherSchedule(windows[k], inputs[i], inputs[n], format);
  }

  lemma ShowsEither(windows: seq<Window>, more: seq<Window>, input: Input, format: int -> string, t: int)
    ensures Shows(windows + more, input, format, t) <==> Shows(windows, input, format, t) || Shows(more, input, format, t)
  {
    var all := windows + more;
    if k :| 0 <= k < |windows| && WindowOf(windows[k], input, format) && windows[k].occurrence.start == t {
      assert all[k] == windows[k];
    }
    if k :| 0 <= k < |more| && WindowOf(more[k], input, format) && more[k].occurrence.start == t {
      assert all[|windows| + k] == more[k];
    }
    if k :| 0 <= k < |all| && WindowOf(all[k], input, format) && all[k].occurrence.start == t {
      assert k < |windows| ==> all[k] == windows[k];
      assert k >= |windows| ==> all[k] == more[k - |windows|];
    }
  }

  lemma ShowsOwn(more: seq<Window>, input: Input, format: int -> string, start: int, end: int, t: int)
    requires WindowsOf(more, input, format, start, end)
    ensures Shows(more, input, format, t) <==> StartsAt(more, t)
  {
    if i :| 0 <= i < |more| && more[i].occurrence.start == t {
      assert WindowOf(more[i], input, format);
    }
  }

  lemma ShowsNoOther(more: seq<Window>, own: Input, input: Input, format: int -> string, start: int, end: int, t: int)
    requires LawfulFormat(format) && WindowsOf(more, own, format, start, end) && own.scheduleId != input.scheduleId
    ensures !Shows(more, input, format, t)
  {
    forall k | 0 <= k < |more|
      ensures !WindowOf(more[k], input, format)
    {
      OtherSchedule(more[k], own, input, format);
    }
  }

  lemma ShowsNoLater(windows: seq<Window>, inputs: seq<Input>, n: nat, format: int -> string, t: int)
    requires n < |inputs| && DistinctSchedules(inputs) && LawfulFormat(format) && DrawnFrom(windows, inputs, n, format)
    ensures !Shows(windows, inputs[n], format, t)
  {
    forall k | 0 <= k < |windows|
      ensures !WindowOf(windows[k], inputs[n], format)
    {
      NoneOf(windows, inputs, n, format, k);
    }
  }

  lemma AppendShows(windows: seq<Window>, more: seq<Window>, inputs: seq<Input>, n: nat, i: nat, format: int -> string, start: int, end: int, t: int)
    requires i <= n < |inputs| && DistinctSchedules(inputs) && LawfulFormat(format)
    requires DrawnFrom(windows, inputs, n, format) && WindowsOf(more, inputs[n], format, start, end)
    ensures Shows(windows + more, inputs[i], format, t) <==>
            if i < n then Shows(windows, inputs[i], format, t) else StartsAt(more, t)
  {
    ShowsEither(windows, more, inputs[i], format, t);
    if i < n {
      ShowsNoOther(more, inputs[n], inputs[i], format, start, end, t);
    } else {
      ShowsOwn(more, inputs[n], format, start, end, t);
      ShowsNoLater(windows, inputs, n, format, t);
    }
  }

  lemma AppendShown(windows: seq<Window>, more: seq<Window>, inputs: seq<Input>, n: nat, i: nat, plan: Plan, format: int -> string, start: int, end: int)
    requires i <= n < |inputs| && DistinctSchedules(inputs) && LawfulFormat(format)
    requires DrawnFrom(windows, inputs, n, format) && WindowsOf(more, inputs[n], format, start, end)
    requires i < n ==> ShownExactly(windows, inputs[i], plan, format, start, end)
    requires i == n ==> Exactly(more, plan.fires, start, end)
    ensures ShownExactly(windows + more, inputs[i], plan, format, start, end)
  {
    forall t | start < t < end
      ensures Shows(windows + more, inputs[i], format, t) <==>
              if i < n then Shows(windows, inputs[i], format, t) else StartsAt(more, t)
    {
      AppendShows(windows, more, inputs, n, i, format, start, end, t);
    }
  }

  lemma AppendDrawn(windows: seq<Window>, more: seq<Window>, inputs: seq<Input>, n: nat, format: int -> string, start: int, end: int)
    requires n < |inputs| && DrawnFrom(windows, inputs, n, format) && WindowsOf(more, inputs[n], format, start, end)
    ensures DrawnFrom(windows + more, inputs, n + 1, format)
  {
    var all := windows + more;
    forall k | 0 <= k < |all|
      ensures AmongFirst(all[k], inputs, n + 1, format)
    {
      if k < |windows| {
        assert AmongFirst(windows[k], inputs, n, format);
      } else {
        assert WindowOf(more[k - |windows|], inputs[n], format);
      }
    }
  }

  lemma AppendProjected(windows: seq<Window>, more: seq<Window>, inputs: seq<Input>, n: nat, format: int -> string, start: int, end: int)
    requires n < |inputs| && DistinctSchedules(inputs) && LawfulFormat(format)
    requires ProjectedWindows(windows) && DrawnFrom(windows, inputs, n, format)
    requires WindowsOf(more, inputs[n], format, start, end)
    ensures ProjectedWindows(windows + more)
  {
    var all := windows + more;
    forall i, j | 0 <= i < j < |all|
      ensures all[i].occurrence.id != all[j].occurrence.id
    {
      if i < |windows| <= j {
        assert AmongFirst(windows[i], inputs, n, format);
        var k :| 0 <= k < n && WindowOf(windows[i], inputs[k], format);
        assert WindowOf(more[j - |windows|], inputs[n], format);
        IdsDiffer(format, all[i].occurrence, inputs[k].scheduleId, all[j].occurrence, inputs[n].scheduleId);
      } else if |windows| <= i {
        assert WindowOf(more[i - |windows|], inputs[n], format) && WindowOf(more[j - |windows|], inputs[n], format);
        IdsDiffer(format, all[i].occurrence, inputs[n].scheduleId, all[j].occurrence, inputs[n].scheduleId);
      }
    }
  }

  /** Windows that are right for the first `n` schedules, `plan` saying what each of them is meant to do. */
  ghost predicate Collected(windows: seq<Window>, inputs: seq<Input>, plan: Input -> Plan, n: nat, format: int -> string, start: int, end: int)
    requires n <= |inputs|
  {
    && ProjectedWindows(windows) && DrawnFrom(windows, inputs, n, format)
    && forall i :: 0 <= i < n ==> ShownExactly(windows, inputs[i], plan(inputs[i]), format, start, end)
  }

  lemma CollectOne(windows: seq<Window>, more: seq<Window>, inputs: seq<Input>, plan: Input -> Plan, n: nat, format: int -> string, start: int, end: int)
    requires n < |inputs| && DistinctSchedules(inputs) && LawfulFormat(format)
    requires Collected(windows, inputs, plan, n, format, start, end) && WindowsOf(more, inputs[n], format, start, end)
    requires Exactly(more, plan(inputs[n]).fires, start, end)
    ensures Collected(windows + more, inputs, plan, n + 1, format, start, end)
  {
    AppendProjected(windows, more, inputs, n, format, start, end);
    AppendDrawn(windows, more, inputs, n, format, start, end);
    forall i | 0 <= i < n + 1
      ensures ShownExactly(windows + more, inputs[i], plan(inputs[i]), format, start, end)
    {
      AppendShown(windows, more, inputs, n, i, plan(inputs[i]), format, start, end);
    }
  }

  ghost predicate Faithful(plan: Input -> Plan) {
    forall input: Input {:trigger PlanOf(input)} :: plan(input) == PlanOf(input)
  }

  ghost predicate AllFixed(inputs: seq<Input>, plan: Input -> Plan) {
    forall i :: 0 <= i < |inputs| ==> plan(inputs[i]).fixed
  }

  ghost predicate AllProjectable(inputs: seq<Input>, plan: Input -> Plan, n: nat, start: int, end: int)
    requires n <= |inputs|
  {
    forall i :: 0 <= i < n ==> Projectable(inputs[i], plan(inputs[i]), start, end)
  }

  method CollectNext(windows: seq<Window>, inputs: seq<Input>, ghost plan: Input -> Plan, n: nat, start: int, end: int, format: int -> string)
      returns (result: Result<seq<Window>, ProjectionError>)
    requires n < |inputs| && DistinctSchedules(inputs) && LawfulFormat(format) && start < end && Faithful(plan)
    requires Collected(windows, inputs, plan, n, format, start, end)
    ensures result.Ok? ==> Collected(result.value, inputs, plan, n + 1, format, start, end)
    ensures plan(inputs[n]).fixed ==>
              (result.Ok? <==> Projectable(inputs[n], plan(inputs[n]), start, end))
  {
    var projected := ProjectScheduleInput(inputs[n], start, end, format);
    if projected.Err? {
      return Err(projected.error);
    }
    CollectOne(windows, projected.value, inputs, plan, n, format, start, end);
    result := Ok(windows + projected.value);
  }

  /** The windows of all schedules. One schedule that cannot be projected fails the whole report. */
  method CollectWindows(inputs: seq<Input>, ghost plan: Input -> Plan, start: int, end: int, format: int -> string)
      returns (result: Result<seq<Window>, ProjectionError>)
    requires DistinctSchedules(inputs) && LawfulFormat(format) && start < end && Faithful(plan)
    ensures result.Ok? ==> Collected(result.value, inputs, plan, |inputs|, format, start, end)
    ensures AllFixed(inputs, plan) ==> (result.Ok? <==> AllProjectable(inputs, plan, |inputs|, start, end))
  {
    var windows: seq<Window> := [];
    for n := 0 to |inputs|
      invariant Collected(windows, inputs, plan, n, format, start, end)
      invariant AllFixed(inputs, plan) ==> AllProjectable(inputs, plan, n, start, end)
    {
      var collected := CollectNext(windows, inputs, plan, n, start, end, format);
      if collected.Err? {
        return collected;
      }
      windows := collected.value;
    }
    result := Ok(windows);
  }

  /** The report: the windows, the conflicts of each resource, and the ids of the conflicted windows. */
  datatype Report = Report(windows: seq<Window>, conflicts: map<string, seq<Conflict>>, conflicted: set<string>)

  ghost predicate Right(report: Report, inputs: seq<Input>, plan: Input -> Plan, format: int -> string, now: int) {
    && Collected(report.windows, inputs, plan, |inputs|, format, now, now + 7 * DAY)
    && (forall r :: r in report.conflicts ==> Exact(report.conflicts[r], UsersOf(report.windows, r)))
    && (forall r :: r !in report.conflicts ==> UsersOf(report.windows, r) == [])
    && forall i :: 0 <= i < |report.windows| ==>
         (report.windows[i].occurrence.id in report.conflicted <==> Contended(report.windows, i))
  }

  /**
   `BuildScheduleProjection`: every schedule has a segment at exactly the instants of the next seven days
   at which it fires, each resource gets its exact conflicts, and a segment is marked exactly when another
   one overlaps it and needs one of its exclusive resources.
   */
  method BuildScheduleProjection(inputs: seq<Input>, now: int, format: int -> string)
      returns (result: Result<Report, ProjectionError>)
    requires DistinctSchedules(inputs) && LawfulFormat(format)
    ensures result.Ok? ==> Right(result.value, inputs, PlanOf, format, now)
    ensures AllFixed(inputs, PlanOf) ==>
              (result.Ok? <==> now != 0 && AllProjectable(inputs, PlanOf, |inputs|, now, now + 7 * DAY))
  {
    if now == 0 {
      return Err(TimeRequired);
    }
    var collected := CollectWindows(inputs, PlanOf, now, now + HORIZON, format);
    if collected.Err? {
      return Err(collected.error);
    }
    var conflicts, conflicted := BuildProjection(collected.value);
    result := Ok(Report(collected.value, conflicts, conflicted));
  }
}
