/**
 Reading a five-field cron expression, and the grammar it is read by.
 Source: backend/internal/controlplane/scheduler.go.
 */
module CronText {
  import opened Common
  import opened Text
  import opened Numerals
  import opened Arithmetic
  import opened Seqs
  import opened Sets
  import opened Cron

  const MAX_INT: int := 0x7FFF_FFFF_FFFF_FFFF
  const WORD: int := 0x1_0000_0000_0000_0000

  // ---- Numbers ----

  /** `strconv.Atoi`: an optional sign and decimal digits, refused when out of range. */
  function Atoi(s: string): Option<int> {
    var digits := if s != "" && (s[0] == '-' || s[0] == '+') then s[1..] else s;
    if digits == "" || !AllDigits(digits) then None
    else
      var n: int := if s[0] == '-' then -DigitsValue(digits) else DigitsValue(digits);
      if -MAX_INT - 1 <= n <= MAX_INT then Some(n) else None
  }

  lemma AtoiDecimal(n: nat)
    ensures Atoi(Decimal(n)) == if n <= MAX_INT then Some(n) else None
  {
    DecimalDigits(n);
    assert IsDigit(Decimal(n)[0]);
  }

  lemma AtoiOfSign(sign: char, digits: string)
    requires (sign == '+' || sign == '-') && digits != "" && AllDigits(digits)
    ensures var n := if sign == '-' then -DigitsValue(digits) else DigitsValue(digits);
            Atoi([sign] + digits) == if -MAX_INT - 1 <= n <= MAX_INT then Some(n) else None
  {
    assert ([sign] + digits)[1..] == digits;
  }

  /** A sign in front is read, and what is no number in range is refused. */
  lemma AtoiSigned(n: nat)
    ensures Atoi(['+'] + Decimal(n)) == if n <= MAX_INT then Some(n as int) else None
    ensures Atoi(['-'] + Decimal(n)) == if n <= MAX_INT + 1 then Some(-(n as int)) else None
  {
    DecimalDigits(n);
    AtoiOfSign('+', Decimal(n));
    AtoiOfSign('-', Decimal(n));
  }

  lemma AtoiRefuses(s: string)
    ensures s == "" || s == "+" || s == "-" ==> Atoi(s) == None
    ensures (exists i :: 0 <= i < |s| && !IsDigit(s[i]) && (i > 0 || (s[i] != '+' && s[i] != '-'))) ==> Atoi(s) == None
  {
    var digits := if s != "" && (s[0] == '-' || s[0] == '+') then s[1..] else s;
    if i :| 0 <= i < |s| && !IsDigit(s[i]) && (i > 0 || (s[i] != '+' && s[i] != '-')) {
      if |digits| == |s| {
        assert !IsDigit(digits[i]);
      } else {
        assert i > 0 && !IsDigit(digits[i - 1]);
      }
    }
  }

  // ---- One part of a field ----

  datatype Span = Span(start: int, end: int, step: int)

  datatype Stepped = Stepped(base: string, step: int, hasStep: bool)

  /** `parseCronStep` */
  function ParseStep(part: string): Option<Stepped> {
    var slash := IndexOf(part, '/');
    if slash < 0 then Some(Stepped(part, 1, false))
    else
      match Atoi(part[slash + 1..])
      case Some(step) => if step <= 0 then None else Some(Stepped(part[..slash], step, true))
      case None => None
  }

  /** `parseCronRange` */
  function ParseRange(base: string, min: int, max: int, hasStep: bool): Option<(int, int)> {
    var dash := IndexOf(base, '-');
    if base == "*" then Some((min, max))
    else if dash >= 0 then
      match (Atoi(base[..dash]), Atoi(base[dash + 1..]))
      case (Some(start), Some(end)) => if end < start then None else Some((start, end))
      case _ => None
    else
      match Atoi(base)
      case Some(start) => Some((start, if hasStep then max else start))
      case None => None
  }

  /** The range test of `parseCronField`. */
  function CheckRange(range: Option<(int, int)>, step: int, min: int, max: int): Option<Span> {
    match range
    case Some((start, end)) => if start < min || end > max then None else Some(Span(start, end, step))
    case None => None
  }

  /** `parseCronPart`, with the tests `parseCronField` makes of every part. */
  function ParsePart(part: string, min: int, max: int): (span: Option<Span>)
    ensures span.Some? ==> min <= span.value.start && span.value.end <= max && 1 <= span.value.step <= MAX_INT
  {
    match ParseStep(part)
    case Some(s) => if part == "" then None else CheckRange(ParseRange(s.base, min, max, s.hasStep), s.step, min, max)
    case None => None
  }

  /** A text is a number before the first dash and a number after it. */
  ghost predicate DashedNumbers(base: string, start: int, end: int) {
    exists x, y :: base == x + (['-'] + y) && Lacks(x, '-') && Atoi(x) == Some(start) && Atoi(y) == Some(end)
  }

  /** The two sides of the first separator. */
  lemma CutAt(s: string, c: char, i: int)
    requires i == IndexOf(s, c) && i >= 0
    ensures s == s[..i] + ([c] + s[i + 1..]) && Lacks(s[..i], c) && !Lacks(s, c)
  {
  }

  lemma CutIsUnique(s: string, c: char, i: int, x: string, y: string)
    requires i == IndexOf(s, c) && s == x + ([c] + y) && Lacks(x, c)
    ensures i >= 0 && x == s[..i] && y == s[i + 1..]
  {
    CutAtFirst(x, c, y);
  }

  lemma DashedExactly(base: string, dash: int, start: int, end: int)
    requires dash == IndexOf(base, '-') && dash >= 0
    ensures DashedNumbers(base, start, end) <==> Atoi(base[..dash]) == Some(start) && Atoi(base[dash + 1..]) == Some(end)
  {
    CutAt(base, '-', dash);
    if DashedNumbers(base, start, end) {
      var x, y :| base == x + (['-'] + y) && Lacks(x, '-') && Atoi(x) == Some(start) && Atoi(y) == Some(end);
      CutIsUnique(base, '-', dash, x, y);
    }
  }

  lemma ParseRangeCases(base: string, min: int, max: int, hasStep: bool, start: int, end: int, dash: int)
    requires dash == IndexOf(base, '-')
    ensures ParseRange(base, min, max, hasStep) == Some((start, end)) <==>
            if base == "*" then start == min && end == max
            else if dash < 0 then Atoi(base) == Some(start) && end == (if hasStep then max else start)
            else Atoi(base[..dash]) == Some(start) && Atoi(base[dash + 1..]) == Some(end) && start <= end
  {
  }

  /** What is before the slash of a part: a star, two numbers in order with a dash between them, or one number. */
  lemma ParseRangeExactly(base: string, min: int, max: int, hasStep: bool, start: int, end: int)
    ensures ParseRange(base, min, max, hasStep) == Some((start, end)) <==>
            if base == "*" then start == min && end == max
            else if Lacks(base, '-') then Atoi(base) == Some(start) && end == (if hasStep then max else start)
            else DashedNumbers(base, start, end) && start <= end
  {
    var dash := IndexOf(base, '-');
    ParseRangeCases(base, min, max, hasStep, start, end, dash);
    if dash >= 0 {
      CutAt(base, '-', dash);
      DashedExactly(base, dash, start, end);
    }
  }

  /** The part is a base without a slash, a slash and a number. */
  ghost predicate SlashedNumber(part: string, base: string, step: int) {
    exists y :: part == base + (['/'] + y) && Lacks(base, '/') && Atoi(y) == Some(step)
  }

  lemma SlashedExactly(part: string, slash: int, base: string, step: int)
    requires slash == IndexOf(part, '/') && slash >= 0
    ensures SlashedNumber(part, base, step) <==> base == part[..slash] && Atoi(part[slash + 1..]) == Some(step)
  {
    CutAt(part, '/', slash);
    if SlashedNumber(part, base, step) {
      var y :| part == base + (['/'] + y) && Lacks(base, '/') && Atoi(y) == Some(step);
      CutIsUnique(part, '/', slash, base, y);
    }
  }

  lemma ParseStepCases(part: string, s: Stepped, slash: int)
    requires slash == IndexOf(part, '/')
    ensures ParseStep(part) == Some(s) <==>
            if slash < 0 then s == Stepped(part, 1, false)
            else s.hasStep && s.step > 0 && s.base == part[..slash] && Atoi(part[slash + 1..]) == Some(s.step)
  {
  }

  /** A step is what follows the first slash, a positive number; without a slash there is none. */
  lemma ParseStepExactly(part: string, s: Stepped)
    ensures ParseStep(part) == Some(s) <==>
            if Lacks(part, '/') then s == Stepped(part, 1, false)
            else s.hasStep && s.step > 0 && SlashedNumber(part, s.base, s.step)
  {
    var slash := IndexOf(part, '/');
    ParseStepCases(part, s, slash);
    if slash >= 0 {
      CutAt(part, '/', slash);
      SlashedExactly(part, slash, s.base, s.step);
    }
  }

  /** A part is accepted exactly when it is not empty, its step and range can be read and the range lies within the field's. */
  lemma ParsePartExactly(part: string, min: int, max: int, span: Span)
    ensures ParsePart(part, min, max) == Some(span) <==>
            && part != "" && min <= span.start && span.end <= max
            && exists s: Stepped :: ParseStep(part) == Some(s) && span.step == s.step
                                 && ParseRange(s.base, min, max, s.hasStep) == Some((span.start, span.end))
  {
  }

  // ---- The grammar ----

  datatype Base = Every | One(value: nat) | Range(first: nat, last: nat)

  /** A part as a user thinks of it. */
  datatype Item = Item(base: Base, step: Option<nat>)

  function WriteBase(b: Base): string {
    match b
    case Every => "*"
    case One(v) => Decimal(v)
    case Range(a, z) => Decimal(a) + (['-'] + Decimal(z))
  }

  function Write(item: Item): string {
    match item.step
    case None => WriteBase(item.base)
    case Some(k) => WriteBase(item.base) + (['/'] + Decimal(k))
  }

  /** What the parser accepts: everything in range, but a start with a step may lie beyond the range. */
  predicate Accepted(item: Item, min: int, max: int) {
    && (item.step.Some? ==> 1 <= item.step.value <= MAX_INT)
    && match item.base
       case Every => true
       case One(v) => min <= v <= if item.step.Some? then MAX_INT else max
       case Range(a, z) => min <= a <= z <= max
  }

  function SpanOf(item: Item, min: int, max: int): Span {
    var step := if item.step.Some? then item.step.value else 1;
    match item.base
    case Every => Span(min, max, step)
    case One(v) => Span(v, if item.step.Some? then max else v, step)
    case Range(a, z) => Span(a, z, step)
  }

  /** The characters of numbers, ranges and the star. */
  predicate IsPlain(c: char) {
    IsDigit(c) || c == '-' || c == '*'
  }

  ghost predicate Plain(s: string) {
    s != "" && forall j :: 0 <= j < |s| ==> IsPlain(s[j])
  }

  lemma PlainRange(a: string, b: string)
    requires Plain(a) && Plain(b)
    ensures Plain(a + (['-'] + b))
  {
  }

  lemma WriteBasePlain(b: Base)
    ensures Plain(WriteBase(b))
  {
    match b
    case Every =>
    case One(v) => DecimalDigits(v);
    case Range(a, z) =>
      DecimalDigits(a);
      DecimalDigits(z);
      PlainRange(Decimal(a), Decimal(z));
  }

  lemma ParseWithStep(base: string, k: nat)
    requires Plain(base)
    ensures ParseStep(base + (['/'] + Decimal(k))) ==
            if 1 <= k <= MAX_INT then Some(Stepped(base, k, true)) else None
  {
    CutAtFirst(base, '/', Decimal(k));
    AtoiDecimal(k);
  }

  lemma ParseStepOfWritten(item: Item)
    ensures ParseStep(Write(item)) ==
            match item.step
            case None => Some(Stepped(WriteBase(item.base), 1, false))
            case Some(k) => if 1 <= k <= MAX_INT then Some(Stepped(WriteBase(item.base), k, true)) else None
  {
    WriteBasePlain(item.base);
    match item.step
    case None => NotFound(WriteBase(item.base), '/');
    case Some(k) => ParseWithStep(WriteBase(item.base), k);
  }

  lemma ParseOne(v: nat, min: int, max: int, hasStep: bool)
    ensures ParseRange(Decimal(v), min, max, hasStep) ==
            if v <= MAX_INT then Some((v, if hasStep then max else v)) else None
  {
    DecimalDigits(v);
    AtoiDecimal(v);
    NotFound(Decimal(v), '-');
    assert IsDigit(Decimal(v)[0]);
  }

  lemma ParseDashed(x: string, y: string, min: int, max: int, hasStep: bool)
    requires Lacks(x, '-')
    ensures ParseRange(x + (['-'] + y), min, max, hasStep) ==
            if Atoi(x).Some? && Atoi(y).Some? && Atoi(x).value <= Atoi(y).value then Some((Atoi(x).value, Atoi(y).value)) else None
  {
    CutAtFirst(x, '-', y);
  }

  lemma ParseInterval(a: nat, z: nat, min: int, max: int, hasStep: bool)
    ensures ParseRange(WriteBase(Range(a, z)), min, max, hasStep) ==
            if a <= z <= MAX_INT then Some((a, z)) else None
  {
    DecimalDigits(a);
    AtoiDecimal(a);
    AtoiDecimal(z);
    ParseDashed(Decimal(a), Decimal(z), min, max, hasStep);
  }

  function BaseSpan(b: Base, min: int, max: int, hasStep: bool): Option<(int, int)> {
    match b
    case Every => Some((min, max))
    case One(v) => if v <= MAX_INT then Some((v, if hasStep then max else v)) else None
    case Range(a, z) => if a <= z <= MAX_INT then Some((a, z)) else None
  }

  lemma ParseBase(b: Base, min: int, max: int, hasStep: bool)
    ensures ParseRange(WriteBase(b), min, max, hasStep) == BaseSpan(b, min, max, hasStep)
  {
    match b
    case Every =>
    case One(v) => ParseOne(v, min, max, hasStep);
    case Range(a, z) => ParseInterval(a, z, min, max, hasStep);
  }

  lemma CheckBase(item: Item, min: int, max: int)
    requires 0 <= min && max <= MAX_INT && (item.step.Some? ==> 1 <= item.step.value <= MAX_INT)
    ensures CheckRange(BaseSpan(item.base, min, max, item.step.Some?), SpanOf(item, min, max).step, min, max) ==
            if Accepted(item, min, max) then Some(SpanOf(item, min, max)) else None
  {
  }

  lemma ParsePartBy(part: string, s: Stepped, range: Option<(int, int)>, min: int, max: int)
    requires part != "" && ParseStep(part) == Some(s) && ParseRange(s.base, min, max, s.hasStep) == range
    ensures ParsePart(part, min, max) == CheckRange(range, s.step, min, max)
  {
  }

  /** Every part is read as written, and refused exactly when its numbers are not acceptable. */
  lemma ParsePartOfWritten(item: Item, min: int, max: int)
    requires 0 <= min && max <= MAX_INT
    ensures ParsePart(Write(item), min, max) == if Accepted(item, min, max) then Some(SpanOf(item, min, max)) else None
  {
    WriteBasePlain(item.base);
    ParseStepOfWritten(item);
    if item.step.Some? ==> 1 <= item.step.value <= MAX_INT {
      var stepped := ParseStep(Write(item)).value;
      ParseBase(item.base, min, max, item.step.Some?);
      ParsePartBy(Write(item), stepped, BaseSpan(item.base, min, max, item.step.Some?), min, max);
      CheckBase(item, min, max);
    }
  }

  // ---- The values of one part ----

  /** Every `step`-th number from `v` to `end`. */
  function Steps(v: int, end: int, step: int): set<int>
    requires step >= 1
    decreases end - v
  {
    if v > end then {} else {v} + Steps(v + step, end, step)
  }

  lemma {:induction false} StepsInRange(v: int, end: int, step: int)
    requires step >= 1
    ensures InRange(Steps(v, end, step), v, end)
    decreases end - v
  {
    if v <= end {
      StepsInRange(v + step, end, step);
    }
  }

  /** The arithmetic progression, without the loop. */
  lemma {:induction false} StepsAre(v: int, end: int, step: int, x: int)
    requires step >= 1
    ensures x in Steps(v, end, step) <==> v <= x <= end && (x - v) % step == 0
    decreases end - v
  {
    if v <= end {
      StepsAre(v + step, end, step, x);
      if v <= x {
        Remainder(x - v, step);
      }
    }
  }

  lemma Remainder(d: int, step: int)
    requires d >= 0 && step >= 1
    ensures d >= step ==> d % step == (d - step) % step
    ensures d < step ==> d % step == d
  {
    if d >= step {
      var q, r := (d - step) / step, (d - step) % step;
      assert d - step == q * step + r;
      assert d == (q + 1) * step + r;
      DivisionUnique(d, step, q + 1);
    } else {
      DivisionUnique(d, step, 0);
    }
  }

  /** The loop's counter overflows. */
  predicate Overflows(span: Span) {
    span.start <= span.end && span.start + span.step > MAX_INT
  }

  /** Addition of Go's 64-bit integers. */
  function Add64(x: int, y: int): int {
    if x + y > MAX_INT then x + y - WORD else x + y
  }

  /**
   What the loop collects from `x` when every step falls `c` short of the largest integer and one more:
   each addition wraps around, and every second one comes back `2 * c` lower.
   */
  function Stray(x: int, c: int): set<int>
    requires c >= 1
    decreases x
  {
    if x < c then {x} else {x, x - c - WORD / 2} + Stray(x - 2 * c, c)
  }

  /** The same set without the loop: of the numbers a clock or calendar shows, every `2 * c`-th below `x`. */
  lemma {:induction false} StrayAre(x: int, c: int, v: int)
    requires 1 <= c && -c <= x && x + c < 1000
    ensures v in Stray(x, c) <==>
            || (-c <= v <= x && (x - v) % (2 * c) == 0)
            || (0 <= v + WORD / 2 <= x - c && (x - c - (v + WORD / 2)) % (2 * c) == 0)
    decreases x
  {
    var u := v + WORD / 2;
    if x < c {
      if -c <= v <= x {
        Remainder(x - v, 2 * c);
      }
    } else {
      StrayAre(x - 2 * c, c, v);
      if v <= x {
        Remainder(x - v, 2 * c);
      }
      if u <= x - c {
        Remainder(x - c - u, 2 * c);
      }
    }
  }

  /** The values the loop collects for a part. */
  function ReadSpan(span: Span): set<int> {
    if Overflows(span) && span.step <= MAX_INT then Stray(span.start, MAX_INT - span.step + 1) else StepsOf(span)
  }

  /** The values a part means. */
  function StepsOf(span: Span): set<int> {
    if span.step >= 1 then Steps(span.start, span.end, span.step) else {}
  }

  function Rank(span: Span, value: int): nat {
    if span.step <= MAX_INT - span.end then (if value > span.end then 0 else span.end - value + 1)
    else if value > span.end then 0
    else if value < -100 then (if value < -MAX_INT - 1 then 0 else 2 * (value + MAX_INT + 1) + 201)
    else 2 * value + 200
  }

  ghost predicate IsPart(span: Span) {
    0 <= span.start && span.end <= 59 && 1 <= span.step <= MAX_INT
  }

  /** What the loop has still to collect when its counter is at `value`. */
  ghost function Rest(span: Span, value: int): set<int>
    requires IsPart(span)
  {
    var c := MAX_INT - span.step + 1;
    if value > span.end then {}
    else if span.step <= MAX_INT - span.end then Steps(value, span.end, span.step)
    else if value >= -100 then Stray(value, c)
    else {value} + Stray(value + WORD / 2 - c, c)
  }

  /** Where the counter can be. */
  ghost predicate Reached(span: Span, value: int) {
    if span.step <= MAX_INT - span.end then 0 <= value
    else -61 <= value || 0 <= value + WORD / 2 < span.end
  }

  lemma RestOn(span: Span, value: int)
    requires IsPart(span) && value <= span.end && Reached(span, value)
    ensures Reached(span, Add64(value, span.step))
    ensures Rest(span, value) == {value} + Rest(span, Add64(value, span.step))
    ensures Rank(span, Add64(value, span.step)) < Rank(span, value)
  {
    var next, c := Add64(value, span.step), MAX_INT - span.step + 1;
    if span.step <= MAX_INT - span.end {
      assert Steps(value, span.end, span.step) == {value} + Steps(next, span.end, span.step);
      assert next > span.end ==> Steps(next, span.end, span.step) == {};
    } else if value >= c {
      assert next == value - c - WORD / 2;
      assert Stray(value, c) == {value, next} + Stray(value - 2 * c, c);
    }
  }

  lemma RestAtStart(span: Span)
    requires IsPart(span)
    ensures Rest(span, span.start) == ReadSpan(span)
  {
    if span.step > MAX_INT - span.end && span.start <= span.end && !Overflows(span) {
      assert Steps(span.start + span.step, span.end, span.step) == {};
    }
  }

  /** The inner loop of `parseCronField`. */
  method AddSpan(before: set<int>, span: Span) returns (values: set<int>)
    requires IsPart(span)
    ensures values == before + ReadSpan(span)
  {
    values := before;
    var value := span.start;
    while value <= span.end
      invariant Reached(span, value) && values + Rest(span, value) == before + Rest(span, span.start)
      decreases Rank(span, value)
    {
      RestOn(span, value);
      values := values + {value};
      value := Add64(value, span.step);
    }
    RestAtStart(span);
  }

  // ---- Splitting at commas ----

  function CommasFrom(s: string, k: nat): (parts: seq<string>)
    requires k <= |s|
    ensures parts != []
    decreases |s| - k
  {
    var i := IndexFrom(s, ',', k);
    if i < 0 then [s[k..|s|]] else [s[k..i]] + CommasFrom(s, i + 1)
  }

  function Commas(s: string): seq<string> {
    CommasFrom(s, 0)
  }

  function Join(parts: seq<string>): string
    requires parts != []
  {
    if |parts| == 1 then parts[0] else parts[0] + ([','] + Join(parts[1..]))
  }

  /** `s` is what follows the first `d` characters of `t`. */
  ghost predicate Follows(t: string, d: nat, s: string) {
    |t| == d + |s| && forall j :: 0 <= j < |s| ==> t[d + j] == s[j]
  }

  lemma SliceShift(t: string, d: nat, s: string, a: nat, b: nat)
    requires Follows(t, d, s) && a <= b <= |s|
    ensures t[d + a..d + b] == s[a..b]
  {
  }

  lemma {:induction false} IndexShift(t: string, d: nat, s: string, c: char, k: nat)
    requires Follows(t, d, s) && k <= |s|
    ensures IndexFrom(t, c, d + k) == if IndexFrom(s, c, k) < 0 then -1 else d + IndexFrom(s, c, k)
    decreases |s| - k
  {
    if k < |s| {
      IndexShift(t, d, s, c, k + 1);
    }
  }

  lemma CommaNext(s: string, k: nat, i: int)
    requires k <= |s| && i == IndexFrom(s, ',', k)
    ensures CommasFrom(s, k) == if i < 0 then [s[k..|s|]] else [s[k..i]] + CommasFrom(s, i + 1)
  {
  }

  lemma {:induction false} CommasShift(t: string, d: nat, s: string, k: nat)
    requires Follows(t, d, s) && k <= |s|
    ensures CommasFrom(t, d + k) == CommasFrom(s, k)
    decreases |s| - k
  {
    var i := IndexFrom(s, ',', k);
    IndexShift(t, d, s, ',', k);
    SliceShift(t, d, s, k, if i < 0 then |s| else i);
    if i >= 0 {
      CommasShift(t, d, s, i + 1);
    }
  }

  lemma CommasOfCut(a: string, b: string)
    requires Lacks(a, ',')
    ensures Commas(a + ([','] + b)) == [a] + Commas(b)
  {
    CutAtFirst(a, ',', b);
    CommasShift(a + ([','] + b), |a| + 1, b, 0);
  }

  /** Parts without commas are found again. */
  lemma {:induction false} CommasOfJoined(parts: seq<string>)
    requires parts != [] && forall k :: 0 <= k < |parts| ==> Lacks(parts[k], ',')
    ensures Commas(Join(parts)) == parts
  {
    if |parts| == 1 {
      NotFound(parts[0], ',');
      assert parts[0][0..|parts[0]|] == parts[0];
    } else {
      CommasOfJoined(parts[1..]);
      CommasOfCut(parts[0], Join(parts[1..]));
    }
  }

  /** `splitComma` */
  method SplitComma(value: string) returns (parts: seq<string>)
    ensures parts == Commas(value)
  {
    parts := [];
    var start, i := 0, 0;
    ghost var rest := CommasFrom(value, 0);
    while i <= |value|
      invariant 0 <= i <= |value| + 1 && parts + rest == Commas(value)
      invariant i <= |value| ==>
                  && 0 <= start <= i && rest == CommasFrom(value, start)
                  && IndexFrom(value, ',', start) == IndexFrom(value, ',', i)
      invariant i > |value| ==> rest == []
    {
      if i == |value| || value[i] == ',' {
        CommaNext(value, start, IndexFrom(value, ',', start));
        rest := if i == |value| then [] else CommasFrom(value, i + 1);
        Assoc(parts, [value[start..i]], rest);
        parts := parts + [value[start..i]];
        start := i + 1;
      }
      i := i + 1;
    }
  }

  // ---- A field ----

  /** The union of the first `n` parts, if all of them can be read. */
  function UnionTo(values: Span -> set<int>, spans: seq<Option<Span>>, n: nat): Option<set<int>>
    requires n <= |spans|
  {
    if n == 0 then Some({})
    else if UnionTo(values, spans, n - 1).None? || spans[n - 1].None? then None
    else Some(UnionTo(values, spans, n - 1).value + values(spans[n - 1].value))
  }

  ghost predicate Bounded(spans: seq<Option<Span>>, min: int, max: int) {
    forall k :: 0 <= k < |spans| ==> spans[k].Some? ==>
      min <= spans[k].value.start && spans[k].value.end <= max && 1 <= spans[k].value.step <= MAX_INT
  }

  /** A reader of parts that gives only spans within the range. */
  ghost predicate Reads(parse: string -> Option<Span>, min: int, max: int) {
    forall part :: parse(part).Some? ==>
      min <= parse(part).value.start && parse(part).value.end <= max && 1 <= parse(part).value.step <= MAX_INT
  }

  function ParseParts(parse: string -> Option<Span>, parts: seq<string>): (spans: seq<Option<Span>>)
    ensures |spans| == |parts| && forall k :: 0 <= k < |parts| ==> spans[k] == parse(parts[k])
  {
    seq(|parts|, k requires 0 <= k < |parts| => parse(parts[k]))
  }

  function SpansOf(field: string, min: int, max: int): (spans: seq<Option<Span>>)
    ensures Bounded(spans, min, max)
  {
    ParseParts(part => ParsePart(part, min, max), Commas(field))
  }

  /** What a field means: the union of its parts. */
  function FieldValues(field: string, min: int, max: int): Option<set<int>> {
    var spans := SpansOf(field, min, max);
    UnionTo(StepsOf, spans, |spans|)
  }

  /** What the code makes of a field. */
  function FieldRead(field: string, min: int, max: int): Option<set<int>> {
    var spans := SpansOf(field, min, max);
    UnionTo(ReadSpan, spans, |spans|)
  }

  /** A union holds exactly what one of its parts holds. */
  lemma {:induction false} UnionHas(values: Span -> set<int>, spans: seq<Option<Span>>, n: nat, x: int)
    requires n <= |spans|
    ensures UnionTo(values, spans, n).Some? <==> forall k :: 0 <= k < n ==> spans[k].Some?
    ensures UnionTo(values, spans, n).Some? ==>
              (x in UnionTo(values, spans, n).value <==> exists k :: 0 <= k < n && spans[k].Some? && x in values(spans[k].value))
  {
    if n > 0 {
      UnionHas(values, spans, n - 1, x);
    }
  }

  lemma {:induction false} UnreadableStays(values: Span -> set<int>, spans: seq<Option<Span>>, k: nat, n: nat)
    requires k <= n <= |spans| && UnionTo(values, spans, k).None?
    ensures UnionTo(values, spans, n).None?
  {
    if k < n {
      UnreadableStays(values, spans, k, n - 1);
    }
  }

  /** The loop of `parseCronField`. */
  method ReadParts(parse: string -> Option<Span>, parts: seq<string>, min: int, max: int) returns (result: Option<set<int>>)
    requires 0 <= min && max <= 59 && Reads(parse, min, max)
    ensures result == UnionTo(ReadSpan, ParseParts(parse, parts), |parts|)
  {
    ghost var spans := ParseParts(parse, parts);
    var values: set<int> := {};
    for n := 0 to |parts|
      invariant UnionTo(ReadSpan, spans, n) == Some(values)
    {
      var span := parse(parts[n]);
      if span.None? {
        UnreadableStays(ReadSpan, spans, n + 1, |parts|);
        return None;
      }
      values := AddSpan(values, span.value);
    }
    result := Some(values);
  }

  /** `parseCronField` */
  method ParseCronField(field: string, min: int, max: int) returns (result: Option<set<int>>)
    requires 0 <= min && max <= 59
    ensures result == FieldRead(field, min, max)
  {
    var parts := SplitComma(field);
    result := ReadParts(part => ParsePart(part, min, max), parts, min, max);
  }

  // ---- Reading against meaning ----

  ghost predicate SomeOverflows(spans: seq<Option<Span>>) {
    exists k :: 0 <= k < |spans| && spans[k].Some? && Overflows(spans[k].value)
  }

  ghost predicate FieldOverflows(field: string, min: int, max: int) {
    SomeOverflows(SpansOf(field, min, max))
  }

  /** One part: the values read are those meant exactly when the counter does not overflow. */
  lemma SpanReadExactly(span: Span)
    requires IsPart(span)
    ensures if Overflows(span) then span.start - (MAX_INT - span.step + 1) - WORD / 2 in ReadSpan(span) else ReadSpan(span) == StepsOf(span)
  {
  }

  lemma SpanMeansInRange(span: Span)
    ensures InRange(StepsOf(span), span.start, span.end)
  {
    if span.step >= 1 {
      StepsInRange(span.start, span.end, span.step);
    }
  }

  lemma {:induction false} StrayHighest(x: int, c: int)
    requires c >= 1 && x <= 59
    ensures forall v :: v in Stray(x, c) ==> v <= x
    decreases x
  {
    if x >= c {
      StrayHighest(x - 2 * c, c);
    }
  }

  /** No part gives a value above its end, or fails to give a value it means. */
  lemma SpanReadBounds(span: Span)
    requires IsPart(span)
    ensures forall v :: v in ReadSpan(span) ==> v <= span.end
    ensures StepsOf(span) <= ReadSpan(span)
  {
    SpanMeansInRange(span);
    if Overflows(span) {
      StrayHighest(span.start, MAX_INT - span.step + 1);
      assert Steps(span.start + span.step, span.end, span.step) == {};
    }
  }

  lemma MeansInRange(spans: seq<Option<Span>>, min: int, max: int)
    requires Bounded(spans, min, max)
    ensures UnionTo(StepsOf, spans, |spans|).Some? ==> InRange(UnionTo(StepsOf, spans, |spans|).value, min, max)
  {
    var r := UnionTo(StepsOf, spans, |spans|);
    forall x | r.Some? && x in r.value
      ensures min <= x <= max
    {
      UnionHas(StepsOf, spans, |spans|, x);
      var k :| 0 <= k < |spans| && spans[k].Some? && x in StepsOf(spans[k].value);
      SpanMeansInRange(spans[k].value);
    }
  }

  lemma ReadAtMost(spans: seq<Option<Span>>, min: int, max: int)
    requires Bounded(spans, min, max) && 0 <= min && max <= 59
    ensures UnionTo(ReadSpan, spans, |spans|).Some? ==> forall x :: x in UnionTo(ReadSpan, spans, |spans|).value ==> x <= max
  {
    var r := UnionTo(ReadSpan, spans, |spans|);
    forall x | r.Some? && x in r.value
      ensures x <= max
    {
      UnionHas(ReadSpan, spans, |spans|, x);
      var k :| 0 <= k < |spans| && spans[k].Some? && x in ReadSpan(spans[k].value);
      SpanReadBounds(spans[k].value);
    }
  }

  lemma {:induction false} SameUnion(spans: seq<Option<Span>>, n: nat)
    requires n <= |spans| && forall k :: 0 <= k < n && spans[k].Some? ==> ReadSpan(spans[k].value) == StepsOf(spans[k].value)
    ensures UnionTo(ReadSpan, spans, n) == UnionTo(StepsOf, spans, n)
  {
    if n > 0 {
      SameUnion(spans, n - 1);
    }
  }

  /**
   A field is refused exactly when a part cannot be read; otherwise its values are the meant ones exactly
   when no counter overflows.
   */
  lemma FieldReadExactly(field: string, min: int, max: int)
    requires 0 <= min && max <= 59
    ensures FieldRead(field, min, max).None? <==> FieldValues(field, min, max).None?
    ensures FieldRead(field, min, max).Some? ==>
              (FieldRead(field, min, max) == FieldValues(field, min, max) <==> !FieldOverflows(field, min, max))
  {
    UnionReadExactly(SpansOf(field, min, max), min, max);
  }

  lemma UnionReadExactly(spans: seq<Option<Span>>, min: int, max: int)
    requires Bounded(spans, min, max) && 0 <= min && max <= 59
    ensures var read, meant := UnionTo(ReadSpan, spans, |spans|), UnionTo(StepsOf, spans, |spans|);
            && (read.None? <==> meant.None?)
            && (read.Some? ==> (read == meant <==> !SomeOverflows(spans)))
  {
    UnionHas(ReadSpan, spans, |spans|, 0);
    UnionHas(StepsOf, spans, |spans|, 0);
    if k :| 0 <= k < |spans| && spans[k].Some? && Overflows(spans[k].value) {
      var span := spans[k].value;
      SpanReadExactly(span);
      UnionHas(ReadSpan, spans, |spans|, span.start - (MAX_INT - span.step + 1) - WORD / 2);
      MeansInRange(spans, min, max);
    } else {
      forall k | 0 <= k < |spans| && spans[k].Some?
        ensures ReadSpan(spans[k].value) == StepsOf(spans[k].value)
      {
        SpanReadExactly(spans[k].value);
      }
      SameUnion(spans, |spans|);
    }
  }

  // ---- A field as written ----

  function Texts(items: seq<Item>): seq<string> {
    seq(|items|, k requires 0 <= k < |items| => Write(items[k]))
  }

  function WriteField(items: seq<Item>): string
    requires items != []
  {
    Join(Texts(items))
  }

  /** An item allows a value. */
  predicate Allows(item: Item, min: int, max: int, x: int) {
    var step := if item.step.Some? then item.step.value else 1;
    && step > 0
    && match item.base
       case Every => min <= x <= max && (x - min) % step == 0
       case One(v) => if item.step.Some? then v <= x <= max && (x - v) % step == 0 else x == v
       case Range(a, z) => a <= x <= z && (x - a) % step == 0
  }

  ghost predicate ItemChars(s: string) {
    s != "" && forall j :: 0 <= j < |s| ==> IsPlain(s[j]) || s[j] == '/'
  }

  lemma WriteChars(item: Item)
    ensures ItemChars(Write(item))
  {
    WriteBasePlain(item.base);
    if item.step.Some? {
      DecimalDigits(item.step.value);
      var base, number := WriteBase(item.base), Decimal(item.step.value);
      assert forall j :: 0 <= j < |base| ==> IsPlain(base[j]);
      assert forall j :: 0 <= j < |number| ==> IsDigit(number[j]);
    }
  }

  lemma PartsOfWritten(items: seq<Item>)
    requires items != []
    ensures Commas(WriteField(items)) == Texts(items)
  {
    forall k | 0 <= k < |items|
      ensures Lacks(Texts(items)[k], ',')
    {
      WriteChars(items[k]);
    }
    CommasOfJoined(Texts(items));
  }

  lemma SpansOfWritten(items: seq<Item>, min: int, max: int, k: nat)
    requires 0 <= min && max <= MAX_INT && k < |items|
    ensures var spans := SpansOf(WriteField(items), min, max);
            && |spans| == |items|
            && spans[k] == if Accepted(items[k], min, max) then Some(SpanOf(items[k], min, max)) else None
  {
    PartsOfWritten(items);
    ParsePartOfWritten(items[k], min, max);
  }

  lemma SpanAllows(item: Item, min: int, max: int, x: int)
    requires Accepted(item, min, max)
    ensures x in StepsOf(SpanOf(item, min, max)) <==> Allows(item, min, max, x)
  {
    var span := SpanOf(item, min, max);
    StepsAre(span.start, span.end, span.step, x);
  }

  ghost predicate AllAccepted(items: seq<Item>, min: int, max: int) {
    forall k :: 0 <= k < |items| ==> Accepted(items[k], min, max)
  }

  ghost predicate SomeAllows(items: seq<Item>, min: int, max: int, x: int) {
    exists k :: 0 <= k < |items| && Allows(items[k], min, max, x)
  }

  /** A written field is read exactly when all its items are acceptable, and then allows what some item allows. */
  lemma FieldMeans(items: seq<Item>, min: int, max: int, x: int)
    requires items != [] && 0 <= min && max <= MAX_INT
    ensures var r := FieldValues(WriteField(items), min, max);
            && (r.Some? <==> AllAccepted(items, min, max))
            && (r.Some? ==> (x in r.value <==> SomeAllows(items, min, max, x)))
  {
    var spans := SpansOf(WriteField(items), min, max);
    SpansOfWritten(items, min, max, 0);
    UnionHas(StepsOf, spans, |spans|, x);
    forall k | 0 <= k < |items|
      ensures spans[k].Some? <==> Accepted(items[k], min, max)
      ensures spans[k].Some? ==> (x in StepsOf(spans[k].value) <==> Allows(items[k], min, max, x))
    {
      SpansOfWritten(items, min, max, k);
      if Accepted(items[k], min, max) {
        SpanAllows(items[k], min, max, x);
      }
    }
  }

  /** An item that starts beyond the range: accepted only because it has a step, and it allows nothing. */
  predicate StartsBeyond(item: Item, max: int) {
    item.base.One? && item.step.Some? && item.base.value > max
  }

  lemma FirstAllowed(item: Item, min: int, max: int)
    requires Accepted(item, min, max) && min <= max
    ensures StartsBeyond(item, max) ==> forall x :: !Allows(item, min, max, x)
    ensures !StartsBeyond(item, max) ==> Allows(item, min, max, SpanOf(item, min, max).start)
  {
  }

  /** A field that is read allows no value at all exactly when every item starts beyond the range. */
  lemma EmptyExactlyWhenBeyond(items: seq<Item>, min: int, max: int)
    requires items != [] && 0 <= min <= max <= MAX_INT && AllAccepted(items, min, max)
    ensures FieldValues(WriteField(items), min, max) == Some({}) <==>
            forall k :: 0 <= k < |items| ==> StartsBeyond(items[k], max)
  {
    var r := FieldValues(WriteField(items), min, max);
    FieldMeans(items, min, max, 0);
    if k :| 0 <= k < |items| && !StartsBeyond(items[k], max) {
      FirstAllowed(items[k], min, max);
      FieldMeans(items, min, max, SpanOf(items[k], min, max).start);
    } else {
      forall k | 0 <= k < |items|
        ensures forall x :: !Allows(items[k], min, max, x)
      {
        FirstAllowed(items[k], min, max);
      }
      if r.value != {} {
        var x := Member(r.value);
        FieldMeans(items, min, max, x);
      }
    }
  }

  /** `70/5` is taken for a field of minutes. */
  lemma MinuteSeventyIsRead()
    ensures FieldValues(WriteField([Item(One(70), Some(5))]), 0, 59) == Some({})
    ensures FieldRead(WriteField([Item(One(70), Some(5))]), 0, 59) == Some({})
  {
    EmptyExactlyWhenBeyond([Item(One(70), Some(5))], 0, 59);
    OneItemRead(Item(One(70), Some(5)), 0, 59);
  }

  /** Reading goes wrong exactly when an item's step reaches past the largest integer. */
  lemma OverflowsExactlyWhen(items: seq<Item>, min: int, max: int)
    requires items != [] && 0 <= min <= max <= MAX_INT && AllAccepted(items, min, max)
    ensures FieldOverflows(WriteField(items), min, max) <==>
            exists k :: 0 <= k < |items| && Overflows(SpanOf(items[k], min, max))
  {
    var spans := SpansOf(WriteField(items), min, max);
    SpansOfWritten(items, min, max, 0);
    forall k | 0 <= k < |items|
      ensures spans[k] == Some(SpanOf(items[k], min, max))
    {
      SpansOfWritten(items, min, max, k);
    }
  }

  /** A value that an overflowing item adds to its field. */
  predicate Strays(item: Item, min: int, max: int, x: int) {
    var span := SpanOf(item, min, max);
    && span.step <= MAX_INT && Overflows(span)
    && x <= span.start && (span.start - x) % (2 * (MAX_INT - span.step + 1)) == 0
  }

  lemma SpanReads(item: Item, min: int, max: int, x: int)
    requires Accepted(item, min, max) && 0 <= min <= max <= 59 && min <= x <= max
    ensures x in ReadSpan(SpanOf(item, min, max)) <==> Allows(item, min, max, x) || Strays(item, min, max, x)
  {
    var span := SpanOf(item, min, max);
    SpanAllows(item, min, max, x);
    if Overflows(span) {
      StrayAre(span.start, MAX_INT - span.step + 1, x);
      SpanReadBounds(span);
    }
  }

  /** Of the values in its range the code takes what some item allows and what an overflowing item adds. */
  lemma FieldReads(items: seq<Item>, min: int, max: int, x: int)
    requires items != [] && 0 <= min <= max <= 59 && AllAccepted(items, min, max) && min <= x <= max
    ensures var r := FieldRead(WriteField(items), min, max);
            r.Some? && (x in r.value <==> exists k :: 0 <= k < |items| && (Allows(items[k], min, max, x) || Strays(items[k], min, max, x)))
  {
    var spans := SpansOf(WriteField(items), min, max);
    SpansOfWritten(items, min, max, 0);
    UnionHas(ReadSpan, spans, |spans|, x);
    forall k | 0 <= k < |items|
      ensures spans[k].Some? && (x in ReadSpan(spans[k].value) <==> Allows(items[k], min, max, x) || Strays(items[k], min, max, x))
    {
      SpansOfWritten(items, min, max, k);
      SpanReads(items[k], min, max, x);
    }
  }

  /** A field of one item. */
  lemma OneItemRead(item: Item, min: int, max: int)
    requires Accepted(item, min, max) && 0 <= min <= max <= 59
    ensures FieldRead(WriteField([item]), min, max) == Some(ReadSpan(SpanOf(item, min, max)))
    ensures FieldValues(WriteField([item]), min, max) == Some(StepsOf(SpanOf(item, min, max)))
  {
    var spans := SpansOf(WriteField([item]), min, max);
    SpansOfWritten([item], min, max, 0);
    UnionOfOne(ReadSpan, spans, SpanOf(item, min, max));
    UnionOfOne(StepsOf, spans, SpanOf(item, min, max));
  }

  lemma UnionOfOne(values: Span -> set<int>, spans: seq<Option<Span>>, span: Span)
    requires |spans| == 1 && spans[0] == Some(span)
    ensures UnionTo(values, spans, 1) == Some(values(span))
  {
    assert UnionTo(values, spans, 0) == Some({});
    assert {} + values(span) == values(span);
  }

  /** Every fifth minute is read as meant; from minute 5 in the largest possible steps is not. */
  lemma LargestStepOverflows()
    ensures !FieldOverflows(WriteField([Item(Every, Some(5))]), 0, 59)
    ensures FieldOverflows(WriteField([Item(One(5), Some(MAX_INT))]), 0, 59)
  {
    var usual, largest := [Item(Every, Some(5))], [Item(One(5), Some(MAX_INT))];
    OverflowsExactlyWhen(usual, 0, 59);
    OverflowsExactlyWhen(largest, 0, 59);
    assert Overflows(SpanOf(largest[0], 0, 59));
  }
}
