/**
 A whole cron expression: its five fields, and when it fires next.
 Source: backend/internal/controlplane/scheduler.go.
 */
module CronSchedule {
  import opened Arithmetic
  import opened Common
  import opened Text
  import opened Numerals
  import opened Calendar
  import opened Cron
  import opened CronText

  // ---- Words ----

  function WordEnd(space: char -> bool, s: string, k: nat): (e: nat)
    requires k <= |s|
    ensures k <= e <= |s| && (e < |s| ==> space(s[e]))
    ensures forall j :: k <= j < e ==> !space(s[j])
    decreases |s| - k
  {
    if k == |s| || space(s[k]) then k else WordEnd(space, s, k + 1)
  }

  function WordsFrom(space: char -> bool, s: string, k: nat): seq<string>
    requires k <= |s|
    decreases |s| - k
  {
    if k == |s| then []
    else if space(s[k]) then WordsFrom(space, s, k + 1)
    else [s[k..WordEnd(space, s, k)]] + WordsFrom(space, s, WordEnd(space, s, k))
  }

  /** `strings.Fields` */
  function Words(s: string): seq<string> {
    WordsFrom(IsSpace, s, 0)
  }

  ghost predicate IsWord(w: string) {
    w != "" && forall j :: 0 <= j < |w| ==> !IsSpace(w[j])
  }

  function Sentence(words: seq<string>): string
    requires words != []
  {
    if |words| == 1 then words[0] else words[0] + ([' '] + Sentence(words[1..]))
  }

  lemma {:induction false} WordEndShift(space: char -> bool, t: string, d: nat, s: string, k: nat)
    requires Follows(t, d, s) && k <= |s|
    ensures WordEnd(space, t, d + k) == d + WordEnd(space, s, k)
    decreases |s| - k
  {
    if k < |s| && !space(s[k]) {
      WordEndShift(space, t, d, s, k + 1);
    }
  }

  lemma {:induction false} WordsShift(space: char -> bool, t: string, d: nat, s: string, k: nat)
    requires Follows(t, d, s) && k <= |s|
    ensures WordsFrom(space, t, d + k) == WordsFrom(space, s, k)
    decreases |s| - k
  {
    if k < |s| && space(s[k]) {
      WordsShift(space, t, d, s, k + 1);
    } else if k < |s| {
      var e := WordEnd(space, s, k);
      WordEndShift(space, t, d, s, k);
      SliceShift(t, d, s, k, e);
      WordsShift(space, t, d, s, e);
    }
  }

  lemma EndOfWord(t: string, e: nat)
    requires e <= |t| && (e < |t| ==> IsSpace(t[e])) && forall j :: 0 <= j < e ==> !IsSpace(t[j])
    ensures WordEnd(IsSpace, t, 0) == e
  {
  }

  /** A word ends at any white space. */
  lemma FirstWord(w: string, c: char, rest: string)
    requires IsWord(w) && IsSpace(c)
    ensures Words(w + ([c] + rest)) == [w] + Words(rest)
  {
    var t := w + ([c] + rest);
    assert t[|w|] == c && forall j :: 0 <= j < |w| ==> t[j] == w[j];
    EndOfWord(t, |w|);
    assert t[0..|w|] == w;
    assert WordsFrom(IsSpace, t, |w|) == WordsFrom(IsSpace, t, |w| + 1);
    WordsShift(IsSpace, t, |w| + 1, rest, 0);
  }

  /** White space before the first word, however much, does not show. */
  lemma SpaceDoesNotShow(c: char, rest: string)
    requires IsSpace(c)
    ensures Words([c] + rest) == Words(rest)
  {
    var t := [c] + rest;
    assert WordsFrom(IsSpace, t, 0) == WordsFrom(IsSpace, t, 1);
    WordsShift(IsSpace, t, 1, rest, 0);
  }

  lemma OnlyWord(w: string)
    requires IsWord(w)
    ensures Words(w) == [w]
  {
    EndOfWord(w, |w|);
    assert w[0..|w|] == w && !IsSpace(w[0]);
    assert WordsFrom(IsSpace, w, |w|) == [];
  }

  lemma {:induction false} WordsOfSentence(words: seq<string>)
    requires words != [] && forall k :: 0 <= k < |words| ==> IsWord(words[k])
    ensures Words(Sentence(words)) == words
  {
    if |words| == 1 {
      OnlyWord(words[0]);
    } else {
      WordsOfSentence(words[1..]);
      FirstWord(words[0], ' ', Sentence(words[1..]));
    }
  }

  // ---- Expressions ----

  /** The ranges of the five fields. */
  function Min(k: nat): int {
    if k == 2 || k == 3 then 1 else 0
  }

  function Max(k: nat): int {
    match k
    case 0 => 59
    case 1 => 23
    case 2 => 31
    case 3 => 12
    case _ => 6
  }

  /** The fields, if each of them could be read. */
  function Assemble(values: seq<Option<set<int>>>): Option<Fields>
    requires |values| == 5
  {
    if exists k :: 0 <= k < 5 && values[k].None? then None
    else Some(Fields(values[0].value, values[1].value, values[2].value, values[3].value, values[4].value))
  }

  function ValuesOf(words: seq<string>): (values: seq<Option<set<int>>>)
    ensures |values| == |words|
  {
    seq(|words|, k requires 0 <= k < |words| => FieldValues(words[k], Min(k), Max(k)))
  }

  /** What an expression means, if it can be read. */
  function ParseCron(expression: string): Option<Fields> {
    var w := Words(expression);
    if |w| != 5 then None else Assemble(ValuesOf(w))
  }

  ghost predicate WordOverflows(words: seq<string>, k: nat)
    requires k < |words|
  {
    FieldOverflows(words[k], Min(k), Max(k))
  }

  ghost predicate ExpressionOverflows(expression: string) {
    var w := Words(expression);
    |w| == 5 && exists k :: 0 <= k < 5 && WordOverflows(w, k)
  }

  lemma FieldInRange(field: string, min: int, max: int)
    ensures FieldValues(field, min, max).Some? ==> InRange(FieldValues(field, min, max).value, min, max)
  {
    var spans := SpansOf(field, min, max);
    MeansInRange(spans, min, max);
  }

  lemma AssembledIsLawful(values: seq<Option<set<int>>>)
    requires |values| == 5 && Assemble(values).Some?
    requires forall k :: 0 <= k < 5 && values[k].Some? ==> InRange(values[k].value, Min(k), Max(k))
    ensures Lawful(Assemble(values).value)
  {
    assert InRange(values[0].value, Min(0), Max(0)) && InRange(values[1].value, Min(1), Max(1));
    assert InRange(values[2].value, Min(2), Max(2)) && InRange(values[3].value, Min(3), Max(3));
    assert InRange(values[4].value, Min(4), Max(4));
  }

  lemma ParsedIsLawful(expression: string)
    requires ParseCron(expression).Some?
    ensures Lawful(ParseCron(expression).value)
  {
    var w := Words(expression);
    var values := ValuesOf(w);
    forall k | 0 <= k < 5 && values[k].Some?
      ensures InRange(values[k].value, Min(k), Max(k))
    {
      FieldInRange(w[k], Min(k), Max(k));
    }
    AssembledIsLawful(values);
  }

  function ReadOf(words: seq<string>): (values: seq<Option<set<int>>>)
    ensures |values| == |words|
  {
    seq(|words|, k requires 0 <= k < |words| => FieldRead(words[k], Min(k), Max(k)))
  }

  /** What the code makes of an expression. */
  function ReadCron(expression: string): Option<Fields> {
    var w := Words(expression);
    if |w| != 5 then None else Assemble(ReadOf(w))
  }

  lemma ReadDays(expression: string)
    requires ReadCron(expression).Some?
    ensures forall d :: d in ReadCron(expression).value.dom ==> d <= 31
  {
    var w := Words(expression);
    ReadAtMost(SpansOf(w[2], Min(2), Max(2)), Min(2), Max(2));
    assert ReadOf(w)[2] == Some(ReadCron(expression).value.dom);
  }

  /** What reading gives, against what it should give. */
  ghost predicate Agrees(read: Option<set<int>>, value: Option<set<int>>, overflows: bool) {
    (read.None? <==> value.None?) && (read.Some? ==> (read == value <==> !overflows))
  }

  lemma AssembleAgrees(read: seq<Option<set<int>>>, values: seq<Option<set<int>>>, overflows: seq<bool>)
    requires |read| == |values| == |overflows| == 5
    requires forall k :: 0 <= k < 5 ==> Agrees(read[k], values[k], overflows[k])
    ensures Assemble(read).None? <==> Assemble(values).None?
    ensures Assemble(read).Some? ==>
              (Assemble(read) == Assemble(values) <==> forall k :: 0 <= k < 5 ==> !overflows[k])
  {
    if Assemble(read).Some? {
      assert forall k :: 0 <= k < 5 ==> read[k].Some? && (read[k].value == values[k].value <==> !overflows[k]);
      var r, v := Assemble(read).value, Assemble(values).value;
      assert r == v <==>
             read[0].value == values[0].value && read[1].value == values[1].value && read[2].value == values[2].value
             && read[3].value == values[3].value && read[4].value == values[4].value;
    }
  }

  lemma WordsAgree(words: seq<string>)
    requires |words| == 5
    ensures Assemble(ReadOf(words)).None? <==> Assemble(ValuesOf(words)).None?
    ensures Assemble(ReadOf(words)).Some? ==>
              (Assemble(ReadOf(words)) == Assemble(ValuesOf(words)) <==> forall k :: 0 <= k < 5 ==> !WordOverflows(words, k))
  {
    var overflows := seq(5, k requires 0 <= k < 5 => WordOverflows(words, k));
    forall k | 0 <= k < 5
      ensures Agrees(ReadOf(words)[k], ValuesOf(words)[k], overflows[k])
    {
      FieldReadExactly(words[k], Min(k), Max(k));
    }
    AssembleAgrees(ReadOf(words), ValuesOf(words), overflows);
    assert forall k :: 0 <= k < 5 ==> overflows[k] == WordOverflows(words, k);
  }

  /** An expression is refused exactly when it means nothing, and read as meant exactly when no field overflows. */
  lemma ReadCronExactly(expression: string)
    ensures ReadCron(expression).None? <==> ParseCron(expression).None?
    ensures ReadCron(expression).Some? ==> (ReadCron(expression) == ParseCron(expression) <==> !ExpressionOverflows(expression))
  {
    var words := Words(expression);
    if |words| == 5 {
      WordsAgree(words);
    }
  }

  method ReadField(words: seq<string>, k: nat) returns (read: Option<set<int>>)
    requires |words| == 5 && k < 5
    ensures read == ReadOf(words)[k]
  {
    read := ParseCronField(words[k], Min(k), Max(k));
  }

  /** The five calls of `parseCronFields`. */
  method ReadFields(words: seq<string>) returns (read: seq<Option<set<int>>>)
    requires |words| == 5
    ensures read == ReadOf(words)
  {
    read := [];
    ghost var all := ReadOf(words);
    for i := 0 to 5
      invariant |read| == i && forall k :: 0 <= k < i ==> read[k] == all[k]
    {
      var field := ReadField(words, i);
      read := read + [field];
    }
  }

  /** `parseCronFields`; the order in which fields are refused does not show. */
  method ParseCronFields(expression: string) returns (result: Option<Fields>)
    ensures result == ReadCron(expression)
  {
    var words := Words(expression);
    if |words| != 5 {
      return None;
    }
    var read := ReadFields(words);
    result := Assemble(read);
  }

  /** The fields read mean what the expression means. */
  ghost predicate ReadAsMeant(expression: string) {
    && ReadCron(expression).Some? && ParseCron(expression).Some?
    && SameMeaning(ReadCron(expression).value, ParseCron(expression).value)
  }

  /**
   `NextFire` on a cron expression in a time zone whose clocks show `local`: the answer for the fields as
   they are read, which is the answer to what was meant when these mean the same.
   */
  method NextFire(expression: string, local: int -> int, now: int) returns (next: Option<int>)
    ensures ParseCron(expression).None? ==> next.None?
    ensures ReadCron(expression).Some? ==> Answers(ReadCron(expression).value, local, now, next)
    ensures ReadAsMeant(expression) ==> Answers(ParseCron(expression).value, local, now, next)
  {
    var fields := ParseCronFields(expression);
    ReadCronExactly(expression);
    if fields.None? {
      return None;
    }
    ReadDays(expression);
    next := NextCronMinute(fields.value, local, now);
    if ReadAsMeant(expression) {
      SameAnswers(fields.value, ParseCron(expression).value, local, now, next);
    }
  }

  ghost predicate SameInstants(f: Fields, g: Fields, local: int -> int) {
    forall t :: Fires(f, local, t) <==> Fires(g, local, t)
  }

  lemma SameInstantsExactly(f: Fields, g: Fields, local: int -> int, offset: int)
    requires FixedOffset(local, offset)
    ensures SameInstants(f, g, local) <==> SameMeaning(f, g)
  {
    SameMinutesExactly(f, g);
    if SameInstants(f, g, local) {
      forall n
        ensures MinuteMatches(f, n) <==> MinuteMatches(g, n)
      {
        var t := (n - offset) * MINUTE;
        assert t / MINUTE == n - offset && local(t / MINUTE) == n;
        assert Fires(f, local, t) <==> Fires(g, local, t);
      }
    }
  }

  /** An accepted expression fires at exactly the instants it was meant to, if and only if it is read as meant. */
  lemma FiresAsMeantExactly(expression: string, local: int -> int, offset: int)
    requires ReadCron(expression).Some? && FixedOffset(local, offset)
    ensures ParseCron(expression).Some?
    ensures SameInstants(ReadCron(expression).value, ParseCron(expression).value, local) <==> ReadAsMeant(expression)
    ensures !ExpressionOverflows(expression) ==> ReadAsMeant(expression)
  {
    ReadCronExactly(expression);
    SameInstantsExactly(ReadCron(expression).value, ParseCron(expression).value, local, offset);
  }

  // ---- Expressions as written ----

  ghost predicate Spaceless(s: string) {
    forall j :: 0 <= j < |s| ==> !IsSpace(s[j])
  }

  lemma SpacelessCut(a: string, c: char, b: string)
    requires Spaceless(a) && !IsSpace(c) && Spaceless(b)
    ensures Spaceless(a + ([c] + b))
  {
  }

  lemma {:induction false} JoinIsWord(parts: seq<string>)
    requires parts != [] && forall k :: 0 <= k < |parts| ==> parts[k] != "" && Spaceless(parts[k])
    ensures Join(parts) != "" && Spaceless(Join(parts))
  {
    if |parts| > 1 {
      JoinIsWord(parts[1..]);
      SpacelessCut(parts[0], ',', Join(parts[1..]));
    }
  }

  lemma ItemHasNoSpace(s: string)
    requires ItemChars(s)
    ensures Spaceless(s)
  {
    assert forall j :: 0 <= j < |s| ==> s[j] == '*' || s[j] == '-' || s[j] == '/' || '0' <= s[j] <= '9';
  }

  lemma FieldIsWord(items: seq<Item>)
    requires items != []
    ensures IsWord(WriteField(items))
  {
    forall k | 0 <= k < |items|
      ensures Texts(items)[k] != "" && Spaceless(Texts(items)[k])
    {
      WriteChars(items[k]);
      ItemHasNoSpace(Texts(items)[k]);
    }
    JoinIsWord(Texts(items));
  }

  ghost predicate FiveFields(fields: seq<seq<Item>>) {
    |fields| == 5 && forall k :: 0 <= k < 5 ==> fields[k] != []
  }

  function WriteFields(fields: seq<seq<Item>>): seq<string>
    requires forall k :: 0 <= k < |fields| ==> fields[k] != []
  {
    seq(|fields|, k requires 0 <= k < |fields| => WriteField(fields[k]))
  }

  function WriteCron(fields: seq<seq<Item>>): string
    requires fields != [] && forall k :: 0 <= k < |fields| ==> fields[k] != []
  {
    Sentence(WriteFields(fields))
  }

  lemma WordsOfWritten(fields: seq<seq<Item>>)
    requires FiveFields(fields)
    ensures Words(WriteCron(fields)) == WriteFields(fields)
  {
    forall k | 0 <= k < 5
      ensures IsWord(WriteFields(fields)[k])
    {
      FieldIsWord(fields[k]);
    }
    WordsOfSentence(WriteFields(fields));
  }

  function FieldAt(f: Fields, k: nat): set<int> {
    match k
    case 0 => f.minute
    case 1 => f.hour
    case 2 => f.dom
    case 3 => f.month
    case _ => f.dow
  }

  lemma AssembledAt(values: seq<Option<set<int>>>, k: nat)
    requires |values| == 5 && k < 5
    ensures Assemble(values).Some? <==> forall j :: 0 <= j < 5 ==> values[j].Some?
    ensures Assemble(values).Some? ==> FieldAt(Assemble(values).value, k) == values[k].value
  {
  }

  ghost predicate WellFormed(fields: seq<seq<Item>>) {
    forall k :: 0 <= k < |fields| ==> AllAccepted(fields[k], Min(k), Max(k))
  }

  /** An expression is read exactly when its items are acceptable, and each field allows what one of its items allows. */
  lemma WrittenCronMeans(fields: seq<seq<Item>>, k: nat, x: int)
    requires FiveFields(fields) && k < 5
    ensures var r := ParseCron(WriteCron(fields));
            && (r.Some? <==> WellFormed(fields))
            && (r.Some? ==> (x in FieldAt(r.value, k) <==> SomeAllows(fields[k], Min(k), Max(k), x)))
  {
    var words := WriteFields(fields);
    WordsOfWritten(fields);
    AssembledAt(ValuesOf(words), k);
    forall j | 0 <= j < 5
      ensures ValuesOf(words)[j].Some? <==> AllAccepted(fields[j], Min(j), Max(j))
    {
      FieldMeans(fields[j], Min(j), Max(j), x);
    }
    FieldMeans(fields[k], Min(k), Max(k), x);
  }

  // ---- Two expressions that overflow ----

  function Singles(items: seq<Item>): seq<seq<Item>> {
    seq(|items|, k requires 0 <= k < |items| => [items[k]])
  }

  function FieldsOf(values: Span -> set<int>, items: seq<Item>): Fields
    requires |items| == 5
  {
    Fields(values(SpanOf(items[0], Min(0), Max(0))), values(SpanOf(items[1], Min(1), Max(1))),
      values(SpanOf(items[2], Min(2), Max(2))), values(SpanOf(items[3], Min(3), Max(3))), values(SpanOf(items[4], Min(4), Max(4))))
  }

  lemma AssembleItems(values: Span -> set<int>, items: seq<Item>, fields: seq<Option<set<int>>>)
    requires |items| == |fields| == 5
    requires forall k :: 0 <= k < 5 ==> fields[k] == Some(values(SpanOf(items[k], Min(k), Max(k))))
    ensures Assemble(fields) == Some(FieldsOf(values, items))
  {
    assert fields[0].Some? && fields[1].Some? && fields[2].Some? && fields[3].Some? && fields[4].Some?;
  }

  /** An expression with one item in each field. */
  lemma OneItemEach(items: seq<Item>)
    requires |items| == 5 && forall k :: 0 <= k < 5 ==> Accepted(items[k], Min(k), Max(k))
    ensures ReadCron(WriteCron(Singles(items))) == Some(FieldsOf(ReadSpan, items))
    ensures ParseCron(WriteCron(Singles(items))) == Some(FieldsOf(StepsOf, items))
  {
    var fields := Singles(items);
    WordsOfWritten(fields);
    var words := WriteFields(fields);
    forall k | 0 <= k < 5
      ensures ReadOf(words)[k] == Some(ReadSpan(SpanOf(items[k], Min(k), Max(k))))
      ensures ValuesOf(words)[k] == Some(StepsOf(SpanOf(items[k], Min(k), Max(k))))
    {
      OneItemRead(items[k], Min(k), Max(k));
    }
    AssembleItems(ReadSpan, items, ReadOf(words));
    AssembleItems(StepsOf, items, ValuesOf(words));
  }

  /** Midnight on Fridays, with the largest possible step after the 5: `0 0 * * 5/9223372036854775807`. */
  function Fridays(): seq<Item> {
    [Item(One(0), None), Item(One(0), None), Item(Every, None), Item(Every, None), Item(One(5), Some(MAX_INT))]
  }

  lemma EveryStepOf(min: int, max: int, x: int)
    requires min <= max
    ensures x in Steps(min, max, 1) <==> min <= x <= max
  {
    StepsAre(min, max, 1, x);
  }

  lemma EveryIsAny(min: int, max: int)
    requires min <= max
    ensures FieldIsAny(Steps(min, max, 1), min, max)
  {
    forall x
      ensures x in Steps(min, max, 1) <==> min <= x <= max
    {
      EveryStepOf(min, max, x);
    }
    AnyAllowsAll(Steps(min, max, 1), min, max);
  }

  /** The step wraps around six times: seven values, as many as there are weekdays. */
  lemma SevenStrays()
    ensures Stray(5, 1) == {5, 3, 1, -1, 4 - WORD / 2, 2 - WORD / 2, 0 - WORD / 2} && |Stray(5, 1)| == 7
  {
    assert Stray(-1, 1) == {-1};
    assert Stray(1, 1) == {1, 0 - WORD / 2, -1};
    assert Stray(3, 1) == {3, 2 - WORD / 2, 1, 0 - WORD / 2, -1};
  }

  ghost predicate AtMidnight(f: Fields) {
    DomAny(f) && 0 in f.minute && 0 in f.hour && forall m :: 1 <= m <= 12 ==> m in f.month
  }

  lemma MidnightFields(f: Fields)
    requires f.minute == f.hour == Steps(0, 0, 1) && f.dom == Steps(1, 31, 1) && f.month == Steps(1, 12, 1)
    ensures AtMidnight(f)
  {
    EveryIsAny(1, 31);
    forall m | 1 <= m <= 12 ensures m in f.month {
      EveryStepOf(1, 12, m);
    }
  }

  lemma MidnightMatches(f: Fields, day: int)
    requires AtMidnight(f)
    ensures MinuteMatches(f, day * DAY_MINUTES) <==> DowAny(f) || Weekday(day) in f.dow
  {
    DateOfIsDate(day);
    MatchesAt(f, day, 0, 0);
  }

  lemma FridaySpans(items: seq<Item>)
    requires items == Fridays()
    ensures var spans := seq(5, k requires 0 <= k < 5 => SpanOf(items[k], Min(k), Max(k)));
            spans == [Span(0, 0, 1), Span(0, 0, 1), Span(1, 31, 1), Span(1, 12, 1), Span(5, 6, MAX_INT)]
  {
  }

  lemma FridayFields(items: seq<Item>, read: Fields, meant: Fields)
    requires items == Fridays() && read == FieldsOf(ReadSpan, items) && meant == FieldsOf(StepsOf, items)
    ensures AtMidnight(read) && DowAny(read) && AtMidnight(meant) && !DowAny(meant) && meant.dow == {5}
  {
    FridaySpans(items);
    SevenStrays();
    assert Steps(5 + MAX_INT, 6, MAX_INT) == {};
    MidnightFields(read);
    MidnightFields(meant);
  }

  /** The schedule as it is meant, and as it is read, matches a minute. */
  ghost predicate FiresMeant(expression: string, n: int) {
    ParseCron(expression).Some? && MinuteMatches(ParseCron(expression).value, n)
  }

  ghost predicate FiresRead(expression: string, n: int) {
    ReadCron(expression).Some? && MinuteMatches(ReadCron(expression).value, n)
  }

  lemma FiresBy(expression: string, read: Fields, meant: Fields, n: int)
    requires ReadCron(expression) == Some(read) && ParseCron(expression) == Some(meant)
    ensures FiresRead(expression, n) <==> MinuteMatches(read, n)
    ensures FiresMeant(expression, n) <==> MinuteMatches(meant, n)
  {
  }

  lemma ItemsFire(items: seq<Item>, read: Fields, meant: Fields, n: int)
    requires |items| == 5 && forall k :: 0 <= k < 5 ==> Accepted(items[k], Min(k), Max(k))
    requires read == FieldsOf(ReadSpan, items) && meant == FieldsOf(StepsOf, items)
    ensures FiresRead(WriteCron(Singles(items)), n) <==> MinuteMatches(read, n)
    ensures FiresMeant(WriteCron(Singles(items)), n) <==> MinuteMatches(meant, n)
  {
    OneItemEach(items);
    FiresBy(WriteCron(Singles(items)), read, meant, n);
  }

  /** It was meant for Fridays, and fires every day. */
  lemma FridayFiresDaily(items: seq<Item>, day: int)
    requires items == Fridays()
    ensures FiresRead(WriteCron(Singles(items)), day * DAY_MINUTES)
    ensures FiresMeant(WriteCron(Singles(items)), day * DAY_MINUTES) <==> OnWeekday(day, 5)
  {
    OnWeekdayIs(day, 5);
    var read, meant := FieldsOf(ReadSpan, items), FieldsOf(StepsOf, items);
    FridayFields(items, read, meant);
    MidnightMatches(read, day);
    MidnightMatches(meant, day);
    ItemsFire(items, read, meant, day * DAY_MINUTES);
  }

  /** The first minute of every hour, with the same step: `1/9223372036854775807 * * * *`. */
  function FirstMinutes(): seq<Item> {
    [Item(One(1), Some(MAX_INT)), Item(Every, None), Item(Every, None), Item(Every, None), Item(Every, None)]
  }

  lemma OnlyMinuteDiffers(read: Fields, meant: Fields)
    requires read == meant.(minute := read.minute) && SameIn(read.minute, meant.minute, 0, 59)
    ensures SameMeaning(read, meant)
  {
  }

  lemma FirstMinuteFields(items: seq<Item>, read: Fields, meant: Fields)
    requires items == FirstMinutes() && read == FieldsOf(ReadSpan, items) && meant == FieldsOf(StepsOf, items)
    ensures SameMeaning(read, meant) && read != meant
  {
    assert Stray(-1, 1) == {-1};
    assert read.minute == Stray(1, 1) == {1, 0 - WORD / 2, -1};
    assert Steps(1 + MAX_INT, 59, MAX_INT) == {};
    assert meant.minute == Steps(1, 59, MAX_INT) == {1};
    assert -1 in read.minute && -1 !in meant.minute;
    OnlyMinuteDiffers(read, meant);
  }

  lemma ReadAsMeantBy(expression: string, read: Fields, meant: Fields)
    requires ReadCron(expression) == Some(read) && ParseCron(expression) == Some(meant)
    ensures ReadAsMeant(expression) <==> SameMeaning(read, meant)
  {
  }

  lemma ItemsReadAsMeant(items: seq<Item>, read: Fields, meant: Fields)
    requires |items| == 5 && forall k :: 0 <= k < 5 ==> Accepted(items[k], Min(k), Max(k))
    requires read == FieldsOf(ReadSpan, items) && meant == FieldsOf(StepsOf, items)
    ensures ReadAsMeant(WriteCron(Singles(items))) <==> SameMeaning(read, meant)
    ensures ReadCron(WriteCron(Singles(items))) == ParseCron(WriteCron(Singles(items))) <==> read == meant
  {
    OneItemEach(items);
    ReadAsMeantBy(WriteCron(Singles(items)), read, meant);
  }

  /** It overflows too, but all it adds is negative, and it fires as meant. */
  lemma FirstMinutesFireAsMeant(items: seq<Item>)
    requires items == FirstMinutes()
    ensures ReadAsMeant(WriteCron(Singles(items)))
    ensures ReadCron(WriteCron(Singles(items))) != ParseCron(WriteCron(Singles(items)))
  {
    var read, meant := FieldsOf(ReadSpan, items), FieldsOf(StepsOf, items);
    FirstMinuteFields(items, read, meant);
    ItemsReadAsMeant(items, read, meant);
  }

  // ---- Two kinds of schedule on the calendar ----

  ghost predicate Once(values: set<int>, x: int) {
    values == {x}
  }

  lemma OnceSteps(x: int)
    ensures Once(Steps(x, x, 1), x)
  {
    assert Steps(x + 1, x, 1) == {};
  }

  /** Midnight on one weekday: `0 0 * * w`. */
  function Weekly(w: nat): seq<Item> {
    [Item(One(0), None), Item(One(0), None), Item(Every, None), Item(Every, None), Item(One(w), None)]
  }

  lemma WeeklyFields(items: seq<Item>, w: nat, f: Fields)
    requires w <= 6 && items == Weekly(w) && f == FieldsOf(StepsOf, items)
    ensures Once(f.minute, 0) && Once(f.hour, 0) && Once(f.dow, w) && AtMidnight(f)
  {
    OnceSteps(0);
    OnceSteps(w);
    MidnightFields(f);
  }

  /** The date of a day falls on a weekday. */
  ghost predicate OnWeekday(day: int, w: int) {
    Congruence(DateOf(day)) == w
  }

  lemma OnWeekdayIs(day: int, w: int)
    ensures OnWeekday(day, w) <==> Weekday(day) == w
  {
    DateOfIsDate(day);
    WeekdayIsCongruent(DateOf(day));
  }

  lemma WeeklyMatches(f: Fields, w: nat, n: int)
    requires w <= 6 && Once(f.minute, 0) && Once(f.hour, 0) && Once(f.dow, w) && AtMidnight(f)
    ensures MinuteMatches(f, n) <==> n % DAY_MINUTES == 0 && Weekday(n / DAY_MINUTES) == w
  {
    assert |f.dow| == 1;
    MidnightMatches(f, n / DAY_MINUTES);
    MidnightMinute(n);
  }

  lemma MidnightMinute(n: int)
    ensures n % DAY_MINUTES == 0 <==> n % 60 == 0 && n / 60 % 24 == 0
    ensures n % DAY_MINUTES == 0 ==> n == n / DAY_MINUTES * DAY_MINUTES
  {
    var q, r := n / 60, n % 60;
    var d, h := q / 24, q % 24;
    assert n == d * DAY_MINUTES + (h * 60 + r) && 0 <= h * 60 + r < DAY_MINUTES;
    DivisionUnique(n, DAY_MINUTES, d);
    assert n % DAY_MINUTES == h * 60 + r;
  }

  const DAY: int := DAY_MINUTES * MINUTE

  ghost predicate IsUtc(local: int -> int) {
    forall n :: local(n) == n
  }

  /** The midnights, in UTC, of the dates that fall on a weekday. */
  ghost function Midnights(w: int): iset<int> {
    iset t | t % DAY == 0 && OnWeekday(t / DAY, w)
  }

  ghost function Instants(f: Fields, local: int -> int): iset<int> {
    iset t | Fires(f, local, t)
  }

  ghost predicate First(instants: iset<int>, now: int, next: int) {
    next in instants && now < next && forall t :: now < t < next ==> t !in instants
  }

  lemma AnswerIsFirst(f: Fields, local: int -> int, now: int, next: Option<int>)
    requires Answers(f, local, now, next) && next.Some?
    ensures First(Instants(f, local), now, next.value)
  {
  }

  lemma DayOfInstant(t: int)
    ensures t / MINUTE / DAY_MINUTES == t / DAY
    ensures t % DAY == 0 <==> t % MINUTE == 0 && t / MINUTE % DAY_MINUTES == 0
  {
    var n, r := t / MINUTE, t % MINUTE;
    var d, q := n / DAY_MINUTES, n % DAY_MINUTES;
    assert t == d * DAY + (q * MINUTE + r);
    DivisionUnique(t, DAY, d);
  }

  lemma WeeklyFires(f: Fields, local: int -> int, w: nat, t: int)
    requires w <= 6 && Once(f.minute, 0) && Once(f.hour, 0) && Once(f.dow, w) && AtMidnight(f) && IsUtc(local)
    ensures Fires(f, local, t) <==> t in Midnights(w)
  {
    WeeklyMatches(f, w, t / MINUTE);
    DayOfInstant(t);
    OnWeekdayIs(t / DAY, w);
  }

  lemma WeeklyInstants(items: seq<Item>, w: nat, f: Fields, local: int -> int)
    requires w <= 6 && items == Weekly(w) && f == FieldsOf(StepsOf, items) && IsUtc(local)
    ensures Instants(f, local) == Midnights(w)
  {
    WeeklyFields(items, w, f);
    forall t
      ensures Fires(f, local, t) <==> t in Midnights(w)
    {
      WeeklyFires(f, local, w, t);
    }
  }

  lemma WeeklySatisfiable(items: seq<Item>, w: nat, f: Fields)
    requires w <= 6 && items == Weekly(w) && f == FieldsOf(StepsOf, items)
    ensures Satisfiable(f)
  {
    WeeklyFields(items, w, f);
    var day := DaysUntil(w, 0);
    MidnightMatches(f, day);
    MatchSatisfies(f, day * DAY_MINUTES);
  }

  /** In UTC `0 0 * * w` fires next at the first midnight after now of a date that falls on that weekday. */
  lemma WeeklyNext(items: seq<Item>, w: nat, f: Fields, local: int -> int, now: int, next: Option<int>)
    requires w <= 6 && items == Weekly(w) && f == FieldsOf(StepsOf, items) && IsUtc(local)
    requires Answers(f, local, now, next)
    ensures next.Some? && First(Midnights(w), now, next.value)
  {
    WeeklySatisfiable(items, w, f);
    assert FixedOffset(local, 0);
    AnswerIsFirst(f, local, now, next);
    WeeklyInstants(items, w, f, local);
  }

  lemma FirstIsUnique(instants: iset<int>, now: int, a: int, b: int)
    requires First(instants, now, a) && First(instants, now, b)
    ensures a == b
  {
  }

  lemma MidnightOf(day: int, w: int)
    ensures day * DAY in Midnights(w) <==> Weekday(day) == w
  {
    DivisionUnique(day * DAY, DAY, day);
    assert day * DAY % DAY == 0;
    OnWeekdayIs(day, w);
  }

  lemma MondayIsFirst(saturday: int)
    requires Weekday(saturday) == 6
    ensures First(Midnights(1), saturday * DAY + DAY / 2, (saturday + 2) * DAY)
  {
    MidnightOf(saturday + 2, 1);
    NextWeekday(saturday);
    NextWeekday(saturday + 1);
    var now, next := saturday * DAY + DAY / 2, (saturday + 2) * DAY;
    forall t | now < t < next
      ensures t !in Midnights(1)
    {
      if t % DAY == 0 {
        var day := t / DAY;
        assert t == day * DAY && day == saturday + 1;
        MidnightOf(day, 1);
      }
    }
  }

  /** Asked at noon of any Saturday, `0 0 * * 1` fires at midnight two days later. */
  lemma MondayAfterSaturday(items: seq<Item>, monday: nat, f: Fields, local: int -> int, now: int, next: Option<int>, saturday: int)
    requires monday == 1 && items == Weekly(monday) && f == FieldsOf(StepsOf, items) && IsUtc(local)
    requires OnWeekday(saturday, 6) && now == saturday * DAY + DAY / 2 && Answers(f, local, now, next)
    ensures next == Some((saturday + 2) * DAY)
  {
    WeeklyNext(items, monday, f, local, now, next);
    OnWeekdayIs(saturday, 6);
    FirstMonday(saturday, next.value);
  }

  lemma FirstMonday(saturday: int, next: int)
    requires Weekday(saturday) == 6 && First(Midnights(1), saturday * DAY + DAY / 2, next)
    ensures next == (saturday + 2) * DAY
  {
    MondayIsFirst(saturday);
    FirstIsUnique(Midnights(1), saturday * DAY + DAY / 2, next, (saturday + 2) * DAY);
  }

  /** 6 January 2024 is a Saturday and 1 January 1970 a Thursday. */
  lemma TwoDates()
    ensures Congruence(Date(2024, 1, 6)) == 6 && Congruence(Date(1970, 1, 1)) == 4
  {
  }

  /** One minute of one day of the year: `m h d M *`. */
  function Yearly(d: Date, h: nat, m: nat): seq<Item>
    requires d.month >= 0 && d.day >= 0
  {
    [Item(One(m), None), Item(One(h), None), Item(One(d.day), None), Item(One(d.month), None), Item(Every, None)]
  }

  lemma YearlyFields(items: seq<Item>, d: Date, h: nat, m: nat, f: Fields)
    requires IsDate(d) && h <= 23 && m <= 59 && items == Yearly(d, h, m) && f == FieldsOf(StepsOf, items)
    ensures Once(f.minute, m) && Once(f.hour, h) && Once(f.dom, d.day) && Once(f.month, d.month) && DowAny(f)
  {
    OnceSteps(m);
    OnceSteps(h);
    OnceSteps(d.day);
    OnceSteps(d.month);
    EveryIsAny(0, 6);
  }

  lemma OnceMatches(f: Fields, d: Date, h: nat, m: nat, day: int, eh: nat, em: nat)
    requires h <= 23 && m <= 59 && eh <= 23 && em <= 59
    requires Once(f.minute, m) && Once(f.hour, h) && Once(f.dom, d.day) && Once(f.month, d.month) && DowAny(f)
    ensures MinuteMatches(f, day * DAY_MINUTES + (eh * 60 + em)) <==>
            DateOf(day).month == d.month && DateOf(day).day == d.day && eh == h && em == m
  {
    assert |f.dom| == 1;
    MatchesAt(f, day, eh, em);
  }

  /** A yearly schedule, as meant, matches exactly the minute of that time on that day and month of any year. */
  lemma YearlyMatches(items: seq<Item>, d: Date, h: nat, m: nat, f: Fields, day: int, eh: nat, em: nat)
    requires IsDate(d) && h <= 23 && m <= 59 && items == Yearly(d, h, m) && f == FieldsOf(StepsOf, items)
    requires eh <= 23 && em <= 59
    ensures MinuteMatches(f, day * DAY_MINUTES + (eh * 60 + em)) <==>
            DateOf(day).month == d.month && DateOf(day).day == d.day && eh == h && em == m
  {
    YearlyFields(items, d, h, m, f);
    OnceMatches(f, d, h, m, day, eh, em);
  }

  /** No step of the five items overflows. */
  ghost predicate PlainItems(items: seq<Item>) {
    && |items| == 5
    && forall k :: 0 <= k < 5 ==> Accepted(items[k], Min(k), Max(k)) && !Overflows(SpanOf(items[k], Min(k), Max(k)))
  }

  lemma PlainFields(items: seq<Item>)
    requires PlainItems(items)
    ensures FieldsOf(ReadSpan, items) == FieldsOf(StepsOf, items)
  {
    forall k | 0 <= k < 5
      ensures ReadSpan(SpanOf(items[k], Min(k), Max(k))) == StepsOf(SpanOf(items[k], Min(k), Max(k)))
    {
      SpanReadExactly(SpanOf(items[k], Min(k), Max(k)));
    }
  }

  /** Written out, such an expression is read as meant, so `NextFire` answers for the fields of its items. */
  lemma PlainItemsReadAsMeant(items: seq<Item>)
    requires PlainItems(items)
    ensures ReadAsMeant(WriteCron(Singles(items))) && ParseCron(WriteCron(Singles(items))) == Some(FieldsOf(StepsOf, items))
  {
    PlainFields(items);
    OneItemEach(items);
    ReadAsMeantBy(WriteCron(Singles(items)), FieldsOf(ReadSpan, items), FieldsOf(StepsOf, items));
  }
}
