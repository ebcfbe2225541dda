/**
 The browser's merge of log chunks: duplicates are dropped, the rest is ordered, trimmed to a
 character budget from the newest chunk backwards, and tested for gaps.
 Source: frontend/src/log-stream.ts.
 */
module LogStream {
  import opened Seqs
  import opened Sets

  datatype LogChunk = LogChunk(sequence: int, text: string)

  /** `Number.POSITIVE_INFINITY` is `Unlimited`. */
  datatype Budget = Unlimited | Chars(max: nat) {
    /** The filter's test for the next older chunk when `size` characters are already kept. */
    predicate Rejects(size: nat, length: nat) {
      Chars? && (size >= max || (size > 0 && size + length > max))
    }
  }

  datatype Merge = Merge(chunks: seq<LogChunk>, duplicates: nat, gap: bool, lastSequence: int)

  ghost predicate Ascending(s: seq<LogChunk>) {
    forall i, j :: 0 <= i < j < |s| ==> s[i].sequence < s[j].sequence
  }

  /** The chunks as a map; the last of several with one sequence number wins. */
  function View(s: seq<LogChunk>): map<int, string> {
    if s == [] then map[]
    else View(s[..|s| - 1])[s[|s| - 1].sequence := s[|s| - 1].text]
  }

  /** Adding chunks to a map; a sequence number already present keeps its text. */
  function Added(m: map<int, string>, s: seq<LogChunk>): map<int, string> {
    if s == [] then m
    else
      var before := Added(m, s[..|s| - 1]);
      var last := s[|s| - 1];
      if last.sequence in before then before else before[last.sequence := last.text]
  }

  function Duplicates(m: map<int, string>, s: seq<LogChunk>): nat {
    if s == [] then 0
    else
      var init := s[..|s| - 1];
      Duplicates(m, init) + if s[|init|].sequence in Added(m, init) then 1 else 0
  }

  /** The newest-first filter over `s[lo..hi]` once `size` characters are kept already. */
  function Filtered(s: seq<LogChunk>, lo: nat, hi: nat, budget: Budget, size: nat): seq<LogChunk>
    requires hi <= |s|
  {
    if hi <= lo then []
    else if budget.Rejects(size, |s[hi - 1].text|) then Filtered(s, lo, hi - 1, budget, size)
    else Filtered(s, lo, hi - 1, budget, size + |s[hi - 1].text|) + [s[hi - 1]]
  }

  function Trimmed(s: seq<LogChunk>, budget: Budget): seq<LogChunk> {
    Filtered(s, 0, |s|, budget, 0)
  }

  function SizeTo(s: seq<LogChunk>, n: nat): nat
    requires n <= |s|
  {
    if n == 0 then 0 else SizeTo(s, n - 1) + |s[n - 1].text|
  }

  /** The number of characters in all the chunks. */
  function Size(s: seq<LogChunk>): nat {
    SizeTo(s, |s|)
  }

  predicate HasGap(s: seq<LogChunk>) {
    exists i :: 0 < i < |s| && s[i].sequence != s[i - 1].sequence + 1
  }

  function LastSequence(s: seq<LogChunk>): int {
    if s == [] then 0 else s[|s| - 1].sequence
  }

  // ---- Facts about the views of ascending lists ----

  lemma {:induction false} ViewAt(s: seq<LogChunk>, i: nat)
    requires Ascending(s) && i < |s|
    ensures s[i].sequence in View(s) && View(s)[s[i].sequence] == s[i].text
    decreases |s|
  {
    if i < |s| - 1 {
      ViewAt(s[..|s| - 1], i);
    }
  }

  lemma {:induction false} FindInView(s: seq<LogChunk>, k: int) returns (i: nat)
    requires k in View(s)
    ensures i < |s| && s[i].sequence == k
    decreases |s|
  {
    i := |s| - 1;
    if s[i].sequence != k {
      i := FindInView(s[..i], k);
    }
  }

  lemma ViewInit(s: seq<LogChunk>)
    requires Ascending(s) && s != []
    ensures s[|s| - 1].sequence !in View(s[..|s| - 1])
    ensures View(s[..|s| - 1]) == View(s) - {s[|s| - 1].sequence}
  {
    var init, k := s[..|s| - 1], s[|s| - 1].sequence;
    if k in View(init) {
      var i := FindInView(init, k);
    }
    assert View(s) == View(init)[k := s[|s| - 1].text];
  }

  lemma SameLast(s: seq<LogChunk>, t: seq<LogChunk>)
    requires Ascending(s) && Ascending(t) && View(s) == View(t)
    requires s != []
    ensures t != [] && s[|s| - 1] == t[|t| - 1]
  {
    ViewAt(s, |s| - 1);
    var i := FindInView(t, s[|s| - 1].sequence);
    ViewAt(t, |t| - 1);
    var j := FindInView(s, t[|t| - 1].sequence);
  }

  /** An ascending list is determined by its view. */
  lemma {:induction false} ViewDetermines(s: seq<LogChunk>, t: seq<LogChunk>)
    requires Ascending(s) && Ascending(t) && View(s) == View(t)
    ensures s == t
    decreases |s|
  {
    if s != [] {
      SameLast(s, t);
      ViewInit(s);
      ViewInit(t);
      ViewDetermines(s[..|s| - 1], t[..|t| - 1]);
    } else if t != [] {
      SameLast(t, s);
    }
  }

  // ---- Ordering a map ----

  lemma MaxExists(keys: set<int>) returns (most: int)
    requires keys != {}
    ensures most in keys && forall x :: x in keys ==> x <= most
    decreases |keys|
  {
    most := Member(keys);
    if keys != {most} {
      var other := MaxExists(keys - {most});
      assert forall x :: x in keys ==> x == most || x in keys - {most};
      if most < other {
        most := other;
      }
    }
  }

  ghost function MaxKey(keys: set<int>): (k: int)
    requires keys != {}
    ensures k in keys && forall x :: x in keys ==> x <= k
  {
    assert exists k :: k in keys && forall x :: x in keys ==> x <= k by {
      var most := MaxExists(keys);
    }
    var k :| k in keys && forall x :: x in keys ==> x <= k;
    k
  }

  ghost predicate Below(m: map<int, string>, k: int) {
    forall x :: x in m ==> x < k
  }

  lemma WithoutMax(m: map<int, string>, k: int)
    requires k in m && forall x :: x in m.Keys ==> x <= k
    ensures |m - {k}| < |m|
    ensures Below(m - {k}, k)
    ensures (m - {k})[k := m[k]] == m
  {
    assert m.Keys == (m - {k}).Keys + {k};
  }

  /** The entries of a map in ascending order of sequence number. */
  ghost function Ordered(m: map<int, string>): (s: seq<LogChunk>)
    ensures View(s) == m
    ensures Ascending(s)
    decreases |m|
  {
    if m == map[] then []
    else
      var k := MaxKey(m.Keys);
      WithoutMax(m, k);
      var init := Ordered(m - {k});
      AppendKeepsOrder(init, LogChunk(k, m[k]));
      init + [LogChunk(k, m[k])]
  }

  lemma AppendKeepsOrder(s: seq<LogChunk>, c: LogChunk)
    requires Ascending(s)
    requires Below(View(s), c.sequence)
    ensures Ascending(s + [c])
    ensures View(s + [c]) == View(s)[c.sequence := c.text]
  {
    assert (s + [c])[..|s|] == s;
    if s != [] {
      ViewAt(s, |s| - 1);
    }
  }

  lemma BelowLast(s: seq<LogChunk>)
    requires Ascending(s) && s != []
    ensures Below(View(s[..|s| - 1]), s[|s| - 1].sequence)
  {
    var m := View(s[..|s| - 1]);
    forall k | k in m
      ensures k < s[|s| - 1].sequence
    {
      var i := FindInView(s[..|s| - 1], k);
    }
  }

  lemma InsertBelow(m: map<int, string>, c: LogChunk, d: LogChunk)
    requires Below(m, d.sequence) && c.sequence < d.sequence
    ensures Below(m[c.sequence := c.text], d.sequence)
    ensures m[c.sequence := c.text][d.sequence := d.text] == m[d.sequence := d.text][c.sequence := c.text]
  {
  }

  function Insert(s: seq<LogChunk>, c: LogChunk): seq<LogChunk> {
    if s == [] || s[|s| - 1].sequence < c.sequence then s + [c]
    else Insert(s[..|s| - 1], c) + [s[|s| - 1]]
  }

  lemma InsertStep(s: seq<LogChunk>, c: LogChunk, inserted: seq<LogChunk>)
    requires Ascending(s) && s != [] && c.sequence < s[|s| - 1].sequence
    requires Ascending(inserted) && View(inserted) == View(s[..|s| - 1])[c.sequence := c.text]
    ensures Ascending(inserted + [s[|s| - 1]])
    ensures View(inserted + [s[|s| - 1]]) == View(s)[c.sequence := c.text]
  {
    BelowLast(s);
    InsertBelow(View(s[..|s| - 1]), c, s[|s| - 1]);
    AppendKeepsOrder(inserted, s[|s| - 1]);
  }

  lemma {:induction false} InsertKeepsOrder(s: seq<LogChunk>, c: LogChunk)
    requires Ascending(s) && c.sequence !in View(s)
    ensures Ascending(Insert(s, c))
    ensures View(Insert(s, c)) == View(s)[c.sequence := c.text]
    decreases |s|
  {
    if s == [] || s[|s| - 1].sequence < c.sequence {
      assert (s + [c])[..|s|] == s;
    } else {
      ViewAt(s, |s| - 1);
      var init := s[..|s| - 1];
      assert c.sequence !in View(init);
      InsertKeepsOrder(init, c);
      InsertStep(s, c, Insert(init, c));
    }
  }

  // ---- The merge ----

  ghost function Merged(current: seq<LogChunk>, incoming: seq<LogChunk>, budget: Budget): Merge {
    var m := View(current);
    var kept := Trimmed(Ordered(Added(m, incoming)), budget);
    Merge(kept, Duplicates(m, incoming), HasGap(kept), LastSequence(kept))
  }

  /** `mergeChunks` */
  method MergeChunks(current: seq<LogChunk>, incoming: seq<LogChunk>, budget: Budget) returns (merge: Merge)
    ensures merge == Merged(current, incoming, budget)
  {
    var bySequence: map<int, string> := map[];
    for i := 0 to |current|
      invariant bySequence == View(current[..i])
    {
      assert current[..i + 1][..i] == current[..i];
      bySequence := bySequence[current[i].sequence := current[i].text];
    }
    assert current[..|current|] == current;
    var duplicates: nat := 0;
    for i := 0 to |incoming|
      invariant bySequence == Added(View(current), incoming[..i])
      invariant duplicates == Duplicates(View(current), incoming[..i])
    {
      assert incoming[..i + 1][..i] == incoming[..i];
      if incoming[i].sequence in bySequence {
        duplicates := duplicates + 1;
      } else {
        bySequence := bySequence[incoming[i].sequence := incoming[i].text];
      }
    }
    assert incoming[..|incoming|] == incoming;
    var ordered := Sort(bySequence);
    var kept := Trim(ordered, budget);
    var gap := DetectGap(kept);
    merge := Merge(kept, duplicates, gap, if |kept| > 0 then kept[|kept| - 1].sequence else 0);
  }

  /** Sorting the entries of the map: keys are distinct, so every order of insertion gives one list. */
  method Sort(bySequence: map<int, string>) returns (ordered: seq<LogChunk>)
    ensures ordered == Ordered(bySequence)
  {
    ordered := [];
    var remaining := bySequence.Keys;
    while remaining != {}
      invariant remaining <= bySequence.Keys
      invariant Ascending(ordered)
      invariant View(ordered) == bySequence - remaining
      decreases |remaining|
    {
      var k := Pick(remaining);
      InsertKeepsOrder(ordered, LogChunk(k, bySequence[k]));
      assert (bySequence - remaining)[k := bySequence[k]] == bySequence - (remaining - {k});
      ordered := Insert(ordered, LogChunk(k, bySequence[k]));
      remaining := remaining - {k};
    }
    assert bySequence - {} == bySequence;
    ViewDetermines(ordered, Ordered(bySequence));
  }

  /** The filter over the reversed list, with its running size. */
  method Trim(ordered: seq<LogChunk>, budget: Budget) returns (kept: seq<LogChunk>)
    ensures kept == Trimmed(ordered, budget)
  {
    kept := [];
    var size: nat := 0;
    var i := |ordered|;
    while i > 0
      invariant 0 <= i <= |ordered|
      invariant Trimmed(ordered, budget) == Filtered(ordered, 0, i, budget, size) + kept
    {
      i := i - 1;
      var chunk := ordered[i];
      if !budget.Rejects(size, |chunk.text|) {
        Assoc(Filtered(ordered, 0, i, budget, size + |chunk.text|), [chunk], kept);
        size := size + |chunk.text|;
        kept := [chunk] + kept;
      }
    }
  }

  method DetectGap(chunks: seq<LogChunk>) returns (gap: bool)
    ensures gap == HasGap(chunks)
  {
    gap := false;
    for i := 0 to |chunks|
      invariant gap <==> exists j :: 0 < j < i && chunks[j].sequence != chunks[j - 1].sequence + 1
    {
      if i > 0 && chunks[i].sequence != chunks[i - 1].sequence + 1 {
        gap := true;
      }
    }
  }

  // ---- Merge algebra ----

  lemma {:induction false} AddedConcat(m: map<int, string>, a: seq<LogChunk>, b: seq<LogChunk>)
    ensures Added(Added(m, a), b) == Added(m, a + b)
    decreases |b|
  {
    if b == [] {
      assert a + b == a;
    } else {
      AddedConcat(m, a, b[..|b| - 1]);
      assert (a + b)[..|a + b| - 1] == a + b[..|b| - 1];
    }
  }

  lemma {:induction false} UnlimitedKeepsAll(s: seq<LogChunk>, hi: nat, size: nat)
    requires hi <= |s|
    ensures Filtered(s, 0, hi, Unlimited, size) == s[..hi]
    decreases hi
  {
    if hi > 0 {
      UnlimitedKeepsAll(s, hi - 1, size + |s[hi - 1].text|);
    }
  }

  lemma UnlimitedTrimsNothing(s: seq<LogChunk>)
    ensures Trimmed(s, Unlimited) == s
  {
    UnlimitedKeepsAll(s, |s|, 0);
  }

  /** Without a budget, merging one batch after another is merging both at once. */
  lemma MergeInBatches(current: seq<LogChunk>, a: seq<LogChunk>, b: seq<LogChunk>)
    ensures Merged(Merged(current, a, Unlimited).chunks, b, Unlimited).chunks == Merged(current, a + b, Unlimited).chunks
  {
    var first := Ordered(Added(View(current), a));
    UnlimitedTrimsNothing(first);
    UnlimitedTrimsNothing(Ordered(Added(View(first), b)));
    UnlimitedTrimsNothing(Ordered(Added(View(current), a + b)));
    AddedConcat(View(current), a, b);
  }

  lemma {:induction false} AddedOrDuplicate(m: map<int, string>, s: seq<LogChunk>)
    ensures |Added(m, s)| + Duplicates(m, s) == |m| + |s|
    decreases |s|
  {
    if s != [] {
      AddedOrDuplicate(m, s[..|s| - 1]);
    }
  }

  lemma {:induction false} ViewSize(s: seq<LogChunk>)
    requires Ascending(s)
    ensures |View(s)| == |s|
    decreases |s|
  {
    if s != [] {
      ViewSize(s[..|s| - 1]);
      ViewInit(s);
    }
  }

  /** Every chunk is either kept or counted as a duplicate. */
  lemma MergeConserves(current: seq<LogChunk>, incoming: seq<LogChunk>)
    requires Ascending(current)
    ensures var merge := Merged(current, incoming, Unlimited);
            |merge.chunks| + merge.duplicates == |current| + |incoming|
  {
    var all := Added(View(current), incoming);
    UnlimitedTrimsNothing(Ordered(all));
    AddedOrDuplicate(View(current), incoming);
    ViewSize(current);
    ViewSize(Ordered(all));
  }

  /** A chunk already held keeps its text, and a new number takes the first text offered for it. */
  lemma {:induction false} AddedKeepsFirst(m: map<int, string>, s: seq<LogChunk>, i: nat)
    requires i < |s|
    requires forall j :: 0 <= j < i ==> s[j].sequence != s[i].sequence
    ensures s[i].sequence in Added(m, s)
    ensures Added(m, s)[s[i].sequence] == if s[i].sequence in m then m[s[i].sequence] else s[i].text
    decreases |s|
  {
    if i < |s| - 1 {
      AddedKeepsFirst(m, s[..|s| - 1], i);
    } else {
      AddedElsewhere(m, s[..i], s[i].sequence);
    }
  }

  lemma {:induction false} AddedElsewhere(m: map<int, string>, s: seq<LogChunk>, k: int)
    requires forall j :: 0 <= j < |s| ==> s[j].sequence != k
    ensures k in Added(m, s) <==> k in m
    ensures k in m ==> Added(m, s)[k] == m[k]
    decreases |s|
  {
    if s != [] {
      AddedElsewhere(m, s[..|s| - 1], k);
    }
  }

  // ---- The budget ----

  lemma {:induction false} SizeToSame(s: seq<LogChunk>, t: seq<LogChunk>, n: nat)
    requires n <= |s| && n <= |t| && forall k :: 0 <= k < n ==> s[k] == t[k]
    ensures SizeTo(s, n) == SizeTo(t, n)
  {
    if n > 0 {
      SizeToSame(s, t, n - 1);
    }
  }

  lemma SizeSnoc(s: seq<LogChunk>, last: LogChunk)
    ensures Size(s + [last]) == Size(s) + |last.text|
  {
    SizeToSame(s + [last], s, |s|);
  }

  lemma {:induction false} SizeConcatTo(a: seq<LogChunk>, b: seq<LogChunk>, n: nat)
    requires n <= |b|
    ensures SizeTo(a + b, |a| + n) == Size(a) + SizeTo(b, n)
    decreases n
  {
    if n == 0 {
      SizeToSame(a + b, a, |a|);
    } else {
      SizeConcatTo(a, b, n - 1);
    }
  }

  lemma SizeConcat(a: seq<LogChunk>, b: seq<LogChunk>)
    ensures Size(a + b) == Size(a) + Size(b)
  {
    SizeConcatTo(a, b, |b|);
  }

  /** Filtering a stretch: its newer part first, then its older part with what is left of the budget. */
  lemma {:induction false} FilteredInTwo(s: seq<LogChunk>, mid: nat, hi: nat, budget: Budget, size: nat)
    requires mid <= hi <= |s|
    ensures var newer := Filtered(s, mid, hi, budget, size);
            Filtered(s, 0, hi, budget, size) == Filtered(s, 0, mid, budget, size + Size(newer)) + newer
    decreases hi
  {
    if mid < hi {
      if budget.Rejects(size, |s[hi - 1].text|) {
        FilteredInTwo(s, mid, hi - 1, budget, size);
      } else {
        var more := size + |s[hi - 1].text|;
        var newer := Filtered(s, mid, hi - 1, budget, more);
        FilteredInTwo(s, mid, hi - 1, budget, more);
        SizeSnoc(newer, s[hi - 1]);
        Assoc(Filtered(s, 0, mid, budget, more + Size(newer)), newer, [s[hi - 1]]);
      }
    }
  }

  lemma {:induction false} FilteredFrom(s: seq<LogChunk>, lo: nat, hi: nat, budget: Budget, size: nat, c: LogChunk)
    requires hi <= |s| && c in Filtered(s, lo, hi, budget, size)
    ensures exists i :: lo <= i < hi && s[i] == c
    decreases hi
  {
    if budget.Rejects(size, |s[hi - 1].text|) {
      FilteredFrom(s, lo, hi - 1, budget, size, c);
    } else if c != s[hi - 1] {
      FilteredFrom(s, lo, hi - 1, budget, size + |s[hi - 1].text|, c);
    }
  }

  /** What is kept is a subsequence of an ascending list: still ascending, nothing invented. */
  lemma {:induction false} FilteredAscending(s: seq<LogChunk>, hi: nat, budget: Budget, size: nat)
    requires Ascending(s) && hi <= |s|
    ensures Ascending(Filtered(s, 0, hi, budget, size))
    decreases hi
  {
    if hi > 0 {
      if budget.Rejects(size, |s[hi - 1].text|) {
        FilteredAscending(s, hi - 1, budget, size);
      } else {
        var more := size + |s[hi - 1].text|;
        FilteredAscending(s, hi - 1, budget, more);
        var kept := Filtered(s, 0, hi - 1, budget, more);
        if kept != [] {
          FilteredFrom(s, 0, hi - 1, budget, more, kept[|kept| - 1]);
        }
      }
    }
  }

  /** `size` characters are kept: there is room for `length` more, or for a first text of any length. */
  ghost predicate HasRoom(budget: Budget, size: nat, length: nat) {
    match budget
    case Unlimited => true
    case Chars(max) => size < max && (size == 0 || size + length <= max)
  }

  /** Chunks that fill the budget to the last character are all kept, as long as none of them is empty. */
  lemma {:induction false} FullBudgetIsKept(s: seq<LogChunk>, n: nat, max: nat, size: nat)
    requires n <= |s| && size + SizeTo(s, n) <= max && forall i :: 0 <= i < n ==> s[i].text != ""
    ensures Filtered(s, 0, n, Chars(max), size) == s[..n]
    decreases n
  {
    if n > 0 {
      FullBudgetIsKept(s, n - 1, max, size + |s[n - 1].text|);
    }
  }

  /** A chunk is kept exactly when the newer chunks that were kept leave room for it. */
  lemma KeptExactlyWhenItFits(s: seq<LogChunk>, budget: Budget, i: nat)
    requires Ascending(s) && i < |s|
    ensures s[i] in Trimmed(s, budget) <==> HasRoom(budget, Size(Filtered(s, i + 1, |s|, budget, 0)), |s[i].text|)
  {
    FilteredInTwo(s, i + 1, |s|, budget, 0);
    var newer := Filtered(s, i + 1, |s|, budget, 0);
    if s[i] in newer {
      FilteredFrom(s, i + 1, |s|, budget, 0, s[i]);
    }
    if s[i] in Filtered(s, 0, i, budget, Size(newer)) {
      FilteredFrom(s, 0, i, budget, Size(newer), s[i]);
    }
  }

  lemma NewestIsKept(s: seq<LogChunk>, budget: Budget)
    requires s != [] && budget != Chars(0)
    ensures Trimmed(s, budget) != []
    ensures LastSequence(Trimmed(s, budget)) == LastSequence(s)
  {
  }

  function NonEmpty(s: seq<LogChunk>): nat {
    if s == [] then 0 else NonEmpty(s[..|s| - 1]) + if s[|s| - 1].text == "" then 0 else 1
  }

  lemma NonEmptySnoc(s: seq<LogChunk>, c: LogChunk)
    ensures NonEmpty(s + [c]) == NonEmpty(s) + if c.text == "" then 0 else 1
  {
    Snoc(s, c);
  }

  lemma {:induction false} FullOnceStarted(s: seq<LogChunk>, hi: nat, max: nat, size: nat)
    requires size > 0 && hi <= |s|
    ensures size <= max ==> size + Size(Filtered(s, 0, hi, Chars(max), size)) <= max
    ensures size > max ==> Filtered(s, 0, hi, Chars(max), size) == []
    decreases hi
  {
    if hi > 0 {
      if Chars(max).Rejects(size, |s[hi - 1].text|) {
        FullOnceStarted(s, hi - 1, max, size);
      } else {
        FullOnceStarted(s, hi - 1, max, size + |s[hi - 1].text|);
        SizeSnoc(Filtered(s, 0, hi - 1, Chars(max), size + |s[hi - 1].text|), s[hi - 1]);
      }
    }
  }

  /** The kept text exceeds the budget only when a single chunk holds all of it. */
  lemma {:induction false} WithinBudget(s: seq<LogChunk>, hi: nat, max: nat)
    requires hi <= |s|
    ensures var kept := Filtered(s, 0, hi, Chars(max), 0);
            Size(kept) <= max || NonEmpty(kept) == 1
    decreases hi
  {
    if hi > 0 && max > 0 {
      var last := s[hi - 1];
      var older := Filtered(s, 0, hi - 1, Chars(max), |last.text|);
      SizeSnoc(older, last);
      NonEmptySnoc(older, last);
      if last.text == "" {
        WithinBudget(s, hi - 1, max);
      } else {
        FullOnceStarted(s, hi - 1, max, |last.text|);
      }
    } else if hi > 0 {
      WithinBudget(s, hi - 1, max);
    }
  }

  lemma {:induction false} RoomForAll(s: seq<LogChunk>, hi: nat, budget: Budget, size: nat)
    requires hi <= |s| && (budget.Chars? ==> size + Size(s[..hi]) < budget.max)
    ensures Filtered(s, 0, hi, budget, size) == s[..hi]
    decreases hi
  {
    if hi > 0 {
      assert s[..hi] == s[..hi - 1] + [s[hi - 1]];
      SizeSnoc(s[..hi - 1], s[hi - 1]);
      RoomForAll(s, hi - 1, budget, size + |s[hi - 1].text|);
    }
  }

  lemma {:induction false} NothingFitsZero(s: seq<LogChunk>, hi: nat)
    requires hi <= |s|
    ensures Filtered(s, 0, hi, Chars(0), 0) == []
    decreases hi
  {
    if hi > 0 {
      NothingFitsZero(s, hi - 1);
    }
  }

  // ---- Gaps ----

  /** No gap exactly when the kept numbers are an interval. */
  lemma NoGapIsInterval(s: seq<LogChunk>)
    ensures !HasGap(s) <==> forall i :: 0 <= i < |s| ==> s[i].sequence == s[0].sequence + i
  {
    if !HasGap(s) {
      for i := 0 to |s|
        invariant forall j :: 0 <= j < i ==> s[j].sequence == s[0].sequence + j
      {
        assert i > 0 ==> s[i].sequence == s[i - 1].sequence + 1;
      }
    }
  }

  /** The merge's result under any budget but zero, in terms of all chunks offered so far. */
  lemma MergeUnderBudget(current: seq<LogChunk>, incoming: seq<LogChunk>, budget: Budget)
    requires budget != Chars(0)
    ensures var all := Ordered(Added(View(current), incoming));
            var merge := Merged(current, incoming, budget);
            && Ascending(merge.chunks)
            && (forall c :: c in merge.chunks ==> c in all)
            && merge.lastSequence == LastSequence(all)
            && (budget.Chars? ==> Size(merge.chunks) <= budget.max || NonEmpty(merge.chunks) == 1)
  {
    var all := Ordered(Added(View(current), incoming));
    FilteredAscending(all, |all|, budget, 0);
    forall c | c in Trimmed(all, budget)
      ensures c in all
    {
      FilteredFrom(all, 0, |all|, budget, 0, c);
    }
    if all != [] {
      NewestIsKept(all, budget);
    }
    if budget.Chars? {
      WithinBudget(all, |all|, budget.max);
    }
  }
}
