/** The numbers the home page derives: the learner's level, the mistake-bank button, and the
    week list grouped from the question ids of the catalog (src/pages/HomePage.tsx). */
module Home {
  import opened Basics
  import opened Text
  import opened Normalize
  import opened Progress
  import opened Store

  // ---------------------------------------------------------------- level

  /** The number of questions studied: one per review-schedule entry. */
  function StudiedCount(session: UserSession): (n: nat)
    ensures n == 0 <==> session.reviewSchedule == map[]
  {
    |session.reviewSchedule|
  }

  /** `currentLevel`: 1 with nothing studied, otherwise one level per full 25 questions, plus 1. */
  function CurrentLevel(studied: nat): (level: nat)
    ensures level >= 1
    ensures (level - 1) * 25 <= studied < level * 25
  {
    if studied > 0 then studied / 25 + 1 else 1
  }

  /** Studying more never lowers the level. */
  lemma LevelMonotone(a: nat, b: nat)
    requires a <= b
    ensures CurrentLevel(a) <= CurrentLevel(b)
  {
  }

  /** Answering a question never lowers the level: the schedule only gains entries. */
  lemma AnswerNeverLowersLevel(session: UserSession, id: string, isCorrect: bool, now: int)
    ensures var after := session.(reviewSchedule := Reschedule(session.reviewSchedule, id, isCorrect, now));
            StudiedCount(after) == StudiedCount(session) + (if id in session.reviewSchedule then 0 else 1)
            && CurrentLevel(StudiedCount(session)) <= CurrentLevel(StudiedCount(after))
  {
    var before := session.reviewSchedule;
    var after := Reschedule(before, id, isCorrect, now);
    if id in before {
      assert after.Keys == before.Keys;
    } else {
      assert after.Keys == before.Keys + {id};
    }
    LevelMonotone(|before|, |after|);
  }

  // ---------------------------------------------------------------- mistake-bank button

  /** The mistake-bank mode button is disabled exactly when the bank is empty. */
  function MistakeModeDisabled(session: UserSession): (disabled: bool)
    ensures disabled <==> session.mistakeBank == []
  {
    |session.mistakeBank| == 0
  }

  /** A wrong answer to a question of the current quiz enables the mistake-bank button and makes
      the question not due again today; a second wrong answer leaves the bank without duplicates. */
  method WrongAnswerEnablesMistakeMode(questions: seq<Question>, k: nat, now: int) returns (store: QuizStore)
    requires k < |questions|
    requires forall j :: 0 <= j < |questions| ==> questions[j].dogruCevapIndex >= 0
    ensures !MistakeModeDisabled(store.userSession)
    ensures store.userSession.mistakeBank == [questions[k].id]
    ensures questions[k].id !in DueIds(store.userSession.reviewSchedule, now)
    ensures store.Valid()
  {
    store := new QuizStore();
    store.InitializeQuiz(questions, "standard");
    var id := questions[k].id;
    assert id in IdsOf(questions);
    store.AddAnswer(id, -1, now);
    ghost var schedule := store.userSession.reviewSchedule;
    store.AddAnswer(id, -1, now);
    JustReviewedNotDue(schedule, id, false, now);
  }

  // ---------------------------------------------------------------- the week pattern

  /** `s` has the shape `eay_<d>_<rest>` with `d` a non-empty run of ASCII digits. */
  predicate WeekId(s: string, d: string, rest: string)
  {
    d != [] && AllDigits(d) && s == "eay_" + d + "_" + rest
  }

  /** `id.match(/^eay_(\d+)_/)` followed by `parseInt` of the group: the week number, when the id
      starts with `eay_`, then digits, then `_`. */
  function MatchWeek(s: string): (r: Option<nat>)
    ensures r.Some? <==> exists d, rest :: WeekId(s, d, rest)
    ensures forall d, rest :: WeekId(s, d, rest) ==> r == Some(ParseDigits(d))
  {
    WeekIdIsLeadingRun(s);
    if |s| >= 4 && s[..4] == "eay_" then
      var n := DigitRun(s[4..]);
      if n > 0 && 4 + n < |s| && s[4 + n] == '_' then
        assert s[4..][..n] == s[4..4 + n];
        Some(ParseDigits(s[4..4 + n]))
      else None
    else None
  }

  /** The digits of a week id are exactly the leading digit run after `eay_`, so the shape holds
      precisely when that run is non-empty and followed by `_`. */
  lemma WeekIdIsLeadingRun(s: string)
    ensures (exists d, rest :: WeekId(s, d, rest)) <==>
              (|s| >= 4 && s[..4] == "eay_" && 0 < DigitRun(s[4..]) && 4 + DigitRun(s[4..]) < |s|
               && s[4 + DigitRun(s[4..])] == '_')
    ensures forall d, rest :: WeekId(s, d, rest) ==> d == s[4..4 + DigitRun(s[4..])]
  {
    forall d, rest | WeekId(s, d, rest)
      ensures |s| >= 4 && s[..4] == "eay_" && DigitRun(s[4..]) == |d| && 4 + |d| < |s| && s[4 + |d|] == '_'
      ensures d == s[4..4 + |d|]
    {
      assert s[..4] == "eay_";
      assert s[4..] == d + ("_" + rest);
      DigitRunOfDigits(d, "_" + rest);
      assert s[4 + |d|] == '_';
      assert s[4..4 + |d|] == d;
    }
    if |s| >= 4 && s[..4] == "eay_" && 0 < DigitRun(s[4..]) && 4 + DigitRun(s[4..]) < |s|
       && s[4 + DigitRun(s[4..])] == '_' {
      var n := DigitRun(s[4..]);
      assert s[4..][..n] == s[4..4 + n];
      assert s == "eay_" + s[4..4 + n] + "_" + s[5 + n..];
      assert WeekId(s, s[4..4 + n], s[5 + n..]);
    }
  }

  /** The reference examples: `eay_01_x` is week 1 and `eay_12` (no `_` after the digits) is none. */
  lemma MatchWeekExamples()
    ensures MatchWeek("eay_01_x") == Some(1)
    ensures MatchWeek("eay_12") == None
  {
    assert WeekId("eay_01_x", "01", "x");
    assert ParseDigits("01") == 1 by {
      assert "01"[..1] == "0";
    }
  }

  /** The id `eay_<n>_<rest>` names week `n`, whatever follows. */
  lemma MatchWeekOfRendered(n: nat, rest: string)
    ensures MatchWeek("eay_" + NatToDecimal(n) + "_" + rest) == Some(n)
  {
    var d := NatToDecimal(n);
    var s := "eay_" + d + "_" + rest;
    assert s[..4] == "eay_";
    assert s[4..] == d + ("_" + rest);
    DigitRunOfDigits(d, "_" + rest);
    assert s[4 + |d|] == '_';
    assert s[4..4 + |d|] == d;
    ParseNatToDecimal(n);
  }

  // ---------------------------------------------------------------- grouping by week

  /** The week of one catalog record, ignoring records whose id is not a matching string. */
  function WeekOf(q: Json): (r: Option<nat>)
    ensures r.Some? <==> Field(q, "id").Str? && exists d, rest :: WeekId(Field(q, "id").s, d, rest)
  {
    var id := Field(q, "id");
    if id.Str? then MatchWeek(id.s) else None
  }

  /** The week numbers of the matching records, in catalog order. */
  function WeekNumbers(items: seq<Json>): (ns: seq<nat>)
    ensures |ns| <= |items|
  {
    if items == [] then []
    else
      var last := WeekOf(items[|items| - 1]);
      WeekNumbers(items[..|items| - 1]) + (if last.Some? then [last.value] else [])
  }

  /** How many times `w` occurs in `s`. */
  function Occurrences(s: seq<nat>, w: nat): (c: nat)
    ensures c <= |s|
    ensures c > 0 <==> w in s
  {
    if s == [] then 0
    else Occurrences(s[..|s| - 1], w) + (if s[|s| - 1] == w then 1 else 0)
  }

  function InWeek(w: nat): Json -> bool
  {
    q => WeekOf(q) == Some(w)
  }

  /** A week's count is the number of records whose id names that week. */
  lemma {:induction false} OccurrencesCountRecords(items: seq<Json>, w: nat)
    ensures Occurrences(WeekNumbers(items), w) == |Filter(items, InWeek(w))|
  {
    if items != [] {
      var init, last := items[..|items| - 1], items[|items| - 1];
      var tail := if WeekOf(last).Some? then [WeekOf(last).value] else [];
      assert items == init + [last];
      assert WeekNumbers(items) == WeekNumbers(init) + tail;
      OccurrencesCountRecords(init, w);
      FilterAppend(init, [last], InWeek(w));
      assert |Filter([last], InWeek(w))| == (if WeekOf(last) == Some(w) then 1 else 0) by {
        assert [last][1..] == [];
      }
      assert Occurrences(tail, w) == (if WeekOf(last) == Some(w) then 1 else 0) by {
        if tail != [] { assert tail[..0] == []; }
      }
      OccurrencesAppend(WeekNumbers(init), tail, w);
    }
  }

  lemma {:induction false} OccurrencesAppend(a: seq<nat>, b: seq<nat>, w: nat)
    ensures Occurrences(a + b, w) == Occurrences(a, w) + Occurrences(b, w)
  {
    if b != [] {
      assert (a + b)[..|a + b| - 1] == a + b[..|b| - 1];
      OccurrencesAppend(a, b[..|b| - 1], w);
    } else {
      assert a + b == a;
    }
  }

  /** One row of the week list. */
  datatype WeekCount = WeekCount(week: nat, count: nat)

  predicate StrictlyAscending(s: seq<WeekCount>)
  {
    forall i, j :: 0 <= i < j < |s| ==> s[i].week < s[j].week
  }

  /** No week appears in two rows. */
  predicate DistinctWeeks(s: seq<WeekCount>)
  {
    forall i, j :: 0 <= i < j < |s| ==> s[i].week != s[j].week
  }

  /** Some row is for week `w`. */
  predicate HasWeek(s: seq<WeekCount>, w: nat)
  {
    exists k :: 0 <= k < |s| && s[k].week == w
  }

  /** Insert a row into a list sorted by week, before the first row of the same or a later week. */
  function InsertByWeek(x: WeekCount, s: seq<WeekCount>): (r: seq<WeekCount>)
    ensures |r| == |s| + 1
  {
    if s == [] then [x]
    else if x.week <= s[0].week then [x] + s
    else [s[0]] + InsertByWeek(x, s[1..])
  }

  lemma {:induction false} InsertPermutes(x: WeekCount, s: seq<WeekCount>)
    ensures multiset(InsertByWeek(x, s)) == multiset(s) + multiset{x}
  {
    if s != [] && x.week > s[0].week {
      InsertPermutes(x, s[1..]);
      assert s == [s[0]] + s[1..];
    }
  }

  /** Inserting a row for a new week into a strictly ascending list keeps it strictly ascending. */
  lemma {:induction false} InsertAscending(x: WeekCount, s: seq<WeekCount>)
    requires StrictlyAscending(s) && !HasWeek(s, x.week)
    ensures StrictlyAscending(InsertByWeek(x, s))
  {
    if s != [] {
      if x.week <= s[0].week {
        assert s[0].week != x.week;
      } else {
        var rest := InsertByWeek(x, s[1..]);
        forall k | 0 <= k < |s[1..]|
          ensures s[1..][k].week != x.week
        {
          assert s[1..][k] == s[k + 1];
        }
        InsertAscending(x, s[1..]);
        InsertPermutes(x, s[1..]);
        forall j | 0 <= j < |rest|
          ensures s[0].week < rest[j].week
        {
          assert rest[j] in multiset(s[1..]) + multiset{x};
          if rest[j] != x {
            var m :| 0 <= m < |s[1..]| && s[1..][m] == rest[j];
            assert s[m + 1] == rest[j];
          }
        }
      }
    }
  }

  /** `.sort((a, b) => a.week - b.week)` (an insertion sort; any correct sort gives the same
      result here because the weeks are distinct). */
  function SortByWeek(s: seq<WeekCount>): (r: seq<WeekCount>)
    ensures |r| == |s|
    ensures multiset(r) == multiset(s)
  {
    if s == [] then []
    else
      var sorted := SortByWeek(s[1..]);
      InsertPermutes(s[0], sorted);
      assert s == [s[0]] + s[1..];
      InsertByWeek(s[0], sorted)
  }

  /** Sorting rows with distinct weeks gives a strictly ascending list. */
  lemma {:induction false} SortAscending(s: seq<WeekCount>)
    requires DistinctWeeks(s)
    ensures StrictlyAscending(SortByWeek(s))
  {
    if s != [] {
      var sorted := SortByWeek(s[1..]);
      assert DistinctWeeks(s[1..]) by {
        forall i, j | 0 <= i < j < |s[1..]| ensures s[1..][i].week != s[1..][j].week {
          assert s[1..][i] == s[i + 1] && s[1..][j] == s[j + 1];
        }
      }
      SortAscending(s[1..]);
      forall k | 0 <= k < |sorted|
        ensures sorted[k].week != s[0].week
      {
        assert sorted[k] in multiset(s[1..]);
        var m :| 0 <= m < |s[1..]| && s[1..][m] == sorted[k];
        assert s[m + 1] == sorted[k];
      }
      InsertAscending(s[0], sorted);
    }
  }

  /** The rows in the order the weeks were first seen, each with its count (the entries of the
      `Map` the loop fills, in its insertion order). */
  function EntriesOf(items: seq<Json>): (r: seq<WeekCount>)
    ensures |r| == |Distinct(WeekNumbers(items))|
    ensures forall k :: 0 <= k < |r| ==> r[k].week in WeekNumbers(items)
    ensures forall k :: 0 <= k < |r| ==> r[k].count == Occurrences(WeekNumbers(items), r[k].week) > 0
  {
    var ns := WeekNumbers(items);
    var order := Distinct(ns);
    seq(|order|, k requires 0 <= k < |order| => WeekCount(order[k], Occurrences(ns, order[k])))
  }

  /** The week list: one row per week that some id names, with its count, sorted by week. */
  function WeekList(items: seq<Json>): (r: seq<WeekCount>)
    ensures |r| <= |items|
    ensures forall k :: 0 <= k < |r| ==> r[k].count > 0
  {
    var entries := EntriesOf(items);
    assert forall k :: 0 <= k < |SortByWeek(entries)| ==> SortByWeek(entries)[k] in multiset(entries);
    SortByWeek(entries)
  }

  /** The week list is strictly ascending by week. */
  lemma WeekListAscending(items: seq<Json>)
    ensures StrictlyAscending(WeekList(items))
  {
    var order := Distinct(WeekNumbers(items));
    var entries := EntriesOf(items);
    forall i, j | 0 <= i < j < |entries| ensures entries[i].week != entries[j].week {
      assert entries[i].week == order[i] && entries[j].week == order[j];
    }
    SortAscending(entries);
  }

  /** The week list has a row exactly for the weeks some id names. */
  lemma WeekListWeeks(items: seq<Json>, w: nat)
    ensures HasWeek(WeekList(items), w) <==> w in WeekNumbers(items)
  {
    var order := Distinct(WeekNumbers(items));
    var entries := EntriesOf(items);
    var r := WeekList(items);
    if HasWeek(r, w) {
      var k :| 0 <= k < |r| && r[k].week == w;
      assert r[k] in multiset(entries);
      var j :| 0 <= j < |entries| && entries[j] == r[k];
      assert order[j] == w;
    }
    if w in WeekNumbers(items) {
      var j :| 0 <= j < |order| && order[j] == w;
      assert entries[j] in multiset(r);
      var k :| 0 <= k < |r| && r[k] == entries[j];
      assert r[k].week == w;
    }
  }

  /** Each row counts the records whose id names its week, and that count is positive. */
  lemma WeekListCounts(items: seq<Json>, k: nat)
    requires k < |WeekList(items)|
    ensures WeekList(items)[k].count == |Filter(items, InWeek(WeekList(items)[k].week))| > 0
  {
    var ns := WeekNumbers(items);
    var order := Distinct(ns);
    var entries := EntriesOf(items);
    var r := WeekList(items);
    assert r[k] in multiset(entries);
    var j :| 0 <= j < |entries| && entries[j] == r[k];
    assert order[j] in ns;
    OccurrencesCountRecords(items, r[k].week);
  }

  /** The week grouping as the page runs it: a pass over the catalog filling a map from week to
      count (remembering the order weeks were first seen, as a `Map` does), then the entries
      sorted by week. Non-string ids are skipped. */
  method GroupWeeks(items: seq<Json>) returns (weeks: seq<WeekCount>)
    ensures weeks == WeekList(items)
  {
    var counts: map<nat, nat> := map[];
    var order: seq<nat> := [];
    var i := 0;
    while i < |items|
      invariant 0 <= i <= |items|
      invariant Tallies(counts, order, WeekNumbers(items[..i]))
    {
      ghost var ns := WeekNumbers(items[..i]);
      WeekNumbersStep(items, i);
      var weekMatch := WeekOf(items[i]);
      if weekMatch.Some? {
        var weekNum := weekMatch.value;
        TallyStep(counts, order, ns, weekNum);
        counts := Bump(counts, weekNum);
        order := AppendIfAbsent(order, weekNum);
      }
      i := i + 1;
    }
    assert items[..i] == items;
    TalliedRows(items, counts, order);
    weeks := SortByWeek(Rows(counts, order));
  }

  /** The state of the grouping loop after the week numbers `ns`: the weeks in first-seen order,
      and a count for exactly those weeks, equal to the number of their occurrences. */
  ghost predicate Tallies(counts: map<nat, nat>, order: seq<nat>, ns: seq<nat>)
  {
    && order == Distinct(ns)
    && (forall v :: v in counts <==> v in order)
    && (forall v :: v in counts ==> counts[v] == Occurrences(ns, v))
  }

  /** The map's entries in insertion order, as `{ week, count }` rows. */
  function Rows(counts: map<nat, nat>, order: seq<nat>): (r: seq<WeekCount>)
    ensures |r| == |order|
  {
    seq(|order|, k requires 0 <= k < |order| => WeekCount(order[k], if order[k] in counts then counts[order[k]] else 0))
  }

  /** After the whole catalog the rows are the entries of the week list. */
  lemma TalliedRows(items: seq<Json>, counts: map<nat, nat>, order: seq<nat>)
    requires Tallies(counts, order, WeekNumbers(items))
    ensures Rows(counts, order) == EntriesOf(items)
  {
  }

  /** `counts.set(week, (counts.get(week) || 0) + 1)`. */
  function Bump(counts: map<nat, nat>, w: nat): (r: map<nat, nat>)
    ensures w in r && r[w] == (if w in counts then counts[w] else 0) + 1
    ensures forall v :: v != w ==> (v in r <==> v in counts)
    ensures forall v :: v != w && v in counts ==> r[v] == counts[v]
  {
    counts[w := (if w in counts then counts[w] else 0) + 1]
  }

  /** One more record adds its week, if any, at the end of the week numbers. */
  lemma WeekNumbersStep(items: seq<Json>, i: nat)
    requires i < |items|
    ensures WeekOf(items[i]).Some? ==> WeekNumbers(items[..i + 1]) == WeekNumbers(items[..i]) + [WeekOf(items[i]).value]
    ensures WeekOf(items[i]).None? ==> WeekNumbers(items[..i + 1]) == WeekNumbers(items[..i])
  {
    assert items[..i + 1][..i] == items[..i];
    assert WeekNumbers(items[..i]) + [] == WeekNumbers(items[..i]);
  }

  /** One more occurrence of `w` adds `w` to the distinct weeks if new, and one to its count. */
  lemma TallyStep(counts: map<nat, nat>, order: seq<nat>, ns: seq<nat>, w: nat)
    requires Tallies(counts, order, ns)
    ensures Tallies(Bump(counts, w), AppendIfAbsent(order, w), ns + [w])
  {
    var bumped, order' := Bump(counts, w), AppendIfAbsent(order, w);
    DistinctStep(ns, w);
    forall v
      ensures v in bumped <==> v in order'
      ensures v in bumped ==> bumped[v] == Occurrences(ns + [w], v)
    {
      OccurrencesStep(ns, w, v);
    }
  }

  lemma DistinctStep(ns: seq<nat>, w: nat)
    ensures Distinct(ns + [w]) == AppendIfAbsent(Distinct(ns), w)
  {
    assert (ns + [w])[..|ns|] == ns;
  }

  lemma OccurrencesStep(ns: seq<nat>, w: nat, v: nat)
    ensures Occurrences(ns + [w], v) == Occurrences(ns, v) + (if v == w then 1 else 0)
  {
    assert (ns + [w])[..|ns|] == ns;
  }

  // ---------------------------------------------------------------- the week grouping as written

  /** What `q.id?.match(...)` does with one record as the page writes it: a missing record
      (`null`) or an id that is present but not a string (a number, for instance) has no `match`
      method, and the call throws. */
  predicate ThrowsAsWritten(q: Json)
  {
    q.Undefined? || q.Null? || !(Field(q, "id").Str? || Field(q, "id").Undefined? || Field(q, "id").Null?)
  }

  /** The week list as written: when any record throws, the promise rejects and the list stays
      empty (`None`); otherwise it is the week list. */
  function WeekListAsWritten(items: seq<Json>): (r: Option<seq<WeekCount>>)
    ensures (exists k :: 0 <= k < |items| && ThrowsAsWritten(items[k])) <==> r.None?
  {
    if exists k :: 0 <= k < |items| && ThrowsAsWritten(items[k]) then None else Some(WeekList(items))
  }

  /** One record with a numeric id hides every week: the catalog below has a week-1 question, but
      as written the list stays empty, while the corrected grouping shows week 1 with one question. */
  lemma NumericIdHidesAllWeeks()
    ensures var items := [Obj(map["id" := Str("eay_1_1")]), Obj(map["id" := Num(7)])];
            WeekListAsWritten(items).None? && WeekList(items) == [WeekCount(1, 1)]
  {
    var first, second := Obj(map["id" := Str("eay_1_1")]), Obj(map["id" := Num(7)]);
    assert ThrowsAsWritten([first, second][1]);
    FirstSampleIsWeekOne();
    assert WeekOf(second).None?;
    WeekNumbersOfPair(first, second);
    OneWeekList([first, second], 1);
  }

  lemma FirstSampleIsWeekOne()
    ensures WeekOf(Obj(map["id" := Str("eay_1_1")])) == Some(1)
  {
    MatchWeekOfRendered(1, "1");
    assert "eay_" + NatToDecimal(1) + "_" + "1" == "eay_1_1";
  }

  lemma WeekNumbersOfPair(a: Json, b: Json)
    ensures WeekNumbers([a, b]) ==
              (if WeekOf(a).Some? then [WeekOf(a).value] else []) + (if WeekOf(b).Some? then [WeekOf(b).value] else [])
  {
    assert [a, b][..1] == [a];
    assert [a][..0] == [];
  }

  /** A catalog naming one week once lists that week with a count of one. */
  lemma OneWeekList(items: seq<Json>, w: nat)
    requires WeekNumbers(items) == [w]
    ensures WeekList(items) == [WeekCount(w, 1)]
  {
    assert [w][..0] == [];
    assert Distinct([w]) == [w];
    assert Occurrences([w], w) == 1;
    assert EntriesOf(items) == [WeekCount(w, 1)];
    assert [WeekCount(w, 1)][1..] == [];
  }

  /** Whenever no record throws, the page as written and the corrected grouping agree. */
  lemma AsWrittenAgreesWithoutThrows(items: seq<Json>)
    requires forall k :: 0 <= k < |items| ==> !ThrowsAsWritten(items[k])
    ensures WeekListAsWritten(items) == Some(WeekList(items))
  {
  }
}
