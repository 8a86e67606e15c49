/** The learner's progress as values: the spaced-repetition schedule, the mistake bank, the
    daily streak and the settings (the pure parts of src/store/quizStore.ts). */
module Progress {
  import opened Basics
  import opened Text
  import opened Normalize

  // ---------------------------------------------------------------- time

  /** Milliseconds in a day. Instants are milliseconds since the epoch. */
  const MsPerDay: int := 86_400_000

  /** The calendar day (UTC) of an instant: what `toISOString().split('T')[0]` names. */
  function DayOf(t: int): (day: int)
    ensures day * MsPerDay <= t < (day + 1) * MsPerDay
  {
    t / MsPerDay
  }

  /** Moving an instant by whole days moves its calendar day by the same number. */
  lemma DayShift(t: int, days: int)
    ensures DayOf(t + days * MsPerDay) == DayOf(t) + days
  {
    var q, r := t / MsPerDay, t % MsPerDay;
    assert t + days * MsPerDay == (q + days) * MsPerDay + r;
  }

  /** `getToday()`: the current day, with the clock reading passed in. */
  function Today(now: int): (day: int)
    ensures day * MsPerDay <= now < (day + 1) * MsPerDay
  {
    DayOf(now)
  }

  // ---------------------------------------------------------------- spaced repetition

  /** One entry of the review schedule: its level, when it is due and when it was last seen. */
  datatype ReviewItem = ReviewItem(level: nat, dueDate: int, lastReviewed: int)

  /** The interval table `[1, 3, 7, 14, 30, 60, 120, 240]`, indexed by `min(level, 7)`. */
  function IntervalDays(level: nat): (days: int)
    ensures 1 <= days <= 240
    ensures level >= 7 ==> days == 240
  {
    var intervals := [1, 3, 7, 14, 30, 60, 120, 240];
    intervals[Min(level, |intervals| - 1)]
  }

  /** A higher level never gets a shorter interval. */
  lemma IntervalMonotone(a: nat, b: nat)
    requires a <= b
    ensures IntervalDays(a) <= IntervalDays(b)
  {
  }

  /** `calculateNextReview(level, isCorrect)` at instant `now`. */
  function CalculateNextReview(level: nat, isCorrect: bool, now: int): (r: ReviewItem)
    ensures r.level >= 1
    ensures isCorrect ==> r.level == level + 1 && r.dueDate == now + IntervalDays(level) * MsPerDay
    ensures !isCorrect ==> r.level == Max(1, level - 1) && r.dueDate == now + MsPerDay
    ensures r.lastReviewed == now
  {
    var days := if isCorrect then IntervalDays(level) else 1;
    ReviewItem(if isCorrect then level + 1 else Max(1, level - 1), now + days * MsPerDay, now)
  }

  /** The next review is between one and 240 days after the review itself. */
  lemma ReviewInterval(level: nat, isCorrect: bool, now: int)
    ensures var r := CalculateNextReview(level, isCorrect, now);
            r.lastReviewed + MsPerDay <= r.dueDate <= r.lastReviewed + 240 * MsPerDay
  {
  }

  /** A correct answer is never scheduled sooner than a wrong one at the same level. */
  lemma CorrectNeverSooner(level: nat, now: int)
    ensures CalculateNextReview(level, true, now).dueDate >= CalculateNextReview(level, false, now).dueDate
  {
  }

  /** The first correct answer at the default level 1 schedules the next review three days later. */
  lemma FirstCorrectIsThreeDays(now: int)
    ensures CalculateNextReview(1, true, now) == ReviewItem(2, now + 3 * MsPerDay, now)
  {
  }

  /** A run of correct answers climbs the levels, and the interval never shrinks along the way. */
  lemma CorrectRunNeverShortens(level: nat, now: int, later: int)
    ensures var r := CalculateNextReview(level, true, now);
            CalculateNextReview(r.level, true, later).dueDate - later >= r.dueDate - now
  {
    IntervalMonotone(level, level + 1);
  }

  /** The schedule: one entry per question id that has been answered at least once. */
  type Schedule = map<string, ReviewItem>

  /** The level `updateReviewSchedule` starts from: the entry's level, or 1 for an id never seen. */
  function LevelOf(schedule: Schedule, id: string): (level: nat)
    ensures id !in schedule ==> level == 1
    ensures LevelsPositive(schedule) ==> level >= 1
  {
    if id in schedule then schedule[id].level else 1
  }

  /** `updateReviewSchedule(id, isCorrect)` on the schedule: only the entry for `id` changes. */
  function Reschedule(schedule: Schedule, id: string, isCorrect: bool, now: int): (r: Schedule)
    ensures r.Keys == schedule.Keys + {id}
    ensures r[id] == CalculateNextReview(LevelOf(schedule, id), isCorrect, now)
    ensures forall other :: other in schedule && other != id ==> r[other] == schedule[other]
  {
    schedule[id := CalculateNextReview(LevelOf(schedule, id), isCorrect, now)]
  }

  /** Every entry has level at least 1. */
  predicate LevelsPositive(schedule: Schedule)
  {
    forall id :: id in schedule ==> schedule[id].level >= 1
  }

  /** Rescheduling keeps every level at least 1. */
  lemma RescheduleKeepsLevels(schedule: Schedule, id: string, isCorrect: bool, now: int)
    requires LevelsPositive(schedule)
    ensures LevelsPositive(Reschedule(schedule, id, isCorrect, now))
  {
    var r := Reschedule(schedule, id, isCorrect, now);
    forall other | other in r
      ensures r[other].level >= 1
    {
      if other != id {
        assert other in schedule;
      }
    }
  }

  /** Every entry falls due strictly after it was last reviewed. */
  predicate DueAfterReview(schedule: Schedule)
  {
    forall id :: id in schedule ==> schedule[id].lastReviewed < schedule[id].dueDate
  }

  /** Rescheduling keeps every entry due after its last review. */
  lemma RescheduleKeepsDueAfterReview(schedule: Schedule, id: string, isCorrect: bool, now: int)
    requires DueAfterReview(schedule)
    ensures DueAfterReview(Reschedule(schedule, id, isCorrect, now))
  {
    var r := Reschedule(schedule, id, isCorrect, now);
    forall other | other in r
      ensures r[other].lastReviewed < r[other].dueDate
    {
      if other != id {
        assert other in schedule;
      }
    }
  }

  /** The ids whose due day is today or earlier (`getDueQuestions`, as a set). */
  function DueIds(schedule: Schedule, now: int): (r: set<string>)
    ensures r <= schedule.Keys
    ensures forall id :: id in r ==> DayOf(schedule[id].dueDate) <= Today(now)
    ensures forall id :: id in schedule && DayOf(schedule[id].dueDate) <= Today(now) ==> id in r
  {
    set id | id in schedule && DayOf(schedule[id].dueDate) <= Today(now)
  }

  /** Whether a scheduled id is due by `now`: the test of `getDueQuestions`' `filter`. */
  function IsDueIn(schedule: Schedule, now: int): string -> bool
  {
    id => id in schedule && DayOf(schedule[id].dueDate) <= Today(now)
  }

  /** The due ids in the order `Object.entries` lists the schedule's keys, given as `keys`. */
  function DueInOrder(schedule: Schedule, keys: seq<string>, now: int): (r: seq<string>)
    requires NoDuplicates(keys) && forall id :: id in keys <==> id in schedule
    ensures NoDuplicates(r) && IsSubsequence(r, keys)
    ensures forall id :: id in r <==> id in DueIds(schedule, now)
  {
    FilterIsSubsequence(keys, IsDueIn(schedule, now));
    Filter(keys, IsDueIn(schedule, now))
  }

  /** What `getDueQuestions` returns as written: each due id, in entry order, passed through
      `parseInt`, with `None` for `NaN`. */
  function DueNumbersAsWritten(schedule: Schedule, keys: seq<string>, now: int): (r: seq<Option<int>>)
    requires NoDuplicates(keys) && forall id :: id in keys <==> id in schedule
    ensures |r| == |DueInOrder(schedule, keys, now)|
    ensures forall k :: 0 <= k < |r| ==> r[k] == ParseIntPrefix(DueInOrder(schedule, keys, now)[k])
  {
    var due := DueInOrder(schedule, keys, now);
    seq(|due|, k requires 0 <= k < |due| => ParseIntPrefix(due[k]))
  }

  /** As written, due week ids come back as `NaN`, one entry each: the schedule below has
      `eay_1_1` and `eay_1_2` due, and the result is `[NaN, NaN]`, holding no number at all. */
  lemma DueWeekIdsLostAsWritten()
    ensures var schedule := map["eay_1_1" := ReviewItem(1, 0, -1), "eay_1_2" := ReviewItem(1, 0, -1)];
            DueIds(schedule, 0) == {"eay_1_1", "eay_1_2"} &&
            DueNumbersAsWritten(schedule, ["eay_1_1", "eay_1_2"], 0) == [None, None]
  {
    var schedule := map["eay_1_1" := ReviewItem(1, 0, -1), "eay_1_2" := ReviewItem(1, 0, -1)];
    var keys := ["eay_1_1", "eay_1_2"];
    TwoWeekIdsDue(schedule, keys);
    NonNumericIsNaN(keys[0]);
    NonNumericIsNaN(keys[1]);
    var r := DueNumbersAsWritten(schedule, keys, 0);
    assert |r| == 2 && r[0] == None && r[1] == None;
  }

  lemma TwoWeekIdsDue(schedule: Schedule, keys: seq<string>)
    requires schedule == map["eay_1_1" := ReviewItem(1, 0, -1), "eay_1_2" := ReviewItem(1, 0, -1)]
    requires keys == ["eay_1_1", "eay_1_2"]
    ensures DueIds(schedule, 0) == {"eay_1_1", "eay_1_2"}
    ensures NoDuplicates(keys) && DueInOrder(schedule, keys, 0) == keys
  {
    assert "eay_1_1" in DueIds(schedule, 0) && "eay_1_2" in DueIds(schedule, 0);
    FilterAll(keys, IsDueIn(schedule, 0));
  }

  /** As written, when no scheduled id starts with whitespace, a sign or a digit (every id the
      normaliser produces for the catalog's `eay_...` questions or as `auto-<n>`), every due id
      comes back as `NaN`. */
  lemma NonNumericDueIdsLostAsWritten(schedule: Schedule, keys: seq<string>, now: int)
    requires NoDuplicates(keys) && forall id :: id in keys <==> id in schedule
    requires forall id :: id in schedule ==> id != [] && !IsJsWhitespace(id[0]) && !IsDigit(id[0]) && id[0] != '+' && id[0] != '-'
    ensures forall k :: 0 <= k < |DueNumbersAsWritten(schedule, keys, now)| ==> DueNumbersAsWritten(schedule, keys, now)[k].None?
  {
    var due := DueInOrder(schedule, keys, now);
    forall k | 0 <= k < |due|
      ensures ParseIntPrefix(due[k]).None?
    {
      assert due[k] in due;
      NonNumericIsNaN(due[k]);
    }
  }

  /** As written, a due id that is a decimal number survives as that number. */
  lemma NumericDueIdKeptAsWritten(schedule: Schedule, keys: seq<string>, now: int, k: nat)
    requires NoDuplicates(keys) && forall id :: id in keys <==> id in schedule
    requires k < |DueInOrder(schedule, keys, now)|
    requires DueInOrder(schedule, keys, now)[k] != [] && AllDigits(DueInOrder(schedule, keys, now)[k])
    ensures DueNumbersAsWritten(schedule, keys, now)[k] == Some(ParseDigits(DueInOrder(schedule, keys, now)[k]) as int)
  {
    ParseIntPrefixOfDigits(DueInOrder(schedule, keys, now)[k]);
  }

  /** A question answered now, rightly or wrongly, is not due again today. */
  lemma JustReviewedNotDue(schedule: Schedule, id: string, isCorrect: bool, now: int)
    ensures id !in DueIds(Reschedule(schedule, id, isCorrect, now), now)
  {
    var r := Reschedule(schedule, id, isCorrect, now);
    var days := if isCorrect then IntervalDays(LevelOf(schedule, id)) else 1;
    DayShift(now, days);
    assert r[id].dueDate == now + days * MsPerDay;
  }

  /** Rescheduling one id leaves whether any other id is due unchanged. */
  lemma RescheduleKeepsOthersDue(schedule: Schedule, id: string, isCorrect: bool, now: int, at: int, other: string)
    requires other != id
    ensures other in DueIds(Reschedule(schedule, id, isCorrect, now), at) <==> other in DueIds(schedule, at)
  {
  }

  /** What is due stays due as time passes. */
  lemma DueGrowsOverTime(schedule: Schedule, now: int, later: int)
    requires now <= later
    ensures DueIds(schedule, now) <= DueIds(schedule, later)
  {
    forall id | id in DueIds(schedule, now)
      ensures id in DueIds(schedule, later)
    {
      DayMonotone(now, later);
    }
  }

  lemma DayMonotone(a: int, b: int)
    requires a <= b
    ensures DayOf(a) <= DayOf(b)
  {
  }

  // ---------------------------------------------------------------- mistake bank

  /** `addToMistakeBank`: the id is appended unless already present. */
  function AddToBank(bank: seq<string>, id: string): (r: seq<string>)
    ensures id in r
    ensures NoDuplicates(bank) ==> NoDuplicates(r)
    ensures id in bank ==> r == bank
    ensures id !in bank ==> r == bank + [id]
  {
    AppendIfAbsent(bank, id)
  }

  /** Adding the same id twice is adding it once. */
  lemma AddToBankIdempotent(bank: seq<string>, id: string)
    ensures AddToBank(AddToBank(bank, id), id) == AddToBank(bank, id)
  {
  }

  function IsNot(id: string): string -> bool
  {
    x => x != id
  }

  /** `removeFromMistakeBank`: every occurrence of the id is dropped, the rest keep their order. */
  function RemoveFromBank(bank: seq<string>, id: string): (r: seq<string>)
    ensures id !in r
    ensures forall k :: 0 <= k < |bank| && bank[k] != id ==> bank[k] in r
    ensures forall k :: 0 <= k < |r| ==> r[k] in bank
    ensures NoDuplicates(bank) ==> NoDuplicates(r)
  {
    Filter(bank, IsNot(id))
  }

  /** Removal keeps the remaining ids in their order. */
  lemma RemoveKeepsOrder(bank: seq<string>, id: string)
    ensures IsSubsequence(RemoveFromBank(bank, id), bank)
  {
    FilterIsSubsequence(bank, IsNot(id));
  }

  /** Adding an id that was absent and then removing it gives back the bank as it was. */
  lemma AddThenRemoveRestores(bank: seq<string>, id: string)
    requires id !in bank
    ensures RemoveFromBank(AddToBank(bank, id), id) == bank
  {
    FilterAppend(bank, [id], IsNot(id));
    FilterAll(bank, IsNot(id));
    assert Filter([id], IsNot(id)) == [];
  }

  // ---------------------------------------------------------------- streak

  /** The streak: the number of consecutive study days and the last day studied, if any
      (an empty `lastStudiedDate` is `None`). */
  datatype Streak = Streak(count: nat, lastStudiedDate: Option<int>)

  /** `updateStreak` on day `today`: one more after studying yesterday, unchanged when already
      studied today, otherwise a fresh streak of 1; the last day becomes today. */
  function NextStreak(s: Streak, today: int): (r: Streak)
    ensures r.lastStudiedDate == Some(today)
    ensures s.lastStudiedDate == Some(today - 1) ==> r.count == s.count + 1
    ensures s.lastStudiedDate == Some(today) ==> r.count == s.count
    ensures s.lastStudiedDate != Some(today - 1) && s.lastStudiedDate != Some(today) ==> r.count == 1
  {
    var count :=
      if s.lastStudiedDate == Some(today - 1) then s.count + 1
      else if s.lastStudiedDate != Some(today) then 1
      else s.count;
    Streak(count, Some(today))
  }

  /** A streak that has a last day counts at least that day; one without has count 0. */
  predicate StreakValid(s: Streak)
  {
    if s.lastStudiedDate.Some? then s.count >= 1 else s.count == 0
  }

  lemma NextStreakValid(s: Streak, today: int)
    requires StreakValid(s)
    ensures StreakValid(NextStreak(s, today))
  {
  }

  /** Studying twice on one day counts once. */
  lemma StreakSameDayIdempotent(s: Streak, today: int)
    ensures NextStreak(NextStreak(s, today), today) == NextStreak(s, today)
  {
  }

  /** Studying on `n` consecutive days, starting after a gap, gives a streak of `n`. */
  lemma {:induction false} ConsecutiveDays(s: Streak, first: int, n: nat)
    requires n >= 1
    requires s.lastStudiedDate != Some(first - 1) && s.lastStudiedDate != Some(first)
    ensures StudyDays(s, first, n).count == n
    ensures StudyDays(s, first, n).lastStudiedDate == Some(first + n - 1)
  {
    if n > 1 {
      ConsecutiveDays(s, first, n - 1);
    }
  }

  /** The streak after studying on each of the `n` days from `first` on. */
  function StudyDays(s: Streak, first: int, n: nat): Streak
  {
    if n == 0 then s else NextStreak(StudyDays(s, first, n - 1), first + n - 1)
  }

  /** Missing a day resets the streak to 1. */
  lemma GapResetsStreak(s: Streak, last: int, today: int)
    requires s.lastStudiedDate == Some(last) && today >= last + 2
    ensures NextStreak(s, today).count == 1
  {
  }

  // ---------------------------------------------------------------- settings

  datatype Settings = Settings(theme: string, showExplanationImmediately: bool)

  /** A partial settings object: each field present or absent. */
  datatype SettingsPatch = SettingsPatch(theme: Option<string>, showExplanationImmediately: Option<bool>)

  /** `{ ...settings, ...patch }`: present fields of the patch win, absent ones keep the old value. */
  function MergeSettings(s: Settings, p: SettingsPatch): (r: Settings)
    ensures r.theme == (if p.theme.Some? then p.theme.value else s.theme)
    ensures r.showExplanationImmediately ==
              (if p.showExplanationImmediately.Some? then p.showExplanationImmediately.value else s.showExplanationImmediately)
  {
    Settings(
      if p.theme.Some? then p.theme.value else s.theme,
      if p.showExplanationImmediately.Some? then p.showExplanationImmediately.value else s.showExplanationImmediately)
  }

  /** Patching with nothing changes nothing. */
  lemma EmptyPatchIsIdentity(s: Settings)
    ensures MergeSettings(s, SettingsPatch(None, None)) == s
  {
  }

  /** Applying the same patch twice is applying it once. */
  lemma MergeIdempotent(s: Settings, p: SettingsPatch)
    ensures MergeSettings(MergeSettings(s, p), p) == MergeSettings(s, p)
  {
  }

  /** The later of two patches wins field by field. */
  lemma LaterPatchWins(s: Settings, p: SettingsPatch, q: SettingsPatch)
    ensures MergeSettings(MergeSettings(s, p), q) ==
              MergeSettings(s, SettingsPatch(
                if q.theme.Some? then q.theme else p.theme,
                if q.showExplanationImmediately.Some? then q.showExplanationImmediately else p.showExplanationImmediately))
  {
  }

  // ---------------------------------------------------------------- session and quiz

  datatype UserSession = UserSession(
    mistakeBank: seq<string>,
    reviewSchedule: Schedule,
    streak: Streak,
    settings: Settings)

  /** The session a new learner starts with. */
  function DefaultUserSession(): (s: UserSession)
    ensures s.mistakeBank == [] && s.reviewSchedule == map[]
    ensures s.streak == Streak(0, None)
    ensures s.settings == Settings("light", true)
  {
    UserSession([], map[], Streak(0, None), Settings("light", true))
  }

  /** What every store action keeps: a duplicate-free bank, levels at least 1, every entry due
      after its last review, a consistent streak. */
  predicate ValidSession(s: UserSession)
  {
    && NoDuplicates(s.mistakeBank)
    && LevelsPositive(s.reviewSchedule)
    && DueAfterReview(s.reviewSchedule)
    && StreakValid(s.streak)
  }

  lemma DefaultIsValid()
    ensures ValidSession(DefaultUserSession())
  {
  }

  /** The quiz in progress: its questions, its mode and the answers given so far by question id. */
  datatype Quiz = Quiz(questions: seq<Question>, mode: string, userAnswers: map<string, int>)

  function IdsOf(questions: seq<Question>): set<string>
  {
    set k | 0 <= k < |questions| :: questions[k].id
  }

  /** Answers are only ever recorded for the quiz's own questions. */
  predicate AnswersWithinQuiz(q: Quiz)
  {
    q.userAnswers.Keys <= IdsOf(q.questions)
  }

  function HasId(id: string): Question -> bool
  {
    (q: Question) => q.id == id
  }

  /** No question before position `k` has that id. */
  ghost predicate IsFirstWithId(questions: seq<Question>, id: string, k: int)
    requires 0 <= k <= |questions|
  {
    forall j :: 0 <= j < k ==> questions[j].id != id
  }

  /** `questions.find(q => q.id === id)`: the first question with that id. */
  function FindQuestion(questions: seq<Question>, id: string): (r: Option<Question>)
    ensures r.Some? <==> id in IdsOf(questions)
    ensures r.Some? ==> r.value.id == id && r.value in questions
    ensures r.Some? ==> exists k :: 0 <= k < |questions| && questions[k] == r.value && IsFirstWithId(questions, id, k)
  {
    var k := IndexWhere(questions, HasId(id));
    if k >= 0 then
      assert IsFirstWithId(questions, id, k) by {
        forall j | 0 <= j < k ensures questions[j].id != id { assert !HasId(id)(questions[j]); }
      }
      Some(questions[k])
    else
      assert forall j :: 0 <= j < |questions| ==> !HasId(id)(questions[j]);
      None
  }

  /** Recording an answer for one of the quiz's questions keeps answers within the quiz. */
  lemma RecordAnswerKeepsWithin(q: Quiz, id: string, selected: int)
    requires AnswersWithinQuiz(q) && id in IdsOf(q.questions)
    ensures AnswersWithinQuiz(q.(userAnswers := q.userAnswers[id := selected]))
  {
  }
}
