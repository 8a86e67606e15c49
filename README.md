# Quiz app core in Dafny

A model of the logic behind a Turkish exam-practice quiz application (React + zustand), with
proofs of what that logic promises:

- **Question normalisation** (`src/utils/normalizeQuestion.ts`): a raw catalog record is turned
  into a canonical question. This covers string coercion and trimming, option sanitising, topic and
  difficulty fallbacks, and the three-step resolution of the correct answer. The options are then
  shuffled by a seeded in-place Fisher–Yates pass, with the seed derived from the id.
- **The quiz store** (`src/store/quizStore.ts`): the spaced-repetition schedule, the mistake bank,
  the study streak and the settings, all held in the learner's session. The quiz in progress is
  held beside the session. The store is a class with the fields `userSession` and `currentQuiz`,
  and each action is a method that updates them.
- **The results page**: the score loop and the result message.
- **The home page**: the level, the week grouping of the catalog, and the mistake-bank button.
- **The custom-quiz page**: filtering by category and difficulty, the category list, the slider
  bounds, the two effects that clamp the question count, and starting a custom quiz.

Modules, one per source file, plus two shared ones:

- `Basics` (`basics.dfy`): `Option`, JavaScript's `filter`, a `Set` built from a list, and
  subsequences.
- `Text` (`text.dfy`): `trim`, `toLowerCase`, `String(n)`, `parseInt` and UTF-16 code units.
- `Normalize` (`normalize_question.dfy`).
- `Progress` (`progress.dfy`): the session's value types and the pure parts of the store.
- `Store` (`quiz_store.dfy`).
- `Results` (`results_page.dfy`).
- `Home` (`home_page.dfy`).
- `CustomQuiz` (`custom_quiz_page.dfy`).

Inputs from outside the program are parameters:

- the clock reading `now`, an instant in milliseconds;
- the fetched catalog, as a `Json` value;
- the random reordering of the custom quiz, as a list required to be a permutation.

Days are UTC day numbers, `now / 86400000`. A stored date string of `''` is `None`. Question ids
are strings, as the normaliser produces them. The `Question` interface in `src/store/quizStore.ts`
declares numeric ids and a `kategori` field; the model follows the normaliser's shape instead.

## Model

| member | source | states |
|---|---|---|
| Basics.Filter | src/utils/normalizeQuestion.ts:25 | the kept elements all pass the test and are elements of the input, every passing element is kept, and a duplicate-free input gives a duplicate-free result |
| Basics.FilterAppend | src/utils/normalizeQuestion.ts:23-25 | filtering a concatenation is the concatenation of the filtered parts, so kept elements stay in order |
| Basics.FilterIsSubsequence | src/utils/normalizeQuestion.ts:96-98 | a filtered list is a subsequence of its input |
| Basics.FilterFilter | src/pages/CustomQuizPage.tsx:40-46 | two filters in a row equal one filter by the conjunction |
| Basics.FilterAll | src/pages/CustomQuizPage.tsx:38 | a test that every element passes keeps the list unchanged |
| Basics.AppendIfAbsent | src/store/quizStore.ts:165-169 | the result holds exactly the old elements plus the new one; it is unchanged when the element was present and one longer otherwise; no duplicates are introduced |
| Basics.Distinct | src/pages/CustomQuizPage.tsx:13 | `[...new Set(s)]` has no duplicates and holds exactly the elements of `s` |
| Basics.DistinctOfDistinct | src/pages/CustomQuizPage.tsx:13 | a list without duplicates passes through a `Set` unchanged |
| Text.Trim | src/utils/normalizeQuestion.ts:5 | the result is a middle slice `s[i..j]` of the input with only JavaScript whitespace cut from either end, and has no whitespace at either end |
| Text.TrimStart | src/utils/normalizeQuestion.ts:5 | a suffix of the input, with only whitespace removed in front and a non-whitespace first character |
| Text.TrimEnd | src/utils/normalizeQuestion.ts:5 | a prefix of the input, with only whitespace removed behind and a non-whitespace last character |
| Text.TrimIsMiddleSlice | src/utils/normalizeQuestion.ts:5 | trimming the front then the back leaves the slice between two all-whitespace ends |
| Text.SuffixThenPrefix | src/utils/normalizeQuestion.ts:5 | a whitespace-trimmed prefix of a whitespace-trimmed suffix is a middle slice with whitespace on both sides |
| Text.TrimEmptyIff | src/utils/normalizeQuestion.ts:14-15 | trimming gives "" exactly when the string is all whitespace, which is when `result \|\| fallback` falls back |
| Text.TrimOfTrimmed | src/utils/normalizeQuestion.ts:5 | a string with no whitespace at either end is left unchanged |
| Text.TrimIdempotent | src/utils/normalizeQuestion.ts:5 | trimming twice is trimming once |
| Text.LowerChar | src/utils/normalizeQuestion.ts:46-47 | capital ASCII letters map to their lower-case letters; lower-case ones are unchanged |
| Text.ToLower | src/utils/normalizeQuestion.ts:46-47 | lower-casing keeps the length |
| Text.ToLowerIdempotent | src/utils/normalizeQuestion.ts:46-47 | lower-casing twice is lower-casing once |
| Text.NatToDecimal | src/utils/normalizeQuestion.ts:8 | `String(n)` is a non-empty string of digits without a leading zero |
| Text.IntToDecimal | src/utils/normalizeQuestion.ts:8 | `String(n)` is non-empty and contains no whitespace, so trimming leaves it unchanged; it is the digits of `n`, after a `-` when `n` is negative, and parses back to `n` |
| Text.ParseDigits | src/pages/HomePage.tsx:111 | the last digit of the string is the ones place of the parsed number |
| Text.ParseDigitsLeadingZero | src/pages/HomePage.tsx:111 | `parseInt` ignores a leading zero, so `01` parses as 1 |
| Text.DigitRun | src/pages/HomePage.tsx:109 | `\d+` matches the longest leading run of digits |
| Text.DigitRunOfDigits | src/pages/HomePage.tsx:109 | digits followed by a non-digit match exactly the digits |
| Text.DigitsAreWholeRun | src/store/quizStore.ts:289 | a digit string has no leading whitespace and is one whole run of digits |
| Text.ParseIntPrefix | src/store/quizStore.ts:289 | `parseInt` is `NaN` when, after leading whitespace, the text starts with neither a digit nor a sign |
| Text.ParseSigned | src/store/quizStore.ts:289 | after the whitespace, text starting with neither a digit nor a sign parses to `NaN` |
| Text.ParseIntPrefixOfDigits | src/store/quizStore.ts:289 | `parseInt` of a digit string is its decimal value |
| Text.NonNumericIsNaN | src/store/quizStore.ts:289 | text starting with neither whitespace, a sign nor a digit parses to `NaN` |
| Text.TrimStartSkips | src/store/quizStore.ts:289 | `parseInt` skips leading whitespace up to the first other character |
| Text.ParseIntOfSignedRun | src/store/quizStore.ts:289 | after whitespace, `-`, `+` or no sign and a digit run followed by a non-digit parse as the signed value of that run |
| Text.GeneratedIdsAreNaN | src/store/quizStore.ts:289 | `parseInt` of `auto-<n>` and of any `eay_...` id is `NaN` |
| Text.ParseNatToDecimal | src/pages/HomePage.tsx:109-111 | `parseInt` of the decimal rendering of `n` is `n` |
| Text.CodeUnitSum | src/utils/normalizeQuestion.ts:67 | a character of the basic plane contributes its own code to the seed |
| Text.CodeUnitTotal | src/utils/normalizeQuestion.ts:67 | the empty string sums to 0, and the sum is at least the code units of each character |
| Normalize.ToTrimmedString | src/utils/normalizeQuestion.ts:3-11 | a string becomes exactly its `trim`, a number its decimal text, anything else ""; the result is always trimmed |
| Normalize.ReCoercionIsIdentity | src/utils/normalizeQuestion.ts:3-11 | coercing already-coerced text changes nothing |
| Normalize.ToStringOr | src/utils/normalizeQuestion.ts:13-16 | the coerced text when it is non-blank, otherwise the fallback; a non-empty fallback gives a non-empty result |
| Normalize.SanitizeOptions | src/utils/normalizeQuestion.ts:18-26 | a non-array gives no options, and no option is blank |
| Normalize.SanitizeCharacterization | src/utils/normalizeQuestion.ts:18-26 | each option is the trimmed text of some entry, and every entry with non-blank text is among the options |
| Normalize.SanitizeKeepsOrder | src/utils/normalizeQuestion.ts:23-25 | sanitising distributes over concatenation, so surviving options keep their input order |
| Normalize.Field | src/utils/normalizeQuestion.ts:32-34 | a present key of an object reads its value; a missing key, or a record that is not an object, reads as undefined |
| Normalize.Coalesce | src/utils/normalizeQuestion.ts:37 | `a ?? b` is `a` unless `a` is null or undefined, and `b` then |
| Normalize.RawIndex | src/utils/normalizeQuestion.ts:44 | a numeric `dogruCevapIndex` is kept; anything else becomes a negative index that selects nothing |
| Normalize.IndexWhere | src/utils/normalizeQuestion.ts:49 | `findIndex`: the first position that satisfies the test, or -1 exactly when none does |
| Normalize.ResolveAnswerIndex | src/utils/normalizeQuestion.ts:46-57 | with options the resolved index is in range; without options it is -1 |
| Normalize.AnswerResolutionOrder | src/utils/normalizeQuestion.ts:46-57 | the first option equal to the answer ignoring case wins; otherwise an in-range raw index; otherwise 0 |
| Normalize.ResolveAnswerIndexSteps | src/utils/normalizeQuestion.ts:49-57 | the three reassignments compute the resolution above |
| Normalize.SafeIndex | src/utils/normalizeQuestion.ts:59-61 | the clamp lands inside a non-empty list and leaves an in-range index unchanged |
| Normalize.SwapPartner | src/utils/normalizeQuestion.ts:71 | the drawn partner `j` never exceeds the current position `i` |
| Normalize.Swap | src/utils/normalizeQuestion.ts:72 | the two positions exchange their elements and every other position is unchanged |
| Normalize.ShuffleDown | src/utils/normalizeQuestion.ts:70-73 | the loop from position `i` down never touches a position above `i` |
| Normalize.Shuffled | src/utils/normalizeQuestion.ts:66-73 | the shuffle keeps the length, and zero or one option is left as it is |
| Normalize.SeedOf | src/utils/normalizeQuestion.ts:67 | an empty id seeds 0, and the seed is at least the code of each basic-plane character of the id |
| Normalize.ShufflePermutes | src/utils/normalizeQuestion.ts:66-73 | the seeded shuffle is a permutation of the options |
| Normalize.ShuffleDependsOnlyOnSeedAndCount | src/utils/normalizeQuestion.ts:65-73 | the shuffle reads the input through a rearrangement fixed by the seed and the number of options alone |
| Normalize.ShuffleInPlace | src/utils/normalizeQuestion.ts:66-73 | the in-place loop over the array leaves exactly the shuffled sequence |
| Normalize.Present | src/utils/normalizeQuestion.ts:66-86 | when the correct text is an option: the shown options are a permutation and the index points at the correct text; without options: `[dogruCevap]` or `[]`, with the fallback index |
| Normalize.Locate | src/utils/normalizeQuestion.ts:76-86 | `indexOf` finds the correct text whenever it is among the shuffled options |
| Normalize.Normalized | src/utils/normalizeQuestion.ts:31-89 | id, topic and difficulty are never empty, and whenever options exist the index names the correct option |
| Normalize.CorrectIsShown | src/utils/normalizeQuestion.ts:59-86 | any non-empty option list has the correct text at the returned index |
| Normalize.PresentShowsCorrect | src/utils/normalizeQuestion.ts:76-86 | `indexOf` on the presented options finds the correct text, falling back to index 0 when there are no options |
| Normalize.NormalizeQuestion | src/utils/normalizeQuestion.ts:31-89 | the normaliser with its reassigned index and in-place array shuffle computes the value `Normalized` |
| Normalize.ResolvedOptionIsShown | src/utils/normalizeQuestion.ts:51-86 | with options the answer text is the resolved option, the options are a permutation of the sanitised ones, and the index is valid |
| Normalize.NoOptionsFallback | src/utils/normalizeQuestion.ts:59-86 | without options the answer is the raw answer text, the option list is that text alone (or empty), and the index is 0 |
| Normalize.KonuOf | src/utils/normalizeQuestion.ts:37 | the topic is never empty and has no whitespace at either end |
| Normalize.ZorlukOf | src/utils/normalizeQuestion.ts:38 | the difficulty is never empty and has no whitespace at either end |
| Normalize.TipOf | src/utils/normalizeQuestion.ts:39 | a kept type is non-empty and trimmed; a type that is neither string nor number is dropped |
| Normalize.IdOf | src/utils/normalizeQuestion.ts:42 | the id is never empty, and a non-blank string id is kept trimmed |
| Normalize.CorrectTextOf | src/utils/normalizeQuestion.ts:63 | with options the correct text is one of them; without options it is the raw answer text |
| Normalize.IdFallback | src/utils/normalizeQuestion.ts:42 | a blank or missing id becomes `auto-<index>`, a present one is kept trimmed |
| Normalize.KonuResolution | src/utils/normalizeQuestion.ts:37 | the topic is the first of `konu`, `kategori`, `category` that is neither null nor missing, trimmed, or `Genel` when that text is blank; a null or missing field falls through, a present blank or non-string `konu` stops the chain and gives `Genel`, and all three nullish give `Genel` |
| Normalize.KonuIsFirstPresent | src/utils/normalizeQuestion.ts:37 | the nested coalescing equals the reference reading of the `??` chain |
| Normalize.TopicChain | src/utils/normalizeQuestion.ts:37 | the `??` chain over the three fields picks the first that is neither null nor missing, else the last |
| Normalize.ZorlukResolution | src/utils/normalizeQuestion.ts:38 | the difficulty is `zorluk` trimmed; missing, null, a non-string non-number, or blank text gives `Belirtilmedi` |
| Normalize.SameIdSameOrder | src/utils/normalizeQuestion.ts:65-73 | the same id and options always give the same presented order |
| Normalize.NormalizedAll | src/utils/normalizeQuestion.ts:96-97 | one question per record, each with a valid answer index whenever it has options |
| Normalize.NormalizeQuestionArray | src/utils/normalizeQuestion.ts:91-99 | a non-array gives []; otherwise a subsequence of the normalised records, each usable and with a valid answer index |
| Normalize.UsableAreValid | src/utils/normalizeQuestion.ts:98 | the filter keeps only usable questions whose answer index is valid |
| Normalize.UsableQuestionsKept | src/utils/normalizeQuestion.ts:96-98 | every usable normalised record is in the output |
| Progress.DayOf | src/store/quizStore.ts:105 | the day number of an instant is the UTC day that contains it |
| Progress.Today | src/store/quizStore.ts:103-106 | today is the UTC day that contains the clock reading |
| Progress.DayShift | src/store/quizStore.ts:243-245 | shifting an instant by whole days shifts its day number by the same amount (yesterday is today - 1) |
| Progress.IntervalDays | src/store/quizStore.ts:85-86 | the table interval is between 1 and 240 days, and 240 from level 7 on |
| Progress.IntervalMonotone | src/store/quizStore.ts:85-86 | a higher level never gets a shorter interval |
| Progress.CalculateNextReview | src/store/quizStore.ts:71-100 | correct: level + 1, due after the table interval; wrong: level max(1, level - 1), due after one day; level at least 1; reviewed now |
| Progress.ReviewInterval | src/store/quizStore.ts:82-93 | the next review is between 1 and 240 days later |
| Progress.CorrectNeverSooner | src/store/quizStore.ts:83-90 | a correct answer is never due sooner than a wrong one |
| Progress.FirstCorrectIsThreeDays | src/store/quizStore.ts:85-96 | from the default level 1 a correct answer gives level 2, due three days later |
| Progress.CorrectRunNeverShortens | src/store/quizStore.ts:83-96 | along a run of correct answers the interval never shrinks |
| Progress.LevelOf | src/store/quizStore.ts:215-219 | an unscheduled id starts at level 1; with positive levels the level read is at least 1 |
| Progress.Reschedule | src/store/quizStore.ts:213-232 | the id gains or replaces its entry, computed from its old level (1 if new), and no other entry changes |
| Progress.RescheduleKeepsLevels | src/store/quizStore.ts:213-232 | all levels stay at least 1 |
| Progress.RescheduleKeepsDueAfterReview | src/store/quizStore.ts:213-232 | every entry stays due strictly after it was last reviewed |
| Progress.DueIds | src/store/quizStore.ts:281-290 | exactly the scheduled ids whose due day is today or earlier |
| Progress.DueInOrder | src/store/quizStore.ts:285-288 | the due ids in the schedule's entry order: no duplicates, a subsequence of the entries, and exactly the due set |
| Progress.DueNumbersAsWritten | src/store/quizStore.ts:281-290 | as written, one entry per due id, in entry order, each the `parseInt` of that id |
| Progress.DueWeekIdsLostAsWritten | src/store/quizStore.ts:285-289 | with `eay_1_1` and `eay_1_2` due, the due ids are those two, and the as-written result is `[NaN, NaN]` |
| Progress.NonNumericDueIdsLostAsWritten | src/store/quizStore.ts:285-289 | when no scheduled id starts with whitespace, a sign or a digit, every as-written entry is `NaN` |
| Progress.NumericDueIdKeptAsWritten | src/store/quizStore.ts:289 | a due id made only of digits survives as its number |
| Progress.JustReviewedNotDue | src/store/quizStore.ts:281-290 | a question just answered is not due again today |
| Progress.RescheduleKeepsOthersDue | src/store/quizStore.ts:226-229 | rescheduling one id does not change whether any other id is due |
| Progress.DueGrowsOverTime | src/store/quizStore.ts:285-288 | what is due stays due later |
| Progress.DayMonotone | src/store/quizStore.ts:287 | a later instant has the same or a later day |
| Progress.AddToBank | src/store/quizStore.ts:189-199 | the id ends up in the bank, is appended only if absent, and no duplicates appear |
| Progress.AddToBankIdempotent | src/store/quizStore.ts:191 | adding twice is adding once |
| Progress.RemoveFromBank | src/store/quizStore.ts:202-210 | the id is gone, every other id stays, and nothing new appears |
| Progress.RemoveKeepsOrder | src/store/quizStore.ts:207 | the remaining ids keep their order |
| Progress.AddThenRemoveRestores | src/store/quizStore.ts:189-210 | adding an absent id and removing it restores the bank |
| Progress.NextStreak | src/store/quizStore.ts:235-264 | last study day becomes today; the count goes up by one after yesterday, stays the same for today, and is 1 otherwise |
| Progress.NextStreakValid | src/store/quizStore.ts:247-262 | a streak with a last day always counts at least 1 |
| Progress.StreakSameDayIdempotent | src/store/quizStore.ts:251-260 | studying twice on one day counts once |
| Progress.ConsecutiveDays | src/store/quizStore.ts:247-249 | `n` consecutive study days after a gap give a streak of `n` |
| Progress.GapResetsStreak | src/store/quizStore.ts:250-253 | missing a day resets the count to 1 |
| Progress.MergeSettings | src/store/quizStore.ts:267-278 | each field of the patch that is present wins; an absent field keeps the old value |
| Progress.EmptyPatchIsIdentity | src/store/quizStore.ts:272-275 | an empty patch changes nothing |
| Progress.MergeIdempotent | src/store/quizStore.ts:272-275 | applying a patch twice is applying it once |
| Progress.LaterPatchWins | src/store/quizStore.ts:272-275 | of two patches, the later wins field by field |
| Progress.DefaultUserSession | src/store/quizStore.ts:109-120 | an empty bank and schedule, a zero streak with no date, a light theme, explanations shown |
| Progress.DefaultIsValid | src/store/quizStore.ts:109-120 | the default session satisfies the session invariant |
| Progress.FindQuestion | src/store/quizStore.ts:146 | `find` returns a question exactly when one has the id, and then the first such question |
| Progress.RecordAnswerKeepsWithin | src/store/quizStore.ts:152-160 | recording an answer for one of the quiz's questions keeps the answers within the quiz |
| Store.QuizStore.constructor | src/store/quizStore.ts:125-127 | the default session and no quiz |
| Store.QuizStore.InitializeQuiz | src/store/quizStore.ts:130-138 | a new quiz with no answers replaces the old one; the session is unchanged |
| Store.QuizStore.AddAnswer | src/store/quizStore.ts:141-177 | no quiz or an unknown id changes nothing; otherwise the answer is recorded, a wrong answer adds the id to the bank, and the id is rescheduled; the invariant is kept |
| Store.QuizStore.FinishQuiz | src/store/quizStore.ts:180-186 | the streak advances for today and the quiz is cleared |
| Store.QuizStore.AddToMistakeBank | src/store/quizStore.ts:189-199 | only the bank changes, by `AddToBank` |
| Store.QuizStore.RemoveFromMistakeBank | src/store/quizStore.ts:202-210 | only the bank changes, by `RemoveFromBank` |
| Store.QuizStore.UpdateReviewSchedule | src/store/quizStore.ts:213-232 | only the schedule changes, by `Reschedule`; levels stay positive and every entry stays due after its last review |
| Store.QuizStore.UpdateStreak | src/store/quizStore.ts:235-264 | only the streak changes, by `NextStreak` for today, with yesterday as today - 1 |
| Store.QuizStore.UpdateSettings | src/store/quizStore.ts:267-278 | only the settings change, by the merge |
| Store.QuizStore.GetDueQuestions | src/store/quizStore.ts:281-287 | corrected: exactly the scheduled ids whose due day is today or earlier, kept as the string ids they are; nothing changes |
| Results.AnsweredCorrectly | src/pages/ResultsPage.tsx:46-47 | a question is correct when its recorded answer is its correct index; an unanswered one is not |
| Results.CountCorrect | src/pages/ResultsPage.tsx:43-50 | never more than the number of questions |
| Results.CountCorrectIsFilterLength | src/pages/ResultsPage.tsx:45-50 | the count is the number of questions whose recorded answer equals the correct index |
| Results.NoAnswersNoneCorrect | src/pages/ResultsPage.tsx:45-50 | with no answers nothing is correct |
| Results.AllCorrectCountsAll | src/pages/ResultsPage.tsx:45-50 | answering every question correctly counts all of them |
| Results.RoundedPercent | src/pages/ResultsPage.tsx:52 | 0 for an empty quiz, at most 100, and the nearest whole percentage (halves up) |
| Results.PercentBounds | src/pages/ResultsPage.tsx:52 | the integer formula lies in 0..100 and within half a percent of the exact ratio |
| Results.HalfIsFifty | src/pages/ResultsPage.tsx:52 | 2 of 4 correct scores 50 |
| Results.AllIsHundred | src/pages/ResultsPage.tsx:52 | all correct scores 100 |
| Results.PercentMonotone | src/pages/ResultsPage.tsx:52 | more correct answers never lower the score |
| Results.ComputeResults | src/pages/ResultsPage.tsx:37-60 | without a quiz everything is 0; otherwise the loop counts the correct answers, correct + incorrect = total, and the score is the rounded percentage |
| Results.ResultMessage | src/pages/ResultsPage.tsx:84-90 | each message is shown exactly for its score band |
| Results.PerfectQuizTopMessage | src/pages/ResultsPage.tsx:37-90 | a non-empty quiz answered perfectly gets the top message |
| Home.StudiedCount | src/pages/HomePage.tsx:10 | no questions studied exactly when the schedule is empty |
| Home.CurrentLevel | src/pages/HomePage.tsx:10-12 | the level is at least 1 and is the 25-question band the studied count falls in |
| Home.LevelMonotone | src/pages/HomePage.tsx:10-12 | studying more never lowers the level |
| Home.AnswerNeverLowersLevel | src/pages/HomePage.tsx:10-12 | answering a question never lowers the level |
| Home.MistakeModeDisabled | src/pages/HomePage.tsx:148 | the mistake-bank button is disabled exactly when the bank is empty |
| Home.WrongAnswerEnablesMistakeMode | src/pages/HomePage.tsx:148 | a wrong answer in a fresh store puts exactly that id in the bank, enables the button, is not due today, and keeps the invariant |
| Home.MatchWeek | src/pages/HomePage.tsx:109-111 | a week exactly when the id is `eay_`, a non-empty run of digits, `_`, then anything; the week is `parseInt` of those digits |
| Home.WeekIdIsLeadingRun | src/pages/HomePage.tsx:109 | the id has that shape exactly when the digit run after `eay_` is non-empty and followed by `_`, and its digits are that run |
| Home.MatchWeekExamples | src/pages/HomePage.tsx:109-111 | `eay_01_x` is week 1; `eay_12`, with no `_` after the digits, has no week |
| Home.MatchWeekOfRendered | src/pages/HomePage.tsx:109-111 | the id `eay_<n>_<rest>` names week `n` |
| Home.WeekOf | src/pages/HomePage.tsx:109 | a record has a week exactly when its id is a string of the `eay_<digits>_` shape |
| Home.WeekNumbers | src/pages/HomePage.tsx:108-111 | at most one week number per record |
| Home.Occurrences | src/pages/HomePage.tsx:112 | a week has a positive count exactly when it occurs |
| Home.OccurrencesCountRecords | src/pages/HomePage.tsx:108-113 | a week's count is the number of records whose id names that week |
| Home.InsertByWeek | src/pages/HomePage.tsx:116 | inserting adds exactly one row |
| Home.InsertPermutes | src/pages/HomePage.tsx:116 | insertion adds exactly the new row |
| Home.InsertAscending | src/pages/HomePage.tsx:116 | inserting a new week into an ascending list keeps it ascending |
| Home.SortByWeek | src/pages/HomePage.tsx:116-117 | sorting is a permutation of the rows |
| Home.SortAscending | src/pages/HomePage.tsx:116 | rows with distinct weeks sort into strictly ascending order |
| Home.EntriesOf | src/pages/HomePage.tsx:115-116 | one row per distinct week seen, each for a week some record names and with that week's positive number of occurrences |
| Home.WeekList | src/pages/HomePage.tsx:107-117 | no more rows than records, and every row has a positive count |
| Home.WeekListAscending | src/pages/HomePage.tsx:114-116 | the week list is strictly ascending by week |
| Home.WeekListWeeks | src/pages/HomePage.tsx:107-117 | there is a row exactly for each week some id names |
| Home.WeekListCounts | src/pages/HomePage.tsx:107-117 | each row's count is the positive number of records in its week |
| Home.GroupWeeks | src/pages/HomePage.tsx:107-117 | the loop filling the week-count map, then sorting its entries, computes the week list |
| Home.Rows | src/pages/HomePage.tsx:115 | one row per map entry, in insertion order |
| Home.TalliedRows | src/pages/HomePage.tsx:107-115 | once the loop has seen the whole catalog, the map's rows are the week entries |
| Home.Bump | src/pages/HomePage.tsx:112 | `set(w, (get(w) \|\| 0) + 1)` raises `w`'s count by one and changes nothing else |
| Home.WeekNumbersStep | src/pages/HomePage.tsx:108-111 | one more record adds its week, if it has one, to the end of the week numbers |
| Home.TallyStep | src/pages/HomePage.tsx:108-113 | one loop step keeps the map's keys and counts in step with the weeks seen |
| Home.DistinctStep | src/pages/HomePage.tsx:112 | the map's key order after a week is seen: the week is appended if it is new |
| Home.OccurrencesStep | src/pages/HomePage.tsx:112 | one more occurrence adds one to that week's count only |
| Home.ThrowsAsWritten | src/pages/HomePage.tsx:109 | `q.id?.match` throws for a null or missing record, or for an id that is present but not a string |
| Home.WeekListAsWritten | src/pages/HomePage.tsx:106-119 | as written, the list stays unset exactly when some record makes `q.id?.match` throw |
| Home.NumericIdHidesAllWeeks | src/pages/HomePage.tsx:109 | a catalog with one week-1 id and one numeric id shows no weeks as written, but week 1 with one question when corrected |
| Home.AsWrittenAgreesWithoutThrows | src/pages/HomePage.tsx:107-117 | without throwing records, the code as written and the corrected grouping agree |
| CustomQuiz.FilteredQuestions | src/pages/CustomQuizPage.tsx:37-49 | filtering never adds questions |
| CustomQuiz.FilteredIsOneFilter | src/pages/CustomQuizPage.tsx:37-49 | the two successive filters are one filter by both selections |
| CustomQuiz.FilteredSelection | src/pages/CustomQuizPage.tsx:37-49 | the result is a subsequence holding exactly the questions matching both selections; with `all` for both, it is the whole list |
| CustomQuiz.Categories | src/pages/CustomQuizPage.tsx:13 | no topic is listed twice |
| CustomQuiz.CategoriesAreTopics | src/pages/CustomQuizPage.tsx:13 | a topic is listed exactly when some question has it |
| CustomQuiz.MaxQuestions | src/pages/CustomQuizPage.tsx:52 | at most 50 and at most the number of matches, and equal to one of the two |
| CustomQuiz.SliderMin | src/pages/CustomQuizPage.tsx:79 | 5 with no matches or at least 5; otherwise the number of matches |
| CustomQuiz.SliderMax | src/pages/CustomQuizPage.tsx:80 | 5 with no matches; otherwise the number of matches capped at 50 |
| CustomQuiz.SliderBounds | src/pages/CustomQuizPage.tsx:79-80 | 1 <= min <= max <= 50; with matches the maximum is `maxQuestions`; with none the range is just 5 |
| CustomQuiz.DisplayedCount | src/pages/CustomQuizPage.tsx:82 | 0 without matches; otherwise the count, capped at the slider maximum |
| CustomQuiz.CapToMax | src/pages/CustomQuizPage.tsx:55-59 | a count within `maxQuestions` is kept; a larger one becomes `maxQuestions`, or 10 without matches |
| CustomQuiz.ClampToSlider | src/pages/CustomQuizPage.tsx:84-95 | 10 without matches; otherwise the count inside the slider range, kept when already inside |
| CustomQuiz.ClampSettles | src/pages/CustomQuizPage.tsx:55-95 | after the clamp neither effect changes the count again |
| CustomQuiz.SettledCountIsShownAndUsed | src/pages/CustomQuizPage.tsx:67-82 | once settled, the displayed count equals the count a started quiz uses |
| CustomQuiz.Selection | src/pages/CustomQuizPage.tsx:61-73 | no quiz without matches; otherwise exactly `min(count, matches)` questions taken from the matches |
| CustomQuiz.SelectionDrawsFromFiltered | src/pages/CustomQuizPage.tsx:66-70 | every chosen question is a match; with a count of at least the number of matches, all matches are chosen |
| CustomQuiz.CustomQuizForm.constructor | src/pages/CustomQuizPage.tsx:10-19 | an empty catalog, both selections `all`, a count of 10 |
| CustomQuiz.CustomQuizForm.LoadQuestions | src/pages/CustomQuizPage.tsx:22-34 | the catalog becomes the normalised question list |
| CustomQuiz.CustomQuizForm.SelectCategory | src/pages/CustomQuizPage.tsx:137 | only the category changes |
| CustomQuiz.CustomQuizForm.SelectDifficulty | src/pages/CustomQuizPage.tsx:154 | only the difficulty changes |
| CustomQuiz.CustomQuizForm.SlideTo | src/pages/CustomQuizPage.tsx:172-179 | the enabled slider sets the count to a value in its range |
| CustomQuiz.CustomQuizForm.CapEffect | src/pages/CustomQuizPage.tsx:55-59 | the first effect sets the count as `CapToMax` says and keeps it positive |
| CustomQuiz.CustomQuizForm.ClampEffect | src/pages/CustomQuizPage.tsx:84-95 | the second effect sets the count as `ClampToSlider` says |
| CustomQuiz.CustomQuizForm.StartQuiz | src/pages/CustomQuizPage.tsx:61-73 | without matches the store is unchanged; otherwise a `custom` quiz of the selection replaces the quiz, and the session is unchanged |

## Left out

- Rendering, animation, confetti and routing. This covers every component and all page JSX, and also the quiz page, whose due-question filter repeats `getDueQuestions` and its `parseInt`.
- The `fetch` of the catalog: the fetched data is a parameter.
- Persistence of the session in local storage.
- The random sort of the custom quiz is left out. `CustomQuiz.CustomQuizForm.StartQuiz` takes the reordered list as a parameter, required to be a permutation of the matches. So only the count and the drawing from the matches are modelled.
- Progress.CalculateNextReview: the due date is `now` plus whole UTC days in milliseconds. The local-calendar `setDate` is not modelled, including daylight-saving shifts.
- Progress.NextStreak: yesterday is the UTC day before today. The source's local-time `setDate` followed by a UTC date string can differ near midnight in some time zones, and time zones are not modelled.
- Store.QuizStore.GetDueQuestions: returns the due ids themselves, as a set of strings, without the `Object.entries` order. The source maps them through `parseInt(id)`. That turns every non-numeric id, such as `eay_1_1` or `auto-3`, into `NaN`, and a numeric one into a number that never `===` a string id. So every non-numeric due id (`eay_…`, `auto-N`) becomes `NaN` and is lost, while a numeric raw id survives as its number (see "## Findings"). `Progress.DueNumbersAsWritten` models the result as written.
- Progress.DueNumbersAsWritten: takes the `Object.entries` order as a parameter, a duplicate-free list of the schedule's ids. JavaScript lists integer-like keys first, in ascending order, then the rest in insertion order. The model does not compute that order.
- Home.WeekList, Home.GroupWeeks, Home.WeekListAsWritten: the catalog is a list of records. A top-level value that is not an array, on which `forEach` throws at src/pages/HomePage.tsx:108 and the list stays `[]`, is not represented; its outcome is the same as the list for an empty catalog.
- Text.ParseIntPrefix: decimal only. The `0x` hexadecimal prefix that `parseInt` without a radix accepts is not modelled.
- Results.RoundedPercent: exact rational arithmetic, with halves rounded up as `Math.round` does. The floating-point error of `correct / total * 100` is not modelled.
- Normalize.ToTrimmedString: numbers are integers. Fractions, `NaN`, infinities and exponent notation of `String(number)` are not modelled.
- Normalize.RawIndex: only integral `dogruCevapIndex` values are modelled, not fractional ones.
- Normalize.SwapPartner: the partner is computed in exact integer arithmetic. The source's floating-point division and multiplication could differ when the exact value is a whole number.
- Text.LowerChar: covers Basic Latin, Latin-1 and the Turkish `Ğ`/`Ş`. Other `toLowerCase` mappings are not modelled, including `İ`, which lower-cases to two code points.
- Progress.MergeSettings: a patch field that is present but `undefined` is not distinguished from an absent field.
- CustomQuiz.CustomQuizForm.SlideTo: the slider's `parseInt` of its own value is modelled as that integer.
- React's scheduling of effects is not modelled: each effect is a method of its own. `CustomQuiz.ClampSettles` shows that the clamped count is a fixed point of both effects, so re-running them in any order changes nothing.
- Negative levels cannot occur and are not modelled: levels are natural numbers.

## Findings

| source | as written | input that shows it | evidently intended | confidence | as-written member | corrected member |
|---|---|---|---|---|---|---|
| src/pages/HomePage.tsx:109 | `q.id?.match(...)` throws a TypeError for a record whose `id` is a number, and for a `null` record. The `.then` callback rejects and `setWeeks` is never called, so the week list stays empty. The `Question` interface declares numeric ids, and the normaliser accepts numeric ids. | a catalog `[{"id": "eay_1_1"}, {"id": 7}]` | skip records without a string id and list week 1 with one question | not executed | Home.NumericIdHidesAllWeeks | Home.GroupWeeks |
| src/store/quizStore.ts:289 | `.map(([id]) => parseInt(id))` turns the due ids, which are strings, into numbers. Every non-numeric due id (`eay_…`, `auto-N`) becomes `NaN` and is lost; a numeric raw id survives as its number. The smart-review filter at src/pages/QuizPage.tsx:50-57 repeats the conversion on the raw catalog, so its `includes(q.id)` matches only questions whose raw id is a number (such as `{"id": 7}`, answered under the key `"7"`). | a schedule with `eay_1_1` and `eay_1_2` due today | return the due ids unchanged, so they can be compared with the question ids | not executed | Progress.DueWeekIdsLostAsWritten | Store.QuizStore.GetDueQuestions |
