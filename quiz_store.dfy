/** The quiz store of src/store/quizStore.ts: two fields, the learner's session and the quiz in
    progress, updated in place by the store's actions. The clock reading is a parameter. */
module Store {
  import opened Basics
  import opened Normalize
  import opened Progress

  class QuizStore {
    var userSession: UserSession
    var currentQuiz: Option<Quiz>

    /** The invariant every action keeps. */
    predicate Valid()
      reads this
    {
      ValidSession(userSession) && (currentQuiz.Some? ==> AnswersWithinQuiz(currentQuiz.value))
    }

    /** The initial state: the default session and no quiz. */
    constructor()
      ensures userSession == DefaultUserSession() && currentQuiz == None
      ensures Valid()
    {
      userSession := DefaultUserSession();
      currentQuiz := None;
    }

    /** `initializeQuiz`: a new quiz with no answers replaces whatever quiz there was. */
    method InitializeQuiz(questions: seq<Question>, mode: string)
      modifies this
      ensures currentQuiz == Some(Quiz(questions, mode, map[]))
      ensures userSession == old(userSession)
      ensures old(Valid()) ==> Valid()
    {
      currentQuiz := Some(Quiz(questions, mode, map[]));
    }

    /** `addAnswer`: nothing happens without a quiz or for an id that is not one of its
        questions. Otherwise the answer is recorded (overwriting an earlier one), a wrong answer
        puts the id in the mistake bank, and the id is rescheduled either way. */
    method AddAnswer(questionId: string, selectedIndex: int, now: int)
      modifies this
      ensures old(currentQuiz).None? || FindQuestion(old(currentQuiz).value.questions, questionId).None? ==>
                currentQuiz == old(currentQuiz) && userSession == old(userSession)
      ensures old(currentQuiz).Some? && FindQuestion(old(currentQuiz).value.questions, questionId).Some? ==>
                var quiz := old(currentQuiz).value;
                var isCorrect := selectedIndex == FindQuestion(quiz.questions, questionId).value.dogruCevapIndex;
                && currentQuiz == Some(quiz.(userAnswers := quiz.userAnswers[questionId := selectedIndex]))
                && userSession == old(userSession).(
                     mistakeBank := if isCorrect then old(userSession).mistakeBank else AddToBank(old(userSession).mistakeBank, questionId),
                     reviewSchedule := Reschedule(old(userSession).reviewSchedule, questionId, isCorrect, now))
      ensures old(Valid()) ==> Valid()
    {
      if currentQuiz.None? {
        return;
      }
      var quiz := currentQuiz.value;
      var question := FindQuestion(quiz.questions, questionId);
      if question.None? {
        return;
      }
      var isCorrect := selectedIndex == question.value.dogruCevapIndex;
      var session := userSession;

      currentQuiz := Some(quiz.(userAnswers := quiz.userAnswers[questionId := selectedIndex]));
      if !isCorrect {
        if questionId !in session.mistakeBank {
          userSession := session.(mistakeBank := session.mistakeBank + [questionId]);
        }
      }
      UpdateReviewSchedule(questionId, isCorrect, now);
    }

    /** `finishQuiz`: the streak is updated for today and the quiz is cleared. */
    method FinishQuiz(now: int)
      modifies this
      ensures currentQuiz == None
      ensures userSession == old(userSession).(streak := NextStreak(old(userSession).streak, Today(now)))
      ensures old(Valid()) ==> Valid()
    {
      UpdateStreak(now);
      currentQuiz := None;
    }

    /** `addToMistakeBank`. */
    method AddToMistakeBank(questionId: string)
      modifies this
      ensures userSession == old(userSession).(mistakeBank := AddToBank(old(userSession).mistakeBank, questionId))
      ensures currentQuiz == old(currentQuiz)
      ensures old(Valid()) ==> Valid()
    {
      if questionId !in userSession.mistakeBank {
        userSession := userSession.(mistakeBank := userSession.mistakeBank + [questionId]);
      }
    }

    /** `removeFromMistakeBank`. */
    method RemoveFromMistakeBank(questionId: string)
      modifies this
      ensures userSession == old(userSession).(mistakeBank := RemoveFromBank(old(userSession).mistakeBank, questionId))
      ensures currentQuiz == old(currentQuiz)
      ensures old(Valid()) ==> Valid()
    {
      userSession := userSession.(mistakeBank := Filter(userSession.mistakeBank, IsNot(questionId)));
    }

    /** `updateReviewSchedule`: only the schedule entry for the id changes. */
    method UpdateReviewSchedule(questionId: string, isCorrect: bool, now: int)
      modifies this
      ensures userSession == old(userSession).(reviewSchedule := Reschedule(old(userSession).reviewSchedule, questionId, isCorrect, now))
      ensures currentQuiz == old(currentQuiz)
      ensures old(Valid()) ==> Valid()
    {
      var schedule := userSession.reviewSchedule;
      var level := if questionId in schedule then schedule[questionId].level else 1;
      var newReview := CalculateNextReview(level, isCorrect, now);
      userSession := userSession.(reviewSchedule := schedule[questionId := newReview]);
      if old(Valid()) {
        RescheduleKeepsLevels(old(userSession).reviewSchedule, questionId, isCorrect, now);
        RescheduleKeepsDueAfterReview(old(userSession).reviewSchedule, questionId, isCorrect, now);
      }
    }

    /** `updateStreak`: compares the last study day with yesterday and today. */
    method UpdateStreak(now: int)
      modifies this
      ensures userSession == old(userSession).(streak := NextStreak(old(userSession).streak, Today(now)))
      ensures currentQuiz == old(currentQuiz)
      ensures old(Valid()) ==> Valid()
    {
      var today := Today(now);
      var lastStudiedDate := userSession.streak.lastStudiedDate;
      var newCount := userSession.streak.count;
      var yesterday := DayOf(now - MsPerDay);
      DayShift(now, -1);
      if lastStudiedDate == Some(yesterday) {
        newCount := newCount + 1;
      } else if lastStudiedDate != Some(today) {
        newCount := 1;
      }
      userSession := userSession.(streak := Streak(newCount, Some(today)));
    }

    /** `updateSettings`: the partial settings are merged over the current ones. */
    method UpdateSettings(patch: SettingsPatch)
      modifies this
      ensures userSession == old(userSession).(settings := MergeSettings(old(userSession).settings, patch))
      ensures currentQuiz == old(currentQuiz)
      ensures old(Valid()) ==> Valid()
    {
      userSession := userSession.(settings := MergeSettings(userSession.settings, patch));
    }

    /** `getDueQuestions`: the scheduled ids due today or earlier. */
    function GetDueQuestions(now: int): (r: set<string>)
      reads this
      ensures r <= userSession.reviewSchedule.Keys
      ensures forall id :: id in r ==> DayOf(userSession.reviewSchedule[id].dueDate) <= Today(now)
      ensures forall id :: id in userSession.reviewSchedule && DayOf(userSession.reviewSchedule[id].dueDate) <= Today(now) ==> id in r
    {
      DueIds(userSession.reviewSchedule, now)
    }
  }
}
