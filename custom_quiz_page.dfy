/** The custom-quiz form of src/pages/CustomQuizPage.tsx: filtering the catalog by category and
    difficulty, the slider bounds for the question count, the effects that keep the count inside
    them, and starting a quiz from the filtered questions. */
module CustomQuiz {
  import opened Basics
  import opened Normalize
  import opened Progress
  import opened Store

  /** The choice that switches a filter off. */
  const AllChoice := "all"

  /** The largest quiz the form allows. */
  const QuestionLimit := 50

  // ---------------------------------------------------------------- filtering

  function KonuIs(category: string): Question -> bool
  {
    (q: Question) => q.konu == category
  }

  function ZorlukIs(difficulty: string): Question -> bool
  {
    (q: Question) => q.zorluk == difficulty
  }

  function AlwaysKeep(): Question -> bool
  {
    (q: Question) => true
  }

  /** Both selections at once: a selection of `all` accepts every question. */
  function Matches(category: string, difficulty: string): Question -> bool
  {
    (q: Question) => (category == AllChoice || q.konu == category) && (difficulty == AllChoice || q.zorluk == difficulty)
  }

  /** `getFilteredQuestions`: the category filter, then the difficulty filter, each skipped when
      its selection is `all`. */
  function FilteredQuestions(questions: seq<Question>, category: string, difficulty: string): (r: seq<Question>)
    ensures |r| <= |questions|
  {
    var byCategory := if category != AllChoice then Filter(questions, KonuIs(category)) else questions;
    if difficulty != AllChoice then Filter(byCategory, ZorlukIs(difficulty)) else byCategory
  }

  /** The two filters in a row are one filter by both selections. */
  lemma FilteredIsOneFilter(questions: seq<Question>, category: string, difficulty: string)
    ensures FilteredQuestions(questions, category, difficulty) == Filter(questions, Matches(category, difficulty))
  {
    var both := Matches(category, difficulty);
    if category != AllChoice && difficulty != AllChoice {
      FilterFilter(questions, KonuIs(category), ZorlukIs(difficulty), both);
    } else if category != AllChoice {
      FilterFilter(questions, KonuIs(category), AlwaysKeep(), both);
      FilterAll(Filter(questions, KonuIs(category)), AlwaysKeep());
    } else if difficulty != AllChoice {
      FilterFilter(questions, AlwaysKeep(), ZorlukIs(difficulty), both);
      FilterAll(questions, AlwaysKeep());
    } else {
      FilterAll(questions, both);
    }
  }

  /** The filtered list keeps its questions in catalog order and holds exactly the questions that
      match both selections; with both selections `all` it is the whole catalog. */
  lemma FilteredSelection(questions: seq<Question>, category: string, difficulty: string)
    ensures IsSubsequence(FilteredQuestions(questions, category, difficulty), questions)
    ensures forall q :: q in FilteredQuestions(questions, category, difficulty) <==>
              q in questions && (category == AllChoice || q.konu == category) && (difficulty == AllChoice || q.zorluk == difficulty)
    ensures category == AllChoice && difficulty == AllChoice ==> FilteredQuestions(questions, category, difficulty) == questions
  {
    FilteredIsOneFilter(questions, category, difficulty);
    var r := FilteredQuestions(questions, category, difficulty);
    FilterIsSubsequence(questions, Matches(category, difficulty));
    forall q | q in r
      ensures (category == AllChoice || q.konu == category) && (difficulty == AllChoice || q.zorluk == difficulty)
    {
      var k :| 0 <= k < |r| && r[k] == q;
    }
  }

  // ---------------------------------------------------------------- categories

  function Konus(questions: seq<Question>): (r: seq<string>)
    ensures |r| == |questions|
  {
    seq(|questions|, k requires 0 <= k < |questions| => questions[k].konu)
  }

  /** `[...new Set(questions.map(q => q.konu))]`: each topic once, in order of first appearance. */
  function Categories(questions: seq<Question>): (r: seq<string>)
    ensures NoDuplicates(r)
    ensures |r| <= |questions|
  {
    Distinct(Konus(questions))
  }

  /** A topic is listed exactly when some question has it. */
  lemma CategoriesAreTopics(questions: seq<Question>, c: string)
    ensures c in Categories(questions) <==> exists k :: 0 <= k < |questions| && questions[k].konu == c
  {
    var ks := Konus(questions);
    if c in ks {
      var k :| 0 <= k < |ks| && ks[k] == c;
    }
    forall k | 0 <= k < |questions| && questions[k].konu == c
      ensures c in ks
    {
      assert ks[k] == c;
    }
  }

  // ---------------------------------------------------------------- slider bounds

  /** `Math.min(filteredQuestions.length, 50)`. */
  function MaxQuestions(n: nat): (m: nat)
    ensures m <= QuestionLimit && m <= n
    ensures m == n || m == QuestionLimit
  {
    if n <= QuestionLimit then n else QuestionLimit
  }

  /** 5 when nothing matches, otherwise `Math.min(5, maxQuestions)`. */
  function SliderMin(n: nat): (low: nat)
    ensures n == 0 || n >= 5 ==> low == 5
    ensures 0 < n < 5 ==> low == n
  {
    if n > 0 then Min(5, MaxQuestions(n)) else 5
  }

  /** `Math.max(maxQuestions, sliderMin)`. */
  function SliderMax(n: nat): (high: nat)
    ensures n == 0 ==> high == 5
    ensures n > 0 ==> high == Min(n, QuestionLimit)
  {
    Max(MaxQuestions(n), SliderMin(n))
  }

  /** The slider range is never empty and never reaches past 50; with questions it ends at
      `maxQuestions`, which never exceeds what matched; with none it is the single value 5. */
  lemma SliderBounds(n: nat)
    ensures 1 <= SliderMin(n) <= SliderMax(n) <= QuestionLimit
    ensures n > 0 ==> SliderMax(n) == MaxQuestions(n) <= n
    ensures n == 0 ==> SliderMin(n) == SliderMax(n) == 5
    ensures n >= 5 ==> SliderMin(n) == 5
    ensures 0 < n < 5 ==> SliderMin(n) == SliderMax(n) == n
  {
  }

  /** The count shown beside the slider: 0 when nothing matches, otherwise
      `Math.min(questionCount, sliderMax)`. */
  function DisplayedCount(n: nat, questionCount: int): (d: int)
    ensures n == 0 ==> d == 0
    ensures n > 0 ==> d <= SliderMax(n) && (d == questionCount || d == SliderMax(n))
    ensures n > 0 && questionCount <= SliderMax(n) ==> d == questionCount
  {
    if n > 0 then Min(questionCount, SliderMax(n)) else 0
  }

  // ---------------------------------------------------------------- the count effects

  /** The first effect: a count above `maxQuestions` becomes `maxQuestions`, or 10 when that is 0. */
  function CapToMax(n: nat, questionCount: int): (r: int)
    ensures questionCount <= MaxQuestions(n) ==> r == questionCount
    ensures questionCount > MaxQuestions(n) && n > 0 ==> r == MaxQuestions(n)
    ensures questionCount > MaxQuestions(n) && n == 0 ==> r == 10
  {
    if questionCount > MaxQuestions(n) then (if MaxQuestions(n) != 0 then MaxQuestions(n) else 10)
    else questionCount
  }

  /** The second effect: 10 when nothing matches, otherwise the count clamped into the slider range. */
  function ClampToSlider(n: nat, questionCount: int): (r: int)
    ensures n == 0 ==> r == 10
    ensures n > 0 ==> SliderMin(n) <= r <= SliderMax(n)
    ensures n > 0 && SliderMin(n) <= questionCount <= SliderMax(n) ==> r == questionCount
  {
    if n == 0 then 10
    else if questionCount < SliderMin(n) then SliderMin(n)
    else if questionCount > SliderMax(n) then SliderMax(n)
    else questionCount
  }

  /** After the clamp neither effect changes the count any more, so the page settles. */
  lemma ClampSettles(n: nat, questionCount: int)
    ensures ClampToSlider(n, ClampToSlider(n, questionCount)) == ClampToSlider(n, questionCount)
    ensures CapToMax(n, ClampToSlider(n, questionCount)) == ClampToSlider(n, questionCount)
  {
    SliderBounds(n);
  }

  /** Once settled with questions, the shown count is the count, and a quiz started then has
      exactly that many questions. */
  lemma SettledCountIsShownAndUsed(n: nat, questionCount: int)
    requires n > 0
    ensures var c := ClampToSlider(n, questionCount);
            DisplayedCount(n, c) == c && Min(c, n) == c
  {
    SliderBounds(n);
  }

  // ---------------------------------------------------------------- starting a quiz

  /** The questions of a started quiz: none when nothing matches; otherwise the first
      `Math.min(questionCount, filtered.length)` of the shuffled filtered list, where the shuffle
      (a random sort) is the parameter `shuffled`, any reordering of the filtered list. */
  function Selection(filtered: seq<Question>, questionCount: nat, shuffled: seq<Question>): (r: Option<seq<Question>>)
    requires multiset(shuffled) == multiset(filtered)
    ensures r.None? <==> filtered == []
    ensures r.Some? ==> |r.value| == Min(questionCount, |filtered|)
    ensures r.Some? ==> multiset(r.value) <= multiset(filtered)
  {
    if filtered == [] then None
    else
      var count := Min(questionCount, |filtered|);
      assert |shuffled| == |filtered| by {
        assert |multiset(shuffled)| == |shuffled|;
      }
      assert shuffled == shuffled[..count] + shuffled[count..];
      Some(shuffled[..count])
  }

  /** Every question of a started quiz is one of the filtered questions, and with a count of at
      least the number of matches the quiz has all of them. */
  lemma SelectionDrawsFromFiltered(filtered: seq<Question>, questionCount: nat, shuffled: seq<Question>)
    requires multiset(shuffled) == multiset(filtered)
    requires filtered != []
    ensures forall q :: q in Selection(filtered, questionCount, shuffled).value ==> q in filtered
    ensures questionCount >= |filtered| ==> multiset(Selection(filtered, questionCount, shuffled).value) == multiset(filtered)
  {
    var chosen := Selection(filtered, questionCount, shuffled).value;
    forall q | q in chosen
      ensures q in filtered
    {
      assert q in multiset(chosen);
    }
    if questionCount >= |filtered| {
      assert |multiset(shuffled)| == |shuffled|;
      assert chosen == shuffled;
    }
  }

  // ---------------------------------------------------------------- the form

  /** The page's state: the loaded catalog, the two selections and the question count. */
  class CustomQuizForm {
    var questions: seq<Question>
    var selectedCategory: string
    var selectedDifficulty: string
    var questionCount: int

    /** The count is always a positive number of questions. */
    predicate Valid()
      reads this
    {
      questionCount >= 1
    }

    /** The questions matching the current selections. */
    function Filtered(): seq<Question>
      reads this
    {
      FilteredQuestions(questions, selectedCategory, selectedDifficulty)
    }

    /** An empty catalog, both selections `all`, ten questions. */
    constructor()
      ensures questions == [] && selectedCategory == AllChoice && selectedDifficulty == AllChoice
      ensures questionCount == 10
      ensures Valid()
    {
      questions := [];
      selectedCategory := AllChoice;
      selectedDifficulty := AllChoice;
      questionCount := 10;
    }

    /** The fetched catalog, normalised, becomes the question list. */
    method LoadQuestions(data: Json)
      modifies this
      ensures questions == NormalizeQuestionArray(data)
      ensures selectedCategory == old(selectedCategory) && selectedDifficulty == old(selectedDifficulty)
      ensures questionCount == old(questionCount)
    {
      questions := NormalizeQuestionArray(data);
    }

    method SelectCategory(category: string)
      modifies this
      ensures selectedCategory == category
      ensures questions == old(questions) && selectedDifficulty == old(selectedDifficulty)
      ensures questionCount == old(questionCount)
    {
      selectedCategory := category;
    }

    method SelectDifficulty(difficulty: string)
      modifies this
      ensures selectedDifficulty == difficulty
      ensures questions == old(questions) && selectedCategory == old(selectedCategory)
      ensures questionCount == old(questionCount)
    {
      selectedDifficulty := difficulty;
    }

    /** Moving the slider, which is enabled only when questions match and offers only values in
        its range. */
    method SlideTo(value: int)
      requires |Filtered()| > 0
      requires SliderMin(|Filtered()|) <= value <= SliderMax(|Filtered()|)
      modifies this
      ensures questionCount == value
      ensures questions == old(questions) && selectedCategory == old(selectedCategory)
      ensures selectedDifficulty == old(selectedDifficulty)
      ensures Valid()
    {
      SliderBounds(|Filtered()|);
      questionCount := value;
    }

    /** The first effect, run after a render. */
    method CapEffect()
      modifies this
      ensures questionCount == CapToMax(|Filtered()|, old(questionCount))
      ensures questions == old(questions) && selectedCategory == old(selectedCategory)
      ensures selectedDifficulty == old(selectedDifficulty)
      ensures old(Valid()) ==> Valid()
    {
      var maxQuestions := MaxQuestions(|Filtered()|);
      if questionCount > maxQuestions {
        questionCount := if maxQuestions != 0 then maxQuestions else 10;
      }
    }

    /** The second effect, run after a render. */
    method ClampEffect()
      modifies this
      ensures questionCount == ClampToSlider(|Filtered()|, old(questionCount))
      ensures questions == old(questions) && selectedCategory == old(selectedCategory)
      ensures selectedDifficulty == old(selectedDifficulty)
      ensures Valid()
    {
      var n := |Filtered()|;
      SliderBounds(n);
      if n == 0 {
        questionCount := 10;
        return;
      }
      var sliderMin, sliderMax := SliderMin(n), SliderMax(n);
      if questionCount < sliderMin {
        questionCount := sliderMin;
      } else if questionCount > sliderMax {
        questionCount := sliderMax;
      }
    }

    /** `handleStartQuiz`: nothing when no question matches; otherwise a custom quiz of the first
        `Math.min(questionCount, filtered.length)` shuffled matches replaces the store's quiz. */
    method StartQuiz(store: QuizStore, shuffled: seq<Question>)
      requires Valid()
      requires multiset(shuffled) == multiset(Filtered())
      modifies store
      ensures Filtered() == [] ==> store.currentQuiz == old(store.currentQuiz)
      ensures Filtered() != [] ==> store.currentQuiz == Some(Quiz(Selection(Filtered(), questionCount, shuffled).value, "custom", map[]))
      ensures store.userSession == old(store.userSession)
      ensures old(store.Valid()) ==> store.Valid()
    {
      var filtered := Filtered();
      if |filtered| == 0 {
        return;
      }
      var count := Min(questionCount, |filtered|);
      assert |shuffled| == |filtered| by {
        assert |multiset(shuffled)| == |shuffled|;
      }
      var chosen := shuffled[..count];
      store.InitializeQuiz(chosen, "custom");
    }
  }
}
