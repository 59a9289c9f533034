/**
 * Question selection of the quiz endpoint (`play_quiz`).
 *
 * The endpoint draws a random question from the pool (all questions, or those of the
 * chosen category) and draws again while the drawn question's id is among the
 * previous questions.  After every redraw it gives up with the empty answer
 * `{'success': True}` when the number of previous questions equals the number of
 * questions in the pool.
 *
 * The random source is an oracle: `draws` lists the indices `random.randrange` returns,
 * in order, each one in [0, |pool|).  The outcome is then a function of the pool, the
 * previous question ids and the draws.  `OutOfDraws` means the loop would draw again
 * after the last draw listed, so a source loop that never ends is one that is
 * `OutOfDraws` for every list of draws.
 */
module Quiz {

  /** A question as the store returns it. */
  datatype Question = Question(id: int, question: string, answer: string, category: int, difficulty: int)

  datatype Outcome =
    | Selected(question: Question)  // `{'success': True, 'question': question.format()}`
    | Exhausted                     // `{'success': True}`
    | OutOfDraws                    // the loop draws again after the last listed draw
    | EmptyRange                    // `randrange(0, 0, 1)` raises ValueError on an empty pool

  /** Every draw is an index that `randrange(0, |pool|, 1)` can return. */
  predicate ValidDraws(pool: seq<Question>, draws: seq<int>)
  {
    forall i :: 0 <= i < |draws| ==> 0 <= draws[i] < |pool|
  }

  /** `get_random_question` given the index the random source returned. */
  function GetRandomQuestion(pool: seq<Question>, index: int): (q: Question)
    requires 0 <= index < |pool|
    ensures q in pool
  {
    pool[index]
  }

  /** `check_if_used`: scan the previous question ids, setting a flag on a match. */
  method CheckIfUsed(question: Question, previous: seq<int>) returns (used: bool)
    ensures used <==> question.id in previous
  {
    used := false;
    for i := 0 to |previous|
      invariant used <==> question.id in previous[..i]
    {
      if previous[i] == question.id {
        used := true;
      }
    }
    assert previous[..|previous|] == previous;
  }

  /** The position of the first draw, from `start` on, that hits a question not yet used;
      `|draws|` when there is none. */
  function FirstUnused(pool: seq<Question>, previous: seq<int>, draws: seq<int>, start: nat): (j: nat)
    requires ValidDraws(pool, draws) && start <= |draws|
    ensures start <= j <= |draws|
    ensures forall i :: start <= i < j ==> pool[draws[i]].id in previous
    ensures j < |draws| ==> pool[draws[j]].id !in previous
    decreases |draws| - start
  {
    if start == |draws| then start
    else if pool[draws[start]].id !in previous then start
    else FirstUnused(pool, previous, draws, start + 1)
  }

  /** What `play_quiz` answers, as written, for a given sequence of draws. */
  function QuizOutcome(pool: seq<Question>, previous: seq<int>, draws: seq<int>): (r: Outcome)
    requires ValidDraws(pool, draws)
    // only an empty pool makes the first draw raise
    ensures r.EmptyRange? <==> |pool| == 0
    // a returned question is one of the pool, and it has not been used
    ensures r.Selected? ==> r.question in pool && r.question.id !in previous
    // the first draw is returned whenever it is unused, even when the counts are equal
    ensures |draws| > 0 && pool[draws[0]].id !in previous ==> r == Selected(pool[draws[0]])
    // the count check runs only after a rejected draw has been replaced
    ensures r.Exhausted? <==>
      |pool| > 0 && |draws| >= 2 && pool[draws[0]].id in previous && |previous| == |pool|
    // a returned question is the one the first draw hitting an unused question drew
    ensures r.Selected? ==>
      FirstUnused(pool, previous, draws, 0) < |draws| &&
      r == Selected(pool[draws[FirstUnused(pool, previous, draws, 0)]])
    // still drawing: no listed draw hits an unused question and the count check never fired
    ensures r.OutOfDraws? <==>
      |pool| > 0 && (forall i :: 0 <= i < |draws| ==> pool[draws[i]].id in previous) &&
      !(|draws| >= 2 && |previous| == |pool|)
  {
    if |pool| == 0 then EmptyRange
    else
      var j := FirstUnused(pool, previous, draws, 0);
      if j == 0 && 0 < |draws| then Selected(pool[draws[0]])
      else if |draws| >= 2 && |previous| == |pool| then Exhausted
      else if j == |draws| then OutOfDraws
      else Selected(pool[draws[j]])
  }

  /** The body of `play_quiz` after the pool has been fetched. */
  method PlayQuiz(pool: seq<Question>, previous: seq<int>, draws: seq<int>) returns (o: Outcome)
    requires ValidDraws(pool, draws)
    ensures o == QuizOutcome(pool, previous, draws)
  {
    if |pool| == 0 {
      return EmptyRange;
    }
    if |draws| == 0 {
      return OutOfDraws;
    }
    var question := GetRandomQuestion(pool, draws[0]);
    var next := 1;
    var used := CheckIfUsed(question, previous);
    while used
      invariant 1 <= next <= |draws|
      invariant question == pool[draws[next - 1]]
      invariant used <==> question.id in previous
      invariant forall i :: 0 <= i < next - 1 ==> pool[draws[i]].id in previous
      invariant next >= 2 ==> |previous| != |pool|
      decreases |draws| - next
    {
      if next == |draws| {
        return OutOfDraws;
      }
      question := GetRandomQuestion(pool, draws[next]);
      next := next + 1;
      if |previous| == |pool| {
        return Exhausted;
      }
      used := CheckIfUsed(question, previous);
    }
    o := Selected(question);
  }

  /** Progress: when the counts differ, the first draw that hits an unused question
      ends the loop with that question. */
  lemma UnusedDrawIsSelected(pool: seq<Question>, previous: seq<int>, draws: seq<int>, k: int)
    requires ValidDraws(pool, draws)
    requires |previous| != |pool|
    requires 0 <= k < |draws| && pool[draws[k]].id !in previous
    ensures QuizOutcome(pool, previous, draws) == Selected(pool[draws[FirstUnused(pool, previous, draws, 0)]])
    ensures FirstUnused(pool, previous, draws, 0) <= k
  {
  }

  /** Every question of the pool has been used. */
  predicate AllUsed(pool: seq<Question>, previous: seq<int>)
  {
    forall k :: 0 <= k < |pool| ==> pool[k].id in previous
  }

  /** When every question of the pool has been used and the counts agree, the second
      draw ends the round with the empty answer. */
  lemma AllUsedIsExhausted(pool: seq<Question>, previous: seq<int>, draws: seq<int>)
    requires ValidDraws(pool, draws) && |draws| >= 2
    requires AllUsed(pool, previous)
    requires |previous| == |pool| > 0
    ensures QuizOutcome(pool, previous, draws) == Exhausted
  {
  }

  /** A pool drawn from one category yields a question of that category. */
  lemma SelectedKeepsCategory(pool: seq<Question>, previous: seq<int>, draws: seq<int>, category: int)
    requires ValidDraws(pool, draws)
    requires forall q :: q in pool ==> q.category == category
    ensures QuizOutcome(pool, previous, draws).Selected? ==>
      QuizOutcome(pool, previous, draws).question.category == category
  {
  }

  /** Three questions of category 5 with ids 2, 4 and 6. */
  function CategoryFive(): (pool: seq<Question>)
    ensures |pool| == 3 && forall q :: q in pool ==> q.category == 5
  {
    [Question(2, "q2", "a2", 5, 1), Question(4, "q4", "a4", 5, 2), Question(6, "q6", "a6", 5, 3)]
  }

  /** With ids 2 and 4 used, whatever the draws, the round either ends with question 6
      or is still drawing. */
  lemma TwoOfThreeUsed(draws: seq<int>)
    requires ValidDraws(CategoryFive(), draws)
    ensures var r := QuizOutcome(CategoryFive(), [2, 4], draws);
      (r.Selected? && r.question == CategoryFive()[2]) || r.OutOfDraws?
  {
    var pool := CategoryFive();
    var r := QuizOutcome(pool, [2, 4], draws);
    if r.Selected? {
      assert r.question in pool;
      assert r.question.id != 2 && r.question.id != 4;
    }
  }

  /** With ids 2, 4 and 6 used, any round with a second draw ends in the empty answer. */
  lemma AllThreeUsed(draws: seq<int>)
    requires ValidDraws(CategoryFive(), draws) && |draws| >= 2
    ensures QuizOutcome(CategoryFive(), [2, 4, 6], draws) == Exhausted
  {
    AllUsedIsExhausted(CategoryFive(), [2, 4, 6], draws);
  }

  // ---------------------------------------------------------------------------
  // The exhaustion check compares counts.  When the previous ids are not exactly
  // the ids of the pool, it answers wrongly: a redraw that hits an unused question
  // can still end in the empty answer, and a round whose pool is used up but whose
  // counts differ never ends.

  /** Ids 2, 4 and 99 used (99 is not in the pool): the draws 2, then 6, end the round
      with the empty answer although question 6 was drawn and is unused. */
  lemma FalseExhaustion()
    ensures CategoryFive()[2].id !in [2, 4, 99]
    ensures QuizOutcome(CategoryFive(), [2, 4, 99], [0, 2]) == Exhausted
  {
  }

  /** Every question of the pool used, but a different count of previous ids: no list
      of draws ends the loop. */
  lemma UsedUpPoolNeverEnds(pool: seq<Question>, previous: seq<int>, draws: seq<int>)
    requires ValidDraws(pool, draws)
    requires |pool| > 0 && AllUsed(pool, previous) && |previous| != |pool|
    ensures QuizOutcome(pool, previous, draws) == OutOfDraws
  {
  }

  // ---------------------------------------------------------------------------
  // The selection as intended: check the pool against the previous ids first
  // (an empty pool is then used up and never drawn from), and draw only when an
  // unused question is left.

  /** What the intended selection answers for a given sequence of draws. */
  function CheckedOutcome(pool: seq<Question>, previous: seq<int>, draws: seq<int>): (r: Outcome)
    requires ValidDraws(pool, draws)
    // the empty answer exactly when no question is left, an empty pool included
    ensures r.Exhausted? <==> AllUsed(pool, previous)
    ensures !r.EmptyRange?
    ensures r.Selected? ==> r.question in pool && r.question.id !in previous
    // a returned question is the one the first draw hitting an unused question drew
    ensures r.Selected? ==>
      FirstUnused(pool, previous, draws, 0) < |draws| &&
      r == Selected(pool[draws[FirstUnused(pool, previous, draws, 0)]])
    // the loop runs on only while no listed draw hits an unused question
    ensures r.OutOfDraws? <==>
      !AllUsed(pool, previous) && forall i :: 0 <= i < |draws| ==> pool[draws[i]].id in previous
  {
    if AllUsed(pool, previous) then Exhausted
    else
      var j := FirstUnused(pool, previous, draws, 0);
      if j == |draws| then OutOfDraws else Selected(pool[draws[j]])
  }

  /** The intended selection: scan the pool for an unused question, then draw until one is hit. */
  method PlayQuizChecked(pool: seq<Question>, previous: seq<int>, draws: seq<int>) returns (o: Outcome)
    requires ValidDraws(pool, draws)
    ensures o == CheckedOutcome(pool, previous, draws)
  {
    var allUsed := true;
    for k := 0 to |pool|
      invariant allUsed <==> forall i :: 0 <= i < k ==> pool[i].id in previous
    {
      var used := CheckIfUsed(pool[k], previous);
      if !used {
        allUsed := false;
      }
    }
    if allUsed {
      return Exhausted;
    }
    var next := 0;
    while next < |draws|
      invariant 0 <= next <= |draws|
      invariant forall i :: 0 <= i < next ==> pool[draws[i]].id in previous
    {
      var question := GetRandomQuestion(pool, draws[next]);
      var used := CheckIfUsed(question, previous);
      if !used {
        return Selected(question);
      }
      next := next + 1;
    }
    return OutOfDraws;
  }

  /** The ids of the questions of a pool, in pool order. */
  function Ids(pool: seq<Question>): (ids: seq<int>)
    ensures |ids| == |pool| && forall k :: 0 <= k < |pool| ==> ids[k] == pool[k].id
  {
    seq(|pool|, k requires 0 <= k < |pool| => pool[k].id)
  }

  predicate Distinct(s: seq<int>)
  {
    forall i, j :: 0 <= i < j < |s| ==> s[i] != s[j]
  }

  /** A sequence without repetitions has as many distinct elements as it is long. */
  lemma {:induction false} DistinctCard(s: seq<int>)
    requires Distinct(s)
    ensures |set x | x in s| == |s|
  {
    if |s| > 0 {
      var init := s[..|s| - 1];
      assert Distinct(init);
      DistinctCard(init);
      assert s == init + [s[|s| - 1]];
      assert (set x | x in s) == (set x | x in init) + {s[|s| - 1]};
      assert s[|s| - 1] !in init;
    }
  }

  /** For a well-formed session (distinct pool ids, distinct previous ids, each of them an
      id of the pool), comparing counts is the same as asking whether every question is used. */
  lemma CountsMatchIffAllUsed(pool: seq<Question>, previous: seq<int>)
    requires Distinct(Ids(pool)) && Distinct(previous)
    requires forall x :: x in previous ==> x in Ids(pool)
    ensures |previous| == |pool| <==> AllUsed(pool, previous)
  {
    var used := set x | x in previous;
    var ids := set x | x in Ids(pool);
    DistinctCard(previous);
    DistinctCard(Ids(pool));
    assert used <= ids;
    assert |ids - used| == |ids| - |used|;
    if |previous| == |pool| {
      assert ids - used == {};
      forall k | 0 <= k < |pool| ensures pool[k].id in previous {
        assert Ids(pool)[k] in ids;
      }
    }
    if AllUsed(pool, previous) {
      forall x | x in ids ensures x in used {
        var k :| 0 <= k < |pool| && Ids(pool)[k] == x;
      }
      assert ids == used;
    }
  }

  /** On a well-formed session with a pool to draw from, the code as written and the
      intended selection agree once the random source has drawn twice. */
  lemma AgreeOnWellFormedSessions(pool: seq<Question>, previous: seq<int>, draws: seq<int>)
    requires ValidDraws(pool, draws) && |draws| >= 2 && |pool| > 0
    requires Distinct(Ids(pool)) && Distinct(previous)
    requires forall x :: x in previous ==> x in Ids(pool)
    ensures QuizOutcome(pool, previous, draws) == CheckedOutcome(pool, previous, draws)
  {
    CountsMatchIffAllUsed(pool, previous);
  }
}
