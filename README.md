# Trivia API: pagination and quiz question selection

This project models the two parts of the trivia question API (a Flask backend) that have
behaviour of their own:

- **Pagination of the question list** (`paginate_questions`). It formats every question of a
  selection and returns page `page` at 10 questions per page. `get_questions` answers 404 when
  that page is empty. Module `Pagination` (`pagination.dfy`) models this with pure functions and
  lemmas. It is generic over the record type and its `format()` method. Python's slice
  `[start:end]` is written out in full, including negative bounds, so every integer page is
  accepted, as in the source.
- **Quiz question selection** (the body of `play_quiz`). The endpoint draws a random question
  from the pool. The pool is all questions, or those of the chosen category. While the drawn
  question's id is among `previous_questions` (`check_if_used`), it draws again. After each
  redraw it answers `{'success': True}` without a question if the number of previous questions
  equals the pool size. Module `Quiz` (`quiz.dfy`) models `check_if_used` and the draw loop as
  methods with loops. `CheckIfUsed` is proved to answer whether the id is in the list. Each
  draw loop is proved equal to a specification function, and the properties are proved
  about that function.

The random source is an oracle: a sequence `draws` of the indices that `random.randrange`
returns, each in `[0, |pool|)`. This makes the outcome deterministic:

- `Selected(q)`: a question is returned.
- `Exhausted`: the empty answer.
- `OutOfDraws`: the loop would draw again after the last listed draw.
- `EmptyRange`: `randrange(0, 0, 1)` raised on an empty pool.

A loop that never ends in the source is one that is `OutOfDraws` for every finite list of draws.

## Model

| member | source | states |
|---|---|---|
| `Pagination.PySliceBounds` | backend/flaskr/__init__.py:22 | Python's `s[i:j]`: with non-negative bounds it is `s[min(i, len):min(j, len)]`. With both bounds in `[-len, 0)` it counts back from the end. It is empty when `0 <= j <= i`. |
| `Pagination.FormatAll` | backend/flaskr/__init__.py:21 | The comprehension keeps the length, and element i is `format(selection[i])`. |
| `Pagination.PaginateQuestions` | backend/flaskr/__init__.py:17-24 | Returns at most `QuestionsPerPage` = 10 records for any page. For page >= 1, returns exactly the records from offset `(page-1)*10` up to the end of that page or of the selection. Element k is the formatted record at `(page-1)*10 + k`, so order is kept and the slice is contiguous. |
| `Pagination.PageEmptyIff` | backend/flaskr/__init__.py:19-22 | For page >= 1, the page is empty iff `(page-1)*10 >= len(selection)`. |
| `Pagination.FirstPage` | backend/flaskr/__init__.py:18-22 | The default page 1 is the first `min(10, len(selection))` records, formatted and in order. |
| `Pagination.RecordOnItsPage` | backend/flaskr/__init__.py:19-22 | Record i appears on page `i/10 + 1`, at position `i % 10`. |
| `Pagination.PagesCover` | backend/flaskr/__init__.py:19-22 | Pages 1..n concatenated are the first `min(10n, len)` formatted records. No record is skipped, repeated or reordered across pages. |
| `Pagination.AllPagesShowSelection` | backend/flaskr/__init__.py:19-22 | Pages 1..`len/10 + 1` together show the whole formatted selection. |
| `Pagination.PageZeroIsEmpty` | backend/flaskr/__init__.py:18-22 | Page 0 is the slice `[-10:0]`, which is empty. |
| `Pagination.PageMinusOneCountsFromEnd` | backend/flaskr/__init__.py:18-22 | Page -1 is `[-20:-10]`, counted back from the end. With more than 10 records it is not empty. |
| `Pagination.TwelveRecords` | backend/flaskr/__init__.py:17-24 | With 12 records, page 1 is records 1-10 and page 2 is records 11-12. |
| `Pagination.GetQuestions` | backend/flaskr/__init__.py:72-87 | Answers 404 iff the requested page is empty. Otherwise answers that page (1 to 10 records) and `totalQuestions` = the selection's length. |
| `Pagination.BeyondLastPageNotFound` | backend/flaskr/__init__.py:74-77 | For page >= 1: 404 iff the page starts at or after the last question. Page 400 of at most 3990 questions is 404. |
| `Quiz.GetRandomQuestion` | backend/flaskr/__init__.py:212-213 | The drawn question is an element of the pool. |
| `Quiz.CheckIfUsed` | backend/flaskr/__init__.py:218-223 | The flag scan returns true iff the question's id occurs in `previous_questions`. |
| `Quiz.FirstUnused` | backend/flaskr/__init__.py:225-228 | Gives the first draw from a position on whose question is unused. Every draw before it hits a used question. Gives `len(draws)` if there is none. |
| `Quiz.QuizOutcome` | backend/flaskr/__init__.py:207-238 | Outcome of `play_quiz` as written. Raises iff the pool is empty. A returned question is in the pool and unused. An unused first draw is returned even when the counts are equal. `Exhausted` iff the first draw was used, a redraw happened and `len(previous) == len(pool)`. A returned question is the one drawn by the first draw that hits an unused question. Still drawing iff the pool is non-empty, no listed draw hits an unused question, and the count check never fired. |
| `Quiz.PlayQuiz` | backend/flaskr/__init__.py:207-238 | The draw / check / redraw / count-check loop computes exactly `QuizOutcome`. |
| `Quiz.UnusedDrawIsSelected` | backend/flaskr/__init__.py:227-230 | When the counts differ, the round ends at the first draw that hits an unused question, no later than any such draw. |
| `Quiz.AllUsedIsExhausted` | backend/flaskr/__init__.py:227-233 | If every pool question is used and the counts agree, the round gives the empty answer after the second draw. |
| `Quiz.SelectedKeepsCategory` | backend/flaskr/__init__.py:204-205 | If the pool is all of one category, a returned question has that category. |
| `Quiz.TwoOfThreeUsed` | backend/test_flaskr.py:194-221 | Pool of ids 2, 4, 6 in category 5 with 2 and 4 used: the only question ever returned is id 6. |
| `Quiz.AllThreeUsed` | backend/test_flaskr.py:223-239 | Pool of ids 2, 4, 6 with all three used: any round with a second draw gives exactly the empty answer. |
| `Quiz.FalseExhaustion` | backend/flaskr/__init__.py:227-233 | With previous ids `[2, 4, 99]`, the draws 2 then 6 give the empty answer even though question 6 is unused. |
| `Quiz.UsedUpPoolNeverEnds` | backend/flaskr/__init__.py:227-233 | If every pool question is used but the counts differ, no list of draws ends the loop. |
| `Quiz.CheckedOutcome` | backend/flaskr/__init__.py:225-238 | Intended selection. Empty answer iff every pool question is used, an empty pool included. Never raises. A returned question is in the pool and unused, and it is the one drawn by the first draw that hits an unused question. Still drawing iff questions remain but no listed draw hits one. |
| `Quiz.PlayQuizChecked` | backend/flaskr/__init__.py:225-238 | Scans the pool, then draws until it hits an unused question. It computes exactly `CheckedOutcome`. |
| `Quiz.CountsMatchIffAllUsed` | backend/flaskr/__init__.py:230 | With distinct pool ids, distinct previous ids and every previous id in the pool, `len(previous) == len(pool)` iff every pool question is used. |
| `Quiz.AgreeOnWellFormedSessions` | backend/flaskr/__init__.py:225-238 | In such a session, with a non-empty pool and at least two draws, the code as written and the intended selection give the same outcome. |

## Left out

- Flask routing, request parsing, `jsonify`, CORS and the `after_request` headers, and the error handlers. They are framework plumbing.
- The database queries: ordering by id or type, `filter_by(category=...)`, the `ilike` search, `insert()` and `delete()`. Their results are inputs here: the selection is a sequence and the quiz pool is a sequence of `Question`.
- The category-id filter itself is not modelled. `SelectedKeepsCategory` takes a single-category pool as its premise.
- Reading `page` from the query string. `request.args.get('page', 1, type=int)` is modelled as an integer argument; its default 1 is covered by `FirstPage`. A non-integer value falls back to 1 in Flask, which is not modelled.
- `Question.format()` and `models.py` are not part of this model. `format` is a parameter of the pagination functions.
- The request-body checks that abort with 400 or 422, and the category dictionaries sent with the questions.
- `random.randrange` is replaced by the oracle `draws`, so the model says nothing about probabilities or expected numbers of draws.
- The loop's termination is not claimed. `OutOfDraws` stands for "still drawing".
- Pure functions are trivially idempotent (same arguments, same page), so no lemma states it.
- `previous_questions` is a list. It may repeat ids or hold ids that are not in the pool. The model keeps the list and the count check after each redraw, as the code does. `CheckedOutcome` is the selection that the endpoint's docstring (`backend/flaskr/__init__.py:186-189`) describes: a question that is not one of the previous questions.

## Findings

| source | as written | input that shows it | evidently intended | confidence | as-written member | corrected member |
|---|---|---|---|---|---|---|
| backend/flaskr/__init__.py:230 | Exhaustion is decided by `len(previous_questions) == num_questions`, a comparison of counts, after a redraw. | Pool ids 2, 4, 6 with previous `[2, 4, 99]` and draws 2 then 6 gives `{'success': True}` although 6 is unused. Previous `[2, 4, 6, 8]` never ends. | The empty answer exactly when every pool question has been used; otherwise keep drawing until an unused one is hit. | medium, not executed | `Quiz.FalseExhaustion`, `Quiz.UsedUpPoolNeverEnds` | `Quiz.CheckedOutcome`, `Quiz.PlayQuizChecked` |
| backend/flaskr/__init__.py:212-213 | The first draw happens before any check, so an empty pool calls `random.randrange(0, 0, 1)`, which raises ValueError (an HTTP 500). | A category with no questions, any previous questions. | An empty pool is used up and gives the empty answer. | medium, not executed | `Quiz.QuizOutcome` | `Quiz.CheckedOutcome` |
