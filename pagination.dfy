/**
 * Pagination of the question list of the trivia API.
 *
 * `paginate_questions` formats every record of a selection and returns the
 * Python slice `[start:end]` with `start = (page - 1) * 10` and `end = start + 10`.
 * The caller answers 404 when that slice is empty.  The record type and the
 * record's `format()` method are parameters here: the models are not part of
 * this model.  Python's slicing rules are written out in full, so every
 * integer page is accepted, as the source accepts it.
 */
module Pagination {

  /** The page size of the question list. */
  const QuestionsPerPage: nat := 10

  function Min(a: int, b: int): int { if a <= b then a else b }
  function Max(a: int, b: int): int { if a <= b then b else a }

  /** Where Python puts a slice bound `i` into a list of length `n`:
      a negative bound counts from the end, and the result is clamped to [0, n]. */
  function ClampIndex(i: int, n: nat): (k: nat)
    ensures k <= n
  {
    if i < 0 then (if i + n < 0 then 0 else i + n)
    else if i > n then n
    else i
  }

  /** Python's `s[i:j]` with step 1. */
  function PySlice<T>(s: seq<T>, i: int, j: int): (r: seq<T>)
    ensures |r| <= |s|
  {
    var lo, hi := ClampIndex(i, |s|), ClampIndex(j, |s|);
    if lo < hi then s[lo..hi] else []
  }

  /** Python's slice on bounds that are both non-negative, or both negative: bounds past
      the end stop at the end, and negative bounds count back from the end. */
  lemma PySliceBounds<T>(s: seq<T>, i: int, j: int)
    ensures 0 <= i <= j ==> PySlice(s, i, j) == s[Min(i, |s|)..Min(j, |s|)]
    ensures -|s| <= i <= j < 0 ==> PySlice(s, i, j) == s[|s| + i..|s| + j]
    ensures 0 <= j <= i ==> PySlice(s, i, j) == []
  {
  }

  /** The list comprehension `[question.format() for question in selection]`. */
  function FormatAll<T, R>(selection: seq<T>, format: T -> R): (r: seq<R>)
    ensures |r| == |selection|
    ensures forall i :: 0 <= i < |selection| ==> r[i] == format(selection[i])
  {
    seq(|selection|, i requires 0 <= i < |selection| => format(selection[i]))
  }

  /** The index of the first record of `page`. */
  function Offset(page: int): int { (page - 1) * QuestionsPerPage }

  /** `paginate_questions(request, selection)` with the `page` argument already read. */
  function PaginateQuestions<T, R>(selection: seq<T>, format: T -> R, page: int): (r: seq<R>)
    // at most one page of records, whatever the page number
    ensures |r| <= QuestionsPerPage
    // for a proper page: exactly the records that lie on it ...
    ensures page >= 1 ==>
      |r| == (if Offset(page) >= |selection| then 0 else Min(QuestionsPerPage, |selection| - Offset(page)))
    // ... in their original order, each one formatted
    ensures page >= 1 ==> forall k :: 0 <= k < |r| ==>
      Offset(page) + k < |selection| && r[k] == format(selection[Offset(page) + k])
  {
    var start := Offset(page);
    var end := start + QuestionsPerPage;
    PySlice(FormatAll(selection, format), start, end)
  }

  /** For a page of at least 1, the page is empty exactly when it starts at or
      after the end of the selection: the condition under which the caller answers 404. */
  lemma PageEmptyIff<T, R>(selection: seq<T>, format: T -> R, page: int)
    requires page >= 1
    ensures PaginateQuestions(selection, format, page) == [] <==> Offset(page) >= |selection|
  {
    var r := PaginateQuestions(selection, format, page);
    if Offset(page) < |selection| {
      assert |r| > 0;
    }
  }

  /** The default page 1 holds the first `min(10, |selection|)` records, formatted, in order. */
  lemma FirstPage<T, R>(selection: seq<T>, format: T -> R)
    ensures PaginateQuestions(selection, format, 1)
         == FormatAll(selection[..Min(QuestionsPerPage, |selection|)], format)
  {
    var r := PaginateQuestions(selection, format, 1);
    var e := FormatAll(selection[..Min(QuestionsPerPage, |selection|)], format);
    assert |r| == |e|;
    forall k | 0 <= k < |r| ensures r[k] == e[k] {
      assert r[k] == format(selection[Offset(1) + k]);
    }
  }

  /** Record `i` of the selection is shown on page `i / 10 + 1`, at position `i % 10`. */
  lemma RecordOnItsPage<T, R>(selection: seq<T>, format: T -> R, i: int)
    requires 0 <= i < |selection|
    ensures var p := PaginateQuestions(selection, format, i / QuestionsPerPage + 1);
      i % QuestionsPerPage < |p| && p[i % QuestionsPerPage] == format(selection[i])
  {
    var page := i / QuestionsPerPage + 1;
    assert Offset(page) + i % QuestionsPerPage == i;
  }

  /** Pages 1 to `n` read one after the other. */
  function Pages<T, R>(selection: seq<T>, format: T -> R, n: nat): (r: seq<R>)
    ensures |r| <= n * QuestionsPerPage
  {
    if n == 0 then [] else Pages(selection, format, n - 1) + PaginateQuestions(selection, format, n)
  }

  /** Reading pages 1 to `n` gives the first `10 n` formatted records: no record is
      skipped, repeated or reordered between consecutive pages. */
  lemma {:induction false} PagesCover<T, R>(selection: seq<T>, format: T -> R, n: nat)
    ensures Pages(selection, format, n)
         == FormatAll(selection, format)[..Min(n * QuestionsPerPage, |selection|)]
  {
    var all := FormatAll(selection, format);
    if n > 0 {
      PagesCover(selection, format, n - 1);
      var before := Pages(selection, format, n - 1);
      var page := PaginateQuestions(selection, format, n);
      var upto := Min(n * QuestionsPerPage, |selection|);
      assert before == all[..Min((n - 1) * QuestionsPerPage, |selection|)];
      assert |before + page| == upto;
      forall k | 0 <= k < upto ensures (before + page)[k] == all[..upto][k] {
        if k >= |before| {
          assert page[k - |before|] == format(selection[Offset(n) + k - |before|]);
        }
      }
    }
  }

  /** Enough pages show the whole selection. */
  lemma AllPagesShowSelection<T, R>(selection: seq<T>, format: T -> R)
    ensures Pages(selection, format, |selection| / QuestionsPerPage + 1) == FormatAll(selection, format)
  {
    PagesCover(selection, format, |selection| / QuestionsPerPage + 1);
  }

  /** Page 0 is the slice `[-10:0]`, which is always empty. */
  lemma PageZeroIsEmpty<T, R>(selection: seq<T>, format: T -> R)
    ensures PaginateQuestions(selection, format, 0) == []
  {
  }

  /** Page -1 is the slice `[-20:-10]`: Python counts it back from the end, so with
      more than ten records it is not empty and the caller does not answer 404. */
  lemma PageMinusOneCountsFromEnd<T, R>(selection: seq<T>, format: T -> R)
    requires |selection| > QuestionsPerPage
    ensures PaginateQuestions(selection, format, -1)
         == FormatAll(selection, format)[Max(0, |selection| - 2 * QuestionsPerPage)..|selection| - QuestionsPerPage]
    ensures PaginateQuestions(selection, format, -1) != []
  {
  }

  /** The two pages of a twelve-record selection: records 1-10, then records 11-12. */
  lemma TwelveRecords<T, R>(selection: seq<T>, format: T -> R)
    requires |selection| == 12
    ensures PaginateQuestions(selection, format, 1) == FormatAll(selection[..10], format)
    ensures PaginateQuestions(selection, format, 2) == FormatAll(selection[10..], format)
  {
    FirstPage(selection, format);
    var r := PaginateQuestions(selection, format, 2);
    var e := FormatAll(selection[10..], format);
    forall k | 0 <= k < |r| ensures r[k] == e[k] {
      assert r[k] == format(selection[Offset(2) + k]);
    }
  }

  /** What `get_questions` answers, categories aside. */
  datatype QuestionsResponse<R> = NotFound | QuestionPage(questions: seq<R>, totalQuestions: nat)

  /** `get_questions`: paginate the selection, 404 on an empty page, otherwise the page and
      the total number of questions. */
  function GetQuestions<T, R>(selection: seq<T>, format: T -> R, page: int): (r: QuestionsResponse<R>)
    ensures r.NotFound? <==> PaginateQuestions(selection, format, page) == []
    ensures r.QuestionPage? ==>
      r.questions == PaginateQuestions(selection, format, page) &&
      1 <= |r.questions| <= QuestionsPerPage && r.totalQuestions == |selection|
  {
    var current := PaginateQuestions(selection, format, page);
    if |current| == 0 then NotFound else QuestionPage(current, |selection|)
  }

  /** A page that starts beyond the last question is answered with 404, and any other
      page of at least 1 is not; page 400 of fewer than 3991 questions is one of the former. */
  lemma BeyondLastPageNotFound<T, R>(selection: seq<T>, format: T -> R, page: int)
    requires page >= 1
    ensures GetQuestions(selection, format, page).NotFound? <==> Offset(page) >= |selection|
    ensures |selection| <= 3990 ==> GetQuestions(selection, format, 400).NotFound?
  {
    PageEmptyIff(selection, format, page);
    PageEmptyIff(selection, format, 400);
  }
}
