/**
 * The read-only route handlers, as functions of the database contents:
 * the category listing, the paginated question listing, the questions of
 * one category, the search branch of the add-or-search route, and the quiz.
 * A `fault` argument stands for an exception raised by a query inside the
 * handler's `try` block.
 */
module Routes {
  import opened Wrappers
  import opened Models
  import opened Text
  import opened Selection
  import opened Helpers
  import opened Responses

  // ---------------------------------------------------------------------
  // GET /categories
  // ---------------------------------------------------------------------

  /** The `try` block of `retrieve_all_categories`. */
  function CategoriesAttempt(categories: seq<Category>, fault: bool): Attempt {
    if fault then Raised(None)
    else
      var formatted := CategoriesMap(categories);
      if |formatted| == 0 then Raised(Some(404))
      else Returned(Ok(CategoryListing(formatted)))
  }

  /** `retrieve_all_categories`: 200 with the id-to-type map when there is at
      least one category; 400 (not 404) when there is none or a query fails. */
  function RetrieveAllCategories(categories: seq<Category>, fault: bool): (r: Outcome)
    ensures r.Reply?
    ensures r.status == 200 <==> !fault && |categories| > 0
    ensures r.status != 200 ==> r == ErrorReply(FailureCode(ListCategories)) && r.status == 400
    ensures r.status == 200 ==>
              && r.body.CategoryListing?
              && r.body.categories.Keys == CategoryIds(categories)
              && (CategoryIdOrdered(categories) ==>
                    forall i :: 0 <= i < |categories| ==>
                      r.body.categories[categories[i].id] == categories[i].name)
  {
    MapFacts(categories);
    Except(ListCategories, CategoriesAttempt(categories, fault))
  }

  // ---------------------------------------------------------------------
  // GET /questions?page=N
  // ---------------------------------------------------------------------

  /** The `try` block of `retrieve_all_questions`. */
  function QuestionsAttempt(questions: seq<Question>, categories: seq<Category>,
                            page: int, fault: bool): Attempt
  {
    if fault then Raised(None)
    else
      var formatted := CategoriesMap(categories);
      var current := Paginate(questions, page);
      if |current| == 0 || |formatted| == 0 then Raised(Some(404))
      else Returned(Ok(QuestionListing(current, |questions|, formatted, "All")))
  }

  /** `retrieve_all_questions`: 200 with the requested page of all questions,
      the total count, the category map and "All"; 400 when the page is empty
      (beyond the last page, page 0, or no questions), when there are no
      categories, or when a query fails. */
  function RetrieveAllQuestions(questions: seq<Question>, categories: seq<Category>,
                                page: int, fault: bool): (r: Outcome)
    ensures r.Reply?
    ensures r.status == 200 || r == ErrorReply(FailureCode(ListQuestions))
    ensures r.status == 200 <==>
              !fault && |categories| > 0 && |Paginate(questions, page)| > 0
    ensures page >= 1 ==>
              (r.status == 200 <==>
                 !fault && |categories| > 0 && (page - 1) * QuestionsPerPage < |questions|)
    ensures r.status == 200 ==>
              && r.body.QuestionListing?
              && r.body.totalQuestions == |questions|
              && r.body.categories.Keys == CategoryIds(categories)
              && (CategoryIdOrdered(categories) ==>
                    forall i :: 0 <= i < |categories| ==>
                      r.body.categories[categories[i].id] == categories[i].name)
              && r.body.currentCategory == "All"
              && 0 < |r.body.questions| <= QuestionsPerPage
              && (IdOrdered(questions) ==> IdOrdered(r.body.questions))
              && (page >= 1 ==> IsWindow(r.body.questions, questions, page))
  {
    var formatted := CategoriesMap(categories);
    var current := Paginate(questions, page);
    MapFacts(categories);
    PageFacts(questions, page);
    assert !fault && |current| > 0 && |categories| > 0 ==>
             QuestionsAttempt(questions, categories, page, fault)
               == Returned(Ok(QuestionListing(current, |questions|, formatted, "All")));
    Except(ListQuestions, QuestionsAttempt(questions, categories, page, fault))
  }

  // ---------------------------------------------------------------------
  // GET /categories/<id>/questions
  // ---------------------------------------------------------------------

  /** The `try` block of `retrieve_questions_by_categories`. A category lookup
      that finds two rows makes `one_or_none` raise. */
  function ByCategoryAttempt(questions: seq<Question>, categories: seq<Category>,
                             categoryId: int, page: int, fault: bool): Attempt
  {
    if fault then Raised(None)
    else
      var lookup := FindCategory(categories, categoryId);
      if lookup.Ambiguous? then Raised(None)
      else
        var current := Paginate(InCategory(questions, categoryId), page);
        if lookup.Absent? || |current| == 0 then Raised(Some(404))
        else Returned(Ok(CategoryQuestions(current, |questions|, lookup.row.name)))
  }

  /** One page of the questions of a category: at most ten of them, each
      stored and of that category, and the page-th window of them in table order. */
  lemma CategoryPageFacts(questions: seq<Question>, categoryId: int, page: int)
    ensures var current := Paginate(InCategory(questions, categoryId), page);
            && (forall q :: q in current ==> q in questions && q.category == Some(categoryId))
            && (page >= 1 ==> IsWindow(current, InCategory(questions, categoryId), page))
            && (IdOrdered(questions) ==> IdOrdered(current))
  {
    var selection := InCategory(questions, categoryId);
    PageFacts(selection, page);
    if IdOrdered(questions) {
      SelectIdOrdered(questions, CategoryIs(categoryId));
    }
  }

  /** `retrieve_questions_by_categories`: 200 with a page of the questions of
      that category, the count of ALL questions and the category's type;
      400 when the category does not exist, the page is empty, or a query fails. */
  function RetrieveQuestionsByCategory(questions: seq<Question>, categories: seq<Category>,
                                       categoryId: int, page: int, fault: bool): (r: Outcome)
    ensures r.Reply?
    ensures r.status == 200 || r == ErrorReply(FailureCode(QuestionsByCategory))
    ensures r.status == 200 <==>
              && !fault
              && FindCategory(categories, categoryId).Found?
              && |Paginate(InCategory(questions, categoryId), page)| > 0
    ensures CategoryIdOrdered(categories) &&
            (forall i :: 0 <= i < |categories| ==> categories[i].id != categoryId) ==>
              r == ErrorReply(400)
    ensures r.status == 200 ==>
              && r.body.CategoryQuestions?
              && 0 < |r.body.questions| <= QuestionsPerPage
              && (forall q :: q in r.body.questions ==> q in questions && q.category == Some(categoryId))
              && r.body.totalQuestions == |questions|
              && (exists c :: c in categories && c.id == categoryId && r.body.currentCategory == c.name)
              && (IdOrdered(questions) ==> IdOrdered(r.body.questions))
              && (page >= 1 ==> IsWindow(r.body.questions, InCategory(questions, categoryId), page))
  {
    var lookup := FindCategory(categories, categoryId);
    var current := Paginate(InCategory(questions, categoryId), page);
    CategoryPageFacts(questions, categoryId, page);
    CategoryLookupFacts(categories, categoryId);
    assert lookup.Found? ==>
             exists c :: c in categories && c.id == categoryId && lookup.row.name == c.name;
    assert !fault && lookup.Found? && |current| > 0 ==>
             ByCategoryAttempt(questions, categories, categoryId, page, fault)
               == Returned(Ok(CategoryQuestions(current, |questions|, lookup.row.name)));
    Except(QuestionsByCategory, ByCategoryAttempt(questions, categories, categoryId, page, fault))
  }

  // ---------------------------------------------------------------------
  // POST /questions with a searchTerm
  // ---------------------------------------------------------------------

  /** The search branch of `add_or_search_questions` once its query succeeded:
      always 200, with the requested page of the matching questions, the count
      of ALL questions and "All", even when nothing matches. */
  function SearchReply(questions: seq<Question>, term: string, page: int): (r: Outcome)
    ensures r.Reply? && r.status == 200 && r.body.SearchResults?
    ensures r.body.totalQuestions == |questions| && r.body.currentCategory == "All"
    ensures |r.body.questions| <= QuestionsPerPage
    ensures forall q :: q in r.body.questions ==>
              q in questions && ContainsIgnoringCase(q.question, term)
    ensures page >= 1 ==> IsWindow(r.body.questions, Matching(questions, term), page)
    ensures page == 1 && |Matching(questions, term)| <= QuestionsPerPage ==>
              r.body.questions == Matching(questions, term)
    ensures IdOrdered(questions) ==> IdOrdered(r.body.questions)
  {
    var selection := Matching(questions, term);
    PageFacts(selection, page);
    assert IdOrdered(questions) ==> IdOrdered(selection) by {
      if IdOrdered(questions) { SelectIdOrdered(questions, TextContains(term)); }
    }
    Ok(SearchResults(|questions|, Paginate(selection, page), "All"))
  }

  /** A search for a term that occurs in no question answers 200 with no questions. */
  lemma SearchWithoutResults(questions: seq<Question>, term: string, page: int)
    requires forall i :: 0 <= i < |questions| ==> !ContainsIgnoringCase(questions[i].question, term)
    ensures SearchReply(questions, term, page).body.questions == []
    ensures SearchReply(questions, term, page).status == 200
  {
    SelectNone(questions, TextContains(term));
  }

  // ---------------------------------------------------------------------
  // POST /quizzes
  // ---------------------------------------------------------------------

  /** `get_quiz_question`: 200 with some eligible question chosen at random
      (an unseen one, of the category when its id is truthy), or with a null
      question when none is left; 404 when a query fails. */
  method GetQuizQuestion(questions: seq<Question>, previous: seq<int>,
                         categoryId: Option<int>, fault: bool) returns (r: Outcome)
    ensures fault ==> r == ErrorReply(FailureCode(PlayQuiz)) && r.status == 404
    ensures !fault ==> r.Reply? && r.status == 200 && r.body.QuizQuestion?
    ensures !fault ==> (r.body.question.None? <==> Eligible(questions, categoryId, previous) == [])
    ensures !fault && r.body.question.Some? ==>
              && r.body.question.value in questions
              && r.body.question.value.id !in previous
              && (Truthy(categoryId) ==> r.body.question.value.category == categoryId)
  {
    var attempt: Attempt;
    if fault {
      attempt := Raised(None);
    } else {
      var eligible := Eligible(questions, categoryId, previous);
      var question: Option<Question>;
      if |eligible| > 0 {
        assert eligible[0] in eligible;
        var q :| q in eligible;
        EligibleIff(questions, categoryId, previous, q);
        question := Some(q);
      } else {
        question := None;
      }
      attempt := Returned(Ok(QuizQuestion(question)));
    }
    r := Except(PlayQuiz, attempt);
  }

  /** With a falsy category id (null or 0) the quiz draws from every category:
      any unseen question is eligible. */
  lemma QuizAllCategories(questions: seq<Question>, categoryId: Option<int>,
                          previous: seq<int>, q: Question)
    requires !Truthy(categoryId)
    requires q in questions && q.id !in previous
    ensures q in Eligible(questions, categoryId, previous)
  {
  }

  /** Once every question of a category has been seen the quiz is complete:
      the eligible set is empty (a null question), and not before. */
  lemma {:induction false} QuizCompleteIff(questions: seq<Question>, categoryId: int, previous: seq<int>)
    requires categoryId != 0
    ensures Eligible(questions, Some(categoryId), previous) == [] <==>
              forall q :: q in InCategory(questions, categoryId) ==> q.id in previous
  {
    var eligible := Eligible(questions, Some(categoryId), previous);
    if forall q :: q in InCategory(questions, categoryId) ==> q.id in previous {
      forall i | 0 <= i < |questions|
        ensures !Holds(CategoryUnseen(categoryId, previous), questions[i])
      {
        if questions[i].category == Some(categoryId) {
          assert questions[i] in InCategory(questions, categoryId);
        }
      }
      SelectNone(questions, CategoryUnseen(categoryId, previous));
    } else {
      var q :| q in InCategory(questions, categoryId) && q.id !in previous;
      assert q in eligible;
    }
  }
}
