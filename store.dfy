/**
 * The two handlers that write: `delete_questions` and
 * `add_or_search_questions`, as methods of the database they change.
 */
module Store {
  import opened Wrappers
  import opened Models
  import opened Selection
  import opened Helpers
  import opened Responses
  import opened Routes

  /** The parsed JSON body of `POST /questions`; a missing field is None. */
  datatype QuestionRequest = QuestionRequest(
    question: Option<string>,
    answer: Option<string>,
    difficulty: Option<int>,
    category: Option<int>,
    searchTerm: Option<string>)

  /** Python truthiness of an optional string: present and non-empty. */
  predicate Given(s: Option<string>) {
    s.Some? && s.value != ""
  }

  /** Which branch of `add_or_search_questions` a body takes. */
  datatype Branch = Search(term: string) | Create | Neither

  /** A non-empty search term wins over creation; creation needs both the
      question and the answer text; anything else takes neither branch. */
  function Dispatch(request: QuestionRequest): (b: Branch)
    ensures b.Search? <==> Given(request.searchTerm)
    ensures b.Search? ==> b.term == request.searchTerm.value
    ensures b.Create? <==>
              !Given(request.searchTerm) && Given(request.question) && Given(request.answer)
  {
    if Given(request.searchTerm) then Search(request.searchTerm.value)
    else if Given(request.question) && Given(request.answer) then Create
    else Neither
  }

  /** Appending a question with a larger id than all others keeps the table id-ordered. */
  lemma AppendIdOrdered(qs: seq<Question>, q: Question)
    requires IdOrdered(qs)
    requires forall i :: 0 <= i < |qs| ==> qs[i].id < q.id
    ensures IdOrdered(qs + [q])
  {
  }

  /** Inserting a question and then deleting it by its id restores the table. */
  lemma InsertThenDelete(qs: seq<Question>, q: Question)
    requires forall i :: 0 <= i < |qs| ==> qs[i].id < q.id
    ensures Without(qs + [q], q.id) == qs
    ensures HasId(qs + [q], q.id)
  {
    WithoutAppended(qs, q);
    assert (qs + [q])[|qs|].id == q.id;
  }

  /** The trivia database: the question table in id order, the category
      table in id order, and the next value of the question id sequence. */
  class TriviaStore {
    var questions: seq<Question>
    var categories: seq<Category>
    var nextId: int

    ghost predicate Valid()
      reads this
    {
      && IdOrdered(questions)
      && CategoryIdOrdered(categories)
      && forall i :: 0 <= i < |questions| ==> questions[i].id < nextId
    }

    /** A database holding the given categories and no questions. */
    constructor (categories: seq<Category>)
      requires CategoryIdOrdered(categories)
      ensures Valid()
      ensures this.questions == [] && this.categories == categories && nextId == 1
    {
      this.questions := [];
      this.categories := categories;
      nextId := 1;
    }

    /** `delete_questions`: an existing id is deleted and echoed back with 200;
        an absent id, or a failing query, gives 422 and changes nothing. */
    method DeleteQuestion(questionId: int, fault: bool) returns (r: Outcome)
      requires Valid()
      modifies this
      ensures Valid()
      ensures categories == old(categories) && nextId == old(nextId)
      ensures r.Reply?
      ensures r.status == 200 || r == ErrorReply(FailureCode(Responses.DeleteQuestion))
      ensures r.status == 200 <==> !fault && HasId(old(questions), questionId)
      ensures r.status == 200 ==>
                && r.body == Deleted(questionId)
                && questions == Without(old(questions), questionId)
                && !HasId(questions, questionId)
                && exists k :: 0 <= k < |old(questions)| && old(questions)[k].id == questionId &&
                                questions == old(questions)[..k] + old(questions)[k + 1..]
      ensures r.status != 200 ==> questions == old(questions)
    {
      var attempt: Attempt;
      if fault {
        attempt := Raised(None);
      } else {
        var lookup := FindQuestion(questions, questionId);
        FindQuestionOrdered(questions, questionId);
        if lookup.Absent? {
          attempt := Raised(Some(404));
        } else if lookup.Ambiguous? {
          attempt := Raised(None);
        } else {
          var before := questions;
          var k :| 0 <= k < |before| && before[k].id == questionId;
          WithoutSplice(before, k);
          SelectIdOrdered(before, IdIsNot(questionId));
          WithoutFacts(before, questionId);
          questions := Without(before, questionId);
          assert questions == before[..k] + before[k + 1..];
          assert forall i :: 0 <= i < |questions| ==> questions[i] in before;
          attempt := Returned(Ok(Deleted(questionId)));
        }
      }
      r := Except(Responses.DeleteQuestion, attempt);
    }

    /** `add_or_search_questions`. Search: 200 with the page of matching
        questions, nothing written. Create: one new question with a fresh id
        and exactly the given fields is appended, and the reply is a bare
        success. Either branch answers 422 when its query fails, leaving the
        table as it was. A body taking neither branch gets no response. */
    method AddOrSearchQuestions(request: QuestionRequest, page: int, fault: bool)
      returns (r: Outcome)
      requires Valid()
      modifies this
      ensures Valid()
      ensures categories == old(categories)
      ensures Dispatch(request).Search? ==>
                && questions == old(questions) && nextId == old(nextId)
                && r == (if fault then ErrorReply(FailureCode(AddOrSearch))
                         else SearchReply(old(questions), Dispatch(request).term, page))
      ensures Dispatch(request).Create? && fault ==>
                r == ErrorReply(FailureCode(AddOrSearch)) &&
                questions == old(questions) && nextId == old(nextId)
      ensures Dispatch(request).Create? && !fault ==>
                && r == Ok(Created)
                && questions == old(questions) + [Question(old(nextId),
                     request.question.value, request.answer.value,
                     request.difficulty, request.category)]
                && nextId > old(nextId)
      ensures Dispatch(request).Neither? ==>
                r == NoResponse && questions == old(questions) && nextId == old(nextId)
    {
      var branch := Dispatch(request);
      match branch {
        case Search(term) =>
          var attempt := if fault then Raised(None) else Returned(SearchReply(questions, term, page));
          r := Except(AddOrSearch, attempt);
        case Create =>
          var attempt: Attempt;
          if fault {
            attempt := Raised(None);
          } else {
            var created := Question(nextId, request.question.value, request.answer.value,
                                    request.difficulty, request.category);
            AppendIdOrdered(questions, created);
            questions := questions + [created];
            nextId := nextId + 1;
            attempt := Returned(Ok(Created));
          }
          r := Except(AddOrSearch, attempt);
        case Neither =>
          r := NoResponse;
      }
    }
  }

  /** A question added to the store is the last entry of the last page of
      the listing, and deleting it by its id gives back the store as it was. */
  method AddThenDelete(store: TriviaStore, text: string, answer: string)
    returns (added: Outcome, lastPage: seq<Question>, deleted: Outcome)
    requires store.Valid() && text != "" && answer != ""
    modifies store
    ensures store.Valid()
    ensures added == Ok(Created)
    ensures lastPage == Paginate(old(store.questions) + [Question(old(store.nextId), text, answer, None, None)],
                                 |old(store.questions)| / QuestionsPerPage + 1)
    ensures |lastPage| > 0 &&
            lastPage[|lastPage| - 1] == Question(old(store.nextId), text, answer, None, None)
    ensures deleted == Ok(Deleted(old(store.nextId)))
    ensures store.questions == old(store.questions)
  {
    var before := store.questions;
    var id := store.nextId;
    var request := QuestionRequest(Some(text), Some(answer), None, None, None);
    added := store.AddOrSearchQuestions(request, 1, false);
    var created := Question(id, text, answer, None, None);
    AppendedOnLastPage(before, created);
    lastPage := Paginate(store.questions, |before| / QuestionsPerPage + 1);
    InsertThenDelete(before, created);
    deleted := store.DeleteQuestion(id, false);
  }
}
