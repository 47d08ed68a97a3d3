/**
 * What a handler hands back to the framework: a status and a JSON body,
 * and the fixed error bodies of the four error handlers.
 */
module Responses {
  import opened Wrappers
  import opened Models

  /** The JSON bodies the handlers return, one variant per shape. The
      `success` field is implicit: true for every variant but Failure. */
  datatype Body =
    | CategoryListing(categories: map<int, string>)
    | QuestionListing(questions: seq<Question>, totalQuestions: nat,
                      categories: map<int, string>, currentCategory: string)
    | Deleted(deleted: int)
    | SearchResults(totalQuestions: nat, questions: seq<Question>, currentCategory: string)
    | Created
    | CategoryQuestions(questions: seq<Question>, totalQuestions: nat, currentCategory: string)
    | QuizQuestion(question: Option<Question>)
    | Failure(error: int, message: string)
  {
    /** The body's `success` field. */
    predicate Success() { !Failure? }
  }

  /** A handler either returns a response or falls off its end without one. */
  datatype Outcome = Reply(status: int, body: Body) | NoResponse

  /** The routes of the handler layer. */
  datatype Route =
    | ListCategories | ListQuestions | DeleteQuestion
    | AddOrSearch | QuestionsByCategory | PlayQuiz

  /** The status each route's blanket `except:` turns every failure into. */
  function FailureCode(route: Route): int {
    match route
    case ListCategories => 400
    case ListQuestions => 400
    case DeleteQuestion => 422
    case AddOrSearch => 422
    case QuestionsByCategory => 400
    case PlayQuiz => 404
  }

  /** The message of the registered error handler for a status code. */
  function ErrorMessage(code: int): string {
    match code
    case 400 => "bad request"
    case 404 => "resource not found"
    case 405 => "method not allowed"
    case 422 => "unprocessable"
    case _ => ""
  }

  /** The response `abort(code)` produces through the registered error handlers. */
  function ErrorReply(code: int): (r: Outcome)
    ensures r.Reply? && r.status == code && !r.body.Success()
  {
    Reply(code, Failure(code, ErrorMessage(code)))
  }

  /** What the `try` block of a handler did: returned a response, or raised.
      A raise carries the code of an `abort(code)`, or None for any other
      exception (a failing query). */
  datatype Attempt = Returned(outcome: Outcome) | Raised(abortCode: Option<int>)

  /** The bare `except: abort(code)` around every handler body: whatever was
      raised, including an inner `abort(404)`, becomes the route's own code. */
  function Except(route: Route, attempt: Attempt): (r: Outcome)
    ensures attempt.Raised? ==> r == ErrorReply(FailureCode(route))
    ensures attempt.Returned? ==> r == attempt.outcome
  {
    match attempt
    case Returned(outcome) => outcome
    case Raised(_) => ErrorReply(FailureCode(route))
  }

  /** The inner `abort(404)` never reaches the client: every route but the
      quiz answers it with its own code instead, and the quiz with 404
      only because 404 is its own failure code. */
  lemma InnerAbortSwallowed(route: Route, code: int)
    ensures Except(route, Raised(Some(code))) == Except(route, Raised(None))
    ensures Except(route, Raised(Some(404))).status == FailureCode(route)
    ensures route != PlayQuiz ==> Except(route, Raised(Some(404))).status != 404
  {
  }

  /** A 200 response with a success body. */
  function Ok(body: Body): Outcome
    requires body.Success()
  {
    Reply(200, body)
  }

  /** Every route fails with one of the three handled codes, each with its
      own message, and no route can fail with 405 (only routing does). */
  lemma FailureCodesHandled(route: Route)
    ensures FailureCode(route) in {400, 404, 422}
    ensures ErrorMessage(FailureCode(route)) != ""
    ensures ErrorReply(FailureCode(route)) != ErrorReply(405)
  {
  }
}
