# Trivia API handler layer, modelled in Dafny

This project models the request handlers of a small trivia-game HTTP service
(`backend/flaskr/__init__.py`). The service stores quiz questions and
categories in a relational database. It offers six routes:

- list categories;
- list questions, ten per page;
- delete a question;
- add a question or search questions (one POST route, dispatched on the body);
- list the questions of one category;
- pick a random unseen question for the quiz.

The database is modelled in memory:

- the question table is a `seq<Question>` kept in id order;
- the category table is a `seq<Category>` kept in id order;
- the question id sequence is an integer `nextId`.

`Question.format()` and `Category.format()` are taken as the identity on the
record. The category column `type` is called `name` here, because `type` is a
Dafny keyword.

Each handler returns an `Outcome`. An outcome is either a status with a JSON
body (`Reply`), or `NoResponse` when the handler falls off its end. The outcome
modelled is the one the code really produces. Every handler body sits in a bare
`try: ... except: abort(code)`, so an `abort(404)` raised inside the `try` is
caught and replaced by the route's own code. `Responses.Attempt` models what the
`try` block did. `Responses.Except` models the `except`. `Responses.FailureCode`
is the per-route table:

| route | failure status |
|---|---|
| GET /categories | 400 |
| GET /questions | 400 |
| DELETE /questions/<id> | 422 |
| POST /questions | 422 |
| GET /categories/<id>/questions | 400 |
| POST /quizzes | 404 |

So an empty category table, a page beyond the last, and an unknown category all
give 400, not 404. A missing question on delete gives 422. The test file agrees
with the code in these places: `backend/test_flaskr.py:65-71`, `84-90` and
`117-123`.

An exception raised by a database query inside a `try` is an explicit
`fault: bool` argument of each handler. The quiz's random choice is a Dafny
`:|` choice among the eligible questions.

Modules, one file each:

- `Wrappers`: the `Option` type.
- `Models`: the records and the id-order predicates.
- `Text`: ASCII case-insensitive substring matching, the model of `ilike`.
- `Selection`: the queries, i.e. `WHERE` filters and `one_or_none`.
- `Helpers`: `paginate_questions` (Python slice semantics, negative pages
  included) and `format_categories`.
- `Responses`: bodies, the error handlers and the `try`/`except` table.
- `Routes`: the read-only handlers, as functions, and the quiz, as a method.
- `Store`: the writing handlers, as methods of class `TriviaStore`.

## Model

| member | source | states |
|---|---|---|
| `Helpers.Paginate` | backend/flaskr/__init__.py:16-24 | A page never holds more than 10 questions, and every question on it comes from the selection. |
| `Helpers.PageWindow` | backend/flaskr/__init__.py:17-22 | For page >= 1 the page is the contiguous block of the selection starting at index (page-1)*10, of length min(10, max(0, n-(page-1)*10)). |
| `Helpers.PageNonEmptyIff` | backend/flaskr/__init__.py:18-22 | For page >= 1 the page is non-empty exactly when (page-1)*10 < n. |
| `Helpers.PageZeroEmpty` | backend/flaskr/__init__.py:18-22 | Page 0 is the slice [-10:0], which is always empty. |
| `Helpers.NegativePage` | backend/flaskr/__init__.py:18-22 | A negative page follows Python's negative-index normalisation and counts back from the end of the selection. |
| `Helpers.PageMinusOneOf25` | backend/flaskr/__init__.py:18-22 | Page -1 of 25 questions is questions 5 to 14, not an empty page. |
| `Helpers.PageIdOrdered` | backend/flaskr/__init__.py:21-22 | A page of an id-ordered selection is id-ordered. |
| `Helpers.AppendedOnLastPage` | backend/flaskr/__init__.py:17-22 | A question appended to n questions is the last entry of page n/10 + 1, and the page after it is empty, so that page is the last one. |
| `Helpers.CategoriesMap` | backend/flaskr/__init__.py:26-31 | The dictionary's key set is exactly the set of category ids. |
| `Helpers.CategoriesMapEmptyIff` | backend/flaskr/__init__.py:66-68 | The dictionary is empty exactly when there are no categories. |
| `Helpers.CategoriesMapLastWins` | backend/flaskr/__init__.py:29-30 | Each id maps to the type of the last category in the list with that id. |
| `Helpers.CategoriesMapOrdered` | backend/flaskr/__init__.py:26-31 | For an id-ordered category table, each category's id maps to its own type. |
| `Helpers.FormatCategories` | backend/flaskr/__init__.py:26-31 | The loop builds exactly the dictionary CategoriesMap describes, whose keys are the category ids. |
| `Text.Lower` | backend/flaskr/__init__.py:164 | ASCII lower-casing keeps the length: no upper-case letter is left, every non-letter and lower-case letter is unchanged, and an upper-case letter moves down by 32. |
| `Text.LowerIdempotent` | backend/flaskr/__init__.py:164 | ASCII lower-casing is idempotent. |
| `Text.ContainsIffOccurs` | backend/flaskr/__init__.py:164 | The scanning substring test agrees, in both directions, with "the term occurs at some offset". |
| `Text.TermCaseIrrelevant` | backend/flaskr/__init__.py:164 | Lower-casing the search term first does not change what matches. |
| `Selection.Select` | backend/flaskr/__init__.py:163-165 | A filter returns exactly the rows that satisfy its clause: sound and complete, never longer than the table. |
| `Selection.SelectIdOrdered` | backend/flaskr/__init__.py:225 | Filtering an id-ordered table keeps the id order. |
| `Selection.FindQuestionOrdered` | backend/flaskr/__init__.py:125-128 | On the id-ordered table a question lookup is absent exactly when no question has the id, is never ambiguous, and otherwise finds a question with that id. |
| `Selection.CategoriesWithId` | backend/flaskr/__init__.py:223 | The category query returns exactly the categories carrying the id. |
| `Selection.FindCategoryOrdered` | backend/flaskr/__init__.py:223 | The same for the category lookup on the id-ordered category table. |
| `Selection.EligibleIff` | backend/flaskr/__init__.py:263-266 | A question is eligible for the quiz exactly when it is stored, unseen, and of the category when the category id is truthy. |
| `Selection.WithoutSplice` | backend/flaskr/__init__.py:125-130 | Deleting the question at index k of the id-ordered table removes exactly that element and keeps the rest in order. |
| `Selection.WithoutAbsent` | backend/flaskr/__init__.py:125-128 | Deleting an id no question has changes nothing. |
| `Selection.WithoutAppended` | backend/flaskr/__init__.py:130 | Deleting the id of a question appended after questions with smaller ids removes exactly that question. |
| `Responses.ErrorReply` | backend/flaskr/__init__.py:284-307 | `abort(code)` gives status code with a failure body (success false). |
| `Responses.InnerAbortSwallowed` | backend/flaskr/__init__.py:68-78 | Inside a handler's try block an `abort(404)` is indistinguishable from any other exception: it yields the route's own failure code, which is never 404 outside the quiz route. |
| `Responses.FailureCodesHandled` | backend/flaskr/__init__.py:284-307 | Every route's failure code is one of 400, 404 and 422, each with a message, and none is 405. |
| `Routes.RetrieveAllCategories` | backend/flaskr/__init__.py:62-78 | 200 exactly when there is a category and no query fails; the map's keys are the category ids and each id maps to its type; otherwise 400. |
| `Routes.RetrieveAllQuestions` | backend/flaskr/__init__.py:91-113 | 200 exactly when the page is non-empty, there is a category and no query fails (for page >= 1: when (page-1)*10 < n); the body has at most 10 questions, id-ordered when the table is, and for page >= 1 they are exactly the block of min(10, n-(page-1)*10) questions starting at index (page-1)*10; it also carries the total of all questions, the category map (keys the category ids, each mapped to its type) and "All"; otherwise 400. |
| `Routes.RetrieveQuestionsByCategory` | backend/flaskr/__init__.py:220-242 | 200 exactly when the category is found and its page is non-empty; the returned questions are stored, of that category, and for page >= 1 exactly the page-th block of ten of the category's questions in table order; the total counts all questions; current_category is that category's type; an unknown category gives 400. |
| `Routes.SearchReply` | backend/flaskr/__init__.py:161-175 | Always 200; each returned question contains the term case-insensitively; for page >= 1 the list is exactly the page-th block of ten of the matching questions in table order; the total counts all questions; "All". |
| `Routes.SearchWithoutResults` | backend/flaskr/__init__.py:161-175 | A term found in no question gives 200 with an empty list. |
| `Routes.GetQuizQuestion` | backend/flaskr/__init__.py:255-278 | Without a fault: 200; the question is null exactly when nothing is eligible; a returned question is stored, unseen, and of the category when the id is truthy. A query fault gives 404. |
| `Routes.QuizAllCategories` | backend/flaskr/__init__.py:263-266 | With category id null or 0, every unseen question of any category is eligible. |
| `Routes.QuizCompleteIff` | backend/flaskr/__init__.py:263-272 | For a truthy category the eligible set is empty exactly when every question of that category has been seen. |
| `Store.InsertThenDelete` | backend/flaskr/__init__.py:184 | Appending a question with a fresh id and then deleting that id restores the table. |
| `Store.AppendIdOrdered` | backend/flaskr/__init__.py:184 | Appending a question with a larger id keeps the table id-ordered. |
| `Store.TriviaStore.DeleteQuestion` | backend/flaskr/__init__.py:122-139 | 200 with `deleted` equal to the id exactly when the id exists and no query fails; then that one question is gone and the others keep their order; otherwise 422 and the table is unchanged; categories never change. |
| `Store.TriviaStore.AddOrSearchQuestions` | backend/flaskr/__init__.py:151-193 | Search: the SearchReply outcome with nothing written. Create: a bare success, with one question appended that has a fresh id and exactly the given fields, difficulty and category passed through. A fault in either branch gives 422 and no change. Neither branch: NoResponse and no change. |
| `Store.AddThenDelete` | backend/flaskr/__init__.py:147-149 | Client scenario: adding a question succeeds, the listing page n/10 + 1 ends with exactly that question, deleting it by its id echoes that id, and the table is back as it was. |

## Left out

- Flask application setup, routing, the CORS configuration and the `after_request` headers (lines 34-56): framework configuration with no logic.
- `setup_db`, SQLAlchemy query construction and `models.py`, which is not part of this model. A query that raises is the `fault` argument. A failing write leaves the table as it was.
- `jsonify` and JSON encoding: the bodies are Dafny datatypes, and `success` is implicit in the variant.
- `request.get_json()` and the `body.get(...)` / `quiz_category["id"]` accesses (lines 153-159, 257-260). They sit outside the `try`. The body is taken as already parsed. The quiz needs `previous_questions` and `quiz_category` to be present. An absent body is handled by the framework, so the 400 at `backend/test_flaskr.py:172-178` is not modelled.
- The conversion of the `page` query argument (`type=int`, default 1): handlers receive the converted integer.
- `random.choice` (line 270): modelled as a nondeterministic choice among the eligible questions, with no distribution.
- The 405 handler (lines 295-300): Flask routing triggers it, not the modelled handlers. Only its message is in the error table.
- `ILIKE` is modelled as substring containment after ASCII lower-casing. The `%` and `_` wildcards inside a search term, and non-ASCII case folding, are not modelled.
- `NoResponse`: Flask turns a view that returns nothing into a server error. That conversion belongs to the framework and is not modelled.
- Store.TriviaStore.AddOrSearchQuestions: states only that the id sequence advances. It does not say by how much, because a database sequence may skip values.

## Notes on the source

- `backend/test_flaskr.py:81` expects `deleted == 26` after deleting question 27. The handler echoes the requested id (line 135), so the reply is 27. `Store.TriviaStore.DeleteQuestion` follows the code.
- The handlers call `abort(404)` for an empty category table, an empty page and an unknown category (lines 69, 101, 229). The bare `except:` around them turns each of these into the route's own code, 400 or 422. The model states the codes the code produces, and the tests at `backend/test_flaskr.py:65-71`, `84-90` and `117-123` expect those same codes.
- `backend/test_flaskr.py:46-52` requests `/categories/1000`. No route matches that path, so its 404 comes from routing and lies outside this model.
