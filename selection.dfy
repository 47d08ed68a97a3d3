/**
 * The database queries the handlers issue, as filters over the store's
 * id-ordered sequences.
 */
module Selection {
  import opened Wrappers
  import opened Models
  import opened Text

  /** The `WHERE` clauses the handlers put on the question table. */
  datatype Where =
    | IdIs(id: int)                             // Question.id == id
    | IdIsNot(id: int)                          // every row but the one deleted
    | TextContains(term: string)                // Question.question.ilike('%term%')
    | CategoryIs(categoryId: int)               // Question.category == id
    | Unseen(previous: seq<int>)                // Question.id.notin_(previous)
    | CategoryUnseen(categoryId: int, previous: seq<int>)

  /** Whether row `q` satisfies clause `w`. A NULL category equals nothing. */
  predicate Holds(w: Where, q: Question) {
    match w
    case IdIs(id) => q.id == id
    case IdIsNot(id) => q.id != id
    case TextContains(term) => ContainsIgnoringCase(q.question, term)
    case CategoryIs(c) => q.category == Some(c)
    case Unseen(previous) => q.id !in previous
    case CategoryUnseen(c, previous) => q.category == Some(c) && q.id !in previous
  }

  /** The rows of `qs` satisfying `w`, in their stored order. */
  function Select(qs: seq<Question>, w: Where): (r: seq<Question>)
    ensures |r| <= |qs|
    ensures forall q :: q in r ==> q in qs && Holds(w, q)
    ensures forall q :: q in qs && Holds(w, q) ==> q in r
    decreases |qs|
  {
    if |qs| == 0 then []
    else (if Holds(w, qs[0]) then [qs[0]] else []) + Select(qs[1..], w)
  }

  /** Deleting the id of a row appended after rows with smaller ids
      removes exactly that row. */
  lemma {:induction false} WithoutAppended(qs: seq<Question>, q: Question)
    requires forall i :: 0 <= i < |qs| ==> qs[i].id < q.id
    ensures Select(qs + [q], IdIsNot(q.id)) == qs
    decreases |qs|
  {
    if |qs| == 0 {
      assert qs + [q] == [q];
    } else {
      var rest := qs[1..];
      assert (qs + [q])[0] == qs[0];
      assert (qs + [q])[1..] == rest + [q];
      WithoutAppended(rest, q);
      assert qs == [qs[0]] + rest;
    }
  }

  /** When every row satisfies the clause, selecting is the identity. */
  lemma {:induction false} SelectAll(qs: seq<Question>, w: Where)
    requires forall i :: 0 <= i < |qs| ==> Holds(w, qs[i])
    ensures Select(qs, w) == qs
    decreases |qs|
  {
    if |qs| > 0 {
      SelectAll(qs[1..], w);
    }
  }

  /** Selecting from an id-ordered table keeps the result id-ordered. */
  lemma {:induction false} SelectIdOrdered(qs: seq<Question>, w: Where)
    requires IdOrdered(qs)
    ensures IdOrdered(Select(qs, w))
    decreases |qs|
  {
    if |qs| > 0 {
      IdOrderedSlice(qs, 1, |qs|);
      SelectIdOrdered(qs[1..], w);
      var rest := Select(qs[1..], w);
      forall j | 0 <= j < |rest| ensures qs[0].id < rest[j].id {
        assert rest[j] in qs[1..];
      }
    }
  }

  /** The three outcomes of SQLAlchemy's `one_or_none()`. */
  datatype Lookup<T> = Absent | Found(row: T) | Ambiguous

  /** `one_or_none()` over the rows a query selected. */
  function OneOrNone<T>(rows: seq<T>): (r: Lookup<T>)
    ensures r.Absent? <==> |rows| == 0
    ensures r.Found? <==> |rows| == 1
    ensures r.Found? ==> r.row == rows[0]
  {
    if |rows| == 0 then Absent else if |rows| == 1 then Found(rows[0]) else Ambiguous
  }

  /** `Question.query.filter(Question.id == id).one_or_none()`. */
  function FindQuestion(qs: seq<Question>, id: int): Lookup<Question> {
    OneOrNone(Select(qs, IdIs(id)))
  }

  /** When no row satisfies the clause, nothing is selected. */
  lemma {:induction false} SelectNone(qs: seq<Question>, w: Where)
    requires forall i :: 0 <= i < |qs| ==> !Holds(w, qs[i])
    ensures Select(qs, w) == []
    decreases |qs|
  {
    if |qs| > 0 {
      SelectNone(qs[1..], w);
    }
  }

  /** On an id-ordered table the id query selects exactly the one row with that id. */
  lemma {:induction false} SelectIdIsAt(qs: seq<Question>, k: nat)
    requires IdOrdered(qs)
    requires k < |qs|
    ensures Select(qs, IdIs(qs[k].id)) == [qs[k]]
    decreases |qs|
  {
    var tail := qs[1..];
    IdOrderedSlice(qs, 1, |qs|);
    if k == 0 {
      SelectNone(tail, IdIs(qs[0].id));
    } else {
      assert tail[k - 1] == qs[k];
      SelectIdIsAt(tail, k - 1);
    }
  }

  /** On an id-ordered table a question lookup never sees two rows: it is
      absent exactly when no question has the id, and otherwise finds it. */
  lemma FindQuestionOrdered(qs: seq<Question>, id: int)
    requires IdOrdered(qs)
    ensures FindQuestion(qs, id).Absent? <==> !HasId(qs, id)
    ensures !FindQuestion(qs, id).Ambiguous?
    ensures FindQuestion(qs, id).Found? ==>
              FindQuestion(qs, id).row in qs && FindQuestion(qs, id).row.id == id
  {
    if HasId(qs, id) {
      var k :| 0 <= k < |qs| && qs[k].id == id;
      SelectIdIsAt(qs, k);
    } else {
      SelectNone(qs, IdIs(id));
    }
  }

  /** The categories whose id is `id`, in table order. */
  function CategoriesWithId(cs: seq<Category>, id: int): (r: seq<Category>)
    ensures forall c :: c in r ==> c in cs && c.id == id
    ensures forall c :: c in cs && c.id == id ==> c in r
    decreases |cs|
  {
    if |cs| == 0 then []
    else (if cs[0].id == id then [cs[0]] else []) + CategoriesWithId(cs[1..], id)
  }

  /** `Category.query.filter(Category.id == id).one_or_none()`. */
  function FindCategory(cs: seq<Category>, id: int): Lookup<Category> {
    OneOrNone(CategoriesWithId(cs, id))
  }

  /** When no category has the id, the id query selects nothing. */
  lemma {:induction false} CategoriesWithIdNone(cs: seq<Category>, id: int)
    requires forall i :: 0 <= i < |cs| ==> cs[i].id != id
    ensures CategoriesWithId(cs, id) == []
    decreases |cs|
  {
    if |cs| > 0 {
      CategoriesWithIdNone(cs[1..], id);
    }
  }

  /** On an id-ordered category table the id query selects exactly the row with that id. */
  lemma {:induction false} CategoriesWithIdAt(cs: seq<Category>, k: nat)
    requires CategoryIdOrdered(cs)
    requires k < |cs|
    ensures CategoriesWithId(cs, cs[k].id) == [cs[k]]
    decreases |cs|
  {
    var tail := cs[1..];
    assert CategoryIdOrdered(tail) by {
      forall i, j | 0 <= i < j < |tail| ensures tail[i].id < tail[j].id {
        assert tail[i] == cs[i + 1] && tail[j] == cs[j + 1];
      }
    }
    if k == 0 {
      CategoriesWithIdNone(tail, cs[0].id);
    } else {
      assert tail[k - 1] == cs[k];
      CategoriesWithIdAt(tail, k - 1);
    }
  }

  /** On an id-ordered category table the lookup is absent exactly when no
      category has the id, and otherwise finds that category. */
  lemma FindCategoryOrdered(cs: seq<Category>, id: int)
    requires CategoryIdOrdered(cs)
    ensures FindCategory(cs, id).Absent? <==> (forall i :: 0 <= i < |cs| ==> cs[i].id != id)
    ensures !FindCategory(cs, id).Ambiguous?
    ensures FindCategory(cs, id).Found? ==>
              FindCategory(cs, id).row in cs && FindCategory(cs, id).row.id == id
  {
    if exists i :: 0 <= i < |cs| && cs[i].id == id {
      var k :| 0 <= k < |cs| && cs[k].id == id;
      CategoriesWithIdAt(cs, k);
    } else {
      CategoriesWithIdNone(cs, id);
    }
  }

  /** What the by-category route relies on about its category lookup, on any table. */
  lemma CategoryLookupFacts(cs: seq<Category>, id: int)
    ensures FindCategory(cs, id).Found? ==>
              FindCategory(cs, id).row in cs && FindCategory(cs, id).row.id == id
    ensures CategoryIdOrdered(cs) && (forall i :: 0 <= i < |cs| ==> cs[i].id != id) ==>
              FindCategory(cs, id).Absent?
  {
    if FindCategory(cs, id).Found? {
      assert FindCategory(cs, id).row in CategoriesWithId(cs, id);
    }
    if CategoryIdOrdered(cs) {
      FindCategoryOrdered(cs, id);
    }
  }

  /** The search query: questions whose text contains the term, ignoring case. */
  function Matching(qs: seq<Question>, term: string): seq<Question> {
    Select(qs, TextContains(term))
  }

  /** The by-category query: questions whose category column equals `categoryId`. */
  function InCategory(qs: seq<Question>, categoryId: int): seq<Question> {
    Select(qs, CategoryIs(categoryId))
  }

  /** Python truthiness of the quiz's `quiz_category["id"]`: neither null nor 0. */
  predicate Truthy(categoryId: Option<int>) {
    categoryId.Some? && categoryId.value != 0
  }

  /** What the quiz allows: an unseen question, in the category when a truthy one is given. */
  predicate QuizAllows(q: Question, categoryId: Option<int>, previous: seq<int>) {
    q.id !in previous && (Truthy(categoryId) ==> q.category == categoryId)
  }

  /** The quiz query: a category filter only for a truthy category id. */
  function Eligible(qs: seq<Question>, categoryId: Option<int>, previous: seq<int>): seq<Question> {
    if Truthy(categoryId) then Select(qs, CategoryUnseen(categoryId.value, previous))
    else Select(qs, Unseen(previous))
  }

  /** A question is eligible exactly when it is stored and the quiz allows it. */
  lemma EligibleIff(qs: seq<Question>, categoryId: Option<int>, previous: seq<int>, q: Question)
    ensures q in Eligible(qs, categoryId, previous) <==> q in qs && QuizAllows(q, categoryId, previous)
  {
  }

  /** The table after deleting the row(s) with identifier `id`. */
  function Without(qs: seq<Question>, id: int): seq<Question> {
    Select(qs, IdIsNot(id))
  }

  /** On an id-ordered table, deleting the question at index `k` removes
      exactly that element and keeps the others in order. */
  lemma {:induction false} WithoutSplice(qs: seq<Question>, k: nat)
    requires IdOrdered(qs)
    requires k < |qs|
    ensures Without(qs, qs[k].id) == qs[..k] + qs[k + 1..]
    decreases |qs|
  {
    var id := qs[k].id;
    var tail := qs[1..];
    IdOrderedSlice(qs, 1, |qs|);
    if k == 0 {
      SelectAll(tail, IdIsNot(id));
    } else {
      assert tail[k - 1] == qs[k];
      WithoutSplice(tail, k - 1);
      assert [qs[0]] + (tail[..k - 1] + tail[k..]) == qs[..k] + qs[k + 1..];
    }
  }

  /** After the delete no question carries the id, and every remaining one was there before. */
  lemma WithoutFacts(qs: seq<Question>, id: int)
    ensures !HasId(Without(qs, id), id)
    ensures forall i :: 0 <= i < |Without(qs, id)| ==> Without(qs, id)[i] in qs
  {
    var rest := Without(qs, id);
    forall i | 0 <= i < |rest| ensures rest[i] in qs && rest[i].id != id {
      assert rest[i] in rest;
    }
  }

  /** Deleting an identifier that no question has leaves the table as it was. */
  lemma WithoutAbsent(qs: seq<Question>, id: int)
    requires !HasId(qs, id)
    ensures Without(qs, id) == qs
  {
    SelectAll(qs, IdIsNot(id));
  }
}
