/**
 * The two record kinds of the trivia database, as the handlers see them
 * once `format()` has turned a row into a record (taken as the identity).
 */
module Models {
  import opened Wrappers

  /** A quiz question. Difficulty and category may be NULL: the add route
      passes both through without checking them. */
  datatype Question = Question(
    id: int,
    question: string,
    answer: string,
    difficulty: Option<int>,
    category: Option<int>)

  /** A category row; `name` is the row's `type` column ("Science", ...). */
  datatype Category = Category(id: int, name: string)

  /** Questions as `order_by(Question.id)` returns them: strictly increasing ids. */
  ghost predicate IdOrdered(qs: seq<Question>) {
    forall i, j :: 0 <= i < j < |qs| ==> qs[i].id < qs[j].id
  }

  /** Categories as `order_by(Category.id)` returns them. */
  ghost predicate CategoryIdOrdered(cs: seq<Category>) {
    forall i, j :: 0 <= i < j < |cs| ==> cs[i].id < cs[j].id
  }

  /** True when some question of `qs` carries identifier `id`. */
  predicate HasId(qs: seq<Question>, id: int) {
    exists i :: 0 <= i < |qs| && qs[i].id == id
  }

  /** The properties an id-ordered sequence hands on to its slices. */
  lemma IdOrderedSlice(qs: seq<Question>, lo: int, hi: int)
    requires IdOrdered(qs)
    requires 0 <= lo <= hi <= |qs|
    ensures IdOrdered(qs[lo..hi])
  {
  }
}
