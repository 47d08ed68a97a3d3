/**
 * The two module-level helpers of the handler file: the 10-question page
 * window and the id-to-type category map.
 */
module Helpers {
  import opened Models

  /** Page size (QUESTIONS_PER_PAGE). */
  const QuestionsPerPage: nat := 10

  // ---------------------------------------------------------------------
  // Python slicing
  // ---------------------------------------------------------------------

  /** How Python normalises a slice bound `i` against a length `n`: a
      negative bound counts from the end, and both ends are clamped. */
  function SliceBound(i: int, n: nat): (r: nat)
    ensures r <= n
  {
    if i < 0 then (if i + n < 0 then 0 else i + n)
    else if i > n then n
    else i
  }

  /** Python's `s[i:j]` with step 1. */
  function PySlice<T>(s: seq<T>, i: int, j: int): seq<T> {
    var lo, hi := SliceBound(i, |s|), SliceBound(j, |s|);
    if lo < hi then s[lo..hi] else []
  }

  // ---------------------------------------------------------------------
  // paginate_questions
  // ---------------------------------------------------------------------

  /** `paginate_questions`: the slice `[(page - 1) * 10 : (page - 1) * 10 + 10]`
      of the selection (with `format()` as the identity). */
  function Paginate<T>(selection: seq<T>, page: int): (r: seq<T>)
    ensures |r| <= QuestionsPerPage
    ensures forall x :: x in r ==> x in selection
  {
    var start := (page - 1) * QuestionsPerPage;
    PySlice(selection, start, start + QuestionsPerPage)
  }

  function Min(a: int, b: int): int { if a < b then a else b }
  function Max(a: int, b: int): int { if a < b then b else a }

  /** For a page number of 1 or more the page is the contiguous block of the
      selection that starts at index `(page - 1) * 10`, and holds
      `min(10, max(0, n - (page - 1) * 10))` items. */
  lemma PageWindow<T>(selection: seq<T>, page: int)
    requires page >= 1
    ensures IsWindow(Paginate(selection, page), selection, page)
  {
  }

  /** `items` is page number `page` of `selection`: the block of
      `min(10, max(0, n - start))` items that starts at index
      `start = (page - 1) * 10`. */
  ghost predicate IsWindow<T>(items: seq<T>, selection: seq<T>, page: int) {
    var start := (page - 1) * QuestionsPerPage;
    && 0 <= start
    && |items| == Min(QuestionsPerPage, Max(0, |selection| - start))
    && forall k :: 0 <= k < |items| ==> start + k < |selection| && items[k] == selection[start + k]
  }

  /** A page of 1 or more is non-empty exactly when it starts inside the selection. */
  lemma PageNonEmptyIff<T>(selection: seq<T>, page: int)
    requires page >= 1
    ensures |Paginate(selection, page)| > 0 <==> (page - 1) * QuestionsPerPage < |selection|
  {
    PageWindow(selection, page);
  }

  /** Page 0 is the slice `[-10:0]`, which is always empty. */
  lemma PageZeroEmpty<T>(selection: seq<T>)
    ensures Paginate(selection, 0) == []
  {
  }

  /** A negative page counts back from the end of the selection: page -1 is
      `[-20:-10]`, i.e. the ten items before the last ten. */
  lemma NegativePage<T>(selection: seq<T>, page: int)
    requires page < 0
    ensures var n, start := |selection|, (page - 1) * QuestionsPerPage;
            Paginate(selection, page)
              == selection[Max(0, n + start)..Max(0, n + start + QuestionsPerPage)]
  {
  }

  /** Concretely, page -1 of 25 questions is questions 5 to 14. */
  lemma PageMinusOneOf25<T>(selection: seq<T>)
    requires |selection| == 25
    ensures Paginate(selection, -1) == selection[5..15]
  {
  }

  /** A page of an id-ordered selection is id-ordered. */
  lemma PageIdOrdered(selection: seq<Question>, page: int)
    requires IdOrdered(selection)
    ensures IdOrdered(Paginate(selection, page))
  {
  }

  /** A question appended to a selection of `n` questions is on page `n / 10 + 1`. */
  lemma {:induction false} AppendedOnLastPage<T>(selection: seq<T>, x: T)
    ensures var s, page := selection + [x], |selection| / QuestionsPerPage + 1;
            && |Paginate(s, page)| > 0
            && Paginate(s, page)[|Paginate(s, page)| - 1] == x
            && Paginate(s, page + 1) == []
  {
    var s := selection + [x];
    var page := |selection| / QuestionsPerPage + 1;
    var start := (page - 1) * QuestionsPerPage;
    PageWindow(s, page);
    PageWindow(s, page + 1);
    assert |Paginate(s, page)| == |s| - start;
  }

  // ---------------------------------------------------------------------
  // format_categories
  // ---------------------------------------------------------------------

  /** What the listing routes rely on about one page of questions. */
  lemma PageFacts(selection: seq<Question>, page: int)
    ensures page >= 1 ==> IsWindow(Paginate(selection, page), selection, page)
    ensures page >= 1 ==>
              (|Paginate(selection, page)| > 0 <==> (page - 1) * QuestionsPerPage < |selection|)
    ensures IdOrdered(selection) ==> IdOrdered(Paginate(selection, page))
  {
    if page >= 1 {
      PageWindow(selection, page);
      PageNonEmptyIff(selection, page);
    }
    if IdOrdered(selection) {
      PageIdOrdered(selection, page);
    }
  }

  /** The identifiers of a list of categories. */
  function CategoryIds(cats: seq<Category>): set<int> {
    set c | c in cats :: c.id
  }

  /** The dictionary `format_categories` builds: insertions in list order,
      so a later category overwrites an earlier one with the same id. */
  function CategoriesMap(cats: seq<Category>): (r: map<int, string>)
    ensures r.Keys == CategoryIds(cats)
    decreases |cats|
  {
    if |cats| == 0 then map[]
    else
      var init, last := cats[..|cats| - 1], cats[|cats| - 1];
      assert cats == init + [last];
      CategoriesMap(init)[last.id := last.name]
  }

  /** The map is empty exactly when there are no categories. */
  lemma CategoriesMapEmptyIff(cats: seq<Category>)
    ensures |CategoriesMap(cats)| == 0 <==> |cats| == 0
  {
  }

  /** Each id maps to the type of the last category in the list with that id. */
  lemma {:induction false} CategoriesMapLastWins(cats: seq<Category>, i: nat)
    requires i < |cats|
    requires forall j :: i < j < |cats| ==> cats[j].id != cats[i].id
    ensures CategoriesMap(cats)[cats[i].id] == cats[i].name
    decreases |cats|
  {
    if i < |cats| - 1 {
      var init := cats[..|cats| - 1];
      assert init[i] == cats[i];
      CategoriesMapLastWins(init, i);
    }
  }

  /** For the id-ordered category table, every category's id maps to its own type. */
  lemma CategoriesMapOrdered(cats: seq<Category>)
    requires CategoryIdOrdered(cats)
    ensures forall i :: 0 <= i < |cats| ==> CategoriesMap(cats)[cats[i].id] == cats[i].name
  {
    forall i | 0 <= i < |cats| ensures CategoriesMap(cats)[cats[i].id] == cats[i].name {
      CategoriesMapLastWins(cats, i);
    }
  }

  /** What the category routes rely on about the formatted dictionary. */
  lemma MapFacts(cats: seq<Category>)
    ensures |CategoriesMap(cats)| == 0 <==> |cats| == 0
    ensures CategoryIdOrdered(cats) ==>
              forall i :: 0 <= i < |cats| ==> CategoriesMap(cats)[cats[i].id] == cats[i].name
  {
    CategoriesMapEmptyIff(cats);
    if CategoryIdOrdered(cats) {
      CategoriesMapOrdered(cats);
    }
  }

  /** `format_categories`: fill a dictionary with one entry per category. */
  method FormatCategories(categories: seq<Category>) returns (formatted: map<int, string>)
    ensures formatted == CategoriesMap(categories)
    ensures formatted.Keys == CategoryIds(categories)
  {
    formatted := map[];
    var i := 0;
    while i < |categories|
      invariant 0 <= i <= |categories|
      invariant formatted == CategoriesMap(categories[..i])
    {
      var category := categories[i];
      assert categories[..i + 1][..i] == categories[..i];
      formatted := formatted[category.id := category.name];
      i := i + 1;
    }
    assert categories[..i] == categories;
  }
}
