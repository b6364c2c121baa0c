/** The request handlers of the trivia question service (`flaskr`). The
    read-only endpoints are functions of the two tables; the endpoints that
    change the question table are methods of `Store`. Every handler answers
    either `Success` with the JSON body's fields or `Abort` with the HTTP
    status that `abort(...)` raises. */
module Flaskr {
  import opened Models
  import opened Sql

  const QUESTIONS_PER_PAGE: nat := 10

  const NOT_FOUND := 404
  const UNPROCESSABLE := 422
  const INTERNAL_SERVER_ERROR := 500

  datatype Response<+T> = Success(body: T) | Abort(code: int)

  function Min(a: int, b: int): (m: int)
    ensures m <= a && m <= b && (m == a || m == b)
  {
    if a <= b then a else b
  }

  function Max(a: int, b: int): (m: int)
    ensures a <= m && b <= m && (m == a || m == b)
  {
    if a <= b then b else a
  }

  // ------------------------------------------------------------ pagination

  /** `request.args.get('page', 1, type=int)`: `None` stands for a missing
      argument and for one that `int()` cannot parse; both give page 1. */
  function PageNumber(arg: Option<int>): (p: int)
  {
    match arg
    case None => 1
    case Some(p) => p
  }

  /** How a Python slice bound `i` is normalised against a length `n`:
      negative bounds count from the end, and both ends are clamped. */
  function SliceBound(i: int, n: nat): (k: nat)
    ensures k <= n
  {
    if i < 0 then Max(i + n, 0) else Min(i, n)
  }

  /** Python's `s[start:end]`. */
  function PySlice<T>(s: seq<T>, start: int, end: int): (r: seq<T>)
    ensures |r| <= |s|
  {
    var lo, hi := SliceBound(start, |s|), SliceBound(end, |s|);
    if lo < hi then s[lo..hi] else []
  }

  /** Page `p` (p >= 1) of a listing: positions (p-1)*10 up to p*10,
      cut off at the end of the listing. */
  function PageWindow<T>(s: seq<T>, p: int): (w: seq<T>)
    requires p >= 1
    ensures |w| <= QUESTIONS_PER_PAGE
  {
    var lo := Min((p - 1) * QUESTIONS_PER_PAGE, |s|);
    s[lo..Min(p * QUESTIONS_PER_PAGE, |s|)]
  }

  /** `paginate_questions`: the requested page of `selection`. */
  function Paginate(page: Option<int>, selection: seq<Question>): (r: seq<Question>)
    ensures |r| <= QUESTIONS_PER_PAGE
    ensures PageNumber(page) >= 1 ==> r == PageWindow(selection, PageNumber(page))
    ensures PageNumber(page) == 0 ==> r == []
    ensures forall q :: q in r ==> q in selection
    ensures IdsIncreasing(selection) ==> IdsIncreasing(r)
  {
    var start := (PageNumber(page) - 1) * QUESTIONS_PER_PAGE;
    PySlice(selection, start, start + QUESTIONS_PER_PAGE)
  }

  /** A page that starts past the end of the listing is empty. */
  lemma PagePastEndIsEmpty(page: Option<int>, selection: seq<Question>)
    requires PageNumber(page) >= 1
    requires (PageNumber(page) - 1) * QUESTIONS_PER_PAGE >= |selection|
    ensures Paginate(page, selection) == []
  {
  }

  /** Every item of a listing is on page i / 10 + 1, at position i % 10. */
  lemma PageOfIndex(selection: seq<Question>, i: nat)
    requires i < |selection|
    ensures var page := Paginate(Some(i / QUESTIONS_PER_PAGE + 1), selection);
      i % QUESTIONS_PER_PAGE < |page| && page[i % QUESTIONS_PER_PAGE] == selection[i]
  {
    var p := i / QUESTIONS_PER_PAGE + 1;
    assert (p - 1) * QUESTIONS_PER_PAGE + i % QUESTIONS_PER_PAGE == i;
    assert i < p * QUESTIONS_PER_PAGE;
  }

  /** A negative page is neither page 1 nor empty: Python counts the slice
      bounds from the end of the listing. */
  lemma NegativePage(page: Option<int>, selection: seq<Question>)
    requires PageNumber(page) < 0
    ensures var p, n := PageNumber(page), |selection|;
      Paginate(page, selection)
        == selection[Max(n + (p - 1) * QUESTIONS_PER_PAGE, 0)..Max(n + p * QUESTIONS_PER_PAGE, 0)]
  {
  }

  /** With 15 questions, page -1 lists questions 0 to 4. */
  lemma NegativePageExample(selection: seq<Question>)
    requires |selection| == 15
    ensures Paginate(Some(-1), selection) == selection[..5]
    ensures Paginate(Some(-1), selection) != Paginate(Some(1), selection)
  {
    NegativePage(Some(-1), selection);
    assert |Paginate(Some(1), selection)| == 10;
  }

  // -------------------------------------------------------- GET /categories

  /** `{category.id: category.type for category in categories}`: a dict
      built left to right, so a later row overwrites an earlier one. */
  function CategoryMap(cs: seq<Category>): (m: map<int, string>)
    ensures m.Keys == set c | c in cs :: c.id
    ensures forall k :: k in m ==> Category(k, m[k]) in cs
  {
    if cs == [] then map[]
    else
      var init, last := cs[..|cs| - 1], cs[|cs| - 1];
      assert cs == init + [last];
      CategoryMap(init)[last.id := last.typeName]
  }

  /** The dict built from any listing of the same rows. */
  lemma CategoryMapOfSameRows(listed: seq<Category>, cats: seq<Category>)
    requires forall c :: c in listed <==> c in cats
    ensures CategoryMap(listed).Keys == set c | c in cats :: c.id
    ensures forall k :: k in CategoryMap(listed) ==> Category(k, CategoryMap(listed)[k]) in cats
    ensures UniqueCategoryIds(cats) ==>
      forall c :: c in cats ==> c.id in CategoryMap(listed) && CategoryMap(listed)[c.id] == c.typeName
  {
    var m := CategoryMap(listed);
    assert m.Keys == set c | c in cats :: c.id;
    if UniqueCategoryIds(cats) {
      forall c | c in cats ensures c.id in m && m[c.id] == c.typeName {
        assert c.id in m.Keys;
        var k :| 0 <= k < |cats| && cats[k] == c;
        var l :| 0 <= l < |cats| && cats[l] == Category(c.id, m[c.id]);
        assert k == l;
      }
    }
  }

  /** `get_categories`. */
  function GetCategories(cats: seq<Category>): (r: Response<map<int, string>>)
    ensures r.Abort? <==> cats == []
    ensures r.Abort? ==> r.code == NOT_FOUND
    ensures r.Success? ==> r.body.Keys == set c | c in cats :: c.id
    ensures r.Success? ==> forall k :: k in r.body ==> Category(k, r.body[k]) in cats
    ensures r.Success? && UniqueCategoryIds(cats) ==>
      forall c :: c in cats ==> r.body[c.id] == c.typeName
  {
    var categories := SortByType(cats);
    SameRows(categories, cats);
    if |categories| < 1 then Abort(NOT_FOUND)
    else
      CategoryMapOfSameRows(categories, cats);
      Success(CategoryMap(categories))
  }

  // --------------------------------------------------------- GET /questions

  datatype QuestionPage = QuestionPage(questions: seq<Question>, totalQuestions: int,
                                       currentCategory: Option<string>, categories: seq<string>)

  /** The category type names ordered by type. */
  function OrderedTypeNames(cats: seq<Category>): (names: seq<string>)
    ensures NamesSorted(names)
    ensures multiset(names) == multiset(TypeNames(cats))
  {
    TypeNames(SortByType(cats))
  }

  /** Any list of the type names in type order is this one. */
  lemma OrderedTypeNamesCanonical(cats: seq<Category>, names: seq<string>)
    requires NamesSorted(names) && multiset(names) == multiset(TypeNames(cats))
    ensures names == OrderedTypeNames(cats)
  {
    SortedNamesDetermined(names, OrderedTypeNames(cats));
  }

  /** `retrieve_questions`. `qs` is the question table as the store keeps
      it, in id order, which is what `order_by(Question.id)` lists. */
  function RetrieveQuestions(page: Option<int>, cats: seq<Category>, qs: seq<Question>)
    : (r: Response<QuestionPage>)
    requires IdsIncreasing(qs)
    ensures r.Abort? <==> qs == []
    ensures r.Abort? ==> r.code == NOT_FOUND
    ensures r.Success? ==> r.body.questions == Paginate(page, qs)
    ensures r.Success? ==> r.body.totalQuestions == |qs| && r.body.currentCategory == None
    ensures r.Success? ==> NamesSorted(r.body.categories)
    ensures r.Success? ==> multiset(r.body.categories) == multiset(TypeNames(cats))
  {
    var currentQuestions := Paginate(page, qs);
    var categories := OrderedTypeNames(cats);
    if |qs| < 1 then Abort(NOT_FOUND)
    else Success(QuestionPage(currentQuestions, |qs|, None, categories))
  }

  /** On a non-empty table, a page past the end is a success with no
      questions, not a 404. */
  lemma RetrievePastEndSucceeds(page: Option<int>, cats: seq<Category>, qs: seq<Question>)
    requires IdsIncreasing(qs) && qs != []
    requires PageNumber(page) >= 1 && (PageNumber(page) - 1) * QUESTIONS_PER_PAGE >= |qs|
    ensures RetrieveQuestions(page, cats, qs) == Success(QuestionPage([], |qs|, None, OrderedTypeNames(cats)))
  {
    PagePastEndIsEmpty(page, qs);
  }

  // ------------------------------------------- GET /categories/<id>/questions

  datatype CategoryPage = CategoryPage(questions: seq<Question>, totalQuestions: int,
                                       currentCategory: string)

  function CategoriesWithId(cats: seq<Category>, id: int): (r: seq<Category>)
    ensures forall c :: c in r <==> c in cats && c.id == id
  {
    Where(cats, (c: Category) => c.id == id)
  }

  /** `Question.category == category_id`, in id order. */
  function QuestionsInCategory(qs: seq<Question>, categoryId: int): (r: seq<Question>)
    ensures forall q :: q in r <==> q in qs && q.category == Some(categoryId)
    ensures IdsIncreasing(qs) ==> IdsIncreasing(r)
  {
    var keep := (q: Question) => q.category == Some(categoryId);
    assert IdsIncreasing(qs) ==> IdsIncreasing(Where(qs, keep)) by {
      if IdsIncreasing(qs) { WhereKeepsIdOrder(qs, keep); }
    }
    Where(qs, keep)
  }

  /** `get_questions_by_category`. The route only matches non-negative
      integers, so the index is a `nat`; the client numbers categories from
      0 and the table from 1, hence `index + 1`. `one_or_none` raises
      outside any `try` when two categories share the id. `qs` is the
      question table in id order, which is what `order_by(Question.id)`
      lists. */
  function QuestionsByCategory(index: nat, page: Option<int>, cats: seq<Category>,
                               qs: seq<Question>): (r: Response<CategoryPage>)
    requires IdsIncreasing(qs)
    ensures CategoriesWithId(cats, index + 1) == [] ==> r == Abort(NOT_FOUND)
    ensures |CategoriesWithId(cats, index + 1)| > 1 ==> r == Abort(INTERNAL_SERVER_ERROR)
    ensures |CategoriesWithId(cats, index + 1)| == 1 ==>
      (r == Abort(NOT_FOUND) <==> Paginate(page, QuestionsInCategory(qs, index + 1)) == [])
    ensures r.Abort? ==> r.code == NOT_FOUND || r.code == INTERNAL_SERVER_ERROR
    ensures r.Success? ==> Category(index + 1, r.body.currentCategory) in cats
    ensures r.Success? ==> r.body.questions == Paginate(page, QuestionsInCategory(qs, index + 1))
    ensures r.Success? ==> 0 < r.body.totalQuestions == |r.body.questions| <= QUESTIONS_PER_PAGE
    ensures r.Success? ==> forall q :: q in r.body.questions ==> q in qs && q.category == Some(index + 1)
    ensures r.Success? ==> IdsIncreasing(r.body.questions)
  {
    var categoryId := index + 1;
    var found := CategoriesWithId(cats, categoryId);
    if |found| == 0 then Abort(NOT_FOUND)
    else if |found| > 1 then Abort(INTERNAL_SERVER_ERROR)
    else
      assert found[0] in found;
      var currentQuestions := Paginate(page, QuestionsInCategory(qs, categoryId));
      if |currentQuestions| == 0 then Abort(NOT_FOUND)
      else Success(CategoryPage(currentQuestions, |currentQuestions|, found[0].typeName))
  }

  lemma {:induction false} UniqueIdFindsAtMostOne(cats: seq<Category>, id: int)
    requires UniqueCategoryIds(cats)
    ensures |CategoriesWithId(cats, id)| <= 1
  {
    if cats != [] {
      var tail := cats[1..];
      assert UniqueCategoryIds(tail);
      UniqueIdFindsAtMostOne(tail, id);
      if cats[0].id == id {
        forall x | x in tail ensures x.id != id {
          var k :| 0 <= k < |tail| && tail[k] == x;
          assert cats[k + 1] == x;
        }
        WhereNone(tail, (c: Category) => c.id == id);
        assert CategoriesWithId(cats, id) == [cats[0]] + CategoriesWithId(tail, id);
      } else {
        assert CategoriesWithId(cats, id) == CategoriesWithId(tail, id);
      }
    }
  }

  /** With the category id a primary key, listing by category answers
      either a page of questions or 404. */
  lemma QuestionsByCategoryCodes(index: nat, page: Option<int>, cats: seq<Category>, qs: seq<Question>)
    requires UniqueCategoryIds(cats) && IdsIncreasing(qs)
    ensures var r := QuestionsByCategory(index, page, cats, qs);
      r.Abort? ==> r.code == NOT_FOUND
  {
    UniqueIdFindsAtMostOne(cats, index + 1);
  }

  /** Two category rows with the looked-up id make `one_or_none` raise, so
      the listing answers 500 whatever the page. */
  lemma SharedIdAborts(index: nat, page: Option<int>, cats: seq<Category>, qs: seq<Question>,
                       i: nat, j: nat)
    requires IdsIncreasing(qs)
    requires i < j < |cats| && cats[i].id == index + 1 && cats[j].id == index + 1
    ensures QuestionsByCategory(index, page, cats, qs) == Abort(INTERNAL_SERVER_ERROR)
  {
    TwoKeptRows(cats, (c: Category) => c.id == index + 1, i, j);
  }

  /** Every question of the category appears on the page that its rank
      among the category's questions selects. */
  lemma CategoryListingComplete(index: nat, cats: seq<Category>, qs: seq<Question>, k: nat)
    requires IdsIncreasing(qs)
    requires |CategoriesWithId(cats, index + 1)| == 1
    requires k < |QuestionsInCategory(qs, index + 1)|
    ensures var r := QuestionsByCategory(index, Some(k / QUESTIONS_PER_PAGE + 1), cats, qs);
      r.Success? && r.body.questions[k % QUESTIONS_PER_PAGE] == QuestionsInCategory(qs, index + 1)[k]
  {
    PageOfIndex(QuestionsInCategory(qs, index + 1), k);
  }

  // -------------------------------------------------------- POST /quizzes

  /** Questions not yet asked, restricted to the quiz category when its id
      is at least 1. */
  function QuizCandidates(qs: seq<Question>, previous: seq<int>, categoryId: int)
    : (r: seq<Question>)
    ensures forall q :: q in r <==>
      q in qs && q.id !in previous && (categoryId >= 1 ==> q.category == Some(categoryId))
  {
    if categoryId < 1 then Where(qs, (q: Question) => q.id !in previous)
    else Where(qs, (q: Question) => q.id !in previous && q.category == Some(categoryId))
  }

  /** `generate_random_quiz`. `quizCategory` is `quiz_category['id']`;
      `None` stands for every body where that lookup or the comparison
      with 1 raises. `random.choice` is the `pick`-th candidate, counted
      round the candidate list. */
  function RandomQuiz(qs: seq<Question>, previous: seq<int>, quizCategory: Option<int>,
                      pick: nat): (r: Response<Question>)
    ensures quizCategory.None? ==> r == Abort(UNPROCESSABLE)
    ensures quizCategory.Some? ==> (r.Abort? <==>
      forall q :: q in qs ==>
        q.id in previous || (quizCategory.value >= 1 && q.category != Some(quizCategory.value)))
    ensures r.Abort? ==> r.code == UNPROCESSABLE
    ensures r.Success? ==> r.body in qs && r.body.id !in previous
    ensures r.Success? && quizCategory.value >= 1 ==> r.body.category == Some(quizCategory.value)
  {
    match quizCategory
    case None => Abort(UNPROCESSABLE)
    case Some(categoryId) =>
      var questions := QuizCandidates(qs, previous, categoryId);
      if questions == [] then
        // `None.format()` raises inside the `try`
        Abort(UNPROCESSABLE)
      else
        assert questions[0] in questions;
        var question := questions[pick % |questions|];
        assert question in questions;
        Success(question)
  }

  lemma ModOfSmaller(k: nat, n: nat)
    requires k < n
    ensures k % n == k
  {
  }

  lemma RandomQuizAnswersPick(qs: seq<Question>, previous: seq<int>, categoryId: int, pick: nat)
    requires QuizCandidates(qs, previous, categoryId) != []
    ensures var questions := QuizCandidates(qs, previous, categoryId);
      RandomQuiz(qs, previous, Some(categoryId), pick) == Success(questions[pick % |questions|])
  {
  }

  /** Every question not yet asked (and of the quiz category, when one is
      chosen) is the answer for some outcome of the random choice. */
  lemma QuizCanPickAnyCandidate(qs: seq<Question>, previous: seq<int>, categoryId: int, q: Question)
    requires q in qs && q.id !in previous
    requires categoryId >= 1 ==> q.category == Some(categoryId)
    ensures exists pick: nat :: RandomQuiz(qs, previous, Some(categoryId), pick) == Success(q)
  {
    var questions := QuizCandidates(qs, previous, categoryId);
    var k: nat :| k < |questions| && questions[k] == q;
    ModOfSmaller(k, |questions|);
    RandomQuizAnswersPick(qs, previous, categoryId, k);
    assert RandomQuiz(qs, previous, Some(categoryId), k) == Success(q);
  }

  // ---------------------------------------------- the question table

  /** `question_id == Question.id` with `one_or_none`, as a position. */
  function FindQuestion(qs: seq<Question>, id: int): (r: Option<nat>)
    ensures r.Some? ==> r.value < |qs| && qs[r.value].id == id
    ensures r.None? <==> !HasQuestion(qs, id)
  {
    if qs == [] then None
    else if qs[0].id == id then Some(0)
    else
      match FindQuestion(qs[1..], id)
      case None =>
        assert forall q :: q in qs ==> q == qs[0] || q in qs[1..];
        None
      case Some(k) =>
        assert qs[1..][k] in qs;
        Some(k + 1)
  }

  /** The question table without the row whose id is `id`. */
  function WithoutId(qs: seq<Question>, id: int): (r: seq<Question>)
    ensures forall q :: q in r <==> q in qs && q.id != id
  {
    Where(qs, (q: Question) => q.id != id)
  }

  lemma WithoutIdCons(qs: seq<Question>, id: int)
    requires qs != [] && qs[0].id != id
    ensures WithoutId(qs, id) == [qs[0]] + WithoutId(qs[1..], id)
  {
  }

  lemma WithoutFirstId(qs: seq<Question>)
    requires IdsIncreasing(qs) && qs != []
    ensures WithoutId(qs, qs[0].id) == qs[1..]
  {
    var id := qs[0].id;
    forall q | q in qs[1..] ensures q.id != id {
      var k :| 0 <= k < |qs[1..]| && qs[1..][k] == q;
      assert qs[k + 1] == q;
    }
    assert WithoutId(qs, id) == Where(qs[1..], (q: Question) => q.id != id);
    WhereAll(qs[1..], (q: Question) => q.id != id);
  }

  lemma TailIdsIncreasing(qs: seq<Question>)
    requires IdsIncreasing(qs) && qs != []
    ensures IdsIncreasing(qs[1..])
  {
  }

  lemma RemoveAtCons<T>(s: seq<T>, i: nat)
    requires 0 < i < |s|
    ensures s[..i] + s[i + 1..] == [s[0]] + (s[1..][..i - 1] + s[1..][i..])
  {
  }

  lemma {:induction false} RemoveAtIsWithoutId(qs: seq<Question>, i: nat)
    requires IdsIncreasing(qs) && i < |qs|
    ensures qs[..i] + qs[i + 1..] == WithoutId(qs, qs[i].id)
  {
    var id := qs[i].id;
    if i == 0 {
      WithoutFirstId(qs);
      assert qs[..i] == [];
      assert qs[..i] + qs[i + 1..] == qs[1..];
    } else {
      var tail := qs[1..];
      TailIdsIncreasing(qs);
      RemoveAtIsWithoutId(tail, i - 1);
      assert tail[i - 1] == qs[i];
      WithoutIdCons(qs, id);
      RemoveAtCons(qs, i);
    }
  }

  /** Deleting an existing id removes exactly one row and keeps the id
      order; deleting an absent id changes nothing. */
  lemma DeleteRemovesExactlyOne(qs: seq<Question>, id: int)
    requires IdsIncreasing(qs)
    ensures HasQuestion(qs, id) ==> |WithoutId(qs, id)| == |qs| - 1
    ensures !HasQuestion(qs, id) ==> WithoutId(qs, id) == qs
    ensures IdsIncreasing(WithoutId(qs, id))
  {
    WhereKeepsIdOrder(qs, (q: Question) => q.id != id);
    match FindQuestion(qs, id)
    case Some(i) => RemoveAtIsWithoutId(qs, i);
    case None => WhereAll(qs, (q: Question) => q.id != id);
  }

  // ----------------------------------------------------- POST /questions

  /** The JSON body of `POST /questions`; every field may be absent. */
  datatype QuestionBody = QuestionBody(question: Option<string>, answer: Option<string>,
                                       difficulty: Option<int>, category: Option<int>,
                                       searchTerm: Option<string>)

  datatype PostResult = SearchResult(questions: seq<Question>, totalQuestions: int) | Created

  /** The search branch: `Question.question.ilike('%term%')`. */
  function Search(qs: seq<Question>, term: string): (r: PostResult)
    ensures r.SearchResult?
    ensures forall q :: q in r.questions <==> q in qs && ILike(q.question, term)
    ensures forall q ::
              multiset(r.questions)[q] == if ILike(q.question, term) then multiset(qs)[q] else 0
    ensures r.totalQuestions == |r.questions| <= |qs|
    ensures IdsIncreasing(qs) ==> IdsIncreasing(r.questions)
  {
    var keep := (q: Question) => ILike(q.question, term);
    WhereCounts(qs, keep);
    assert IdsIncreasing(qs) ==> IdsIncreasing(Where(qs, keep)) by {
      if IdsIncreasing(qs) { WhereKeepsIdOrder(qs, keep); }
    }
    var questions := Where(qs, keep);
    SearchResult(questions, |questions|)
  }

  /** An empty search term lists the whole table. */
  lemma SearchEmptyTermListsAll(qs: seq<Question>)
    ensures Search(qs, "") == SearchResult(qs, |qs|)
  {
    forall q | q in qs ensures ILike(q.question, "") {
      EmptyTermMatchesAll(q.question);
    }
    WhereAll(qs, (q: Question) => ILike(q.question, ""));
  }

  /** Searching for a question's own text, in any case, finds it. */
  lemma SearchExample()
    ensures var q := Question(5, "Who discovered penicillin?", "Fleming", Some(1), Some(2));
      Search([q], "who discovered PENICILLIN") == SearchResult([q], 1)
  {
    var q := Question(5, "Who discovered penicillin?", "Fleming", Some(1), Some(2));
    assert OccursAt(LowerString("who discovered PENICILLIN"), LowerString(q.question), 0);
    var keep := (x: Question) => ILike(x.question, "who discovered PENICILLIN");
    assert Where([q], keep) == [q] + Where([q][1..], keep);
  }

  /** The two tables, with the question table's id sequence. */
  class Store {
    var categories: seq<Category>
    var questions: seq<Question>
    /** The next value of the question table's serial id. */
    var nextId: int

    ghost predicate Valid()
      reads this
    {
      && UniqueCategoryIds(categories)
      && IdsIncreasing(questions)
      && forall q :: q in questions ==> q.id < nextId
    }

    constructor (categories: seq<Category>, questions: seq<Question>, nextId: int)
      requires UniqueCategoryIds(categories)
      requires IdsIncreasing(questions)
      requires forall q :: q in questions ==> q.id < nextId
      ensures Valid()
      ensures this.categories == categories && this.questions == questions && this.nextId == nextId
    {
      this.categories := categories;
      this.questions := questions;
      this.nextId := nextId;
    }

    /** `delete_question`. A missing id raises `abort(404)` inside the
        `try`, and the bare `except` turns it into 422. */
    method DeleteQuestion(questionId: int) returns (r: Response<int>)
      requires Valid()
      modifies this
      ensures Valid()
      ensures categories == old(categories) && nextId == old(nextId)
      ensures questions == WithoutId(old(questions), questionId)
      ensures HasQuestion(old(questions), questionId) ==>
        r == Success(questionId) && |questions| == |old(questions)| - 1
      ensures !HasQuestion(old(questions), questionId) ==>
        r == Abort(UNPROCESSABLE) && questions == old(questions)
    {
      DeleteRemovesExactlyOne(questions, questionId);
      match FindQuestion(questions, questionId)
      case None =>
        r := Abort(UNPROCESSABLE);
      case Some(i) =>
        RemoveAtIsWithoutId(questions, i);
        questions := questions[..i] + questions[i + 1..];
        r := Success(questionId);
    }

    /** `create_or_search_question`: a search when `searchTerm` is present,
        otherwise an insert that needs both `question` and `answer`. */
    method CreateOrSearchQuestion(body: QuestionBody) returns (r: Response<PostResult>)
      requires Valid()
      modifies this
      ensures Valid()
      ensures categories == old(categories)
      ensures body.searchTerm.Some? ==>
        r == Success(Search(old(questions), body.searchTerm.value))
        && questions == old(questions) && nextId == old(nextId)
      ensures body.searchTerm.None? && (body.question.None? || body.answer.None?) ==>
        r == Abort(UNPROCESSABLE) && questions == old(questions) && nextId == old(nextId)
      ensures body.searchTerm.None? && body.question.Some? && body.answer.Some? ==>
        && r == Success(Created)
        && !HasQuestion(old(questions), old(nextId))
        && questions == old(questions) + [Question(old(nextId), body.question.value,
                                                   body.answer.value, body.category,
                                                   body.difficulty)]
        && nextId == old(nextId) + 1
    {
      if body.searchTerm.Some? {
        r := Success(Search(questions, body.searchTerm.value));
        return;
      }
      if body.answer.None? || body.question.None? {
        r := Abort(UNPROCESSABLE);
        return;
      }
      var question := Question(nextId, body.question.value, body.answer.value,
                               body.category, body.difficulty);
      questions := questions + [question];
      nextId := nextId + 1;
      r := Success(Created);
    }
  }
}
