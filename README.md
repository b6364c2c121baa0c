# Trivia question service, modelled in Dafny

The trivia API keeps two tables, `Category {id, type}` and
`Question {id, question, answer, category, difficulty}`, and serves six
endpoints over them: list categories, list questions a page at a time,
delete a question, create-or-search questions (one endpoint, chosen by the
presence of `searchTerm`), list the questions of one category, and pick a
random quiz question not asked before. This project models the request
handlers of `backend/flaskr/__init__.py` and proves what each one answers.

- `models.dfy` (module `Models`): the two row types. `type` is a keyword
  in Dafny, so the category column is `typeName`. `category` and
  `difficulty` are nullable (`Option<int>`), because the create endpoint
  stores nulls. A question's wire format is exactly its five fields, so a
  row stands for its own formatted record.
- `sql.dfy` (module `Sql`): the query semantics the handlers use. These
  are a WHERE filter (`Where`) that keeps table order, `ILIKE '%term%'`
  as ASCII-case-insensitive substring search (`ILike`), and
  `ORDER BY type` as a sort of the categories by type name (`SortByType`).
- `flaskr.dfy` (module `Flaskr`): pagination and the six handlers. The
  read-only handlers are functions of the two tables. Delete and create
  change the question table in place, so they are methods of the class
  `Store`. Its `Valid()` invariant says that no two categories share an
  id (the primary key), that the questions are kept in strictly
  increasing id order, and that every id is below `nextId`, the table's
  serial id sequence. The read-only handlers take the question table in
  that id order, which is the order `order_by(Question.id)` lists it in. Every handler returns
  `Success(body)` or `Abort(code)`, where `code` is the HTTP status that
  `abort(...)` raises.

Inputs that reach the handlers in other forms are modelled as follows:

- The `page` query argument is an `Option<int>`. `None` means absent or
  not parseable by `int()`, and both give page 1.
- `quiz_category['id']` is an `Option<int>`. `None` stands for every body
  where that lookup raises.
- `random.choice` is the parameter `pick`. The handler answers candidate
  number `pick % |candidates|`.

Three behaviours of the code differ from what the API's error conventions
suggest, and the model follows the code:

- A non-positive page does not act as page 1. Python slicing makes page 0
  empty (`Paginate`), and a negative page is a window counted from the
  end of the listing (`NegativePage`, `NegativePageExample`).
- Deleting an absent id answers 422, not 404. The `abort(404)` is raised
  inside the `try`, and the bare `except` turns it into `abort(422)`.
- A quiz with no candidates left answers 422, not a null question.
  `None.format()` raises inside the `try`.

## Model

| member | source | states |
|---|---|---|
| `Sql.Where` | backend/flaskr/__init__.py:112 | a filter returns exactly the rows of the table that satisfy the condition, and no more rows than the table |
| `Sql.WhereCounts` | backend/flaskr/__init__.py:86-91 | a filter returns each accepted row exactly as many times as the table holds it and each rejected row never, so its length is the number of matching rows |
| `Sql.WhereKeepsIdOrder` | backend/flaskr/__init__.py:112 | filtering a table listed in id order leaves the result in id order |
| `Sql.Contains` | backend/flaskr/__init__.py:86 | substring search answers true exactly when the pattern occurs at some position of the text |
| `Sql.EmptyTermMatchesAll` | backend/flaskr/__init__.py:86 | `ILIKE '%%'`: an empty search term matches every question text |
| `Sql.ILikeIgnoresCase` | backend/flaskr/__init__.py:86 | matching gives the same answer after lower-casing both the text and the term |
| `Sql.SortByType` | backend/flaskr/__init__.py:37 | `ORDER BY type` returns the same categories (as a multiset), in non-decreasing type order |
| `Sql.SortedNamesDetermined` | backend/flaskr/__init__.py:49-59 | two type-ordered lists of the same names are equal, so the names list does not depend on how ties are broken |
| `Flaskr.Paginate` | backend/flaskr/__init__.py:12-19 | a page holds at most 10 questions, all from the selection; for page p >= 1 it is positions (p-1)*10 up to min(p*10, length); page 0 is empty; missing or unparsable page is page 1; id order is kept |
| `Flaskr.PagePastEndIsEmpty` | backend/flaskr/__init__.py:14-18 | a page starting past the end of the selection is empty |
| `Flaskr.PageOfIndex` | backend/flaskr/__init__.py:14-18 | every question of the selection is on page i/10+1 at position i%10, so the pages cover the selection |
| `Flaskr.NegativePage` | backend/flaskr/__init__.py:13-18 | a negative page p is the slice from n+(p-1)*10 to n+p*10 (clamped at 0), counted from the end |
| `Flaskr.NegativePageExample` | backend/flaskr/__init__.py:13-18 | with 15 questions, page -1 lists the first five, which is not page 1 |
| `Flaskr.CategoryMap` | backend/flaskr/__init__.py:42 | the id-to-type dict has exactly the category ids as keys, and every entry is a stored category row |
| `Flaskr.GetCategories` | backend/flaskr/__init__.py:35-43 | 404 exactly when there are no categories; otherwise a map whose keys are all category ids, each mapped to that category's type when ids are unique |
| `Flaskr.OrderedTypeNames` | backend/flaskr/__init__.py:49-59 | the `categories` list is every type name (as a multiset) in type order |
| `Flaskr.OrderedTypeNamesCanonical` | backend/flaskr/__init__.py:49-59 | any type-ordered list of the category names is the one the handler returns |
| `Flaskr.RetrieveQuestions` | backend/flaskr/__init__.py:45-60 | on the question table in id order (`order_by(Question.id)`): 404 exactly when it is empty; otherwise the requested page of it, `total_questions` equal to the whole table's size, null `current_category`, and the sorted type names |
| `Flaskr.RetrievePastEndSucceeds` | backend/flaskr/__init__.py:47-60 | on a non-empty table a page past the end is a success with no questions, not a 404 |
| `Flaskr.CategoriesWithId` | backend/flaskr/__init__.py:109 | the lookup returns exactly the category rows with the given id |
| `Flaskr.QuestionsInCategory` | backend/flaskr/__init__.py:112 | the selection is exactly the questions whose category is the given id, kept in id order |
| `Flaskr.QuestionsByCategory` | backend/flaskr/__init__.py:105-122 | on the question table in id order, looks up category index+1: missing gives 404, a duplicated id 500, an empty page 404; on success every question has that category and comes from the table, the page is the paginated id-ordered selection, `total_questions` is the page length (1 to 10), and `current_category` is that category's type |
| `Flaskr.UniqueIdFindsAtMostOne` | backend/flaskr/__init__.py:109 | when category ids are unique, `one_or_none` finds at most one row |
| `Flaskr.SharedIdAborts` | backend/flaskr/__init__.py:108-109 | when two category rows carry the looked-up id, `one_or_none` raises and the listing answers 500 for every page |
| `Flaskr.QuestionsByCategoryCodes` | backend/flaskr/__init__.py:109-116 | with unique category ids the only failure code of the category listing is 404 |
| `Flaskr.CategoryListingComplete` | backend/flaskr/__init__.py:112-113 | every question of the category is listed on the page its rank selects |
| `Flaskr.QuizCandidates` | backend/flaskr/__init__.py:132-138 | candidates are exactly the questions whose id is not in `previous_questions`, restricted to the category when its id is at least 1 |
| `Flaskr.RandomQuiz` | backend/flaskr/__init__.py:124-147 | a missing or unusable quiz category gives 422; otherwise 422 exactly when every question is excluded; a chosen question is stored, never previously asked, and of the quiz category when its id is at least 1 |
| `Flaskr.QuizCanPickAnyCandidate` | backend/flaskr/__init__.py:139-141 | every question not yet asked, and of the quiz category when its id is at least 1, is the answer for some outcome of the random choice |
| `Flaskr.FindQuestion` | backend/flaskr/__init__.py:65 | the lookup finds a position holding the id, or reports none exactly when no question has it |
| `Flaskr.WithoutId` | backend/flaskr/__init__.py:68 | after deletion the table holds exactly the questions whose id differs from the deleted one |
| `Flaskr.RemoveAtIsWithoutId` | backend/flaskr/__init__.py:68 | in an id-ordered table, cutting out position i is the same as removing the rows with id qs[i].id |
| `Flaskr.DeleteRemovesExactlyOne` | backend/flaskr/__init__.py:65-68 | deleting a present id shrinks the table by exactly one; deleting an absent id changes nothing; id order is kept |
| `Flaskr.Search` | backend/flaskr/__init__.py:85-92 | the search result is exactly the questions whose text contains the term ignoring case, each as often as the table holds it, so `total_questions` is the number of matching questions; on an id-ordered table it lists them in id order (an order the model chooses) |
| `Flaskr.SearchEmptyTermListsAll` | backend/flaskr/__init__.py:86-92 | an empty search term lists the whole table |
| `Flaskr.SearchExample` | backend/test_flaskr.py:107-113 | searching for a prefix of a question's text, with the case of some letters changed, finds it, with a total of 1 |
| `Flaskr.Store.DeleteQuestion` | backend/flaskr/__init__.py:62-74 | a present id is removed, and only that row; the answer carries the id and categories are unchanged; an absent id gives 422 and leaves the store unchanged |
| `Flaskr.Store.CreateOrSearchQuestion` | backend/flaskr/__init__.py:76-103 | a present `searchTerm` wins and answers the search with the store unchanged; otherwise a missing `question` or `answer` gives 422 with the store unchanged; otherwise exactly one row with a fresh id and the given question, answer, category and difficulty is appended |

## Left out

- App construction, `setup_db`, CORS set-up and headers
  (`backend/flaskr/__init__.py:22-33`). These are framework plumbing.
- The error handlers' bodies (`backend/flaskr/__init__.py:149-188`). They
  are a fixed table from code to message; the model returns the code.
- HTTP routing. Trailing-slash URLs, wrong methods and negative path
  integers are refused by the router before any handler runs. The
  category index is therefore a `nat`.
- JSON parsing. The model does not cover a body that is not an object,
  non-string `question`/`answer`/`searchTerm` values, non-integer
  `category`/`difficulty` values in the create body, a non-integer quiz
  category id, or null and non-integer elements of `previous_questions`
  (with a null in the list, `notin_` compares against NULL, no question
  is a candidate, and the quiz answers 422).
- A missing or null `previous_questions`. Its result depends on how the
  ORM treats `notin_(None)`, so the list is a required input.
- Store failures. The model's tables never fail. In the program,
  `delete_question`, `create_or_search_question` and
  `generate_random_quiz` turn a failure into 422 through their `try`
  blocks; `get_categories`, `retrieve_questions` and
  `get_questions_by_category` have no `try`, so a failure there answers
  500.
- The `models` module, which is not part of this model. `Question.format()`
  is taken as the identity over the five fields, `insert()` as appending
  a row whose id is the next serial value, and `delete()` as removing the
  row. `Question.category` is taken to be an integer column.
- Sql.ILike: the `%` and `_` wildcards and the backslash escape
  character inside a search term are treated as literal characters, and
  case folding is ASCII only (no Unicode case folding).
- Sql.SortByType: the database collation is modelled as code-point
  lexicographic order.
- Flaskr.Search: the query has no ORDER BY, so the program promises no
  order. The model lists matches in table order; the id order that
  `Search` ensures on an id-ordered table is a property of the model,
  not a promise of the program.
- Flaskr.RandomQuiz: does not state that `random.choice` is uniform. It
  proves only that the pick is a candidate and that every candidate can
  be picked.
- Flaskr.Paginate: the text of the `page` argument is not parsed. The
  argument arrives as the integer `int()` would give, or as absent.
