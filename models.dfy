/** The two tables the trivia service works on. The `models` module that
    defines them in the program is not part of this model; its
    rows are described here by the columns the handlers use. */
module Models {

  datatype Option<+T> = None | Some(value: T)

  /** A row of the category table. The column is called `type` in the
      program; `type` is a keyword here, hence `typeName`. */
  datatype Category = Category(id: int, typeName: string)

  /** A row of the question table. `category` and `difficulty` are nullable
      columns: the create endpoint stores whatever the body carried, null
      included. The wire format of a question is exactly these five fields,
      so a row stands for its own formatted record. */
  datatype Question = Question(id: int, question: string, answer: string,
                               category: Option<int>, difficulty: Option<int>)

  /** Questions listed in strictly increasing id order (the order of
      `ORDER BY id` on a table whose id is the primary key). */
  predicate IdsIncreasing(qs: seq<Question>)
  {
    forall i, j :: 0 <= i < j < |qs| ==> qs[i].id < qs[j].id
  }

  /** Some question of `qs` has id `id`. */
  predicate HasQuestion(qs: seq<Question>, id: int)
  {
    exists q :: q in qs && q.id == id
  }

  /** No two category rows share an id: `id` is the table's primary key. */
  predicate UniqueCategoryIds(cats: seq<Category>)
  {
    forall i, j :: 0 <= i < j < |cats| ==> cats[i].id != cats[j].id
  }

  /** The `type` column of every category, in the order given. */
  function TypeNames(cs: seq<Category>): (r: seq<string>)
    ensures |r| == |cs|
    ensures forall i :: 0 <= i < |cs| ==> r[i] == cs[i].typeName
  {
    seq(|cs|, i requires 0 <= i < |cs| => cs[i].typeName)
  }
}
