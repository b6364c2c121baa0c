/** The query semantics the handlers rely on: a WHERE filter, ILIKE
    substring matching and ORDER BY on the category type. */
module Sql {
  import opened Models

  // ---------------------------------------------------------------- WHERE

  /** The rows of `rows` that satisfy `keep`, in their original order. */
  function Where<T(==,!new)>(rows: seq<T>, keep: T -> bool): (r: seq<T>)
    ensures |r| <= |rows|
    ensures forall x :: x in r <==> x in rows && keep(x)
  {
    if rows == [] then []
    else if keep(rows[0]) then [rows[0]] + Where(rows[1..], keep)
    else Where(rows[1..], keep)
  }

  /** A filter returns each accepted row as often as the table holds it and
      each rejected row never. */
  lemma {:induction false} WhereCounts<T(!new)>(rows: seq<T>, keep: T -> bool)
    ensures forall x :: multiset(Where(rows, keep))[x] == if keep(x) then multiset(rows)[x] else 0
  {
    if rows != [] {
      WhereCounts(rows[1..], keep);
      assert rows == [rows[0]] + rows[1..];
    }
  }

  /** Two positions holding rows that `keep` accepts put at least two rows
      in the filter's result. */
  lemma TwoKeptRows<T(!new)>(rows: seq<T>, keep: T -> bool, i: nat, j: nat)
    requires i < j < |rows| && keep(rows[i]) && keep(rows[j])
    ensures |Where(rows, keep)| >= 2
  {
    var r := Where(rows, keep);
    var a, b := rows[i], rows[j];
    if a == b {
      WhereCounts(rows, keep);
      assert rows == rows[..j] + [b] + rows[j + 1..];
      assert a in rows[..j];
      assert multiset(r)[a] == multiset(rows)[a] >= 2;
      assert multiset{a, a} <= multiset(r);
    } else {
      assert a in r && b in r;
      assert multiset{a, b} <= multiset(r);
    }
    assert |multiset(r)| >= 2;
  }

  /** A filter keeps the id order of the table it reads. */
  lemma {:induction false} WhereKeepsIdOrder(qs: seq<Question>, keep: Question -> bool)
    requires IdsIncreasing(qs)
    ensures IdsIncreasing(Where(qs, keep))
  {
    if qs != [] {
      var rest := Where(qs[1..], keep);
      WhereKeepsIdOrder(qs[1..], keep);
      forall q | q in rest
        ensures qs[0].id < q.id
      {
        var k :| 1 <= k < |qs| && qs[k] == q;
      }
    }
  }

  /** A filter that accepts nothing returns no rows. */
  lemma {:induction false} WhereNone<T(!new)>(rows: seq<T>, keep: T -> bool)
    requires forall x :: x in rows ==> !keep(x)
    ensures Where(rows, keep) == []
  {
    if rows != [] {
      WhereNone(rows[1..], keep);
    }
  }

  /** A filter that rejects nothing returns the table itself. */
  lemma {:induction false} WhereAll<T(!new)>(rows: seq<T>, keep: T -> bool)
    requires forall x :: x in rows ==> keep(x)
    ensures Where(rows, keep) == rows
  {
    if rows != [] {
      WhereAll(rows[1..], keep);
    }
  }

  // ---------------------------------------------------------------- ILIKE

  /** ASCII lower-casing of one character. */
  function Lower(c: char): (d: char)
    ensures 'A' <= c <= 'Z' ==> d as int == c as int + 32
    ensures !('A' <= c <= 'Z') ==> d == c
    ensures !('A' <= d <= 'Z')
  {
    if 'A' <= c <= 'Z' then (c as int + 32) as char else c
  }

  function LowerString(s: string): (r: string)
    ensures |r| == |s|
    ensures forall i :: 0 <= i < |s| ==> r[i] == Lower(s[i])
  {
    seq(|s|, i requires 0 <= i < |s| => Lower(s[i]))
  }

  /** `pat` occurs in `text` starting at position `i`. */
  ghost predicate OccursAt(pat: string, text: string, i: int)
  {
    0 <= i && i + |pat| <= |text| && text[i..i + |pat|] == pat
  }

  lemma ShiftOccurrence(pat: string, text: string)
    requires text != []
    ensures forall i :: 0 <= i ==> (OccursAt(pat, text[1..], i) <==> OccursAt(pat, text, i + 1))
  {
    forall i | 0 <= i ensures OccursAt(pat, text[1..], i) <==> OccursAt(pat, text, i + 1) {
      if 0 <= i && i + |pat| <= |text| - 1 {
        assert text[1..][i..i + |pat|] == text[i + 1..i + 1 + |pat|];
      }
    }
  }

  /** Substring search: does `pat` occur somewhere in `text`? */
  function Contains(text: string, pat: string): (b: bool)
    ensures b <==> exists i :: OccursAt(pat, text, i)
    decreases |text|
  {
    if pat <= text then
      assert OccursAt(pat, text, 0);
      true
    else if text == [] then
      false
    else
      ShiftOccurrence(pat, text);
      assert !OccursAt(pat, text, 0);
      var b := Contains(text[1..], pat);
      assert b ==> exists i :: OccursAt(pat, text, i) by {
        if b {
          var i :| OccursAt(pat, text[1..], i);
          assert OccursAt(pat, text, i + 1);
        }
      }
      assert (exists i :: OccursAt(pat, text, i)) ==> b by {
        if exists i :: OccursAt(pat, text, i) {
          var i :| OccursAt(pat, text, i);
          assert i != 0;
          assert OccursAt(pat, text[1..], i - 1);
        }
      }
      b
  }

  /** `text ILIKE '%term%'`: `term` occurs in `text`, ignoring ASCII case. */
  predicate ILike(text: string, term: string)
  {
    Contains(LowerString(text), LowerString(term))
  }

  /** An empty search term matches every text. */
  lemma EmptyTermMatchesAll(text: string)
    ensures ILike(text, "")
  {
    assert OccursAt(LowerString(""), LowerString(text), 0);
  }

  /** Matching ignores the case of both the text and the term. */
  lemma {:induction false} ILikeIgnoresCase(text: string, term: string)
    ensures ILike(text, term) == ILike(LowerString(text), LowerString(term))
  {
    LowerIdempotent(text);
    LowerIdempotent(term);
  }

  lemma LowerIdempotent(s: string)
    ensures LowerString(LowerString(s)) == LowerString(s)
  {
  }

  // ------------------------------------------------------- ORDER BY type

  /** String order used for `ORDER BY type`: code-point lexicographic. */
  predicate TypeLe(a: string, b: string)
  {
    a == [] || (b != [] && (a[0] < b[0] || (a[0] == b[0] && TypeLe(a[1..], b[1..]))))
  }

  lemma {:induction false} TypeLeTotal(a: string, b: string)
    ensures TypeLe(a, b) || TypeLe(b, a)
  {
    if a != [] && b != [] && a[0] == b[0] {
      TypeLeTotal(a[1..], b[1..]);
    }
  }

  lemma {:induction false} TypeLeAntisymmetric(a: string, b: string)
    requires TypeLe(a, b) && TypeLe(b, a)
    ensures a == b
  {
    if a != [] && b != [] {
      TypeLeAntisymmetric(a[1..], b[1..]);
      assert a == [a[0]] + a[1..];
      assert b == [b[0]] + b[1..];
    }
  }

  lemma {:induction false} TypeLeTransitive(a: string, b: string, c: string)
    requires TypeLe(a, b) && TypeLe(b, c)
    ensures TypeLe(a, c)
  {
    if a != [] && b != [] && c != [] && a[0] == b[0] == c[0] {
      TypeLeTransitive(a[1..], b[1..], c[1..]);
    }
  }

  lemma {:induction false} TypeLeReflexive(a: string)
    ensures TypeLe(a, a)
  {
    if a != [] {
      TypeLeReflexive(a[1..]);
    }
  }

  predicate NamesSorted(names: seq<string>)
  {
    forall i :: 0 < i < |names| ==> TypeLe(names[i - 1], names[i])
  }

  predicate SortedByType(cs: seq<Category>)
  {
    forall i :: 0 < i < |cs| ==> TypeLe(cs[i - 1].typeName, cs[i].typeName)
  }

  lemma TypeNamesCons(c: Category, cs: seq<Category>)
    ensures TypeNames([c] + cs) == [c.typeName] + TypeNames(cs)
  {
  }

  lemma SortedCons(c: Category, cs: seq<Category>)
    requires SortedByType(cs)
    requires cs == [] || TypeLe(c.typeName, cs[0].typeName)
    ensures SortedByType([c] + cs)
  {
    var r := [c] + cs;
    forall i | 0 < i < |r| ensures TypeLe(r[i - 1].typeName, r[i].typeName) {
      if i > 1 {
        assert r[i - 1] == cs[i - 2] && r[i] == cs[i - 1];
      }
    }
  }

  /** Two lists with the same multiset have the same length and members. */
  lemma SameRows<T>(a: seq<T>, b: seq<T>)
    requires multiset(a) == multiset(b)
    ensures |a| == |b|
    ensures forall x :: x in a <==> x in b
  {
    assert |multiset(a)| == |multiset(b)|;
    assert forall x :: x in a <==> x in multiset(a);
  }

  lemma SortedTail(cs: seq<Category>)
    requires SortedByType(cs) && cs != []
    ensures SortedByType(cs[1..])
  {
  }

  lemma ConsMultiset<T>(x: T, s: seq<T>)
    ensures multiset([x] + s) == multiset{x} + multiset(s)
  {
  }

  /** Putting the head of a list back in front of the insertion into its
      tail adds `c` to the list's rows and names. */
  lemma InsertBehindHead(c: Category, cs: seq<Category>, rest: seq<Category>)
    requires cs != []
    requires multiset(rest) == multiset(cs[1..]) + multiset{c}
    requires multiset(TypeNames(rest)) == multiset(TypeNames(cs[1..])) + multiset{c.typeName}
    ensures multiset([cs[0]] + rest) == multiset(cs) + multiset{c}
    ensures multiset(TypeNames([cs[0]] + rest)) == multiset(TypeNames(cs)) + multiset{c.typeName}
  {
    assert cs == [cs[0]] + cs[1..];
    ConsMultiset(cs[0], cs[1..]);
    ConsMultiset(cs[0], rest);
    TypeNamesCons(cs[0], cs[1..]);
    TypeNamesCons(cs[0], rest);
    ConsMultiset(cs[0].typeName, TypeNames(cs[1..]));
    ConsMultiset(cs[0].typeName, TypeNames(rest));
  }

  /** Inserts `c` into a list already in type order. */
  function InsertByType(c: Category, cs: seq<Category>): (r: seq<Category>)
    requires SortedByType(cs)
    ensures SortedByType(r)
    ensures multiset(r) == multiset(cs) + multiset{c}
    ensures multiset(TypeNames(r)) == multiset(TypeNames(cs)) + multiset{c.typeName}
    ensures r != [] && (r[0] == c || (cs != [] && r[0] == cs[0]))
  {
    if cs == [] || TypeLe(c.typeName, cs[0].typeName) then
      TypeNamesCons(c, cs);
      SortedCons(c, cs);
      [c] + cs
    else
      TypeLeTotal(c.typeName, cs[0].typeName);
      SortedTail(cs);
      var rest := InsertByType(c, cs[1..]);
      assert |cs| > 1 ==> TypeLe(cs[0].typeName, cs[1].typeName);
      SortedCons(cs[0], rest);
      InsertBehindHead(c, cs, rest);
      [cs[0]] + rest
  }

  /** `ORDER BY type`: the categories sorted by type name. */
  function SortByType(cs: seq<Category>): (r: seq<Category>)
    ensures SortedByType(r)
    ensures multiset(r) == multiset(cs)
    ensures multiset(TypeNames(r)) == multiset(TypeNames(cs))
  {
    if cs == [] then []
    else
      assert cs == [cs[0]] + cs[1..];
      TypeNamesCons(cs[0], cs[1..]);
      InsertByType(cs[0], SortByType(cs[1..]))
  }

  /** The first name of a sorted list is the least. */
  lemma {:induction false} SortedHeadLeast(names: seq<string>, k: nat)
    requires NamesSorted(names) && k < |names|
    ensures TypeLe(names[0], names[k])
  {
    if k == 0 {
      TypeLeReflexive(names[0]);
    } else {
      SortedHeadLeast(names, k - 1);
      TypeLeTransitive(names[0], names[k - 1], names[k]);
    }
  }

  /** Two sorted lists of the same names start with the same name. */
  lemma SortedHeadsAgree(a: seq<string>, b: seq<string>)
    requires NamesSorted(a) && NamesSorted(b)
    requires multiset(a) == multiset(b) && a != []
    ensures b != [] && a[0] == b[0]
  {
    assert a[0] in multiset(b);
    assert b != [] && b[0] in multiset(a);
    var i :| 0 <= i < |b| && b[i] == a[0];
    var j :| 0 <= j < |a| && a[j] == b[0];
    SortedHeadLeast(a, j);
    SortedHeadLeast(b, i);
    TypeLeAntisymmetric(a[0], b[0]);
  }

  lemma DropHead(a: seq<string>)
    requires a != []
    ensures NamesSorted(a) ==> NamesSorted(a[1..])
    ensures multiset(a[1..]) == multiset(a) - multiset{a[0]}
  {
    assert a == [a[0]] + a[1..];
  }

  /** Two sorted lists of the same names are the same list: the result of
      `ORDER BY type` on names does not depend on how ties are broken. */
  lemma {:induction false} SortedNamesDetermined(a: seq<string>, b: seq<string>)
    requires NamesSorted(a) && NamesSorted(b)
    requires multiset(a) == multiset(b)
    ensures a == b
  {
    if a == [] {
      assert |b| == |multiset(b)| == 0;
    } else {
      SortedHeadsAgree(a, b);
      DropHead(a);
      DropHead(b);
      SortedNamesDetermined(a[1..], b[1..]);
      assert a == [a[0]] + a[1..] && b == [b[0]] + b[1..];
    }
  }
}
