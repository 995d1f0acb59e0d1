/** `Array.prototype.sort`: a stable sort, which leaves only one possible result. */
module StableSort {

  type Compare = (string, string) -> int

  /** What a sort may rely on in `localeCompare`: a total preorder. */
  ghost predicate IsCollation(compare: Compare) {
    && (forall a, b :: compare(a, b) < 0 <==> compare(b, a) > 0)
    && (forall a, b, c :: compare(a, b) <= 0 && compare(b, c) <= 0 ==> compare(a, c) <= 0)
  }

  /** A consistent comparator: `before(x, y)` when the callback returns zero or less. */
  ghost predicate IsConsistent<T(!new)>(before: (T, T) -> bool) {
    && (forall x, y :: before(x, y) || before(y, x))
    && (forall x, y, z :: before(x, y) && before(y, z) ==> before(x, z))
  }

  function Insert<T>(before: (T, T) -> bool, x: T, s: seq<T>): (r: seq<T>)
    ensures multiset(r) == multiset{x} + multiset(s)
  {
    if s == [] then [x]
    else if before(x, s[0]) then [x] + s
    else
      assert s == [s[0]] + s[1..];
      [s[0]] + Insert(before, x, s[1..])
  }

  function Sort<T>(before: (T, T) -> bool, s: seq<T>): (r: seq<T>)
    ensures multiset(r) == multiset(s)
  {
    if s == [] then []
    else
      assert s == [s[0]] + s[1..];
      Insert(before, s[0], Sort(before, s[1..]))
  }

  /** Smaller, or tied and further to the front; `place` numbers the elements. */
  predicate Precedes<T>(before: (T, T) -> bool, place: T -> int, x: T, y: T) {
    before(x, y) && (before(y, x) ==> place(x) < place(y))
  }

  predicate Ranked<T>(before: (T, T) -> bool, place: T -> int, s: seq<T>) {
    forall i, j :: 0 <= i < j < |s| ==> Precedes(before, place, s[i], s[j])
  }

  predicate InOrder<T>(place: T -> int, s: seq<T>) {
    forall i, j :: 0 <= i < j < |s| ==> place(s[i]) < place(s[j])
  }

  lemma PrecedesIsTransitive<T(!new)>(before: (T, T) -> bool, place: T -> int, x: T, y: T, z: T)
    requires IsConsistent(before)
    requires Precedes(before, place, x, y) && Precedes(before, place, y, z)
    ensures Precedes(before, place, x, z)
  {
    assert before(z, x) ==> before(y, x) && before(z, y);
  }

  lemma {:induction false} InsertKeepsRanked<T(!new)>(before: (T, T) -> bool, place: T -> int, x: T, s: seq<T>)
    requires IsConsistent(before) && Ranked(before, place, s)
    requires forall y :: y in s ==> place(x) < place(y)
    ensures Ranked(before, place, Insert(before, x, s))
  {
    if s != [] {
      if before(x, s[0]) {
        assert Precedes(before, place, x, s[0]);
        forall j | 0 <= j < |s|
          ensures Precedes(before, place, x, s[j])
        {
          if j > 0 {
            PrecedesIsTransitive(before, place, x, s[0], s[j]);
          }
        }
      } else {
        InsertKeepsRanked(before, place, x, s[1..]);
        var rest := Insert(before, x, s[1..]);
        forall j | 0 <= j < |rest|
          ensures Precedes(before, place, s[0], rest[j])
        {
          assert rest[j] in multiset(rest);
          assert rest[j] == x || rest[j] in multiset(s[1..]);
        }
      }
    }
  }

  predicate Ascends<T>(before: (T, T) -> bool, s: seq<T>) {
    forall i, j :: 0 <= i < j < |s| ==> before(s[i], s[j])
  }

  lemma {:induction false} InsertAscends<T(!new)>(before: (T, T) -> bool, x: T, s: seq<T>)
    requires IsConsistent(before) && Ascends(before, s)
    ensures Ascends(before, Insert(before, x, s))
  {
    if s != [] && !before(x, s[0]) {
      InsertAscends(before, x, s[1..]);
      var rest := Insert(before, x, s[1..]);
      forall j | 0 <= j < |rest|
        ensures before(s[0], rest[j])
      {
        assert rest[j] in multiset(rest);
        assert rest[j] == x || rest[j] in multiset(s[1..]);
      }
    }
  }

  /** The result is ascending, whatever the order of the input. */
  lemma {:induction false} SortAscends<T(!new)>(before: (T, T) -> bool, s: seq<T>)
    requires IsConsistent(before)
    ensures Ascends(before, Sort(before, s))
  {
    if s != [] {
      SortAscends(before, s[1..]);
      InsertAscends(before, s[0], Sort(before, s[1..]));
    }
  }

  lemma SortKeepsElements<T>(before: (T, T) -> bool, s: seq<T>, x: T)
    ensures x in Sort(before, s) <==> x in s
  {
    assert x in multiset(Sort(before, s)) <==> x in multiset(s);
  }

  /** The result is ascending, and ties keep their order. */
  lemma {:induction false} SortIsStable<T(!new)>(before: (T, T) -> bool, place: T -> int, s: seq<T>)
    requires IsConsistent(before) && InOrder(place, s)
    ensures Ranked(before, place, Sort(before, s))
  {
    if s != [] {
      SortIsStable(before, place, s[1..]);
      var rest := Sort(before, s[1..]);
      forall y | y in rest
        ensures place(s[0]) < place(y)
      {
        SortKeepsElements(before, s[1..], y);
      }
      InsertKeepsRanked(before, place, s[0], rest);
    }
  }

  lemma RankedHead<T(!new)>(before: (T, T) -> bool, place: T -> int, s: seq<T>, t: seq<T>)
    requires IsConsistent(before) && Ranked(before, place, s) && Ranked(before, place, t)
    requires multiset(s) == multiset(t) && s != []
    ensures t != [] && s[0] == t[0]
  {
    assert s[0] in multiset(t);
    assert t[0] in multiset(s);
    var i :| 0 <= i < |t| && t[i] == s[0];
    var j :| 0 <= j < |s| && s[j] == t[0];
  }

  lemma DropHead<T>(s: seq<T>)
    requires s != []
    ensures multiset(s[1..]) == multiset(s) - multiset{s[0]}
  {
    assert s == [s[0]] + s[1..];
  }

  /** There is only one ranked arrangement, so every stable sort gives this one. */
  lemma {:induction false} RankingIsUnique<T(!new)>(before: (T, T) -> bool, place: T -> int, s: seq<T>, t: seq<T>)
    requires IsConsistent(before) && Ranked(before, place, s) && Ranked(before, place, t)
    requires multiset(s) == multiset(t)
    ensures s == t
  {
    if s == [] {
      assert multiset(t) == multiset{};
      assert t == [];
    } else {
      RankedHead(before, place, s, t);
      DropHead(s);
      DropHead(t);
      RankingIsUnique(before, place, s[1..], t[1..]);
      assert s == [s[0]] + s[1..];
    }
  }

  lemma SortedElements<T(!new)>(before: (T, T) -> bool, place: T -> int, s: seq<T>, sorted: seq<T>)
    requires IsConsistent(before) && InOrder(place, s) && sorted == Sort(before, s)
    ensures Ranked(before, place, sorted)
    ensures forall x :: x in sorted <==> x in s
    ensures sorted == [] <==> s == []
  {
    SortIsStable(before, place, s);
    forall x
      ensures x in sorted <==> x in s
    {
      SortKeepsElements(before, s, x);
    }
    assert |multiset(sorted)| == |multiset(s)|;
  }
}
