/** LINQ's `OrderBy`: a stable ascending sort by an integer key, and what determines its result. */
module StableSort {

  function Insert<T>(key: T -> int, x: T, xs: seq<T>): (r: seq<T>)
    ensures |r| == |xs| + 1
  {
    if xs == [] || key(x) <= key(xs[0]) then [x] + xs else [xs[0]] + Insert(key, x, xs[1..])
  }

  function OrderBy<T>(key: T -> int, xs: seq<T>): (r: seq<T>)
    ensures |r| == |xs|
  {
    if xs == [] then [] else Insert(key, xs[0], OrderBy(key, xs[1..]))
  }

  function OrderByDescending<T>(key: T -> int, xs: seq<T>): seq<T> {
    OrderBy(x => -key(x), xs)
  }

  predicate Ascending<T>(key: T -> int, xs: seq<T>) {
    forall i, j :: 0 <= i < j < |xs| ==> key(xs[i]) <= key(xs[j])
  }

  /** The elements with a given key, in order. */
  function WithKey<T>(key: T -> int, k: int, xs: seq<T>): seq<T> {
    if xs == [] then []
    else (if key(xs[0]) == k then [xs[0]] else []) + WithKey(key, k, xs[1..])
  }

  lemma {:induction false} InsertContents<T>(key: T -> int, x: T, xs: seq<T>)
    ensures multiset(Insert(key, x, xs)) == multiset{x} + multiset(xs)
  {
    if xs == [] || key(x) <= key(xs[0]) {
    } else {
      InsertContents(key, x, xs[1..]);
      assert xs == [xs[0]] + xs[1..];
    }
  }

  lemma {:induction false} OrderByContents<T>(key: T -> int, xs: seq<T>)
    ensures multiset(OrderBy(key, xs)) == multiset(xs)
  {
    if xs != [] {
      OrderByContents(key, xs[1..]);
      InsertContents(key, xs[0], OrderBy(key, xs[1..]));
      assert xs == [xs[0]] + xs[1..];
    }
  }

  lemma MembersOfOrderBy<T>(key: T -> int, xs: seq<T>)
    ensures forall x :: x in OrderBy(key, xs) <==> x in xs
  {
    OrderByContents(key, xs);
    forall x
      ensures x in OrderBy(key, xs) <==> x in xs
    {
      assert x in OrderBy(key, xs) <==> x in multiset(OrderBy(key, xs));
      assert x in xs <==> x in multiset(xs);
    }
  }

  lemma {:induction false} InsertAscending<T>(key: T -> int, x: T, xs: seq<T>)
    requires Ascending(key, xs)
    ensures Ascending(key, Insert(key, x, xs))
    ensures forall y :: y in Insert(key, x, xs) ==> y == x || y in xs
  {
    if xs == [] || key(x) <= key(xs[0]) {
    } else {
      InsertAscending(key, x, xs[1..]);
      var rest := Insert(key, x, xs[1..]);
      forall j | 0 <= j < |rest|
        ensures key(xs[0]) <= key(rest[j])
      {
        assert rest[j] in rest;
      }
    }
  }

  lemma {:induction false} OrderByAscending<T>(key: T -> int, xs: seq<T>)
    ensures Ascending(key, OrderBy(key, xs))
  {
    if xs != [] {
      OrderByAscending(key, xs[1..]);
      InsertAscending(key, xs[0], OrderBy(key, xs[1..]));
    }
  }

  lemma {:induction false} InsertStable<T>(key: T -> int, k: int, x: T, xs: seq<T>)
    ensures WithKey(key, k, Insert(key, x, xs)) == (if key(x) == k then [x] else []) + WithKey(key, k, xs)
  {
    if xs == [] || key(x) <= key(xs[0]) {
      assert ([x] + xs)[1..] == xs;
    } else {
      var rest := Insert(key, x, xs[1..]);
      InsertStable(key, k, x, xs[1..]);
      assert ([xs[0]] + rest)[1..] == rest;
      if key(x) == k {
        assert WithKey(key, k, [xs[0]] + rest) == WithKey(key, k, rest);
        assert WithKey(key, k, xs) == WithKey(key, k, xs[1..]);
      } else {
        assert WithKey(key, k, rest) == WithKey(key, k, xs[1..]);
      }
    }
  }

  /** Elements with equal keys keep their order. */
  lemma {:induction false} OrderByStable<T>(key: T -> int, k: int, xs: seq<T>)
    ensures WithKey(key, k, OrderBy(key, xs)) == WithKey(key, k, xs)
  {
    if xs != [] {
      OrderByStable(key, k, xs[1..]);
      InsertStable(key, k, xs[0], OrderBy(key, xs[1..]));
    }
  }

  lemma {:induction false} FirstOfAscending<T>(key: T -> int, xs: seq<T>, k: int)
    requires xs != [] && Ascending(key, xs) && k < key(xs[0])
    ensures WithKey(key, k, xs) == []
  {
    if |xs| > 1 {
      FirstOfAscending(key, xs[1..], k);
    }
  }

  lemma TailWithKey<T>(key: T -> int, k: int, xs: seq<T>)
    requires xs != []
    ensures WithKey(key, k, xs[1..]) == if key(xs[0]) == k then WithKey(key, k, xs)[1..] else WithKey(key, k, xs)
  {
  }

  lemma NonemptyWithKey<T>(key: T -> int, xs: seq<T>)
    requires xs != []
    ensures WithKey(key, key(xs[0]), xs) != []
  {
  }

  /** Ascending order and the elements of each key determine the whole sequence. */
  lemma {:induction false} AscendingUnique<T>(key: T -> int, a: seq<T>, b: seq<T>)
    requires Ascending(key, a) && Ascending(key, b)
    requires forall k :: WithKey(key, k, a) == WithKey(key, k, b)
    ensures a == b
  {
    if a == [] {
      if b != [] {
        NonemptyWithKey(key, b);
        assert false;
      }
    } else {
      var k := key(a[0]);
      assert WithKey(key, k, a) == WithKey(key, k, b);
      assert b != [];
      var m := key(b[0]);
      assert WithKey(key, m, a) == WithKey(key, m, b);
      if k < m {
        FirstOfAscending(key, b, k);
      } else if m < k {
        FirstOfAscending(key, a, m);
      }
      assert a[0] == WithKey(key, k, a)[0] == b[0];
      forall j
        ensures WithKey(key, j, a[1..]) == WithKey(key, j, b[1..])
      {
        assert WithKey(key, j, a) == WithKey(key, j, b);
        TailWithKey(key, j, a);
        TailWithKey(key, j, b);
      }
      AscendingUnique(key, a[1..], b[1..]);
      assert a == [a[0]] + a[1..] && b == [b[0]] + b[1..];
    }
  }

  lemma {:induction false} WithNegatedKey<T>(key: T -> int, k: int, xs: seq<T>)
    ensures WithKey(x => -key(x), -k, xs) == WithKey(key, k, xs)
  {
    if xs != [] {
      WithNegatedKey(key, k, xs[1..]);
    }
  }

  /** Sorting down and then up, both stably, is one stable ascending sort. */
  lemma DownThenUp<T>(key: T -> int, xs: seq<T>)
    ensures OrderBy(key, OrderByDescending(key, xs)) == OrderBy(key, xs)
  {
    var down := OrderByDescending(key, xs);
    OrderByAscending(key, down);
    OrderByAscending(key, xs);
    forall k
      ensures WithKey(key, k, OrderBy(key, down)) == WithKey(key, k, OrderBy(key, xs))
    {
      OrderByStable(key, k, down);
      OrderByStable(key, k, xs);
      OrderByStable(x => -key(x), -k, xs);
      WithNegatedKey(key, k, down);
      WithNegatedKey(key, k, xs);
    }
    AscendingUnique(key, OrderBy(key, down), OrderBy(key, xs));
  }

  /** A sequence already in order is left as it is. */
  lemma OrderByOfAscending<T>(key: T -> int, xs: seq<T>)
    requires Ascending(key, xs)
    ensures OrderBy(key, xs) == xs
  {
    OrderByAscending(key, xs);
    forall k
      ensures WithKey(key, k, OrderBy(key, xs)) == WithKey(key, k, xs)
    {
      OrderByStable(key, k, xs);
    }
    AscendingUnique(key, OrderBy(key, xs), xs);
  }
}
