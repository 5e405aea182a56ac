/** Insertion sort by any total order, stable on equal elements. */
module Sorting {

  /** `leq` compares any two elements, and is transitive. */
  ghost predicate TotalOrder<T(!new)>(leq: (T, T) -> bool) {
    && (forall a, b :: leq(a, b) || leq(b, a))
    && forall a, b, c :: leq(a, b) && leq(b, c) ==> leq(a, c)
  }

  ghost predicate Sorted<T>(leq: (T, T) -> bool, xs: seq<T>) {
    forall i, j :: 0 <= i < j < |xs| ==> leq(xs[i], xs[j])
  }

  function Insert<T>(leq: (T, T) -> bool, x: T, xs: seq<T>): seq<T> {
    if xs == [] || leq(x, xs[0]) then [x] + xs
    else [xs[0]] + Insert(leq, x, xs[1..])
  }

  function Sort<T>(leq: (T, T) -> bool, xs: seq<T>): seq<T> {
    if xs == [] then [] else Insert(leq, xs[0], Sort(leq, xs[1..]))
  }

  lemma {:induction false} InsertKeeps<T>(leq: (T, T) -> bool, x: T, xs: seq<T>)
    ensures multiset(Insert(leq, x, xs)) == multiset{x} + multiset(xs)
  {
    if xs == [] || leq(x, xs[0]) {
    } else {
      InsertKeeps(leq, x, xs[1..]);
      assert xs == [xs[0]] + xs[1..];
    }
  }

  lemma Inserted<T>(leq: (T, T) -> bool, x: T, xs: seq<T>, y: T)
    requires y in Insert(leq, x, xs)
    ensures y == x || y in xs
  {
    InsertKeeps(leq, x, xs);
    assert y in multiset(Insert(leq, x, xs));
  }

  lemma {:induction false} InsertSorted<T(!new)>(leq: (T, T) -> bool, x: T, xs: seq<T>)
    requires TotalOrder(leq) && Sorted(leq, xs)
    ensures Sorted(leq, Insert(leq, x, xs))
  {
    if xs == [] || leq(x, xs[0]) {
    } else {
      var tail := Insert(leq, x, xs[1..]);
      InsertSorted(leq, x, xs[1..]);
      forall j | 0 <= j < |tail| ensures leq(xs[0], tail[j]) {
        Inserted(leq, x, xs[1..], tail[j]);
      }
    }
  }

  lemma {:induction false} SortSorts<T(!new)>(leq: (T, T) -> bool, xs: seq<T>)
    requires TotalOrder(leq)
    ensures Sorted(leq, Sort(leq, xs))
  {
    if xs == [] {
    } else {
      SortSorts(leq, xs[1..]);
      InsertSorted(leq, xs[0], Sort(leq, xs[1..]));
    }
  }

  lemma {:induction false} SortKeeps<T>(leq: (T, T) -> bool, xs: seq<T>)
    ensures multiset(Sort(leq, xs)) == multiset(xs)
    ensures |Sort(leq, xs)| == |xs|
  {
    if xs == [] {
    } else {
      SortKeeps(leq, xs[1..]);
      InsertKeeps(leq, xs[0], Sort(leq, xs[1..]));
      assert xs == [xs[0]] + xs[1..];
      assert |multiset(Sort(leq, xs))| == |multiset(xs)|;
    }
  }

  lemma SortAddsNothing<T>(leq: (T, T) -> bool, xs: seq<T>, x: T)
    ensures x in Sort(leq, xs) <==> x in xs
  {
    SortKeeps(leq, xs);
    assert x in multiset(Sort(leq, xs)) <==> x in multiset(xs);
  }

  /** Elements of `xs` that compare both ways are equal. */
  ghost predicate Antisymmetric<T>(leq: (T, T) -> bool, xs: seq<T>) {
    forall i, j :: 0 <= i < |xs| && 0 <= j < |xs| && leq(xs[i], xs[j]) && leq(xs[j], xs[i]) ==> xs[i] == xs[j]
  }

  lemma SortedHead<T(!new)>(leq: (T, T) -> bool, a: seq<T>, b: seq<T>)
    requires TotalOrder(leq) && Sorted(leq, a) && a != [] && b != [] && multiset(a) == multiset(b)
    ensures leq(a[0], b[0])
  {
    assert b[0] in multiset(a);
    var j :| 0 <= j < |a| && a[j] == b[0];
    assert leq(a[0], a[0]);
  }

  lemma SameHead<T(!new)>(leq: (T, T) -> bool, a: seq<T>, b: seq<T>)
    requires TotalOrder(leq) && Sorted(leq, a) && Sorted(leq, b) && Antisymmetric(leq, a)
    requires a != [] && b != [] && multiset(a) == multiset(b)
    ensures a[0] == b[0]
  {
    SortedHead(leq, a, b);
    SortedHead(leq, b, a);
    assert b[0] in multiset(a);
    var j :| 0 <= j < |a| && a[j] == b[0];
  }

  lemma SortedTail<T>(leq: (T, T) -> bool, xs: seq<T>)
    requires xs != [] && Sorted(leq, xs)
    ensures Sorted(leq, xs[1..])
    ensures Antisymmetric(leq, xs) ==> Antisymmetric(leq, xs[1..])
  {
    var tail := xs[1..];
    assert forall i | 0 <= i < |tail| :: tail[i] == xs[i + 1];
  }

  lemma TailMultiset<T>(xs: seq<T>)
    requires xs != []
    ensures multiset(xs[1..]) == multiset(xs) - multiset{xs[0]}
  {
    assert xs == [xs[0]] + xs[1..];
  }

  lemma SameTails<T>(a: seq<T>, b: seq<T>)
    requires a != [] && b != [] && a[0] == b[0] && multiset(a) == multiset(b)
    ensures multiset(a[1..]) == multiset(b[1..])
  {
    TailMultiset(a);
    TailMultiset(b);
  }

  lemma SameLength<T>(a: seq<T>, b: seq<T>)
    requires multiset(a) == multiset(b)
    ensures |a| == |b|
  {
    assert |multiset(a)| == |a| && |multiset(b)| == |b|;
  }

  /** Two sorted listings of the same elements are the same listing. */
  lemma {:induction false} SortedIsUnique<T(!new)>(leq: (T, T) -> bool, a: seq<T>, b: seq<T>)
    requires TotalOrder(leq) && Sorted(leq, a) && Sorted(leq, b) && Antisymmetric(leq, a)
    requires multiset(a) == multiset(b)
    ensures a == b
    decreases |a|
  {
    SameLength(a, b);
    if |a| == 0 {
    } else {
      SameHead(leq, a, b);
      SameTails(a, b);
      SortedTail(leq, a);
      SortedTail(leq, b);
      SortedIsUnique(leq, a[1..], b[1..]);
      assert a == [a[0]] + a[1..] && b == [b[0]] + b[1..];
    }
  }

  /** The elements that compare both ways with `x`, in order. */
  function Ties<T>(leq: (T, T) -> bool, x: T, xs: seq<T>): seq<T> {
    if xs == [] then []
    else (if leq(x, xs[0]) && leq(xs[0], x) then [xs[0]] else []) + Ties(leq, x, xs[1..])
  }

  lemma {:induction false} TiesConcat<T>(leq: (T, T) -> bool, x: T, a: seq<T>, b: seq<T>)
    ensures Ties(leq, x, a + b) == Ties(leq, x, a) + Ties(leq, x, b)
  {
    if a == [] {
      assert a + b == b;
    } else {
      assert (a + b)[1..] == a[1..] + b;
      TiesConcat(leq, x, a[1..], b);
    }
  }

  lemma {:induction false} InsertKeepsTies<T(!new)>(leq: (T, T) -> bool, x: T, y: T, ys: seq<T>)
    requires TotalOrder(leq)
    ensures Ties(leq, x, Insert(leq, y, ys)) == Ties(leq, x, [y] + ys)
  {
    assert ([y] + ys)[1..] == ys;
    if ys == [] || leq(y, ys[0]) {
    } else {
      var tail := Insert(leq, y, ys[1..]);
      InsertKeepsTies(leq, x, y, ys[1..]);
      assert ([y] + ys[1..])[1..] == ys[1..] && ([ys[0]] + tail)[1..] == tail;
      assert !(leq(y, x) && leq(x, ys[0]));
    }
  }

  /** The sort is stable: elements that compare both ways keep their order. */
  lemma {:induction false} SortIsStable<T(!new)>(leq: (T, T) -> bool, x: T, xs: seq<T>)
    requires TotalOrder(leq)
    ensures Ties(leq, x, Sort(leq, xs)) == Ties(leq, x, xs)
  {
    if xs == [] {
    } else {
      var rest := Sort(leq, xs[1..]);
      SortIsStable(leq, x, xs[1..]);
      InsertKeepsTies(leq, x, xs[0], rest);
      assert ([xs[0]] + rest)[1..] == rest;
    }
  }
}
