/** Sorting by a comparison, standing for the sort packages of the Go library. */
module Sorting {

  /** A total preorder: what the sort packages expect of a comparison. */
  ghost predicate Orders<T(!new)>(le: (T, T) -> bool) {
    && (forall a, b :: le(a, b) || le(b, a))
    && (forall a, b, c :: le(a, b) && le(b, c) ==> le(a, c))
  }

  ghost predicate SortedBy<T(!new)>(le: (T, T) -> bool, xs: seq<T>) {
    forall i, j :: 0 <= i < j < |xs| ==> le(xs[i], xs[j])
  }

  function InsertBy<T(!new)>(le: (T, T) -> bool, x: T, xs: seq<T>): (r: seq<T>)
    requires Orders(le)
    ensures multiset(r) == multiset([x]) + multiset(xs)
    ensures SortedBy(le, xs) ==> SortedBy(le, r)
  {
    if xs == [] then [x]
    else if le(x, xs[0]) then InsertFirst(le, x, xs); [x] + xs
    else
      assert xs == [xs[0]] + xs[1..];
      var rest := InsertBy(le, x, xs[1..]);
      InsertLater(le, x, xs, rest);
      [xs[0]] + rest
  }

  lemma InsertFirst<T(!new)>(le: (T, T) -> bool, x: T, xs: seq<T>)
    requires Orders(le) && xs != [] && le(x, xs[0])
    ensures SortedBy(le, xs) ==> SortedBy(le, [x] + xs)
  {
  }

  lemma InsertLater<T(!new)>(le: (T, T) -> bool, x: T, xs: seq<T>, rest: seq<T>)
    requires Orders(le) && xs != [] && !le(x, xs[0])
    requires multiset(rest) == multiset([x]) + multiset(xs[1..])
    requires SortedBy(le, xs[1..]) ==> SortedBy(le, rest)
    ensures SortedBy(le, xs) ==> SortedBy(le, [xs[0]] + rest)
  {
    if SortedBy(le, xs) {
      forall j | 0 <= j < |rest| ensures le(xs[0], rest[j]) {
        assert rest[j] in multiset(rest);
        assert le(xs[0], x);
      }
    }
  }

  function SortBy<T(!new)>(le: (T, T) -> bool, xs: seq<T>): (r: seq<T>)
    requires Orders(le)
    ensures multiset(r) == multiset(xs) && SortedBy(le, r)
  {
    if xs == [] then []
    else
      assert xs == [xs[0]] + xs[1..];
      InsertBy(le, xs[0], SortBy(le, xs[1..]))
  }
}
