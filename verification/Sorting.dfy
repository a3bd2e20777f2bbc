/** Sorting by a strict weak order, as std::sort asks of its comparison. */
module Sorting {

  type Order<!T> = (T, T) -> bool

  ghost predicate StrictWeak<T(!new)>(less: Order<T>) {
    && (forall a, b :: less(a, b) ==> !less(b, a))
    && (forall a, b, c :: less(a, c) ==> less(a, b) || less(b, c))
  }

  ghost predicate Ascending<T>(less: Order<T>, s: seq<T>) {
    forall i, j :: 0 <= i < j < |s| ==> !less(s[j], s[i])
  }

  function Insert<T>(less: Order<T>, v: T, s: seq<T>): (r: seq<T>)
    ensures |r| == |s| + 1
    ensures multiset(r) == multiset(s) + multiset{v}
  {
    if s == [] then [v]
    else if !less(s[0], v) then [v] + s
    else
      assert s == [s[0]] + s[1..];
      [s[0]] + Insert(less, v, s[1..])
  }

  /** An ascending arrangement of the same values. */
  function Sorted<T>(less: Order<T>, s: seq<T>): (r: seq<T>)
    ensures |r| == |s|
    ensures multiset(r) == multiset(s)
  {
    if s == [] then []
    else
      assert s == [s[0]] + s[1..];
      Insert(less, s[0], Sorted(less, s[1..]))
  }

  lemma {:induction false} InsertAscending<T(!new)>(less: Order<T>, v: T, s: seq<T>)
    requires StrictWeak(less) && Ascending(less, s)
    ensures Ascending(less, Insert(less, v, s))
  {
    if s != [] && less(s[0], v) {
      InsertAscending(less, v, s[1..]);
      var r := Insert(less, v, s[1..]);
      forall i | 0 <= i < |r| ensures !less(r[i], s[0]) {
        assert r[i] in multiset(s[1..]) + multiset{v};
        assert r[i] == v || r[i] in s[1..];
      }
    } else if s != [] {
      forall i | 0 <= i < |s| ensures !less(s[i], v) {
        assert i > 0 ==> !less(s[i], s[0]);
      }
    }
  }

  lemma {:induction false} SortedAscending<T(!new)>(less: Order<T>, s: seq<T>)
    requires StrictWeak(less)
    ensures Ascending(less, Sorted(less, s))
  {
    if s != [] {
      SortedAscending(less, s[1..]);
      InsertAscending(less, s[0], Sorted(less, s[1..]));
    }
  }

  /** Values that the order does not separate are the same. */
  ghost predicate Separates<T>(less: Order<T>, s: seq<T>) {
    forall i, j :: 0 <= i < |s| && 0 <= j < |s| && !less(s[i], s[j]) && !less(s[j], s[i]) ==> s[i] == s[j]
  }

  lemma SameHead<T(!new)>(less: Order<T>, a: seq<T>, b: seq<T>)
    requires StrictWeak(less) && Ascending(less, a) && Ascending(less, b) && Separates(less, a)
    requires multiset(a) == multiset(b) && a != [] && b != []
    ensures a[0] == b[0]
  {
    assert a[0] in multiset(b) && b[0] in multiset(a);
    var i :| 0 <= i < |b| && b[i] == a[0];
    var j :| 0 <= j < |a| && a[j] == b[0];
    assert i > 0 ==> !less(b[i], b[0]);
    assert j > 0 ==> !less(a[j], a[0]);
  }

  lemma TailMultiset<T>(a: seq<T>)
    requires a != []
    ensures multiset(a[1..]) == multiset(a) - multiset{a[0]}
  {
    assert a == [a[0]] + a[1..];
  }

  /** Then there is only one ascending arrangement, and it does not matter how it is found. */
  lemma {:induction false} SortedUnique<T(!new)>(less: Order<T>, a: seq<T>, b: seq<T>)
    requires StrictWeak(less) && Ascending(less, a) && Ascending(less, b) && Separates(less, a)
    requires multiset(a) == multiset(b)
    ensures a == b
  {
    assert |multiset(a)| == |a| && |multiset(b)| == |b|;
    if a != [] {
      SameHead(less, a, b);
      TailMultiset(a);
      TailMultiset(b);
      SortedUnique(less, a[1..], b[1..]);
      assert a == [a[0]] + a[1..] && b == [b[0]] + b[1..];
    }
  }
}
