/** Stable sorting, merging, and cutting to a prefix. */
module Sorting {

  ghost predicate IsOrder<T(!new)>(le: (T, T) -> bool) {
    && (forall x, y :: le(x, y) || le(y, x))
    && (forall x, y, z :: le(x, y) && le(y, z) ==> le(x, z))
  }

  ghost predicate Sorted<T>(s: seq<T>, le: (T, T) -> bool) {
    forall i, j :: 0 <= i < j < |s| ==> le(s[i], s[j])
  }

  function Take<T>(s: seq<T>, k: nat): seq<T> {
    if |s| <= k then s else s[..k]
  }

  /** Insert before the first element that is not smaller: earlier elements stay first among equals. */
  function Insert<T>(x: T, s: seq<T>, le: (T, T) -> bool): seq<T> {
    if s == [] then [x]
    else if le(x, s[0]) then [x] + s
    else [s[0]] + Insert(x, s[1..], le)
  }

  function Sort<T>(s: seq<T>, le: (T, T) -> bool): seq<T> {
    if s == [] then [] else Insert(s[0], Sort(s[1..], le), le)
  }

  lemma {:induction false} InsertKeepsElements<T(!new)>(x: T, s: seq<T>, le: (T, T) -> bool)
    ensures multiset(Insert(x, s, le)) == multiset(s) + multiset{x}
    ensures |Insert(x, s, le)| == |s| + 1
  {
    if s != [] && !le(x, s[0]) {
      InsertKeepsElements(x, s[1..], le);
      assert s == [s[0]] + s[1..];
    }
  }

  lemma {:induction false} InsertSorts<T(!new)>(x: T, s: seq<T>, le: (T, T) -> bool)
    requires IsOrder(le) && Sorted(s, le)
    ensures Sorted(Insert(x, s, le), le)
    ensures multiset(Insert(x, s, le)) == multiset(s) + multiset{x}
  {
    InsertKeepsElements(x, s, le);
    if s != [] && !le(x, s[0]) {
      InsertSorts(x, s[1..], le);
      var rest := Insert(x, s[1..], le);
      forall y | y in rest ensures le(s[0], y) {
        ElementOfInserted(x, s[1..], le, y);
      }
      HeadSorts(s[0], rest, le);
    } else if s != [] {
      forall y | y in s ensures le(x, y) {
        var i :| 0 <= i < |s| && s[i] == y;
        assert i == 0 || le(s[0], s[i]);
      }
      HeadSorts(x, s, le);
    }
  }

  lemma ElementOfInserted<T(!new)>(x: T, s: seq<T>, le: (T, T) -> bool, y: T)
    requires y in Insert(x, s, le)
    ensures y == x || y in s
  {
    InsertKeepsElements(x, s, le);
    assert y in multiset(Insert(x, s, le));
  }

  lemma HeadSorts<T(!new)>(x: T, s: seq<T>, le: (T, T) -> bool)
    requires Sorted(s, le) && forall y | y in s :: le(x, y)
    ensures Sorted([x] + s, le)
  {
  }

  /** The result is sorted and holds the same elements. */
  lemma {:induction false} SortSorts<T(!new)>(s: seq<T>, le: (T, T) -> bool)
    requires IsOrder(le)
    ensures Sorted(Sort(s, le), le) && multiset(Sort(s, le)) == multiset(s)
    ensures |Sort(s, le)| == |s|
  {
    if s != [] {
      SortSorts(s[1..], le);
      InsertSorts(s[0], Sort(s[1..], le), le);
      assert s == [s[0]] + s[1..];
    }
    assert |multiset(Sort(s, le))| == |multiset(s)|;
  }

  // ----- stability -----

  function Alike<T>(s: seq<T>, x: T, le: (T, T) -> bool): seq<T> {
    if s == [] then []
    else (if le(s[0], x) && le(x, s[0]) then [s[0]] else []) + Alike(s[1..], x, le)
  }

  lemma {:induction false} InsertIsStable<T(!new)>(y: T, s: seq<T>, x: T, le: (T, T) -> bool)
    requires IsOrder(le) && Sorted(s, le)
    ensures Alike(Insert(y, s, le), x, le) == Alike([y] + s, x, le)
  {
    if s != [] && !le(y, s[0]) {
      InsertIsStable(y, s[1..], x, le);
      assert ([y] + s)[1..] == s && ([y] + s[1..])[1..] == s[1..];
      assert ([s[0]] + Insert(y, s[1..], le))[1..] == Insert(y, s[1..], le);
    }
  }

  /** Elements that compare equal keep their order. */
  lemma {:induction false} SortIsStable<T(!new)>(s: seq<T>, x: T, le: (T, T) -> bool)
    requires IsOrder(le)
    ensures Alike(Sort(s, le), x, le) == Alike(s, x, le)
  {
    if s != [] {
      SortSorts(s[1..], le);
      SortIsStable(s[1..], x, le);
      InsertIsStable(s[0], Sort(s[1..], le), x, le);
      assert ([s[0]] + Sort(s[1..], le))[1..] == Sort(s[1..], le);
    }
  }

  // ----- merging and cutting -----

  function Merge<T>(a: seq<T>, b: seq<T>, le: (T, T) -> bool): seq<T> {
    if a == [] then b
    else if b == [] then a
    else if le(a[0], b[0]) then [a[0]] + Merge(a[1..], b, le)
    else [b[0]] + Merge(a, b[1..], le)
  }

  lemma {:induction false} InsertIntoMerge<T(!new)>(x: T, a: seq<T>, b: seq<T>, le: (T, T) -> bool)
    requires IsOrder(le) && Sorted(a, le) && Sorted(b, le)
    ensures Insert(x, Merge(a, b, le), le) == Merge(Insert(x, a, le), b, le)
    decreases |a| + |b|
  {
    if a == [] {
      if b != [] && !le(x, b[0]) {
        InsertIntoMerge(x, a, b[1..], le);
        assert Merge(a, b[1..], le) == b[1..];
      }
    } else if b == [] {
    } else if le(a[0], b[0]) {
      var m := Merge(a[1..], b, le);
      assert ([a[0]] + m)[1..] == m;
      if !le(x, a[0]) {
        InsertIntoMerge(x, a[1..], b, le);
        assert ([a[0]] + Insert(x, a[1..], le))[1..] == Insert(x, a[1..], le);
      } else {
        assert ([x] + a)[1..] == a;
      }
    } else {
      var m := Merge(a, b[1..], le);
      assert ([b[0]] + m)[1..] == m;
      var inserted := Insert(x, a, le);
      if le(x, b[0]) {
        assert le(x, a[0]);
        assert ([x] + a)[1..] == a;
      } else {
        InsertIntoMerge(x, a, b[1..], le);
        assert !le(inserted[0], b[0]);
      }
    }
  }

  /** Sorting a concatenation is merging the sorted parts. */
  lemma {:induction false} SortOfConcat<T(!new)>(a: seq<T>, b: seq<T>, le: (T, T) -> bool)
    requires IsOrder(le)
    ensures Sort(a + b, le) == Merge(Sort(a, le), Sort(b, le), le)
  {
    if a == [] {
      assert a + b == b;
    } else {
      SortOfConcat(a[1..], b, le);
      assert (a + b)[1..] == a[1..] + b;
      SortSorts(a[1..], le);
      SortSorts(b, le);
      InsertIntoMerge(a[0], Sort(a[1..], le), Sort(b, le), le);
    }
  }

  lemma {:induction false} TakeOfMerge<T>(a: seq<T>, b: seq<T>, k: nat, j: nat, le: (T, T) -> bool)
    requires j <= k
    ensures Take(Merge(Take(a, k), b, le), j) == Take(Merge(a, b, le), j)
    decreases |a| + |b|
  {
    hide Take;
    ShortTakes(a, k, j);
    if j > 0 && a != [] && b != [] {
      TailOfTake(a, k);
      if le(a[0], b[0]) {
        TakeOfMerge(a[1..], b, k - 1, j - 1, le);
        TakeAfterHead(a[0], Merge(a[1..], b, le), j);
        TakeAfterHead(a[0], Merge(Take(a[1..], k - 1), b, le), j);
      } else {
        TakeOfMerge(a, b[1..], k, j - 1, le);
        TakeAfterHead(b[0], Merge(a, b[1..], le), j);
        TakeAfterHead(b[0], Merge(Take(a, k), b[1..], le), j);
      }
    } else if j == 0 {
      NothingTaken(Merge(Take(a, k), b, le));
      NothingTaken(Merge(a, b, le));
    }
  }

  lemma NothingTaken<T>(s: seq<T>)
    ensures Take(s, 0) == []
  {
  }

  lemma ShortTakes<T>(s: seq<T>, k: nat, j: nat)
    requires j <= k
    ensures Take(Take(s, k), j) == Take(s, j)
    ensures k > 0 && s != [] ==> Take(s, k) != []
    ensures s == [] ==> Take(s, k) == []
  {
  }

  lemma TailOfTake<T>(s: seq<T>, k: nat)
    requires s != [] && k > 0
    ensures Take(s, k)[0] == s[0] && Take(s, k)[1..] == Take(s[1..], k - 1)
  {
    if |s| > k {
      assert s[..k][1..] == s[1..][..k - 1];
    }
  }

  lemma TakeAfterHead<T>(x: T, s: seq<T>, k: nat)
    requires k > 0
    ensures Take([x] + s, k) == [x] + Take(s, k - 1)
  {
  }

  lemma {:induction false} SortOfSorted<T(!new)>(s: seq<T>, le: (T, T) -> bool)
    requires IsOrder(le) && Sorted(s, le)
    ensures Sort(s, le) == s
  {
    if s != [] {
      SortOfSorted(s[1..], le);
      assert |s| > 1 ==> s[1..][0] == s[1];
    }
  }

  /** Cutting one part to `k` elements before merging and cutting to `k` loses nothing: the result
      is the cut of the full sorted list. */
  lemma EarlyCutIsHarmless<T(!new)>(a: seq<T>, b: seq<T>, k: nat, le: (T, T) -> bool)
    requires IsOrder(le)
    ensures Take(Sort(Take(Sort(a, le), k) + b, le), k) == Take(Sort(a + b, le), k)
  {
    SortSorts(a, le);
    SortOfConcat(Take(Sort(a, le), k), b, le);
    SortOfSorted(Take(Sort(a, le), k), le);
    SortOfConcat(a, b, le);
    TakeOfMerge(Sort(a, le), Sort(b, le), k, k, le);
  }
}
