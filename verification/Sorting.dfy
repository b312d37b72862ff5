/**
 Stable sorting of sequences under an abstract comparison.

 `Array.prototype.sort` is a stable sort (ECMA-262 since 2019) that places a
 before b when the comparator says a may precede b. The model abstracts the
 comparator to a boolean "may precede" relation `le` and sorts by stable
 insertion. The permutation fact holds for every `le`; sortedness and
 stability are promised when `le` is a total preorder.
 */
module Sorting {

  /** le is total (any two values are comparable) and transitive. */
  ghost predicate TotalPreorder<T(!new)>(le: (T, T) -> bool) {
    && (forall x, y :: le(x, y) || le(y, x))
    && (forall x, y, z :: le(x, y) && le(y, z) ==> le(x, z))
  }

  /** Every element may precede every later one. */
  ghost predicate SortedBy<T>(le: (T, T) -> bool, xs: seq<T>) {
    forall i, j :: 0 <= i < j < |xs| ==> le(xs[i], xs[j])
  }

  /** x and y compare equal: each may precede the other. */
  ghost predicate Tie<T>(le: (T, T) -> bool, x: T, y: T) {
    le(x, y) && le(y, x)
  }

  /** No two different values of xs compare equal. */
  ghost predicate NoTies<T>(le: (T, T) -> bool, xs: seq<T>) {
    forall x, y :: x in xs && y in xs && x != y ==> !Tie(le, x, y)
  }

  /** Compares values through a key: `(a, b) => le(key(a), key(b))`. */
  function OnKey<T, K>(le: (K, K) -> bool, key: T -> K): (T, T) -> bool {
    (a: T, b: T) => le(key(a), key(b))
  }

  /** The reversed comparison: `(a, b) => le(b, a)`. */
  function Flip<T>(le: (T, T) -> bool): (T, T) -> bool {
    (a: T, b: T) => le(b, a)
  }

  lemma OnKeyPreorder<T(!new), K(!new)>(le: (K, K) -> bool, key: T -> K)
    requires TotalPreorder(le)
    ensures TotalPreorder(OnKey(le, key))
  {
  }

  lemma FlipPreorder<T(!new)>(le: (T, T) -> bool)
    requires TotalPreorder(le)
    ensures TotalPreorder(Flip(le))
  {
  }

  /** Inserts x just before the first element of xs it may precede. */
  function Insert<T>(le: (T, T) -> bool, x: T, xs: seq<T>): (r: seq<T>)
    ensures multiset(r) == multiset(xs) + multiset{x}
  {
    if xs == [] then [x]
    else if le(x, xs[0]) then [x] + xs
    else
      assert xs == [xs[0]] + xs[1..];
      [xs[0]] + Insert(le, x, xs[1..])
  }

  /** Stable insertion sort: each element is inserted in front of the
      elements it ties with that came after it in the input. */
  function InsertionSort<T(!new)>(le: (T, T) -> bool, xs: seq<T>): (r: seq<T>)
    ensures multiset(r) == multiset(xs)
    ensures TotalPreorder(le) ==> SortedBy(le, r)
  {
    if xs == [] then []
    else
      var rest := InsertionSort(le, xs[1..]);
      assert xs == [xs[0]] + xs[1..];
      assert TotalPreorder(le) ==> SortedBy(le, Insert(le, xs[0], rest)) by {
        if TotalPreorder(le) {
          InsertSorted(le, xs[0], rest);
        }
      }
      Insert(le, xs[0], rest)
  }

  /** The first element of a sorted sequence may precede each of its elements. */
  lemma SortedHeadFirst<T(!new)>(le: (T, T) -> bool, xs: seq<T>, e: T)
    requires TotalPreorder(le) && SortedBy(le, xs) && e in xs
    ensures le(xs[0], e)
  {
    var j :| 0 <= j < |xs| && xs[j] == e;
    if j == 0 {
      assert le(e, e) || le(e, e);
    }
  }

  /** A sorted sequence stays sorted under a head that may precede all of it. */
  lemma ConsSorted<T>(le: (T, T) -> bool, h: T, xs: seq<T>)
    requires SortedBy(le, xs) && forall e :: e in xs ==> le(h, e)
    ensures SortedBy(le, [h] + xs)
  {
    var r := [h] + xs;
    forall i, j | 0 <= i < j < |r| ensures le(r[i], r[j]) {
      assert r[j] == xs[j - 1];
      if i > 0 {
        assert r[i] == xs[i - 1];
      }
    }
  }

  /** When x may precede the first element of a sorted xs, it may precede all of it. */
  lemma PrecedesAll<T(!new)>(le: (T, T) -> bool, x: T, xs: seq<T>)
    requires TotalPreorder(le) && SortedBy(le, xs) && xs != [] && le(x, xs[0])
    ensures forall e :: e in xs ==> le(x, e)
  {
    forall e | e in xs ensures le(x, e) {
      SortedHeadFirst(le, xs, e);
    }
  }

  lemma {:induction false} InsertSorted<T(!new)>(le: (T, T) -> bool, x: T, xs: seq<T>)
    requires TotalPreorder(le) && SortedBy(le, xs)
    ensures SortedBy(le, Insert(le, x, xs))
    decreases |xs|
  {
    if xs == [] {
    } else if le(x, xs[0]) {
      PrecedesAll(le, x, xs);
      ConsSorted(le, x, xs);
    } else {
      var tail := xs[1..];
      SortedTail(le, xs);
      InsertSorted(le, x, tail);
      var rest := Insert(le, x, tail);
      assert le(xs[0], x);
      forall e | e in rest ensures le(xs[0], e) {
        assert e in multiset(rest);
        if e != x {
          assert e in multiset(tail);
          var j :| 0 <= j < |tail| && tail[j] == e;
          assert xs[j + 1] == e;
        }
      }
      ConsSorted(le, xs[0], rest);
    }
  }

  /** The elements of xs that tie with k, in the order xs holds them. */
  ghost function Tied<T>(le: (T, T) -> bool, k: T, xs: seq<T>): seq<T> {
    if xs == [] then [] else (if Tie(le, xs[0], k) then [xs[0]] else []) + Tied(le, k, xs[1..])
  }

  /** Tied distributes over a leading element. */
  lemma TiedCons<T>(le: (T, T) -> bool, k: T, x: T, xs: seq<T>)
    ensures Tied(le, k, [x] + xs) == (if Tie(le, x, k) then [x] else []) + Tied(le, k, xs)
  {
    assert ([x] + xs)[0] == x && ([x] + xs)[1..] == xs;
  }

  /** When x may not precede y, x and y cannot both tie with the same k. */
  lemma NoDoubleTie<T(!new)>(le: (T, T) -> bool, k: T, x: T, y: T)
    requires TotalPreorder(le) && !le(x, y)
    ensures !(Tie(le, x, k) && Tie(le, y, k))
  {
  }

  /** Two prefixes of which one is empty commute. */
  lemma SwapPrefix<T>(a: seq<T>, b: seq<T>, c: seq<T>)
    requires a == [] || b == []
    ensures a + (b + c) == b + (a + c)
  {
    if a == [] {
      assert a + (b + c) == b + c;
    } else {
      assert b + (a + c) == a + c;
    }
  }

  /** One step of InsertTied past a head that x may not precede, given the
      result for the tail. */
  lemma InsertTiedStep<T>(le: (T, T) -> bool, k: T, x: T, xs: seq<T>)
    requires xs != [] && !le(x, xs[0])
    requires !(Tie(le, x, k) && Tie(le, xs[0], k))
    requires Tied(le, k, Insert(le, x, xs[1..])) == (if Tie(le, x, k) then [x] else []) + Tied(le, k, xs[1..])
    ensures Tied(le, k, Insert(le, x, xs)) == (if Tie(le, x, k) then [x] else []) + Tied(le, k, xs)
  {
    var tail := xs[1..];
    var rest := Insert(le, x, tail);
    var tx: seq<T> := if Tie(le, x, k) then [x] else [];
    var t0: seq<T> := if Tie(le, xs[0], k) then [xs[0]] else [];
    var tt := Tied(le, k, tail);
    assert Tied(le, k, Insert(le, x, xs)) == t0 + (tx + tt) by {
      assert Insert(le, x, xs) == [xs[0]] + rest;
      TiedCons(le, k, xs[0], rest);
    }
    assert Tied(le, k, xs) == t0 + tt;
    SwapPrefix(t0, tx, tt);
  }

  /** Inserting x puts it in front of everything it ties with. */
  lemma {:induction false} InsertTied<T(!new)>(le: (T, T) -> bool, k: T, x: T, xs: seq<T>)
    requires TotalPreorder(le)
    ensures Tied(le, k, Insert(le, x, xs)) == (if Tie(le, x, k) then [x] else []) + Tied(le, k, xs)
    decreases |xs|
  {
    if xs == [] || le(x, xs[0]) {
      assert Insert(le, x, xs) == [x] + xs;
      TiedCons(le, k, x, xs);
    } else {
      InsertTied(le, k, x, xs[1..]);
      NoDoubleTie(le, k, x, xs[0]);
      InsertTiedStep(le, k, x, xs);
    }
  }

  /** The sort is stable: the elements that tie with any k keep their input order. */
  lemma {:induction false} SortStable<T(!new)>(le: (T, T) -> bool, k: T, xs: seq<T>)
    requires TotalPreorder(le)
    ensures Tied(le, k, InsertionSort(le, xs)) == Tied(le, k, xs)
    decreases |xs|
  {
    if xs != [] {
      SortStable(le, k, xs[1..]);
      InsertTied(le, k, xs[0], InsertionSort(le, xs[1..]));
    }
  }

  /** Dropping the head keeps a sequence sorted. */
  lemma SortedTail<T>(le: (T, T) -> bool, xs: seq<T>)
    requires SortedBy(le, xs) && xs != []
    ensures SortedBy(le, xs[1..])
  {
    var tail := xs[1..];
    forall i, j | 0 <= i < j < |tail| ensures le(tail[i], tail[j]) {
      assert tail[i] == xs[i + 1] && tail[j] == xs[j + 1];
    }
  }

  /** Equal multisets with equal heads have equal tails. */
  lemma MultisetTail<T>(a: seq<T>, b: seq<T>)
    requires a != [] && b != [] && a[0] == b[0] && multiset(a) == multiset(b)
    ensures multiset(a[1..]) == multiset(b[1..])
  {
    assert a == [a[0]] + a[1..] && b == [b[0]] + b[1..];
    assert multiset(a[1..]) == multiset(a) - multiset{a[0]};
    assert multiset(b[1..]) == multiset(b) - multiset{b[0]};
  }

  /** Two sorted arrangements of the same multiset without ties are equal. */
  lemma {:induction false} SortedUnique<T(!new)>(le: (T, T) -> bool, a: seq<T>, b: seq<T>)
    requires TotalPreorder(le) && SortedBy(le, a) && SortedBy(le, b)
    requires multiset(a) == multiset(b) && NoTies(le, a)
    ensures a == b
    decreases |a|
  {
    assert |a| == |multiset(a)| == |multiset(b)| == |b|;
    if a != [] {
      assert a[0] in multiset(b) && b[0] in multiset(a);
      SortedHeadFirst(le, a, b[0]);
      SortedHeadFirst(le, b, a[0]);
      assert b[0] in a && Tie(le, a[0], b[0]);
      assert a[0] == b[0];
      MultisetTail(a, b);
      SortedTail(le, a);
      SortedTail(le, b);
      assert NoTies(le, a[1..]) by {
        forall x | x in a[1..] ensures x in a {
          var i :| 0 <= i < |a[1..]| && a[1..][i] == x;
          assert a[i + 1] == x;
        }
      }
      SortedUnique(le, a[1..], b[1..]);
      assert a == [a[0]] + a[1..] && b == [b[0]] + b[1..];
    }
  }

  /** xs back to front. */
  function Reverse<T>(xs: seq<T>): (r: seq<T>)
    ensures |r| == |xs|
    ensures forall k :: 0 <= k < |xs| ==> r[k] == xs[|xs| - 1 - k]
    ensures multiset(r) == multiset(xs)
  {
    if xs == [] then []
    else
      assert xs == [xs[0]] + xs[1..];
      Reverse(xs[1..]) + [xs[0]]
  }

  /** Reversing a sorted sequence sorts it under the flipped comparison. */
  lemma ReverseSorted<T>(le: (T, T) -> bool, xs: seq<T>)
    requires SortedBy(le, xs)
    ensures SortedBy(Flip(le), Reverse(xs))
  {
    var r := Reverse(xs);
    var n := |xs|;
    forall i, j | 0 <= i < j < n ensures Flip(le)(r[i], r[j]) {
      assert r[i] == xs[n - 1 - i] && r[j] == xs[n - 1 - j];
    }
  }

  /** Sorting ascending and reversing gives the descending sort, when no two
      different elements tie. */
  lemma ReversedSortIsFlippedSort<T(!new)>(le: (T, T) -> bool, xs: seq<T>)
    requires TotalPreorder(le) && NoTies(le, xs)
    ensures Reverse(InsertionSort(le, xs)) == InsertionSort(Flip(le), xs)
  {
    var up := InsertionSort(le, xs);
    var a := Reverse(up);
    var b := InsertionSort(Flip(le), xs);
    FlipPreorder(le);
    ReverseSorted(le, up);
    NoTiesFlip(le, xs, a);
    SortedUnique(Flip(le), a, b);
  }

  lemma NoTiesFlip<T>(le: (T, T) -> bool, xs: seq<T>, a: seq<T>)
    requires NoTies(le, xs) && multiset(a) == multiset(xs)
    ensures NoTies(Flip(le), a)
  {
    forall x, y | x in a && y in a && x != y ensures !Tie(Flip(le), x, y) {
      assert x in multiset(a) && y in multiset(a);
      assert x in xs && y in xs;
      assert !Tie(le, x, y);
    }
  }
}
