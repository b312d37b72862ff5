/**
 Pieces of the visible-list derivation (`filteredAndSortedInventory`) that
 both versions share: order-keeping filtering and the location step.
 */
module Query {
  import opened Items
  import opened Locations

  /** `xs.filter(p)`: the elements satisfying p, in their original order, each
      as often as it occurs in xs. */
  function Filter<T(!new)>(p: T -> bool, xs: seq<T>): (r: seq<T>)
    ensures forall x :: multiset(r)[x] == if p(x) then multiset(xs)[x] else 0
    ensures forall x :: x in r ==> p(x)
    ensures |r| <= |xs|
  {
    if xs == [] then []
    else
      assert xs == [xs[0]] + xs[1..];
      (if p(xs[0]) then [xs[0]] else []) + Filter(p, xs[1..])
  }

  /** Filters with pointwise-equal predicates agree. */
  lemma {:induction false} FilterExt<T(!new)>(p: T -> bool, q: T -> bool, xs: seq<T>)
    requires forall k :: 0 <= k < |xs| ==> p(xs[k]) == q(xs[k])
    ensures Filter(p, xs) == Filter(q, xs)
  {
    if xs != [] {
      FilterExt(p, q, xs[1..]);
    }
  }

  lemma ConcatAssoc<T>(a: seq<T>, b: seq<T>, c: seq<T>)
    ensures a + (b + c) == (a + b) + c
  {
  }

  /** Filter distributes over a leading element. */
  lemma FilterCons<T(!new)>(p: T -> bool, x: T, xs: seq<T>)
    ensures Filter(p, [x] + xs) == (if p(x) then [x] else []) + Filter(p, xs)
  {
    assert ([x] + xs)[0] == x && ([x] + xs)[1..] == xs;
  }

  /** Filtering keeps order: filtering a concatenation filters each part
      and keeps the parts in place. */
  lemma {:induction false} FilterAppend<T(!new)>(p: T -> bool, a: seq<T>, b: seq<T>)
    ensures Filter(p, a + b) == Filter(p, a) + Filter(p, b)
    decreases |a|
  {
    if a == [] {
      assert a + b == b;
    } else {
      var x, rest := a[0], a[1..];
      var head: seq<T> := if p(x) then [x] else [];
      calc {
        Filter(p, a + b);
        { assert a + b == [x] + (rest + b); }
        Filter(p, [x] + (rest + b));
        { FilterCons(p, x, rest + b); }
        head + Filter(p, rest + b);
        { FilterAppend(p, rest, b); }
        head + (Filter(p, rest) + Filter(p, b));
        { ConcatAssoc(head, Filter(p, rest), Filter(p, b)); }
        (head + Filter(p, rest)) + Filter(p, b);
        { assert a == [x] + rest; FilterCons(p, x, rest); }
        Filter(p, a) + Filter(p, b);
      }
    }
  }

  /** A one-element sequence is kept exactly when its element satisfies p. */
  lemma FilterSingle<T(!new)>(p: T -> bool, x: T)
    ensures Filter(p, [x]) == if p(x) then [x] else []
  {
    assert [x][1..] == [];
  }

  /** `activeTab === 'All' ? inventory : inventory.filter(i => i.location === activeTab)`. */
  function LocationStep(inventory: seq<Item>, activeTab: string): (r: seq<Item>)
    ensures forall x :: multiset(r)[x] == if activeTab == AllKey || x.location == activeTab then multiset(inventory)[x] else 0
    ensures activeTab == AllKey ==> r == inventory
  {
    if activeTab == AllKey then inventory else Filter((x: Item) => x.location == activeTab, inventory)
  }

  /** The location step keeps inventory order: it acts on a concatenation part by part. */
  lemma LocationStepAppend(a: seq<Item>, b: seq<Item>, activeTab: string)
    ensures LocationStep(a + b, activeTab) == LocationStep(a, activeTab) + LocationStep(b, activeTab)
  {
    if activeTab != AllKey {
      FilterAppend((x: Item) => x.location == activeTab, a, b);
    }
  }
}
