/**
 The local-storage version of the inventory screen (Backup/main.jsx): the
 add-item handler with its form reset, the visible-list derivation, and the
 screen as a state machine driven by the controls it renders.
 */
module LocalApp {
  import opened Values
  import opened Text
  import opened Sorting
  import opened Locations
  import opened Items
  import opened Query

  /** The component state that the modelled logic reads or writes. */
  datatype Screen = Screen(
    inventory: seq<Item>,
    activeTab: string,
    searchTerm: string,
    sortOrder: string,
    modalOpen: bool,
    form: Form)

  /** Every record is at one of the five concrete locations. */
  ghost predicate Placed(xs: seq<Item>) {
    forall x :: x in xs ==> x.location in ConcreteKeys
  }

  /** The active tab is a registry key and the form's location a concrete one. */
  ghost predicate Consistent(s: Screen) {
    s.activeTab in TabKeys && s.form.location in ConcreteKeys
  }

  /** The state after mount: the saved snapshot if there is one, else empty;
      the "All" tab, no search, A-Z order, modal closed, default form. */
  function Initial(stored: Option<seq<Item>>): (s: Screen)
    ensures Consistent(s)
    ensures s.inventory == stored.ValueOr([])
  {
    KeySets();
    DefaultIsConcrete();
    Screen(stored.ValueOr([]), LocationTabs[0].key, "", "A-Z", false, Form("", DefaultLocation, 1, ""))
  }

  /** `handleAddItem`: a rejected form changes nothing; an accepted one
      appends one record with the fresh id, the trimmed name and the form's
      location, quantity and date, closes the modal and resets the form. */
  function AddItem(s: Screen, id: string): (r: Screen)
    requires FreshId(s.inventory, id)
    ensures !Accepts(s.form) ==> r == s
    ensures Accepts(s.form) ==>
      && |r.inventory| == |s.inventory| + 1
      && r.inventory[..|s.inventory|] == s.inventory
      && r.inventory[|s.inventory|] == Item(id, Trim(s.form.name), s.form.location, s.form.quantity, Some(s.form.purchaseDate))
    ensures Accepts(s.form) ==>
      var added := r.inventory[|s.inventory|];
      added.name != [] && Trim(added.name) == added.name && added.quantity >= 1
    ensures Accepts(s.form) ==>
      r == s.(inventory := r.inventory, modalOpen := false, form := ResetForm(s.activeTab))
    ensures UniqueIds(s.inventory) ==> UniqueIds(r.inventory)
    ensures NonNegative(s.inventory) ==> NonNegative(r.inventory)
  {
    if Accepts(s.form) then
      var added := Item(id, Trim(s.form.name), s.form.location, s.form.quantity, Some(s.form.purchaseDate));
      TrimIdempotent(s.form.name);
      AppendFresh(s.inventory, added);
      assert NonNegative(s.inventory) ==> NonNegative(s.inventory + [added]) by {
        if NonNegative(s.inventory) {
          NonNegativeAppend(s.inventory, added);
        }
      }
      s.(inventory := s.inventory + [added], modalOpen := false, form := ResetForm(s.activeTab))
    else
      s
  }

  /** An accepted add files the new record under the form's location, which
      is concrete on a consistent screen. */
  lemma AddItemPlaced(s: Screen, id: string)
    requires FreshId(s.inventory, id) && Consistent(s) && Placed(s.inventory)
    ensures Placed(AddItem(s, id).inventory)
  {
    var r := AddItem(s, id);
    if Accepts(s.form) {
      var n := |s.inventory|;
      assert r.inventory == s.inventory + [r.inventory[n]];
      PlacedAppend(s.inventory, r.inventory[n]);
    }
  }

  /** Appending a record at a concrete location keeps every record placed. */
  lemma PlacedAppend(xs: seq<Item>, x: Item)
    requires Placed(xs) && x.location in ConcreteKeys
    ensures Placed(xs + [x])
  {
    forall y | y in xs + [x] ensures y.location in ConcreteKeys {
      assert y in xs || y == x;
    }
  }

  /** Sort key: `item.name.toLowerCase()`. */
  function LowerName(x: Item): string {
    Lower(x.name)
  }

  /** The sort's "may precede" relation, with `leq(a, b)` standing for
      `a.localeCompare(b) <= 0`: by lower-cased name, ascending for 'A-Z'
      and descending for any other order. */
  function Order(leq: (string, string) -> bool, sortOrder: string): (Item, Item) -> bool {
    if sortOrder == "A-Z" then OnKey(leq, LowerName) else Flip(OnKey(leq, LowerName))
  }

  lemma OrderPreorder(leq: (string, string) -> bool, sortOrder: string)
    requires TotalPreorder(leq)
    ensures TotalPreorder(Order(leq, sortOrder))
  {
    OnKeyPreorder(leq, LowerName);
    FlipPreorder(OnKey(leq, LowerName));
  }

  /** `item.purchaseDate && item.purchaseDate.includes(s)`. */
  predicate DateHas(purchaseDate: Option<string>, s: string) {
    purchaseDate.Some? && purchaseDate.value != [] && Includes(purchaseDate.value, s)
  }

  /** The text test for an already lower-cased term s. */
  predicate TermHit(x: Item, s: string) {
    Includes(Lower(x.name), s) || DateHas(x.purchaseDate, s)
  }

  /** The search step: skipped for an empty term. */
  function TermStep(xs: seq<Item>, searchTerm: string): seq<Item> {
    if searchTerm == [] then xs else Filter((x: Item) => TermHit(x, Lower(searchTerm)), xs)
  }

  /** The records left after the location step and the search step, in inventory order. */
  function Matching(inventory: seq<Item>, activeTab: string, searchTerm: string): seq<Item> {
    TermStep(LocationStep(inventory, activeTab), searchTerm)
  }

  /** Both filter steps keep inventory order: the records that match from a
      concatenation are those matching from each part, parts in place. */
  lemma MatchingAppend(a: seq<Item>, b: seq<Item>, activeTab: string, searchTerm: string)
    ensures Matching(a + b, activeTab, searchTerm) == Matching(a, activeTab, searchTerm) + Matching(b, activeTab, searchTerm)
  {
    LocationStepAppend(a, b, activeTab);
    if searchTerm != [] {
      FilterAppend((x: Item) => TermHit(x, Lower(searchTerm)), LocationStep(a, activeTab), LocationStep(b, activeTab));
    }
  }

  /** Whether a record belongs in the visible list, stated directly. */
  predicate Shown(x: Item, activeTab: string, searchTerm: string) {
    && (activeTab == AllKey || x.location == activeTab)
    && (searchTerm == [] || Includes(Lower(x.name), Lower(searchTerm)) || DateHas(x.purchaseDate, Lower(searchTerm)))
  }

  /** `filteredAndSortedInventory`: each shown record as often as the
      inventory holds it and nothing else, sorted by lower-cased name in the
      chosen direction. */
  function Visible(inventory: seq<Item>, activeTab: string, searchTerm: string, sortOrder: string,
                   leq: (string, string) -> bool): (r: seq<Item>)
    ensures forall x :: multiset(r)[x] == if Shown(x, activeTab, searchTerm) then multiset(inventory)[x] else 0
    ensures activeTab != AllKey ==> forall x :: x in r ==> x.location == activeTab
    ensures searchTerm != [] ==> forall x :: x in r ==>
      Includes(Lower(x.name), Lower(searchTerm)) || DateHas(x.purchaseDate, Lower(searchTerm))
    ensures activeTab == AllKey && searchTerm == [] ==> multiset(r) == multiset(inventory)
    ensures TotalPreorder(leq) ==> SortedBy(Order(leq, sortOrder), r)
  {
    var m := Matching(inventory, activeTab, searchTerm);
    assert forall x :: multiset(m)[x] == if Shown(x, activeTab, searchTerm) then multiset(inventory)[x] else 0;
    assert TotalPreorder(leq) ==> TotalPreorder(Order(leq, sortOrder)) by {
      if TotalPreorder(leq) {
        OrderPreorder(leq, sortOrder);
      }
    }
    var r := InsertionSort(Order(leq, sortOrder), m);
    assert forall x :: x in r ==> Shown(x, activeTab, searchTerm) by {
      forall x | x in r ensures Shown(x, activeTab, searchTerm) {
        assert multiset(r)[x] > 0;
      }
    }
    r
  }

  /** The sort is stable: records whose names compare equal appear in the
      order the filters left them, which is inventory order (MatchingAppend). */
  lemma VisibleStable(inventory: seq<Item>, activeTab: string, searchTerm: string, sortOrder: string,
                      leq: (string, string) -> bool, k: Item)
    requires TotalPreorder(leq)
    ensures Tied(Order(leq, sortOrder), k, Visible(inventory, activeTab, searchTerm, sortOrder, leq))
         == Tied(Order(leq, sortOrder), k, Matching(inventory, activeTab, searchTerm))
  {
    OrderPreorder(leq, sortOrder);
    SortStable(Order(leq, sortOrder), k, Matching(inventory, activeTab, searchTerm));
  }

  /** When no two different records have names that compare equal, the
      descending list is the ascending list reversed. */
  lemma DescendingIsReversedAscending(inventory: seq<Item>, activeTab: string, searchTerm: string,
                                      sortOrder: string, leq: (string, string) -> bool)
    requires TotalPreorder(leq) && NoTies(OnKey(leq, LowerName), inventory) && sortOrder != "A-Z"
    ensures Reverse(Visible(inventory, activeTab, searchTerm, "A-Z", leq))
         == Visible(inventory, activeTab, searchTerm, sortOrder, leq)
  {
    var le := OnKey(leq, LowerName);
    var m := Matching(inventory, activeTab, searchTerm);
    OnKeyPreorder(leq, LowerName);
    assert NoTies(le, m) by {
      forall x | x in m ensures x in inventory {
        assert multiset(m)[x] > 0;
      }
    }
    ReversedSortIsFlippedSort(le, m);
  }

  /** The controls the screen renders, each with the value it reports. */
  datatype Action =
    | ChooseTab(key: string)
    | TypeSearch(term: string)
    | ToggleSort
    | OpenAddModal
    | CancelAddModal
    | TypeName(name: string)
    | ChooseLocation(key: string)
    | TypeQuantity(parsed: Option<int>)
    | TypeDate(date: string)
    | Submit(id: string)
    | Adjust(id: string, delta: int)

  /** Whether the current screen renders a control that reports this action:
      tab buttons carry registry keys; the add button shows only off the
      "All" tab; the form's controls exist only while the modal is open, and
      its location select offers the concrete keys only; the row buttons
      adjust by one; a submitted id is fresh. */
  predicate Offered(s: Screen, a: Action) {
    match a
    case ChooseTab(key) => key in TabKeys
    case OpenAddModal => s.activeTab != AllKey
    case ChooseLocation(key) => s.modalOpen && key in ConcreteKeys
    case TypeName(_) => s.modalOpen
    case TypeQuantity(_) => s.modalOpen
    case TypeDate(_) => s.modalOpen
    case CancelAddModal => s.modalOpen
    case Submit(id) => s.modalOpen && FreshId(s.inventory, id)
    case Adjust(_, delta) => delta == 1 || delta == -1
    case TypeSearch(_) => true
    case ToggleSort => true
  }

  /** The state after one action. */
  function Step(s: Screen, a: Action): (r: Screen)
    requires Offered(s, a)
    ensures Consistent(s) ==> Consistent(r)
    ensures Placed(s.inventory) && Consistent(s) ==> Placed(r.inventory)
    ensures UniqueIds(s.inventory) ==> UniqueIds(r.inventory)
    ensures NonNegative(s.inventory) ==> NonNegative(r.inventory)
  {
    match a
    case ChooseTab(key) => s.(activeTab := key)
    case TypeSearch(term) => s.(searchTerm := term)
    case ToggleSort => s.(sortOrder := if s.sortOrder == "A-Z" then "Z-A" else "A-Z")
    case OpenAddModal =>
      KeySets();
      s.(modalOpen := true, form := s.form.(location := s.activeTab))
    case CancelAddModal => s.(modalOpen := false)
    case TypeName(name) => s.(form := s.form.(name := name))
    case ChooseLocation(key) => s.(form := s.form.(location := key))
    case TypeQuantity(parsed) =>
      s.(form := s.form.(quantity := if parsed == None || parsed == Some(0) then 1 else parsed.value))
    case TypeDate(date) => s.(form := s.form.(purchaseDate := date))
    case Submit(id) =>
      var r := AddItem(s, id);
      assert Placed(s.inventory) && Consistent(s) ==> Placed(r.inventory) by {
        if Placed(s.inventory) && Consistent(s) {
          AddItemPlaced(s, id);
        }
      }
      r
    case Adjust(id, delta) =>
      var r := s.(inventory := AdjustQuantity(s.inventory, id, delta));
      assert Placed(s.inventory) ==> Placed(r.inventory) by {
        forall x | x in r.inventory && Placed(s.inventory) ensures x.location in ConcreteKeys {
          var i :| 0 <= i < |r.inventory| && r.inventory[i] == x;
          assert s.inventory[i] in s.inventory;
        }
      }
      assert NonNegative(s.inventory) ==> NonNegative(r.inventory) by {
        if NonNegative(s.inventory) {
          AdjustKeepsInvariants(s.inventory, id, delta);
        }
      }
      r
  }

  /** Plays a sequence of actions from s; None when one is not offered. */
  function Run(s: Screen, actions: seq<Action>): (r: Option<Screen>)
    ensures r.Some? && Consistent(s) ==> Consistent(r.value)
    ensures r.Some? && Consistent(s) && Placed(s.inventory) ==> Placed(r.value.inventory)
    ensures r.Some? && UniqueIds(s.inventory) ==> UniqueIds(r.value.inventory)
    ensures r.Some? && NonNegative(s.inventory) ==> NonNegative(r.value.inventory)
    decreases actions
  {
    if actions == [] then Some(s)
    else if !Offered(s, actions[0]) then None
    else Run(Step(s, actions[0]), actions[1..])
  }

  /** No record ever gets the "All" location: from a snapshot whose records
      all sit at concrete locations, every reachable screen holds only such
      records, and its form never offers "All" either. */
  lemma LocationNeverAll(stored: Option<seq<Item>>, actions: seq<Action>)
    requires Placed(stored.ValueOr([]))
    ensures Run(Initial(stored), actions).Some? ==>
      forall x :: x in Run(Initial(stored), actions).value.inventory ==> x.location != AllKey
    ensures Run(Initial(stored), actions).Some? ==> Run(Initial(stored), actions).value.form.location != AllKey
  {
    KeySets();
  }
}
