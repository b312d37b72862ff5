/**
 The remote-sync version of the inventory screen (src/main.jsx): startup
 reconciliation against the list endpoint with a local-snapshot fallback,
 the quantity and add handlers with the requests they issue, and the
 visible-list derivation. Network calls appear only as the requests a
 handler sends and the outcome it is handed back.
 */
module SyncApp {
  import opened Values
  import opened Text
  import opened Sorting
  import opened Locations
  import opened Items
  import opened Query

  /** A row as the list endpoint returns it; `quantity` and `purchaseDate`
      are None when missing or null. */
  datatype Row = Row(id: string, name: string, location: string, quantity: Option<int>, purchaseDate: Option<string>)

  /** The row sent with an `add` request: the date travels under the
      lower-case field name `purchasedate`. */
  datatype WireRow = WireRow(id: string, name: string, location: string, purchasedate: string, quantity: int)

  /** The three request bodies the screen sends: `{action: 'list'}`,
      `{action: 'add', row}` and `{action: 'updateQuantity', id, delta}`. */
  datatype Request = ListRows | AddRow(row: WireRow) | UpdateQuantity(id: string, delta: int)

  /** How the awaited list call ended. */
  datatype ListResult = Listed(rows: seq<Row>) | ListFailed

  /** The component state that the modelled logic reads or writes. */
  datatype Screen = Screen(
    inventory: seq<Item>,
    err: string,
    loading: bool,
    activeTab: string,
    searchTerm: string,
    sortOrder: string,
    modalOpen: bool,
    form: Form)

  /** A handler's effect: the state it leaves and the requests it sent, in order. */
  datatype Transition = Transition(next: Screen, sent: seq<Request>)

  const FallbackMessage: string := "Online sync unavailable. Showing local data."
  const UpdateFailedMessage: string := "Could not update online. Changes kept locally."
  const AddFailedMessage: string := "Could not save online. Item saved locally."

  /** The first render: empty inventory, loading, no message, the "All" tab,
      no search, A-Z order, modal closed, default form. */
  function Initial(): (s: Screen)
    ensures s.loading && s.err == [] && s.inventory == []
    ensures s.activeTab in TabKeys && s.form.location in ConcreteKeys
  {
    KeySets();
    DefaultIsConcrete();
    Screen([], "", true, LocationTabs[0].key, "", "A-Z", false, Form("", DefaultLocation, 1, ""))
  }

  /** One row mapped to a record: id, name and location copied, a missing
      quantity read as 0, a missing or empty date read as "". */
  function NormaliseRow(r: Row): (x: Item)
    ensures x.id == r.id && x.name == r.name && x.location == r.location
    ensures r.quantity.Some? ==> x.quantity == r.quantity.value
    ensures r.quantity.None? ==> x.quantity == 0
    ensures x.purchaseDate.Some?
    ensures r.purchaseDate.Some? ==> x.purchaseDate == r.purchaseDate
    ensures r.purchaseDate.None? ==> x.purchaseDate == Some("")
  {
    Item(r.id, r.name, r.location, r.quantity.ValueOr(0), Some(r.purchaseDate.ValueOr("")))
  }

  /** `rows.map(...)`: one record per row, in row order. */
  function Normalise(rows: seq<Row>): (xs: seq<Item>)
    ensures |xs| == |rows|
    ensures forall i :: 0 <= i < |rows| ==> xs[i] == NormaliseRow(rows[i])
  {
    if rows == [] then [] else [NormaliseRow(rows[0])] + Normalise(rows[1..])
  }

  /** A record written back as a row with every field present. */
  function AsRow(x: Item): Row {
    Row(x.id, x.name, x.location, Some(x.quantity), x.purchaseDate)
  }

  /** Normalising a record with a date, written as a row, gives it back;
      so normalising is idempotent. */
  lemma NormaliseRoundTrip(x: Item, r: Row)
    requires x.purchaseDate.Some?
    ensures NormaliseRow(AsRow(x)) == x
    ensures NormaliseRow(AsRow(NormaliseRow(r))) == NormaliseRow(r)
  {
  }

  /** Startup reconciliation once the list call has settled. Success shows
      the normalised rows and clears the message; failure shows the stored
      snapshot if there is one (otherwise keeps the inventory) and sets the
      fallback message. Loading ends either way; nothing else changes. */
  function Startup(s: Screen, result: ListResult, stored: Option<seq<Item>>): (r: Transition)
    ensures r.sent == [ListRows]
    ensures !r.next.loading
    ensures r.next.err == [] <==> result.Listed?
    ensures result.Listed? ==> r.next.inventory == Normalise(result.rows)
    ensures result.ListFailed? && stored.Some? ==> r.next.inventory == stored.value
    ensures result.ListFailed? && stored.None? ==> r.next.inventory == s.inventory
    ensures result.ListFailed? ==> r.next.err == FallbackMessage
    ensures r.next == s.(inventory := r.next.inventory, err := r.next.err, loading := false)
  {
    var next :=
      match result
      case Listed(rows) => s.(inventory := Normalise(rows), err := "")
      case ListFailed =>
        var inventory := if stored.Some? then stored.value else s.inventory;
        s.(inventory := inventory, err := FallbackMessage);
    Transition(next.(loading := false), [ListRows])
  }

  /** What the persistence effect writes to the storage slot for a state. */
  function Persist(s: Screen): Option<seq<Item>> {
    Some(s.inventory)
  }

  /** Mount as written. The startup effect issues the list call and suspends
      at its first await; the persistence effect, declared after it, then
      runs and overwrites the slot with the initial, empty inventory; when
      the list call settles the fallback reads that overwritten slot. The
      snapshot saved by the previous session is never consulted. */
  function MountAsWritten(snapshot: Option<seq<Item>>, result: ListResult): (r: Transition)
    ensures result.ListFailed? ==> r.next.inventory == [] && r.next.err == FallbackMessage
  {
    var s := Initial();
    var slot := Persist(s);
    Startup(s, result, slot)
  }

  /** The fallback of the mount as written drops any saved records: a
      snapshot holding two records still yields an empty list. */
  lemma MountFallbackLosesSnapshot(a: Item, b: Item)
    ensures var snapshot := Some([a, b]);
      MountAsWritten(snapshot, ListFailed).next.inventory != snapshot.value
  {
  }

  /** Mount with the persistence effect held back while loading, so the
      fallback reads the previous session's snapshot. */
  function MountGuarded(snapshot: Option<seq<Item>>, result: ListResult): (r: Transition)
    ensures result.ListFailed? ==> r.next.inventory == snapshot.ValueOr([]) && r.next.err == FallbackMessage
    ensures result.Listed? ==> r.next.inventory == Normalise(result.rows) && r.next.err == []
    ensures !r.next.loading && r.sent == [ListRows]
  {
    var s := Initial();
    var slot := if s.loading then snapshot else Persist(s);
    Startup(s, result, slot)
  }

  /** `handleUpdateQuantity`: the clamped local change first, then the
      `updateQuantity` request; a failed request sets the "kept locally"
      message and a successful one leaves the message alone. */
  function AdjustItem(s: Screen, id: string, delta: int, outcome: CallResult): (r: Transition)
    ensures r.sent == [UpdateQuantity(id, delta)]
    ensures |r.next.inventory| == |s.inventory|
    ensures forall i :: 0 <= i < |s.inventory| && s.inventory[i].id == id ==>
      r.next.inventory[i] == s.inventory[i].(quantity := Max(0, s.inventory[i].quantity + delta))
    ensures forall i :: 0 <= i < |s.inventory| && s.inventory[i].id != id ==> r.next.inventory[i] == s.inventory[i]
    ensures outcome.Rejected? ==> r.next.err == UpdateFailedMessage
    ensures outcome.Resolved? ==> r.next.err == s.err
    ensures r.next == s.(inventory := r.next.inventory, err := r.next.err)
  {
    var local := s.(inventory := AdjustQuantity(s.inventory, id, delta));
    var next := if outcome.Rejected? then local.(err := UpdateFailedMessage) else local;
    Transition(next, [UpdateQuantity(id, delta)])
  }

  /** `newItem.purchaseDate || ''`. */
  function OrEmpty(s: string): string {
    if s == [] then "" else s
  }

  /** `Number(newItem.quantity || 1)`: 0 becomes 1. */
  function OrOne(q: int): int {
    if q == 0 then 1 else q
  }

  /** Reads a date-valued property of the `toAdd` object: only
      `purchasedate` is set; any other name reads `undefined`. */
  function WireDateField(row: WireRow, field: string): Option<string> {
    if field == "purchasedate" then Some(row.purchasedate) else None
  }

  /** The `toAdd` object of `handleAddItem`. */
  function ToAdd(form: Form, id: string): (w: WireRow)
    requires Accepts(form)
    ensures w == WireRow(id, Trim(form.name), form.location, form.purchaseDate, form.quantity)
  {
    WireRow(id, Trim(form.name), form.location, OrEmpty(form.purchaseDate), OrOne(form.quantity))
  }

  /** `handleAddItem` as written. A rejected form changes nothing and sends
      nothing. An accepted one appends a record whose date is read from
      `toAdd.purchaseDate`, a property `toAdd` does not have, then sends the
      `add` request carrying the date as `purchasedate`; the message is
      cleared on success and set to "saved locally" on failure; the modal
      closes and the form resets. */
  function AddItem(s: Screen, id: string, outcome: CallResult): (r: Transition)
    requires FreshId(s.inventory, id)
    ensures !Accepts(s.form) ==> r.next == s && r.sent == []
    ensures Accepts(s.form) ==>
      && r.sent == [AddRow(WireRow(id, Trim(s.form.name), s.form.location, s.form.purchaseDate, s.form.quantity))]
      && |r.next.inventory| == |s.inventory| + 1
      && r.next.inventory[..|s.inventory|] == s.inventory
      && r.next.inventory[|s.inventory|] == Item(id, Trim(s.form.name), s.form.location, s.form.quantity, None)
    ensures Accepts(s.form) ==> (r.next.err == [] <==> outcome.Resolved?)
    ensures Accepts(s.form) && outcome.Rejected? ==> r.next.err == AddFailedMessage
    ensures Accepts(s.form) ==>
      r.next == s.(inventory := r.next.inventory, err := r.next.err, modalOpen := false, form := ResetForm(s.activeTab))
    ensures UniqueIds(s.inventory) ==> UniqueIds(r.next.inventory)
  {
    if !Accepts(s.form) then Transition(s, [])
    else
      var toAdd := ToAdd(s.form, id);
      var local := Item(toAdd.id, toAdd.name, toAdd.location, toAdd.quantity, WireDateField(toAdd, "purchaseDate"));
      AppendFresh(s.inventory, local);
      var err := if outcome.Resolved? then "" else AddFailedMessage;
      var next := s.(inventory := s.inventory + [local], err := err, modalOpen := false, form := ResetForm(s.activeTab));
      Transition(next, [AddRow(toAdd)])
  }

  /** The as-written add loses the date: a form dated "2024-06" yields a
      local record with no date while the request carries "2024-06". */
  lemma AddItemDropsDate(s: Screen, id: string, outcome: CallResult)
    requires FreshId(s.inventory, id)
    requires s.form == Form("Canned Beans", "PantryIn", 3, "2024-06")
    ensures var r := AddItem(s, id, outcome);
      && r.sent[0].row.purchasedate == "2024-06"
      && r.next.inventory[|s.inventory|].purchaseDate == None
  {
    assert Accepts(s.form) by {
      TrimmedIsFixed(s.form.name);
    }
  }

  /** `handleAddItem` with the local record reading the field `toAdd`
      actually carries, `purchasedate`. */
  function AddItemKeepingDate(s: Screen, id: string, outcome: CallResult): (r: Transition)
    requires FreshId(s.inventory, id)
    ensures !Accepts(s.form) ==> r.next == s && r.sent == []
    ensures Accepts(s.form) ==>
      && |r.next.inventory| == |s.inventory| + 1
      && r.next.inventory[..|s.inventory|] == s.inventory
      && r.sent == [AddRow(WireRow(id, Trim(s.form.name), s.form.location, s.form.purchaseDate, s.form.quantity))]
      && r.next.inventory[|s.inventory|] == Item(id, Trim(s.form.name), s.form.location, s.form.quantity, Some(s.form.purchaseDate))
    ensures Accepts(s.form) ==> r.next.inventory[|s.inventory|].purchaseDate == Some(r.sent[0].row.purchasedate)
    ensures UniqueIds(s.inventory) ==> UniqueIds(r.next.inventory)
  {
    if !Accepts(s.form) then Transition(s, [])
    else
      var toAdd := ToAdd(s.form, id);
      var local := Item(toAdd.id, toAdd.name, toAdd.location, toAdd.quantity, WireDateField(toAdd, "purchasedate"));
      AppendFresh(s.inventory, local);
      var err := if outcome.Resolved? then "" else AddFailedMessage;
      var next := s.(inventory := s.inventory + [local], err := err, modalOpen := false, form := ResetForm(s.activeTab));
      Transition(next, [AddRow(toAdd)])
  }

  /** Sort key: `item.name`, not lower-cased in this version. */
  function NameOf(x: Item): string {
    x.name
  }

  /** The sort's "may precede" relation, with `leq(a, b)` standing for
      `a.localeCompare(b) <= 0`: by name, ascending for 'A-Z' and
      descending for any other order. */
  function Order(leq: (string, string) -> bool, sortOrder: string): (Item, Item) -> bool {
    if sortOrder == "A-Z" then OnKey(leq, NameOf) else Flip(OnKey(leq, NameOf))
  }

  lemma OrderPreorder(leq: (string, string) -> bool, sortOrder: string)
    requires TotalPreorder(leq)
    ensures TotalPreorder(Order(leq, sortOrder))
  {
    OnKeyPreorder(leq, NameOf);
    FlipPreorder(OnKey(leq, NameOf));
  }

  /** The text test for an already lower-cased term s:
      `i.name.toLowerCase().includes(s) || (i.purchaseDate || '').includes(s)`. */
  predicate TermHit(x: Item, s: string) {
    Includes(Lower(x.name), s) || Includes(x.purchaseDate.ValueOr(""), s)
  }

  /** The search step: skipped for an empty term. */
  function TermStep(xs: seq<Item>, searchTerm: string): seq<Item> {
    if searchTerm == [] then xs else Filter((x: Item) => TermHit(x, Lower(searchTerm)), xs)
  }

  /** The records left after the location step and the search step, in inventory order. */
  function Matching(inventory: seq<Item>, activeTab: string, searchTerm: string): seq<Item> {
    TermStep(LocationStep(inventory, activeTab), searchTerm)
  }

  /** Both filter steps keep inventory order: the records that match from a
      concatenation are those matching from each part, parts in place. */
  lemma MatchingAppend(a: seq<Item>, b: seq<Item>, activeTab: string, searchTerm: string)
    ensures Matching(a + b, activeTab, searchTerm) == Matching(a, activeTab, searchTerm) + Matching(b, activeTab, searchTerm)
  {
    LocationStepAppend(a, b, activeTab);
    if searchTerm != [] {
      FilterAppend((x: Item) => TermHit(x, Lower(searchTerm)), LocationStep(a, activeTab), LocationStep(b, activeTab));
    }
  }

  /** Whether a record belongs in the visible list, stated directly. */
  predicate Shown(x: Item, activeTab: string, searchTerm: string) {
    && (activeTab == AllKey || x.location == activeTab)
    && (searchTerm == [] || Includes(Lower(x.name), Lower(searchTerm)) || Includes(x.purchaseDate.ValueOr(""), Lower(searchTerm)))
  }

  /** `filteredAndSortedInventory`: a sorted copy holding each shown record
      as often as the inventory does and nothing else. */
  function Visible(inventory: seq<Item>, activeTab: string, searchTerm: string, sortOrder: string,
                   leq: (string, string) -> bool): (r: seq<Item>)
    ensures forall x :: multiset(r)[x] == if Shown(x, activeTab, searchTerm) then multiset(inventory)[x] else 0
    ensures activeTab != AllKey ==> forall x :: x in r ==> x.location == activeTab
    ensures searchTerm != [] ==> forall x :: x in r ==>
      Includes(Lower(x.name), Lower(searchTerm)) || Includes(x.purchaseDate.ValueOr(""), Lower(searchTerm))
    ensures activeTab == AllKey && searchTerm == [] ==> multiset(r) == multiset(inventory)
    ensures TotalPreorder(leq) ==> SortedBy(Order(leq, sortOrder), r)
  {
    var m := Matching(inventory, activeTab, searchTerm);
    assert forall x :: multiset(m)[x] == if Shown(x, activeTab, searchTerm) then multiset(inventory)[x] else 0;
    assert TotalPreorder(leq) ==> TotalPreorder(Order(leq, sortOrder)) by {
      if TotalPreorder(leq) {
        OrderPreorder(leq, sortOrder);
      }
    }
    var r := InsertionSort(Order(leq, sortOrder), m);
    assert forall x :: x in r ==> Shown(x, activeTab, searchTerm) by {
      forall x | x in r ensures Shown(x, activeTab, searchTerm) {
        assert multiset(r)[x] > 0;
      }
    }
    r
  }

  /** The sort is stable: records whose names compare equal keep the order
      the filters left them in, which is inventory order (MatchingAppend). */
  lemma VisibleStable(inventory: seq<Item>, activeTab: string, searchTerm: string, sortOrder: string,
                      leq: (string, string) -> bool, k: Item)
    requires TotalPreorder(leq)
    ensures Tied(Order(leq, sortOrder), k, Visible(inventory, activeTab, searchTerm, sortOrder, leq))
         == Tied(Order(leq, sortOrder), k, Matching(inventory, activeTab, searchTerm))
  {
    OrderPreorder(leq, sortOrder);
    SortStable(Order(leq, sortOrder), k, Matching(inventory, activeTab, searchTerm));
  }

  /** When no two different records have names that compare equal, the
      descending list is the ascending list reversed. */
  lemma DescendingIsReversedAscending(inventory: seq<Item>, activeTab: string, searchTerm: string,
                                      sortOrder: string, leq: (string, string) -> bool)
    requires TotalPreorder(leq) && NoTies(OnKey(leq, NameOf), inventory) && sortOrder != "A-Z"
    ensures Reverse(Visible(inventory, activeTab, searchTerm, "A-Z", leq))
         == Visible(inventory, activeTab, searchTerm, sortOrder, leq)
  {
    var le := OnKey(leq, NameOf);
    var m := Matching(inventory, activeTab, searchTerm);
    OnKeyPreorder(leq, NameOf);
    assert NoTies(le, m) by {
      forall x | x in m ensures x in inventory {
        assert multiset(m)[x] > 0;
      }
    }
    ReversedSortIsFlippedSort(le, m);
  }
}
