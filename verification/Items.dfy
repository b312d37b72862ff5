/**
 The inventory record, the add-item form, and the store operations both
 versions of the screen share: the clamped quantity adjustment, the
 add-item validation gate and the form reset after a successful add.
 */
module Items {
  import opened Values
  import opened Text
  import opened Locations

  /** One inventory record. `purchaseDate` is None when the field is
      `undefined`, which a record can be (see SyncApp.AddItem). */
  datatype Item = Item(id: string, name: string, location: string, quantity: int, purchaseDate: Option<string>)

  /** The add-item form's state (`newItem`). */
  datatype Form = Form(name: string, location: string, quantity: int, purchaseDate: string)

  function Max(a: int, b: int): int {
    if a >= b then a else b
  }

  /** No two records share an id. */
  ghost predicate UniqueIds(xs: seq<Item>) {
    forall i, j :: 0 <= i < j < |xs| ==> xs[i].id != xs[j].id
  }

  /** id is not used by any record of xs. */
  predicate FreshId(xs: seq<Item>, id: string) {
    forall x :: x in xs ==> x.id != id
  }

  /** Appending a record with a fresh id keeps ids unique and the old records in place. */
  lemma AppendFresh(xs: seq<Item>, x: Item)
    requires FreshId(xs, x.id)
    ensures (xs + [x])[..|xs|] == xs && (xs + [x])[|xs|] == x
    ensures UniqueIds(xs) ==> UniqueIds(xs + [x])
  {
    var ys := xs + [x];
    if UniqueIds(xs) {
      forall i, j | 0 <= i < j < |ys| ensures ys[i].id != ys[j].id {
        assert ys[i] == xs[i];
        if j == |xs| {
          assert xs[i] in xs;
        } else {
          assert ys[j] == xs[j];
        }
      }
    }
  }

  /** Every quantity is at least zero. */
  ghost predicate NonNegative(xs: seq<Item>) {
    forall x :: x in xs ==> x.quantity >= 0
  }

  /** Appending a record with a non-negative quantity keeps all quantities non-negative. */
  lemma NonNegativeAppend(xs: seq<Item>, x: Item)
    requires NonNegative(xs) && x.quantity >= 0
    ensures NonNegative(xs + [x])
  {
    forall y | y in xs + [x] ensures y.quantity >= 0 {
      assert y in xs || y == x;
    }
  }

  /** `prev.map(it => it.id === id ? {...it, quantity: Math.max(0, it.quantity + delta)} : it)`:
      every record with the id gets its quantity moved by delta and clamped at
      zero; nothing else changes, and length and order are kept. */
  function AdjustQuantity(inventory: seq<Item>, id: string, delta: int): (r: seq<Item>)
    ensures |r| == |inventory|
    ensures forall i :: 0 <= i < |r| ==> r[i] == inventory[i].(quantity := r[i].quantity)
    ensures forall i :: 0 <= i < |r| && inventory[i].id == id ==>
      r[i].quantity == Max(0, inventory[i].quantity + delta)
    ensures forall i :: 0 <= i < |r| && inventory[i].id != id ==> r[i] == inventory[i]
  {
    if inventory == [] then []
    else
      var x := inventory[0];
      var y := if x.id == id then x.(quantity := Max(0, x.quantity + delta)) else x;
      [y] + AdjustQuantity(inventory[1..], id, delta)
  }

  /** Adjusting an id no record carries leaves the inventory as it was. */
  lemma AdjustAbsentIsNoOp(inventory: seq<Item>, id: string, delta: int)
    requires FreshId(inventory, id)
    ensures AdjustQuantity(inventory, id, delta) == inventory
  {
  }

  /** Adjusting never makes a quantity negative, and keeps every id. */
  lemma AdjustKeepsInvariants(inventory: seq<Item>, id: string, delta: int)
    requires NonNegative(inventory)
    ensures NonNegative(AdjustQuantity(inventory, id, delta))
    ensures UniqueIds(inventory) ==> UniqueIds(AdjustQuantity(inventory, id, delta))
  {
    var r := AdjustQuantity(inventory, id, delta);
    assert NonNegative(r) by {
      forall x | x in r ensures x.quantity >= 0 {
        var i :| 0 <= i < |r| && r[i] == x;
        assert r[i].quantity == inventory[i].quantity || r[i].quantity == Max(0, inventory[i].quantity + delta);
        assert inventory[i] in inventory;
      }
    }
    assert UniqueIds(inventory) ==> UniqueIds(r) by {
      if UniqueIds(inventory) {
        forall i, j | 0 <= i < j < |r| ensures r[i].id != r[j].id {
          assert r[i].id == inventory[i].id && r[j].id == inventory[j].id;
        }
      }
    }
  }

  /** An increase is undone by the matching decrease, since the clamp never
      fires on non-negative quantities. */
  lemma AdjustUndo(inventory: seq<Item>, id: string, delta: int)
    requires NonNegative(inventory) && delta >= 0
    ensures AdjustQuantity(AdjustQuantity(inventory, id, delta), id, -delta) == inventory
  {
    var up := AdjustQuantity(inventory, id, delta);
    var r := AdjustQuantity(up, id, -delta);
    forall i | 0 <= i < |r| ensures r[i] == inventory[i] {
      assert inventory[i] in inventory;
    }
  }

  /** On non-negative quantities, two increases in a row equal one increase
      by their sum. */
  lemma AdjustIncreasesCompose(inventory: seq<Item>, id: string, a: int, b: int)
    requires NonNegative(inventory) && a >= 0 && b >= 0
    ensures AdjustQuantity(AdjustQuantity(inventory, id, a), id, b) == AdjustQuantity(inventory, id, a + b)
  {
    var r := AdjustQuantity(AdjustQuantity(inventory, id, a), id, b);
    var s := AdjustQuantity(inventory, id, a + b);
    forall i | 0 <= i < |r| ensures r[i] == s[i] {
      assert inventory[i] in inventory;
    }
  }

  /** Two decreases in a row equal one decrease by their sum: clamping twice
      at zero is clamping once. */
  lemma AdjustDecreasesCompose(inventory: seq<Item>, id: string, a: int, b: int)
    requires a <= 0 && b <= 0
    ensures AdjustQuantity(AdjustQuantity(inventory, id, a), id, b) == AdjustQuantity(inventory, id, a + b)
  {
    var r := AdjustQuantity(AdjustQuantity(inventory, id, a), id, b);
    var s := AdjustQuantity(inventory, id, a + b);
    forall i | 0 <= i < |r| ensures r[i] == s[i] {
    }
  }

  /** n presses of a row button that adjusts the record `id` by delta. */
  function Presses(inventory: seq<Item>, id: string, delta: int, n: nat): seq<Item>
    decreases n
  {
    if n == 0 then inventory else AdjustQuantity(Presses(inventory, id, delta, n - 1), id, delta)
  }

  /** The last of n presses acts on what the first n - 1 left. */
  lemma PressLast(inventory: seq<Item>, id: string, delta: int, n: nat, before: seq<Item>)
    requires n > 0 && Presses(inventory, id, delta, n - 1) == before
    ensures Presses(inventory, id, delta, n) == AdjustQuantity(before, id, delta)
  {
  }

  /** Raising by n - 1 and then by one is raising by n. */
  lemma OneMoreUp(inventory: seq<Item>, id: string, n: nat)
    requires NonNegative(inventory) && n > 0
    ensures AdjustQuantity(AdjustQuantity(inventory, id, n - 1), id, 1) == AdjustQuantity(inventory, id, n)
  {
    AdjustIncreasesCompose(inventory, id, n - 1, 1);
  }

  /** Lowering by n - 1 and then by one is lowering by n. */
  lemma OneMoreDown(inventory: seq<Item>, id: string, n: nat)
    requires n > 0
    ensures AdjustQuantity(AdjustQuantity(inventory, id, -((n - 1) as int)), id, -1) == AdjustQuantity(inventory, id, -(n as int))
  {
    AdjustDecreasesCompose(inventory, id, -((n - 1) as int), -1);
  }

  /** n presses of "+" are one adjustment by n. */
  lemma {:induction false} PressesUp(inventory: seq<Item>, id: string, n: nat)
    requires NonNegative(inventory)
    ensures Presses(inventory, id, 1, n) == AdjustQuantity(inventory, id, n)
    decreases n
  {
    if n == 0 {
      AdjustZero(inventory, id);
    } else {
      PressesUp(inventory, id, n - 1);
      PressLast(inventory, id, 1, n, AdjustQuantity(inventory, id, n - 1));
      OneMoreUp(inventory, id, n);
    }
  }

  /** n presses of "−" are one adjustment by −n. */
  lemma {:induction false} PressesDown(inventory: seq<Item>, id: string, n: nat)
    requires NonNegative(inventory)
    ensures Presses(inventory, id, -1, n) == AdjustQuantity(inventory, id, -(n as int))
    decreases n
  {
    if n == 0 {
      AdjustZero(inventory, id);
    } else {
      PressesDown(inventory, id, n - 1);
      PressLast(inventory, id, -1, n, AdjustQuantity(inventory, id, -((n - 1) as int)));
      OneMoreDown(inventory, id, n);
    }
  }

  /** On non-negative quantities, pressing "+" n times and then "−" n times
      restores the inventory. */
  lemma PressesUndo(inventory: seq<Item>, id: string, n: nat)
    requires NonNegative(inventory)
    ensures Presses(Presses(inventory, id, 1, n), id, -1, n) == inventory
  {
    PressesUp(inventory, id, n);
    AdjustKeepsInvariants(inventory, id, n);
    PressesDown(AdjustQuantity(inventory, id, n), id, n);
    AdjustUndo(inventory, id, n);
  }

  /** Adjusting by zero changes nothing on non-negative quantities. */
  lemma AdjustZero(inventory: seq<Item>, id: string)
    requires NonNegative(inventory)
    ensures AdjustQuantity(inventory, id, 0) == inventory
  {
    var r := AdjustQuantity(inventory, id, 0);
    forall i | 0 <= i < |r| ensures r[i] == inventory[i] {
      assert inventory[i] in inventory;
    }
  }

  /** The add-item gate: `name.trim()` is non-empty and the quantity is positive. */
  predicate Accepts(form: Form) {
    Trim(form.name) != [] && form.quantity > 0
  }

  /** A form is accepted exactly when its name has a non-white-space
      character and its quantity is positive. */
  lemma AcceptsIff(form: Form)
    ensures Accepts(form) <==> !Blank(form.name) && form.quantity > 0
  {
    TrimEmptyIffBlank(form.name);
  }

  /** The form after a successful add: empty name and date, quantity 1, and
      the active tab as location unless it is "All", then `LOCATION_TABS[1].key`. */
  function ResetForm(activeTab: string): (f: Form)
    ensures f.name == [] && f.quantity == 1 && f.purchaseDate == []
    ensures activeTab != AllKey ==> f.location == activeTab
    ensures activeTab == AllKey ==> f.location == DefaultLocation && f.location == "PantryIn"
    ensures activeTab in TabKeys ==> f.location in ConcreteKeys
  {
    KeySets();
    DefaultIsConcrete();
    Form("", if activeTab != AllKey then activeTab else DefaultLocation, 1, "")
  }
}
