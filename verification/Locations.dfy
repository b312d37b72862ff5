/**
 The location registry: the fixed, ordered table of storage locations
 (`LOCATION_TABS`), the key-to-display-name map built from it, and the
 choices offered by the add-item form. "All" is a filter-only key.
 */
module Locations {

  /** One registry entry: key, display name and colour tag. */
  datatype Tab = Tab(key: string, name: string, color: string)

  /** The wildcard tab key: it disables the location filter and is never an item's location. */
  const AllKey: string := "All"

  /** `LOCATION_TABS`, in tab order. */
  const LocationTabs: seq<Tab> := [
    Tab("All", "All Locations", "gray"),
    Tab("PantryIn", "Inside Pantry", "lime"),
    Tab("PantryOut", "Outside Pantry", "lime"),
    Tab("FreezerIn", "Inside Freezer", "sky"),
    Tab("FreezerOut", "Outside Freezer", "sky"),
    Tab("FridgeOut", "Outside Fridge", "amber")
  ]

  /** `LOCATION_TABS[1].key`: the location a fresh add-item form starts with. */
  const DefaultLocation: string := LocationTabs[1].key

  /** The keys of the tabs selectable in the tab bar. */
  const TabKeys: set<string> := KeysOf(LocationTabs)

  /** The keys an item's location may take: every registry key except "All". */
  const ConcreteKeys: set<string> := set t | t in LocationTabs && t.key != AllKey :: t.key

  /** The table has six entries, "All" first, with pairwise distinct keys. */
  lemma RegistryShape()
    ensures |LocationTabs| == 6 && LocationTabs[0].key == AllKey
    ensures forall i, j :: 0 <= i < j < |LocationTabs| ==> LocationTabs[i].key != LocationTabs[j].key
  {
  }

  /** The selectable keys are the five concrete ones plus the wildcard. */
  lemma KeySets()
    ensures TabKeys == ConcreteKeys + {AllKey} && AllKey !in ConcreteKeys
  {
  }

  /** The concrete keys, written out. */
  lemma ConcreteKeysListed()
    ensures ConcreteKeys == {"PantryIn", "PantryOut", "FreezerIn", "FreezerOut", "FridgeOut"}
  {
  }

  /** A fresh add-item form starts at a concrete location, "PantryIn". */
  lemma DefaultIsConcrete()
    ensures DefaultLocation == "PantryIn" && DefaultLocation in ConcreteKeys
  {
    assert LocationTabs[1] in LocationTabs;
  }

  /** The keys of the tabs in `tabs`. */
  function KeysOf(tabs: seq<Tab>): set<string> {
    set t | t in tabs :: t.key
  }

  /** `tabs.reduce((acc, t) => (acc[t.key] = t.name, acc), acc)`: each tab
      writes its name under its key, a later tab overwriting an earlier one. */
  function NameMap(tabs: seq<Tab>, acc: map<string, string>): (m: map<string, string>)
    ensures m.Keys == acc.Keys + KeysOf(tabs)
    ensures forall k :: k in acc && k !in KeysOf(tabs) ==> m[k] == acc[k]
  {
    if tabs == [] then acc
    else
      assert tabs == [tabs[0]] + tabs[1..];
      assert KeysOf(tabs) == {tabs[0].key} + KeysOf(tabs[1..]);
      NameMap(tabs[1..], acc[tabs[0].key := tabs[0].name])
  }

  /** A tab whose key no later tab reuses has its name in the result. */
  lemma {:induction false} NameMapLastWins(tabs: seq<Tab>, acc: map<string, string>, i: nat)
    requires i < |tabs|
    requires forall j :: i < j < |tabs| ==> tabs[j].key != tabs[i].key
    ensures tabs[i].key in NameMap(tabs, acc) && NameMap(tabs, acc)[tabs[i].key] == tabs[i].name
  {
    var tail := tabs[1..];
    var acc' := acc[tabs[0].key := tabs[0].name];
    if i == 0 {
      assert tabs[0].key !in KeysOf(tail) by {
        forall t | t in tail ensures t.key != tabs[0].key {
          var j :| 0 <= j < |tail| && tail[j] == t;
          assert tabs[j + 1] == t;
        }
      }
    } else {
      forall j | i - 1 < j < |tail| ensures tail[j].key != tail[i - 1].key {
        assert tail[j] == tabs[j + 1];
      }
      NameMapLastWins(tail, acc', i - 1);
    }
  }

  /** `locationMap`: display name by key. */
  function LocationMap(): map<string, string> {
    NameMap(LocationTabs, map[])
  }

  /** locationMap has exactly the six registry keys and maps each to its display name. */
  lemma LocationMapTable()
    ensures LocationMap().Keys == TabKeys
    ensures forall t :: t in LocationTabs ==> LocationMap()[t.key] == t.name
  {
    RegistryShape();
    forall t | t in LocationTabs ensures LocationMap()[t.key] == t.name {
      var i :| 0 <= i < |LocationTabs| && LocationTabs[i] == t;
      NameMapLastWins(LocationTabs, map[], i);
    }
  }

  /** `tabs.filter(t => t.key !== 'All')`: the tabs offered as an item's
      location, in table order. */
  function LocationOptions(tabs: seq<Tab>): (r: seq<Tab>)
    ensures forall t :: t in r <==> t in tabs && t.key != AllKey
    ensures |r| <= |tabs|
  {
    if tabs == [] then []
    else
      assert tabs == [tabs[0]] + tabs[1..];
      (if tabs[0].key != AllKey then [tabs[0]] else []) + LocationOptions(tabs[1..])
  }

  /** A table without the wildcard is offered whole. */
  lemma {:induction false} OptionsOfConcrete(tabs: seq<Tab>)
    requires forall t :: t in tabs ==> t.key != AllKey
    ensures LocationOptions(tabs) == tabs
  {
    if tabs != [] {
      OptionsOfConcrete(tabs[1..]);
    }
  }

  /** The add-item form offers the five concrete locations, in tab order, and never "All". */
  lemma OptionsExcludeAll()
    ensures LocationOptions(LocationTabs) == LocationTabs[1..]
    ensures forall t :: t in LocationOptions(LocationTabs) ==> t.key in ConcreteKeys
  {
    var tail := LocationTabs[1..];
    assert forall t :: t in tail ==> t.key != AllKey by {
      forall t | t in tail ensures t.key != AllKey {
        var i :| 0 <= i < |tail| && tail[i] == t;
        assert LocationTabs[i + 1] == t;
      }
    }
    OptionsOfConcrete(tail);
    assert LocationOptions(LocationTabs) == [] + LocationOptions(tail);
  }
}
