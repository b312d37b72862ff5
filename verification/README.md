# Gaba Inventory: a Dafny model of the inventory screen's logic

The repository is a React inventory screen for groceries kept in six fixed
storage locations. It exists in two versions:

- `Backup/main.jsx` keeps the inventory in browser storage only.
- `src/main.jsx` adds synchronisation with a remote spreadsheet endpoint.

The only behaviour worth stating is the pure logic inside the component
bodies. This project models that logic in both versions:

- the location registry (`LOCATION_TABS`, `locationMap`, the add-form location choices);
- the store operations (the clamped quantity adjustment, the add-item handler with its validation gate and form reset);
- the remote version's row normalisation and startup reconciliation;
- the query that derives the visible list: location filter, case-insensitive search, name sort.

Module layout:

| file | module | models |
|---|---|---|
| Values.dfy | `Values` | `Option` (a JS value that may be `undefined`) and `CallResult` (a remote call resolved or threw) |
| Text.dfy | `Text` | `trim`, `toLowerCase` (ASCII) and `includes` |
| Sorting.dfy | `Sorting` | the stable `Array.prototype.sort` under an abstract comparator |
| Locations.dfy | `Locations` | the registry, `locationMap`, the location options |
| Items.dfy | `Items` | the record, the form, and the operations both versions share |
| Query.dfy | `Query` | order-keeping filtering and the location step |
| LocalApp.dfy | `LocalApp` | `Backup/main.jsx`: add handler, visible list, the screen as a state machine |
| SyncApp.dfy | `SyncApp` | `src/main.jsx`: normalisation, startup, handlers with their requests, visible list |
| Variants.dfy | `Variants` | how the two versions' visible lists relate |

The model abstracts the source's runtime calls as follows:

- `localeCompare` is a parameter `leq(a, b)`, read as `a.localeCompare(b) <= 0`. Filtering and permutation facts hold for any `leq`. Sortedness and stability are promised whenever `leq` is a total preorder.
- `Math.random` ids are a parameter with the precondition that no record already has that id.
- Network calls are the requests a handler returns, plus an outcome parameter it is handed back.
- The stored snapshot is an `Option<seq<Item>>` input.

## Model

| member | source | states |
|---|---|---|
| Locations.RegistryShape | Backup/main.jsx:8-15 | the registry has six entries, "All" first, and no two share a key |
| Locations.KeySets | src/main.jsx:9-16 | the tab keys are the five concrete location keys plus "All", and "All" is not a concrete key |
| Locations.ConcreteKeysListed | Backup/main.jsx:10-14 | the concrete keys are PantryIn, PantryOut, FreezerIn, FreezerOut and FridgeOut |
| Locations.DefaultIsConcrete | Backup/main.jsx:30 | the form's default location `LOCATION_TABS[1].key` is "PantryIn", a concrete key |
| Locations.NameMap | Backup/main.jsx:90-93 | the reduce's keys are the starting object's keys plus every tab key; a key no tab writes keeps its starting value |
| Locations.NameMapLastWins | Backup/main.jsx:91 | a tab whose key no later tab reuses has its own name stored under its key |
| Locations.LocationMapTable | src/main.jsx:80 | `locationMap` has exactly the six registry keys and maps each one to its display name |
| Locations.LocationOptions | Backup/main.jsx:235 | the offered tabs are exactly the table's tabs whose key is not "All" |
| Locations.OptionsExcludeAll | src/main.jsx:160 | the add form offers the five concrete tabs in table order; every offered key is concrete |
| Text.Trim | Backup/main.jsx:73 | the trimmed name is a slice of the input with only JS white space around it and none at either of its ends |
| Text.TrimEmptyIffBlank | src/main.jsx:68 | a name trims to "" exactly when every character is white space |
| Text.TrimIdempotent | src/main.jsx:70 | a stored, trimmed name is unchanged by trimming again |
| Text.Lower | Backup/main.jsx:105 | lower-casing keeps the length and lower-cases each character |
| Text.LowerIdempotent | Backup/main.jsx:114-115 | lower-casing an already lower-cased name changes nothing |
| Text.Includes | src/main.jsx:83 | `s.includes(t)` holds exactly when t occurs in s at some index |
| Sorting.InsertionSort | Backup/main.jsx:113-122 | the sort returns a permutation of its input; under a total preorder every element may precede every later one |
| Sorting.SortStable | src/main.jsx:84 | under a total preorder, the elements that compare equal to any given value keep their input order |
| Sorting.ReversedSortIsFlippedSort | src/main.jsx:84 | when no two different elements compare equal, the descending sort is the ascending sort reversed |
| Sorting.SortedUnique | Backup/main.jsx:113 | two sorted arrangements of the same elements without ties are the same sequence |
| Items.AdjustQuantity | Backup/main.jsx:60-63 | length and order are kept; each record with the id gets quantity max(0, q + delta); every other record, and every other field, is unchanged |
| Items.AdjustAbsentIsNoOp | Backup/main.jsx:62 | adjusting an id no record carries leaves the inventory unchanged |
| Items.AdjustKeepsInvariants | src/main.jsx:61 | adjusting keeps all quantities non-negative and all ids unique |
| Items.AdjustUndo | Backup/main.jsx:60-63 | on non-negative quantities, one adjustment by +delta followed by one by −delta restores the inventory |
| Items.AdjustIncreasesCompose | Backup/main.jsx:183 | on non-negative quantities, two increases in a row equal one increase by their sum |
| Items.PressesUp | Backup/main.jsx:182-188 | on non-negative quantities, n presses of "+" equal one adjustment by n |
| Items.PressesDown | Backup/main.jsx:170-176 | on non-negative quantities, n presses of "−" equal one adjustment by −n, clamp included |
| Items.PressesUndo | Backup/main.jsx:170-188 | on non-negative quantities, pressing "+" n times and then "−" n times restores the inventory |
| Items.AdjustDecreasesCompose | Backup/main.jsx:171 | two decreases in a row equal one decrease by their sum, even when the clamp fires |
| Items.AcceptsIff | Backup/main.jsx:69 | a form is accepted exactly when its name has a non-white-space character and its quantity is positive |
| Items.ResetForm | Backup/main.jsx:78-83 | the reset form has empty name and date and quantity 1. Its location is the active tab whenever the tab is not "All" (whatever string it holds), and "PantryIn" (`LOCATION_TABS[1].key`) on "All"; so it is concrete whenever the tab is a registry key |
| Query.Filter | Backup/main.jsx:100 | the filter keeps each element satisfying the predicate as often as it occurs, and nothing else |
| Query.FilterAppend | Backup/main.jsx:100 | filtering keeps order: the filter of a concatenation is the concatenation of the filters |
| Query.FilterSingle | Backup/main.jsx:106-109 | a single element is kept exactly when it satisfies the predicate |
| Query.LocationStep | src/main.jsx:82 | on a concrete tab, exactly the records at that location are kept; on "All" the inventory is returned unchanged |
| Query.LocationStepAppend | Backup/main.jsx:99-101 | the location step keeps inventory order: it acts on a concatenation part by part |
| LocalApp.Initial | Backup/main.jsx:22-47 | the first state shows the saved snapshot, or nothing if there is none; the tab is a registry key and the form location is concrete |
| LocalApp.AddItem | Backup/main.jsx:67-86 | a rejected form changes nothing. An accepted one appends one record with the fresh id, the trimmed non-empty name and the form's location, quantity (at least 1) and date, keeps the earlier records, unique ids and non-negative quantities, closes the modal and resets the form |
| LocalApp.AddItemPlaced | Backup/main.jsx:76 | on a consistent screen, an add files the new record under a concrete location |
| LocalApp.Visible | Backup/main.jsx:95-125 | each record appears as often as in the inventory when it passes both filters, otherwise not at all. On a concrete tab every result is at that tab. With a term, each result's lower-cased name or its date contains the lower-cased term. "All" with no term gives a permutation of the inventory. The result is ordered by lower-cased name, ascending for 'A-Z' and descending otherwise |
| LocalApp.MatchingAppend | Backup/main.jsx:96-110 | both filter steps keep inventory order: matching on a concatenation is matching on each part, parts in place |
| LocalApp.VisibleStable | Backup/main.jsx:113-122 | records whose names compare equal keep their filtered inventory order |
| LocalApp.DescendingIsReversedAscending | Backup/main.jsx:117-121 | without name ties, the non-'A-Z' list is the 'A-Z' list reversed |
| LocalApp.Step | Backup/main.jsx:129-378 | every control keeps the active tab a registry key and the form location concrete; it also keeps records at concrete locations, ids unique and quantities non-negative (an add appends a quantity of at least 1) |
| LocalApp.Run | Backup/main.jsx:316-383 | any sequence of rendered controls keeps the tab and form consistent, records at concrete locations, ids unique and quantities non-negative |
| LocalApp.LocationNeverAll | Backup/main.jsx:365-370 | starting from a snapshot with concrete locations, no reachable screen holds a record at "All", and the form never holds "All" either. This follows from the default (line 30), the add button adopting a concrete tab, and the options excluding "All" (line 235) |
| SyncApp.Initial | src/main.jsx:26-37 | the first render is loading, with an empty inventory and no message; the tab is a registry key and the form location is concrete |
| SyncApp.NormaliseRow | src/main.jsx:43-46 | a row becomes a record with the same id, name and location; a missing quantity becomes 0 and a missing date becomes "" |
| SyncApp.Normalise | src/main.jsx:43 | normalisation gives one record per row, in row order |
| SyncApp.NormaliseRoundTrip | src/main.jsx:44-45 | a dated record written back as a row normalises to itself, so normalising is idempotent |
| SyncApp.Startup | src/main.jsx:39-56 | one list request is sent. Success shows the normalised rows and clears the message. Failure shows the stored snapshot, or keeps the inventory if there is none, and sets the fallback message. The message is empty exactly on success, loading ends, and nothing else changes |
| SyncApp.MountAsWritten | src/main.jsx:39-58 | when the list call fails at mount, the screen shows an empty inventory whatever snapshot was saved |
| SyncApp.MountFallbackLosesSnapshot | src/main.jsx:51-53 | a saved snapshot of two records is not what the fallback shows |
| SyncApp.MountGuarded | src/main.jsx:51-58 | with saving held back while loading, the fallback shows the saved snapshot (or nothing if none) with the fallback message; success shows the normalised rows |
| SyncApp.AdjustItem | src/main.jsx:60-64 | the local change is the clamped adjustment of the matching records, with all others kept. One updateQuantity request is sent. Failure sets the "kept locally" message; success leaves the message alone |
| SyncApp.ToAdd | src/main.jsx:69-73 | for an accepted form, the wire row carries the fresh id, the trimmed name and the form's location, date and quantity unchanged |
| SyncApp.AddItem | src/main.jsx:66-78 | a rejected form changes nothing and sends nothing. An accepted one appends one record with the id, trimmed name, location and quantity but no date, and sends one add request with the date. The message is empty exactly on success. The modal closes, the form resets, and ids stay unique |
| SyncApp.AddItemDropsDate | src/main.jsx:71-74 | a form dated "2024-06" sends "2024-06" but stores a local record with no date |
| SyncApp.AddItemKeepingDate | src/main.jsx:74 | with the date read from `purchasedate`, the local record's date equals the date sent in the request |
| SyncApp.Visible | src/main.jsx:81-85 | the same membership, location and search guarantees as the backup version, with the date read as `purchaseDate \|\| ''`; the result is ordered by name as stored, ascending for 'A-Z' and descending otherwise |
| SyncApp.MatchingAppend | src/main.jsx:82-83 | both filter steps keep inventory order: matching on a concatenation is matching on each part, parts in place |
| SyncApp.VisibleStable | src/main.jsx:84 | records whose names compare equal keep their filtered inventory order |
| SyncApp.DescendingIsReversedAscending | src/main.jsx:84 | without name ties, the non-'A-Z' list is the 'A-Z' list reversed |
| Variants.DateTestsAgree | Backup/main.jsx:108 | for a non-empty term, the backup's date test and the sync version's date test agree |
| Variants.MatchingAgrees | src/main.jsx:82-83 | both versions' filters leave the same records in the same order |
| Variants.VisibleSameRecords | Backup/main.jsx:95-125 | both versions show the same records, each as often; only their order can differ |

Notes on reading the model:

- Quantities are unbounded integers. Every adjustment clamps at zero (`Math.max(0, …)`).
- The search lower-cases the term and the name, but not the purchase date (both versions). A date therefore matches only a term whose lower-cased form it contains.
- The visible list is a pure function of its inputs: evaluating it twice gives the same list. In the sync version it never changes the inventory, because src/main.jsx:84 sorts a copy. The backup version sorts in place (see Left out).
- The fallback message at src/main.jsx:53, "Online sync unavailable. Showing local data.", says the failed startup shows the locally saved records. The code does not do this (see Findings). The model follows the code in `SyncApp.MountAsWritten`.

## Left out

- Rendering: JSX, Tailwind class strings, `tailwind.config.js`, colour lookups, the "No Items Found" and "empty inventory" texts and the error banner. These are presentation only.
- React scheduling, `useMemo` caching and StrictMode double effects. The one exception is the startup ordering in `SyncApp.MountAsWritten`. Each handler's local change, request and outcome are taken as one step. A message set by a late outcome after other user actions is not modelled.
- `localStorage` and JSON: the snapshot is an input. `SyncApp.Persist` is the whole save effect. A snapshot that fails to parse is not modelled; that is a `JSON.parse` throw in src/main.jsx:52 and a logged error in Backup/main.jsx:44-46.
- `fetch`, the endpoint and its latency: requests are returned values and outcomes are parameters. The endpoint's own clamping and storage are not part of this model.
- `generateId` (`Math.random`) is a fresh-id parameter. Collisions are excluded by precondition.
- `localeCompare` is abstract. `toLowerCase` is ASCII only; there is no Unicode case mapping.
- `parseInt` and `Number` coercions: form quantities are integers, and the quantity field's `parseInt(...) || 1` is `TypeQuantity`. A remote quantity or date of a non-string, non-numeric type is not modelled. Remote rows are assumed to carry string id, name and location.
- The browser's own form validation (`required`, `min="1"`) is not modelled. It can block a submit before the handler runs; the handler's gate is modelled.
- The sync version's tab, search, sort and modal controls (src/main.jsx:87-178) are not modelled as a state machine. They are the backup's controls, which `LocalApp.Step` models. Only their shared location-option rule is cited (`Locations.OptionsExcludeAll`).
- The search bar's show/hide toggle (`isSearchMinimized`) changes only what is displayed. `LocalApp.Step` treats typing a search term as always available.
- The backup's in-place sort. On the "All" tab with an empty search, `filtered` is the `inventory` state array itself (Backup/main.jsx:96), and `filtered.sort` (line 113) reorders it in place. Later adds, adjustments and saves then see the stored inventory in sorted order. The model keeps the stored order and returns the sorted list separately; `LocalApp.Visible` describes the list shown, not this side effect.
- The backup's mount load (Backup/main.jsx:38-47) is modelled only as the starting state `LocalApp.Initial`.

## Findings

| source | as written | input that shows it | evidently intended | confidence | as-written member | corrected member |
|---|---|---|---|---|---|---|
| src/main.jsx:51-58 | The save effect (line 58) is declared after the startup effect. It runs once the startup effect suspends on the list call and writes the initial empty inventory to the slot. The fallback at lines 51-52 then reads "[]". | Two records are saved from a previous session, and the list call fails. | The fallback shows the two saved records with the fallback message. | high; not executed | SyncApp.MountAsWritten (shown by SyncApp.MountFallbackLosesSnapshot) | SyncApp.MountGuarded |
| src/main.jsx:74 | The local record reads `toAdd.purchaseDate`. `toAdd` only has `purchasedate` (line 71), so the local copy's date is `undefined`. | A form with the date "2024-06". | The local record keeps the date that is sent to the endpoint. | high; not executed | SyncApp.AddItem (shown by SyncApp.AddItemDropsDate) | SyncApp.AddItemKeepingDate |
