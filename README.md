# Dict and Map: a verified model

The repository offers two small key-value containers in C#.

- `Dict<TKey, TValue>` (Map/Model/Dict.cs) is a hash table with ten slots. It resolves collisions by linear probing with wraparound. Beside the slots it keeps a public list `Keys`, and `Add`, `Remove`, `Update` and `Search` consult that list before they touch the slots. Removal nulls a slot outright; it leaves no tombstone.
- `Map<TKey, TValue>` (Map/Model/Map.cs) is a list of items searched with LINQ. No key is listed twice.
- `Item<TKey, TValue>` (Map/Model/Item.cs) is the mutable key-value record both containers store.

The model keeps the source's form.

- **The hash table.** `Dicts.Dict` is a class. It holds an `array` of `Item?` slots and a `seq` for `Keys`. Its methods follow the C# loops, early returns and in-place writes. Each is proved to compute the matching value-level function of `DictSpec` on the table it holds. `DictSpec` mirrors every branch of the source, including the crashes: exceptions become `Outcome` and `Lookup` values.
- **The list.** `Maps.Map` is a class as well. It holds a `seq` of `Item` objects, and its methods are proved against `MapSpec`, where the list is a sequence of pairs.
- **The properties.** They are stated on those functions:
  - `DictProperties` covers the invariant `Keys` keeps with the slots, the round trip of `Add` and `Search`, the textbook reachability invariant, and the defects of eager removal and null dereference;
  - `DictMeaning` reads a table as a mathematical `map`;
  - `MapSpec` does the same for the list;
  - `Agreement` shows that while every listed key is reachable, the two containers agree operation by operation.
- **The driver.** `DictTraces` and `MapTraces` follow the demo driver (Map/Program.cs) on `int` keys, whose hash code is the key itself. They state the table or list after each of its calls. The driver's `foreach` printouts (Map/Program.cs:34-37 and 47-50) are not replayed as steps; only the contents they would show are stated.

Some of the source's behaviour is followed as written:

- **`Count`.** `Dict.Count` is the array length, always 10.
- **Negative hash codes.** `GetHash` uses C#'s truncating `%`, so a negative hash code that is not a multiple of ten gives a negative index, and the array access throws. This is `Threw(IndexOutOfRange)`.
- **Null dereferences.** They occur in the `foreach` of `Update` and `Search`, and in `Remove` when the home slot is null and no slot holds the key, which only a change from outside, to `Keys` or to a stored item's `Key`, can cause. They are `Threw(NullReference)`. `Update` first replaces the value of every matching item the `foreach` passes, and that partial change is kept.
- **Soft misses.** `Search` of an unlisted key, or of a listed key cut off by a null slot, returns `default`, modelled as `Miss`. `Remove` and `Update` cut off in the same way change nothing, modelled as `Stranded`.

One might expect `Search(12)` to still return "C" after inserting 1, 2 and 12 and removing 2, which is what linear probing with tombstones would give. The code does not do that. With 12's home slot null, `Search` runs its `foreach` from slot 0. Slot 0 is null, so the `foreach` dereferences null there, before it reaches 12 in slot 3. The model follows the code: `DictTraces.CollisionThenSearch`.

## Model

| member | source | states |
|---|---|---|
| Items.Item.constructor | Map/Model/Item.cs:27-37 | after construction `Key` and `Value` are the arguments |
| Items.Item.ToString | Map/Model/Item.cs:43-46 | the text is the key's text, then " - ", then the value's text, with the lengths adding up |
| DictSpec.Home | Map/Model/Dict.cs:507 | `GetHash` with C#'s truncating remainder: strictly between -10 and 10, the Euclidean remainder for non-negative codes, negative exactly for negative codes not divisible by ten |
| DictSpec.Pos | Map/Model/Dict.cs:79-116 | the offset-`d` slot of the probe order hash..9, 0..hash-1 is an index of the array |
| DictSpec.Offset | Map/Model/Dict.cs:79-116 | every slot is visited at exactly one offset of the probe order |
| DictSpec.VacantFrom | Map/Model/Dict.cs:79-116 | where `Add`'s two probe loops put a new item: the first null slot at or after offset `d` of the probe order; none means every slot from there on is occupied |
| DictSpec.FirstNullIn | Map/Model/Dict.cs:79-116 | what one probe loop of `Add` finds: the first null slot of a range of indices, or none when all of them are occupied |
| DictSpec.VacantWrapped | Map/Model/Dict.cs:98-116 | the second loop, over slots 0..hash-1, finds the slot at the remaining offsets of the probe order |
| DictSpec.VacantUnwrapped | Map/Model/Dict.cs:79-116 | the first loop over slots hash..9, followed when it finds none by the second loop, finds exactly the first null slot of the probe order |
| DictSpec.ProbeFrom | Map/Model/Dict.cs:281-298 | where the probe walk of `Search` and `Remove` stops: at a slot holding the key, or at a null slot, within the walked offsets |
| DictSpec.ProbeUpdate | Map/Model/Dict.cs:377-412 | `Update`'s walk, which changes values as it goes: the slot count is kept and a recorded hit stays recorded; what changes is `DictSpec.ProbeUpdateChanges` |
| DictSpec.NoVacancyMeansFull | Map/Model/Dict.cs:97-122 | the probe order from any home slot finds no null slot exactly when all ten are occupied |
| DictSpec.ProbeFromStops | Map/Model/Dict.cs:465-496 | the probe walk of `Search`/`Remove` stops at the first slot holding the key or null, and every slot before it is occupied by another key |
| DictSpec.HoldingFrom | Map/Model/Dict.cs:255-267 | the whole-array scan of `Remove` finds the first slot holding the key, and no slot before it holds the key |
| DictSpec.ProbeUpdateChanges | Map/Model/Dict.cs:377-412 | the update walk changes only slots holding the key, and only their value, to the new value |
| DictSpec.Add | Map/Model/Dict.cs:47-124 | a listed key is refused with nothing changed; a negative index throws; a full array refuses; otherwise the item goes to the first null slot of the probe order, the key is appended to `Keys`, and nothing else changes |
| DictSpec.Search | Map/Model/Dict.cs:422-500 | an unlisted key gives `default`; a hit returns the value of a slot holding the key; the two throwing paths are exactly the negative index and the null home slot |
| DictSpec.Remove | Map/Model/Dict.cs:232-322 | an unlisted key is a no-op; a removal nulls one slot holding the key and drops the key from `Keys`; every other outcome changes nothing |
| DictSpec.Update | Map/Model/Dict.cs:330-414 | `Keys` and which slots are occupied never change; only slots holding the key change, and they get the new value; `Updated` means such a slot now holds it |
| DictSpec.Entries | Map/Model/Dict.cs:513-522 | the enumeration has one pair per occupied slot, each from a slot, and every occupied slot's pair is in it |
| DictSpec.EntriesSnoc | Map/Model/Dict.cs:515-521 | enumerating one more slot appends that slot's item, if any |
| Dicts.Dict.constructor | Map/Model/Dict.cs:37-40 | ten null slots, no keys, the invariant holds |
| Dicts.Dict.GetHash | Map/Model/Dict.cs:507 | the C# remainder of the key's hash code by 10: strictly between -10 and 10, the plain remainder for non-negative codes, and negative exactly for negative codes not divisible by ten |
| Dicts.Dict.Count | Map/Model/Dict.cs:32 | always 10, however many items are stored |
| Dicts.Dict.Place | Map/Model/Dict.cs:70-72 | the key is appended to `Keys` and the slot gets the item object itself; every other slot keeps its object, and nothing else changes |
| Dicts.Dict.Vacate | Map/Model/Dict.cs:261-263 | the slot becomes null, every other slot keeps its object, the removed item leaves the footprint, and the first occurrence of the key leaves `Keys` |
| Dicts.Dict.SetValue | Map/Model/Dict.cs:372 | only the value of the item in the slot changes, in place |
| Dicts.Dict.PlaceFirstNull | Map/Model/Dict.cs:79-116 | one probe loop of `Add`: the item goes into the first null slot of the range, if there is one, and otherwise nothing changes |
| Dicts.Dict.FindKey | Map/Model/Dict.cs:465-496 | the two probe loops compute the probe walk of `DictSpec` |
| Dicts.Dict.FindHolding | Map/Model/Dict.cs:255-267 | the whole-array loop of `Remove` finds the first slot holding the key |
| Dicts.Dict.UpdateMatches | Map/Model/Dict.cs:377-412 | the two update loops compute the update walk of `DictSpec`; they change only the values of stored items, and leave `Keys` and the array itself alone |
| Dicts.Dict.UpdateRange | Map/Model/Dict.cs:377-393 | one update loop, stopping at the first null slot |
| Dicts.Dict.Insert | Map/Model/Dict.cs:67-122 | the item object goes to the first null slot of the probe order and every other slot keeps its object; `Full` leaves the table and the array as they were |
| Dicts.Dict.AddItem | Map/Model/Dict.cs:47-124 | a null item throws and changes nothing; otherwise the new table and outcome are those of `DictSpec.Add`, and the invariant is kept; when stored, the caller's object itself fills one null slot and no other slot changes; otherwise the array is as it was |
| Dicts.Dict.Add | Map/Model/Dict.cs:132-225 | the new table and outcome are those of `DictSpec.Add`, and the invariant is kept; when stored, a fresh item fills one null slot and no other slot changes; otherwise the array is as it was |
| Dicts.Dict.Remove | Map/Model/Dict.cs:232-322 | the new table and outcome are those of `DictSpec.Remove`, and the invariant is kept; a removal nulls one slot, keeps every other slot's object and drops the removed item from the footprint; any other outcome leaves the array as it was |
| Dicts.Dict.Locate | Map/Model/Dict.cs:252-320 | the searching part of `Remove`: the slot it nulls, or the outcome `DictSpec.Remove` gives when it nulls none |
| Dicts.Dict.Update | Map/Model/Dict.cs:330-414 | the new table and outcome are those of `DictSpec.Update`, and the invariant is kept; every slot keeps its item object, and only stored items may change, so values are replaced in place |
| Dicts.Dict.Search | Map/Model/Dict.cs:422-500 | the result is that of `DictSpec.Search`, and nothing changes |
| Dicts.Dict.GetEnumerator | Map/Model/Dict.cs:513-522 | the item objects of the non-null slots, in slot order, with the keys and values `DictSpec.Entries` lists |
| Dicts.Stored | Map/Model/Dict.cs:515-521 | every object yielded sits in a slot |
| DictProperties.EmptyInvariant | Map/Model/Dict.cs:37-40 | ten null slots and an empty `Keys` satisfy the invariant |
| DictProperties.AddKeepsInvariant | Map/Model/Dict.cs:67-116 | `Add` keeps the invariant: no duplicate keys, each listed key in exactly one slot, each occupied slot's key listed, `Keys` as long as the occupied slots |
| DictProperties.VacateKeepsInvariant | Map/Model/Dict.cs:252-320 | nulling the slot of a listed key and dropping the key keeps the invariant |
| DictProperties.RemoveKeepsInvariant | Map/Model/Dict.cs:232-322 | every outcome of `Remove` keeps the invariant |
| DictProperties.UpdateKeepsInvariant | Map/Model/Dict.cs:330-414 | every outcome of `Update`, the crashing one included, keeps the invariant |
| DictProperties.OnlyOffset | Map/Model/Dict.cs:27 | under the invariant, a listed key is met at one offset only of any probe order |
| DictProperties.AddThenSearch | Map/Model/Dict.cs:457-478 | right after `Add(k, v)` stores a new key, `Search(k)` returns `v` |
| DictProperties.ReachableSearch | Map/Model/Dict.cs:457-478 | when every listed key is reached from its home slot without crossing a null slot, `Search` returns the value of the slot holding the key |
| DictProperties.ReachableRemove | Map/Model/Dict.cs:271-298 | under that condition `Remove` nulls exactly the key's slot and drops the key |
| DictProperties.ReachableUpdate | Map/Model/Dict.cs:367-393 | under that condition `Update` replaces only that entry's value |
| DictProperties.AddKeepsReachable | Map/Model/Dict.cs:67-116 | `Add` keeps every listed key reachable |
| DictProperties.UpdateKeepsReachable | Map/Model/Dict.cs:330-414 | `Update` keeps every listed key reachable |
| DictProperties.VacancyHidesKey | Map/Model/Dict.cs:465-471 | with an occupied home slot, when a null slot comes before a listed key on its probe order, `Search` misses, and `Remove` and `Update`, which stop the same way at Dict.cs lines 284-287 and 380-383, change nothing |
| DictProperties.VacantHomeSearch | Map/Model/Dict.cs:442-454 | with a null home slot, `Search` returns the value only if no null slot precedes the key's slot, and otherwise throws |
| DictProperties.VacantHomeUpdate | Map/Model/Dict.cs:350-367 | with a null home slot, `Update` always throws `NullReferenceException`, after replacing the value if the key came before every null slot |
| DictProperties.VacantHomeRemove | Map/Model/Dict.cs:252-268 | with a null home slot, `Remove` scans the whole array and removes the key's slot |
| DictMeaning.MeaningKeys | Map/Model/Dict.cs:27 | under the invariant, the map a table means holds exactly the listed keys |
| DictMeaning.MeaningAt | Map/Model/Dict.cs:27 | the slot holding a key gives its value in that map |
| DictMeaning.MeaningMissing | Map/Model/Dict.cs:434-439 | an unlisted key is not in that map |
| DictMeaning.MeaningIs | Map/Model/Dict.cs:27 | a map with the listed keys that agrees with every occupied slot is the meaning |
| DictMeaning.InsertMeans | Map/Model/Dict.cs:70-72 | storing a new key in a null slot inserts it into the map |
| DictMeaning.OverwriteMeans | Map/Model/Dict.cs:372 | replacing the value of a key's slot overwrites the key in the map |
| DictMeaning.VacateMeans | Map/Model/Dict.cs:261-263 | nulling a key's slot and dropping the key erases it from the map |
| DictMeaning.AddMeans | Map/Model/Dict.cs:47-124 | `Add` is map insertion when it stores the item, and changes the map in no other case |
| DictMeaning.UpdateMeans | Map/Model/Dict.cs:330-414 | with every key reachable, `Update` overwrites a key in the map, and changes nothing for an absent key |
| DictMeaning.RemoveMeans | Map/Model/Dict.cs:232-322 | with every key reachable, `Remove` erases the key from the map |
| DictMeaning.SearchMeans | Map/Model/Dict.cs:422-500 | with every key reachable, `Search` is map lookup, and `default` for an absent key |
| Maps.KeysOf | Map/Model/Map.cs:23 | the keys of the items, one per item, in list order |
| Maps.FindItem | Map/Model/Map.cs:101 | the first item with the key, or the list's length when there is none |
| Maps.Map.constructor | Map/Model/Map.cs:18 | an empty list |
| Maps.Map.Keys | Map/Model/Map.cs:23 | the keys of the items in list order, without duplicates |
| Maps.Map.Count | Map/Model/Map.cs:28 | the number of items, which is the number of keys |
| Maps.Map.FindItemIsIndexOf | Map/Model/Map.cs:101 | `SingleOrDefault` picks the position `MapSpec.IndexOf` names |
| Maps.Map.Search | Map/Model/Map.cs:152-162 | the value of the item with the key, otherwise an `ArgumentException` |
| Maps.Map.AddItem | Map/Model/Map.cs:35-52 | a null item throws with nothing changed; a listed key changes nothing; otherwise the item object itself is appended |
| Maps.Map.Add | Map/Model/Map.cs:60-84 | a listed key changes nothing; otherwise a fresh item is appended at the end |
| Maps.Map.Append | Map/Model/Map.cs:44-47 | `items.Add` of an item whose key is not listed keeps the keys unique |
| Maps.Map.Update | Map/Model/Map.cs:92-115 | the list and its objects are the same, and no object outside the list changes; only the matching item's value changes, and an absent key is a no-op |
| Maps.Map.Remove | Map/Model/Map.cs:122-143 | `List.Remove` of the matching item: the others keep their order, and the removed item leaves the footprint; an absent key is a no-op |
| Maps.Map.Drop | Map/Model/Map.cs:137 | deleting the item at a position keeps the others in order and the keys unique, and drops the item from the footprint |
| Maps.Map.GetEnumerator | Map/Model/Map.cs:168-171 | the list's own item objects, in list order |
| MapSpec.Keys | Map/Model/Map.cs:23 | one key per pair, in order |
| MapSpec.IndexOf | Map/Model/Map.cs:101 | the first position with the key, the length exactly when the key is absent |
| MapSpec.AsMap | Map/Model/Map.cs:23 | the map the list means has exactly the listed keys |
| MapSpec.Add | Map/Model/Map.cs:68-83 | refused exactly when the key is listed, with the list unchanged; otherwise the pair is appended at the end |
| MapSpec.Update | Map/Model/Map.cs:101-114 | `NotFound` exactly when the key is absent; the keys are unchanged; only the pair with the key changes, to the new value |
| MapSpec.Remove | Map/Model/Map.cs:131-142 | `NotFound` exactly when the key is absent; otherwise one pair with the key is cut out and the rest keep their order |
| MapSpec.Search | Map/Model/Map.cs:161 | a hit exactly when the key is listed, with a value paired to the key; otherwise an `ArgumentException` |
| MapSpec.SearchIsLookup | Map/Model/Map.cs:161 | `Search` is lookup in the map the list means, and throws for an absent key |
| MapSpec.AddKeepsUnique | Map/Model/Map.cs:68-79 | `Add` keeps the keys free of duplicates |
| MapSpec.RemoveKeys | Map/Model/Map.cs:137 | the keys after `Remove` are the keys before with the key taken out |
| MapSpec.RemoveKeepsUnique | Map/Model/Map.cs:137 | `Remove` keeps the keys unique and leaves the key absent |
| MapSpec.UniqueIndex | Map/Model/Map.cs:101 | with unique keys, each pair is where `SingleOrDefault` finds its key |
| MapSpec.DropKeepsUnique | Map/Model/Map.cs:137 | deleting any pair keeps the keys unique |
| MapSpec.AddIsInsert | Map/Model/Map.cs:68-83 | `Add` is map insertion for a new key and changes nothing for a listed one |
| MapSpec.UpdateIsOverwrite | Map/Model/Map.cs:101-114 | `Update` overwrites a listed key in the map and changes nothing for an absent one |
| MapSpec.RemoveIsErase | Map/Model/Map.cs:131-142 | with unique keys, `Remove` erases the key from the map |
| MapSpec.RemoveErasesKey | Map/Model/Map.cs:131-142 | with unique keys, `Remove` leaves exactly the other keys |
| MapSpec.RemoveKeepsValue | Map/Model/Map.cs:137 | with unique keys, every key `Remove` keeps has its old value |
| MapSpec.AddThenSearch | Map/Model/Map.cs:68-79 | right after adding a new key, `Search` returns its value; for a listed key `Search` is unchanged |
| MapSpec.UpdateThenSearch | Map/Model/Map.cs:101-114 | right after updating a listed key, `Search` returns the new value, and every other key keeps its own |
| Agreement.AgreeKeys | Map/Model/Dict.cs:27 | a table and a list that agree list the same keys |
| Agreement.AgreeEmpty | Map/Model/Dict.cs:37-40 | a new table and a new list agree |
| Agreement.AgreeAdd | Map/Model/Dict.cs:47-124 | both refuse a listed key; where the table stores a key the list appends it and they still agree; a full table or a negative index refuses where the list appends |
| Agreement.AgreeSearch | Map/Model/Dict.cs:422-500 | with every key reachable, both find the same value; the table returns `default` where the list throws |
| Agreement.AgreeUpdate | Map/Model/Dict.cs:330-414 | with every key reachable, both give the same outcome and still agree, with every key still reachable |
| Agreement.AgreeRemove | Map/Model/Dict.cs:232-322 | with every key reachable, both give the same outcome and still agree |
| DictTraces.DriverAdds1 | Map/Program.cs:25-26 | key 1 goes to its home slot 1 of the new table |
| DictTraces.DriverAdds2 | Map/Program.cs:27 | key 2 goes to its home slot 2 |
| DictTraces.DriverAdds4 | Map/Program.cs:28 | key 4 goes to its home slot 4 |
| DictTraces.DriverAdds101 | Map/Program.cs:29 | key 101 collides with 1 at slot 1 and goes to slot 3 |
| DictTraces.DriverAdds201 | Map/Program.cs:30 | key 201 passes slots 1 to 4 and goes to slot 5 |
| DictTraces.DriverAdds5 | Map/Program.cs:31 | key 5 finds its home slot taken by 201 and goes to slot 6 |
| DictTraces.DriverUpdates4 | Map/Program.cs:32 | `Update(4, "AB")` replaces the value in slot 4 |
| DictTraces.DriverSearches | Map/Program.cs:39-40 | `Search(101)` and `Search(1)` find their values |
| DictTraces.DriverRemoves | Map/Program.cs:43 | `Remove(101)` nulls slot 3 and drops 101 from `Keys` |
| DictTraces.DriverRemovesAbsent | Map/Program.cs:42-45 | removing 7, 103 and 3, which are not listed, changes nothing |
| DictTraces.DriverInvariant8 | Map/Program.cs:25-45 | every table the driver builds keeps the invariant |
| DictTraces.DriverReachable7 | Map/Program.cs:25-32 | up to `Update(4)`, every listed key is reached from its home slot |
| DictTraces.DriverStrandsKey | Map/Program.cs:25-45 | after the driver runs, 201 is listed and held by slot 5, but `Search(201)` misses and `Remove(201)` and `Update(201)` change nothing |
| DictTraces.DriverBreaksReachable | Map/Program.cs:25-45 | every key was reachable before `Remove(101)` and is not after it, although the invariant still holds |
| DictTraces.CollisionAdds | Map/Model/Dict.cs:164-190 | 2 and 12 collide at slot 2, so 12 goes to slot 3 |
| DictTraces.CollisionSearch | Map/Model/Dict.cs:462-478 | `Search(12)` walks from slot 2 to slot 3 and finds it |
| DictTraces.CollisionRemoval | Map/Model/Dict.cs:271-276 | `Remove(2)` nulls slot 2, the home slot of 12 |
| DictTraces.CollisionThenSearch | Map/Model/Dict.cs:442-454 | afterwards `Search(12)` takes the `foreach`, which starts at slot 0, finds it null and dereferences it |
| DictTraces.NegativeHashCodes | Map/Model/Dict.cs:507 | hash code -3 gives index -3 and `Add` throws; -20 gives 0 and `Add` stores it |
| MapTraces.DriverMapAdds | Map/Program.cs:11-16 | items with keys 1, 2, 4 and 5 are appended; the second item with key 2 is refused |
| MapTraces.DriverMapChanges | Map/Program.cs:17-19 | `Add(4, "F")` is refused, `Update(4, "AB")` overwrites the third item, `Remove(7)` finds nothing |
| MapTraces.DriverMapShows | Map/Program.cs:11-21 | the map shown holds the pairs (1, "A"), (2, "B"), (4, "AB"), (5, "E") in order; `Search` finds 4 and 2; as the model's own example, not a driver step, `Search(7)` throws |
| Lists.RemoveFirst | Map/Model/Dict.cs:263 | `List.Remove`: unchanged when absent, one element shorter when present |
| Lists.RemoveFirstCount | Map/Model/Dict.cs:263 | `List.Remove` takes away exactly one occurrence |
| Lists.RemoveFirstUnique | Map/Model/Dict.cs:263 | on a list without duplicates, `List.Remove` keeps it duplicate-free and leaves exactly the other elements |

## Left out

- Null keys and values: Dafny type parameters have no null, so the `ArgumentNullException` checks for a null key, value or new value cannot be represented. They are at Map/Model/Dict.cs:135, 235, 333, 425, Map/Model/Map.cs:63, 95, 125, 155 and Map/Model/Item.cs:30. A null `Item` is represented, and throws in both `Add(Item)` methods.
- `Console.WriteLine` diagnostics and the driver's output: I/O is not modelled. Each message is replaced by the outcome value it reports.
- `GetHashCode`: it is a function given to the `Dict` constructor (`hashCode`), any deterministic function of the key. `Equals` is Dafny equality.
- `IEnumerable` and `yield`: both `GetEnumerator` methods return the whole sequence at once. Laziness is not modelled, nor is a collection changing during enumeration.
- Aliasing from outside:
  - a caller may change the public `Keys` list directly, or change an `Item`'s `Key` after insertion;
  - the model does not hide either, but it proves the invariants only for the container's own operations;
  - `Dicts.Dict.AddItem` requires that an item object already stored have its key listed, which holds whenever `Keys` is consistent.
- `SingleOrDefault`'s `InvalidOperationException` when two items match: it cannot happen, because the keys are proved unique. `Maps.Map.Valid` keeps that invariant.
- Concurrency: both classes are single-threaded.
- `Item<TKey, TValue>`'s property accessors are plain fields.
- `Dicts.Dict.Add`: the source checks `Keys` first (Map/Model/Dict.cs:144-149) and creates the `Item` only on the path that stores it (Map/Model/Dict.cs:158, 177, 204). The model creates the item before the check and then calls `AddItem`, so a refused key leaves an unused allocation that the source does not make. The contract states only the resulting table, so the difference is not visible through it.
- `Agreement.AgreeRemove`: it does not promise that every key stays reachable after a removal, because eager nulling breaks that (`DictTraces.DriverBreaksReachable`).
