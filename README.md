# HorseEquipment, modelled in Dafny

This project models the core of the HorseEquipment plugin for a Rust (game)
server. When a horse spawns, and once for every existing horse at startup,
the plugin does two things:

- It rolls for a double saddle seat and then, if that fails, for a single
  one. It records the seat count in the horse's `Reserved9` / `Reserved10`
  entity flags.
- It empties the horse's equipment container. It then shuffles the
  configured item list in place and keeps the first item for each animal
  equipment slot. A random number of those items, clamped to `[0, 4]`, goes
  into the container.

The model covers these parts:

- The data: the configuration, the `ItemInfo` entries with their lazily
  cached `ItemDefinition` property, the horse, its container and the item
  catalog.
- The algorithms: the Fisher–Yates shuffle on its array, the
  first-item-per-slot filter, the slot-count expression and the grant loop.
- The seat decision and `SetSeatCount`.
- The pass over every horse.
- The `CoroutineUtil` registry.

Randomness is passed in as explicit draw sequences:

- System.Random draws drive the shuffle. Shuffle step `k` of a list of `n`
  items draws a value in `[0, n-1-k]`.
- UnityEngine.Random draws are the seat rolls, each in `[0, 100)`, followed
  by the slot-count draw. The slot-count draw is an unconstrained integer
  parameter. Where a contract needs it to come from `Random.Range(Minimum,
  end)` it says so as a hypothesis. For a draw in `[Minimum, end)` from a
  non-empty range, `Equipment.Granted` promises `Equipped` and
  `Equipment.SlotCountFitsUniqueItems` bounds the slot count.

The item catalog (`ItemManager.FindItemDefinition` and the
`ItemModAnimalEquipment` component's slot) is a pair of maps. Each map has
no entry where the engine would return null.

Modules:

- `Wrappers`: `Option`.
- `ItemCatalog`: item definitions, slots and the catalog.
- `Entities`: `ItemContainer` and `RidableHorse`, classes whose fields the
  engine updates.
- `Items`: the `ItemInfo` class, its getter as a cache-state transition
  `Read`, and `Give`.
- `FisherYates`: `Shuffle` on an array, specified by the function
  `Shuffled`.
- `UniqueSlots`: the first-per-slot selection as functions over slot
  sequences, with its characterisation.
- `Seating`: `ChanceSucceeded`, the seat decision, `SeatFlags` and
  `SetSeatCount`.
- `Equipment`: `Configuration`, `FilterUniqueItemsByType`, the slot count,
  `EquipItems`, `UpdateHorse` and the pass over all horses.
- `Coroutines`: the `CoroutineUtil` registry as a class.

Where the code does something one might not expect, the model follows the code:

- The shuffle mutates the configured list itself (`_config.ItemsToEquip`),
  and the next call starts from the shuffled order. `EquipItems` states this
  as `config.itemsToEquip[..] == Shuffled(old(...), draws)`.
- When both seat rolls fail, the flags are left as they were. They are not
  reset.
- `uniqueItemsByType[i]` (HorseEquipment.cs:263) is read for every
  `i < numberOfSlotsToEquip`. Nothing keeps that count within the number of
  unique items when the draw's range is empty: Minimum above
  `min(count, Maximum)`. In that case the list access throws after every
  unique item has been granted. This is modelled as the outcome
  `IndexOutOfRange(|unique|)`, and `Equipment.EmptyRangeCanExceedUniqueItems`
  gives a configuration that reaches it. With a non-empty range it cannot
  happen (`Equipment.SlotCountFitsUniqueItems`).
- The `continue` at HorseEquipment.cs:264 is unreachable. Every item the
  filter keeps has already been validated with a definition that has a
  slot, and a validated item returns its cached definition. The filter's
  contract states this, and `Equipment.GrantUniqueItems` requires it.

## Model

| member | source | states |
|---|---|---|
| Items.Read | HorseEquipment.cs:67-83 | One read of the ItemDefinition property changes the cache exactly when the item is not yet validated and the lookup succeeds. It returns a definition exactly when the state it leaves is validated with a cached definition. An unvalidated item returns the lookup's answer. |
| Items.ReadReturnsResolution | HorseEquipment.cs:67-83 | The value a read returns is what the cache it leaves behind resolves to. |
| Items.ReadIsIdempotent | HorseEquipment.cs:67-83 | With the same catalog answer, a second read leaves the cache and returns the value exactly as the first did. |
| Items.ValidatedReadsAreCached | HorseEquipment.cs:71-82 | A validated item answers every later read with its cached definition, whatever the catalog says. |
| Items.ReadsReturnFirstFound | HorseEquipment.cs:71-82 | From an unvalidated state, the k-th read returns the first successful lookup among the first k+1. A failed lookup is not cached and is retried. |
| Items.ReadsAreStableOnceFound | HorseEquipment.cs:71-82 | Once a read has returned a definition, every later read returns the same definition. |
| Items.ItemInfo.GetItemDefinition | HorseEquipment.cs:67-83 | The getter returns the Read result for the old cache state and leaves the cache as that Read leaves it. What any later read would return is unchanged. A validated item is not modified at all (its modifies set is empty). |
| Items.ItemInfo.Give | HorseEquipment.cs:92-102 | Appends to the container one item with the definition's item id and this entry's Amount. The item ends validated with that definition. |
| FisherYates.ShuffleFromPermutes | HorseEquipment.cs:316-329 | Each stage of the shuffle keeps the length and the multiset of elements. |
| FisherYates.ShuffleFromKeepsSuffix | HorseEquipment.cs:316-329 | The cells at or after `remainingItems` are never touched again. |
| FisherYates.ShuffledIsPermutation | HorseEquipment.cs:316-329 | The shuffled list is a permutation of the original. A list of length at most 1 is unchanged. Otherwise the last cell receives the element at the first draw. |
| FisherYates.Shuffle | HorseEquipment.cs:316-329 | The in-place while loop leaves the array equal to `Shuffled(old contents, draws)`, a permutation of its old contents. |
| UniqueSlots.ScanStep | HorseEquipment.cs:279-286 | Scanning one more position adds its slot to the seen set. The item is kept exactly when its slot is present and not yet seen. |
| UniqueSlots.SelectWithin | HorseEquipment.cs:273-289 | The filter returns only elements of its input, and no more than the input has. |
| UniqueSlots.SeenMeansOccurs | HorseEquipment.cs:279-286 | A slot is in seenSlots exactly when some scanned item has that slot. |
| UniqueSlots.KeepMaskAt | HorseEquipment.cs:282 | An item is kept exactly when it has a slot not seen at an earlier position. |
| UniqueSlots.KeptIffFirstOccurrence | HorseEquipment.cs:282 | An item is kept exactly when it has a slot and no earlier item has the same slot. |
| UniqueSlots.KeptIndicesAreTheMarkedOnes | HorseEquipment.cs:279-286 | The kept positions are in range, strictly increasing, and are exactly the marked ones. |
| UniqueSlots.SelectAt | HorseEquipment.cs:279-286 | The p-th kept item is the item at the p-th kept position. |
| UniqueSlots.KeptCountIsDistinctSlots | HorseEquipment.cs:279-286 | The number of kept items equals the number of distinct slots among the items (so no items gives no result). |
| UniqueSlots.FirstPerSlotSpec | HorseEquipment.cs:273-289 | The filter's result is an order-preserving subsequence of the list of length \|distinct slots\|. Every kept item has a slot, the kept slots are pairwise distinct, and a position is kept exactly when it is the first occurrence of its slot. |
| UniqueSlots.OneCategoryKeepsAtMostOne | HorseEquipment.cs:279-286 | When every item has slot s or none, at most one item is kept. |
| Equipment.GrantsOfResolvedItems | HorseEquipment.cs:261-268 | When every item resolves, the grant sequence has one item per entry: the entry's definition id and its Amount, in order. |
| Equipment.ReadSlotAt | HorseEquipment.cs:281 | Returns the slot of the item's definition as it resolved before the read. A found slot leaves the item validated. No item's resolution changes, and no item loses its validation. |
| Equipment.KeepFirstPerSlot | HorseEquipment.cs:279-286 | The foreach loop returns `FirstPerSlot` of the items and their slots. Every item resolves as before, and every kept item is validated and has a slot. |
| Equipment.FilterUniqueItemsByType | HorseEquipment.cs:273-289 | The configured array is left shuffled by the draws. The result is the first item per slot of the shuffled list. Resolutions are unchanged, and the kept items are validated, have a slot, and come from the list. |
| Equipment.NumberOfSlotsToEquip | HorseEquipment.cs:258-259 | The clamped slot count is at most 4, and a draw already in `[0, 4]` is used as is. |
| Equipment.SlotCountFitsUniqueItems | HorseEquipment.cs:258-263 | For a draw from a non-empty range, the count lies between the clamped Minimum and min(4, unique items). It is also at most Maximum when Maximum is non-negative, so every index the loop reads is in range. |
| Equipment.EmptyRangeCanExceedUniqueItems | HorseEquipment.cs:258-263 | Minimum 4, Maximum 4 and three unique items make an empty range in which a draw of 4 asks for more slots than there are items. |
| Equipment.GrantUniqueItems | HorseEquipment.cs:261-268 | The for loop appends the grants for the first numberOfSlotsToEquip unique items. When there are fewer, it appends the grants for all of them and ends with IndexOutOfRange. It changes only the container. |
| Equipment.EquipItems | HorseEquipment.cs:250-271 | With no container, nothing changes. Otherwise the container is emptied and the configured list is shuffled in place. The container then holds exactly the grants for the first numberOfSlotsToEquip unique items, or for all of them plus the exception. A draw from a non-empty range always ends with Equipped. |
| Equipment.UpdateHorse | HorseEquipment.cs:236-248 | The flags become `SeatFlags(old, 2)` when the double roll succeeds, and `SeatFlags(old, 1)` when it fails and the single roll succeeds. Otherwise they are unchanged. Equipping then behaves as EquipItems, with the next Unity draw as the slot count. |
| Equipment.NonNull | HorseEquipment.cs:227-230 | Every horse the sweep can visit is an entry of the entity list. |
| Equipment.NonNullIsSelection | HorseEquipment.cs:227-230 | The horses the sweep can visit are the list's entries selected by the mask of non-null positions: each non-null entry once, in list order. |
| Equipment.NonNullInListOrder | HorseEquipment.cs:227-230 | The k-th horse to visit is the entry at the k-th non-null position. Those positions are strictly increasing and are exactly the positions whose entry is not null. |
| Equipment.NonNullOfConcat | HorseEquipment.cs:227-230 | The horses of a concatenated list are those of the first part followed by those of the second. |
| Equipment.NonNullOfPrefix | HorseEquipment.cs:227-230 | The horses in a prefix of the list are a prefix of the list's horses, so a sweep that ends early has visited a prefix. |
| Equipment.NonNullStep | HorseEquipment.cs:227-230 | Passing one more list position adds its entry exactly when it is not null, and that entry is then the next horse to visit. |
| Equipment.Min | HorseEquipment.cs:259 | `Mathf.Min` returns one of its arguments and is at most both. |
| Equipment.Clamp | HorseEquipment.cs:258-259 | `Mathf.Clamp` lands in `[min, max]` for a non-empty range and returns a value already in range unchanged. |
| Equipment.FlagsOfAt | HorseEquipment.cs:227-233 | The k-th entry of the flags record of a horse sequence is the k-th horse's flags. |
| Equipment.ContentsOfAt | HorseEquipment.cs:227-233 | The k-th entry of the contents record of a horse sequence is what the k-th horse's container holds, or nothing without a container. |
| Equipment.DistinctHorsesPairwise | HorseEquipment.cs:227-233 | The distinctness the sweep's contract assumes means exactly this: no two horses are the same object, and no two horses share a container. |
| Equipment.VisitsAt | HorseEquipment.cs:227-233 | A recorded sweep gives, for each visited horse k, the UpdateHorse result over the k-th configured-list state and the k-th draws. Every visit but the last ended without the exception. |
| Equipment.VisitsSnoc | HorseEquipment.cs:227-233 | A recorded sweep whose last visit did not throw, extended by one more UpdateHorse result, is again a recorded sweep. |
| Equipment.GrantedOfGrants | HorseEquipment.cs:257-268 | The grant loop's result in an emptied container is the Granted description: grants for the first numberOfSlotsToEquip unique items, or for all of them and the exception, never the exception for a draw from a non-empty range. |
| Equipment.UpdateHorseInSweep | HorseEquipment.cs:229-230 | UpdateHorse on the j-th of a sequence of distinct horses with distinct containers changes the j-th entry of the horses' flags record and of their contents record, and no other entry. |
| Equipment.VisitHorse | HorseEquipment.cs:227-233 | One visit of a non-null horse. The record of the sweep so far is extended by the visit's UpdateHorse result. The horses' flags and contents stay the recorded ones for the visited part and the initial ones for the rest, with this horse moved to the visited part. |
| Equipment.SweepStep | HorseEquipment.cs:227-233 | One iteration of the foreach: a null entry is skipped, a horse is visited. The loop's invariant holds again one list position further on. |
| Equipment.SweepHorses | HorseEquipment.cs:227-233 | The foreach runs until the end of the list or until a visit throws. The visited horses are the non-null entries of the positions passed. Each visit is recorded through Visits. Every horse's flags and contents at the end are its recorded ones when visited and its initial ones otherwise. |
| Equipment.UpdateAllHorses | HorseEquipment.cs:225-234 | The visited horses are a prefix of the non-null entries, in list order. All of them are visited unless a visit ends with IndexOutOfRange, which ends the sweep and is the last visit. For each visited horse k, its flags become FlagsAfterSeatRolls of its Unity draws. With a container, the list moves from the k-th state to that state shuffled by the horse's System draws. The container then holds the grants for the first numberOfSlotsToEquip unique items of that list, or for all of them together with the exception. Without a container, the list stays as it is. Horses after the last visited one keep their flags and contents. |
| Seating.ChanceSucceeded | HorseEquipment.cs:311-314 | A percentage of 100 or more always succeeds, and one of 0 or less never does, for every roll in `[0, 100)`. |
| Seating.DecideSeats | HorseEquipment.cs:238-245 | Two seats iff the first roll is below the double chance. One seat iff it is not and the second roll is below the single chance. No change iff both fail. Only one roll is used when the first succeeds. |
| Seating.DecisionReadsOnlyUsedRolls | HorseEquipment.cs:238-245 | The decision depends only on the rolls it uses (short-circuit). |
| Seating.SeatFlags | HorseEquipment.cs:291-302 | Reserved9 is set iff the count is 1 and Reserved10 iff it is 2. The two are never both set, and every other flag is kept. |
| Seating.SeatRollsAreSeatUpdate | HorseEquipment.cs:236-245 | Whatever the decision, the flags change only in Reserved9/Reserved10, and those stay exclusive. |
| Seating.LastSeatCountWins | HorseEquipment.cs:291-302 | Two SetSeatCount calls in a row have the effect of the second alone. |
| Seating.SetSeatCount | HorseEquipment.cs:291-302 | The four SetFlag calls leave the flags equal to `SeatFlags(old flags, numberOfSeats)`. |
| Coroutines.CoroutineRegistry.StopCoroutine | HorseEquipment.cs:347-356 | Removes the name, and passes its handle to the host when it is not null. An absent name is a no-op. |
| Coroutines.CoroutineRegistry.StartCoroutine | HorseEquipment.cs:339-345 | Stops any coroutine under the name, then maps the name to the new handle. |
| Coroutines.NonNullHandlesRemove | HorseEquipment.cs:358-364 | The non-null handles of the registry are those without one name plus that name's handle, when it is not null. |
| Coroutines.NonNullHandlesOf | HorseEquipment.cs:358-364 | The registry holds one non-null handle per name with a non-null handle, and a handle is among them exactly when some name maps to it. |
| Coroutines.LogOfHandles | HorseEquipment.cs:358-364 | A log holding exactly the registry's non-null handles, with their multiplicities, has one entry per such name, holds each name's handle, and holds nothing else. |
| Coroutines.StopMovesHandle | HorseEquipment.cs:347-356 | Stopping one name moves its handle from the registry to the log, keeping the combined multiset of handles. |
| Coroutines.CoroutineRegistry.StopAllCoroutines | HorseEquipment.cs:358-364 | The registry ends empty. After the ones already stopped, the host receives exactly the old non-null handles, each as often as names map to it, in some order. |

## Left out

- Configuration loading, saving, version migration and defaults (HorseEquipment.cs:115-187) are file I/O and JSON. The model starts from a loaded `Configuration`.
- `ItemInfo.GetAmount` and `ItemInfo.Take` (HorseEquipment.cs:87-90, 104-112) are never called by the core.
- Oxide hooks (`Init`, `OnServerInitialized`, `Unload`, `OnEntitySpawned` with `NextTick`) and coroutine scheduling (`yield return null`, `ServerMgr`) are left out. The sweep is modelled as a plain loop. Stopping and starting a coroutine record the handles instead of calling the host.
- `BaseNetworkable.serverEntities.OfType<RidableHorse>()` is a parameter, the list of horses.
- `UpdateMountFlags`, `Pool.Get`/`Pool.FreeUnmanaged` and `player.Command` are engine calls with no effect on the modelled state.
- `ItemManager.CreateByItemID` is assumed to succeed. Its null branch (HorseEquipment.cs:95) is not modelled.
- `UpdateHorse`, `EquipItems` and `UpdateAllHorses` accept any integer as the slot-count draw, including values `Random.Range(min, end)` cannot return. For such a draw their contracts also admit the `IndexOutOfRange` outcome. The model does not encode Unity's range, and its result for an empty range (`min >= end`) is unknown. The guarantee that an in-range draw from a non-empty range ends with `Equipped` is stated under that hypothesis.
- `UpdateAllHorses`: each horse gets its own stretch of the two generators' streams. How the shared generators interleave is not fixed.
- `UpdateAllHorses` requires the horses of the list to be distinct objects with distinct containers, as entity lists are. The model does not cover a list that names one horse twice.
- `UpdateAllHorses` returns ghost records of the sweep: the configured list before the first visit and after each one, and each visited horse's flags before and after and its final contents. They replace the suspended coroutine's interleaving with the engine.
- `KeepFirstPerSlot`, `FilterUniqueItemsByType` and `EquipItems` state that every item still resolves as before. They do not state the exact cache fields each item is left with. The getter's exact effect is proved for one read in `Items.ItemInfo.GetItemDefinition` and `Items.Read`.
- The ordering of `HashSet` and `Dictionary.Keys` is not modelled. `StopAllCoroutines` stops the names in an unspecified order.
