/**
 * The equipment engine of the plugin: shuffling the configured items and
 * keeping one per equipment slot (FilterUniqueItemsByType), choosing how
 * many slots to fill and granting the items (EquipItems), the seat roll
 * plus equipping of one horse (UpdateHorse), and the sweep over every
 * existing horse (UpdateAllHorsesCoroutine without its suspensions).
 */
module Equipment {
  import opened Wrappers
  import opened ItemCatalog
  import opened Entities
  import opened Items
  import opened FisherYates
  import opened UniqueSlots
  import opened Seating

  /** The plugin configuration. Only ItemsToEquip is ever changed, by being shuffled in place. */
  class Configuration {
    const version: string
    const chanceForDoubleSaddleSeat: int
    const chanceForSingleSaddleSeat: int
    const minimumEquipmentSlotsToFill: int
    const maximumEquipmentSlotsToFill: int
    const itemsToEquip: array<ItemInfo>

    constructor (version: string, doubleChance: int, singleChance: int, minimum: int, maximum: int, items: array<ItemInfo>)
      ensures this.version == version && itemsToEquip == items
      ensures chanceForDoubleSaddleSeat == doubleChance && chanceForSingleSaddleSeat == singleChance
      ensures minimumEquipmentSlotsToFill == minimum && maximumEquipmentSlotsToFill == maximum
    {
      this.version := version;
      chanceForDoubleSaddleSeat := doubleChance;
      chanceForSingleSaddleSeat := singleChance;
      minimumEquipmentSlotsToFill := minimum;
      maximumEquipmentSlotsToFill := maximum;
      itemsToEquip := items;
    }
  }

  /** What each configured item resolves to, as a value: the definition its ItemDefinition property returns. */
  type Resolutions = map<ItemInfo, Option<ItemDefinition>>

  /** The resolutions of the items of a list in the current state. */
  function ResolutionsOf(items: seq<ItemInfo>, catalog: Catalog): (res: Resolutions)
    reads items
  {
    map o | o in items :: o.CurrentDefinition(catalog)
  }

  /** The definition `res` records for an item; null for an item it does not know. */
  function DefinitionIn(res: Resolutions, o: ItemInfo): (d: Option<ItemDefinition>)
  {
    if o in res then res[o] else None
  }

  /** Position by position, the slot each item resolves to. */
  function SlotsOf(items: seq<ItemInfo>, res: Resolutions, catalog: Catalog): (slots: seq<Option<SlotType>>)
    ensures |slots| == |items|
  {
    seq(|items|, k requires 0 <= k < |items| => catalog.SlotOf(DefinitionIn(res, items[k])))
  }

  /** The items granted by Give for each item in turn, skipping any whose definition does not resolve. */
  function Grants(items: seq<ItemInfo>, res: Resolutions): (granted: seq<Item>)
    decreases |items|
  {
    if items == [] then []
    else
      var rest := Grants(items[..|items| - 1], res);
      var last := items[|items| - 1];
      match DefinitionIn(res, last)
      case None => rest
      case Some(d) => rest + [Item(d.itemId, last.amount)]
  }

  /** When every item resolves, nothing is skipped: item k of the grants is item k's definition id with its Amount. */
  lemma {:induction false} GrantsOfResolvedItems(items: seq<ItemInfo>, res: Resolutions)
    requires forall o :: o in items ==> DefinitionIn(res, o).Some?
    ensures |Grants(items, res)| == |items|
    ensures forall k :: 0 <= k < |items| ==>
      Grants(items, res)[k] == Item(DefinitionIn(res, items[k]).value.itemId, items[k].amount)
    decreases |items|
  {
    if items != [] {
      var init := items[..|items| - 1];
      assert forall o :: o in init ==> o in items;
      GrantsOfResolvedItems(init, res);
    }
  }

  /**
   * One step of the foreach loop of FilterUniqueItemsByType: the slot of
   * item i's ItemModAnimalEquipment component, read through its
   * ItemDefinition property. No item's resolution changes, and an item that
   * was validated stays so.
   */
  method ReadSlotAt(items: seq<ItemInfo>, i: nat, catalog: Catalog) returns (slot: Option<SlotType>)
    requires i < |items|
    modifies items[i]
    ensures slot == old(items[i].CurrentSlot(catalog))
    ensures slot.Some? ==> items[i].itemHasBeenValidated
    ensures forall o :: o in items ==>
      o.CurrentDefinition(catalog) == old(o.CurrentDefinition(catalog)) &&
      (old(o.itemHasBeenValidated) ==> o.itemHasBeenValidated)
  {
    var itemInfo := items[i];
    var definition := itemInfo.GetItemDefinition(catalog);
    ReadReturnsResolution(old(itemInfo.Cache()), catalog.FindItemDefinition(itemInfo.shortName));
    slot := if definition.Some? then catalog.EquipmentSlot(definition.value) else None;
  }

  /**
   * The foreach loop of FilterUniqueItemsByType: reads each item's
   * definition in list order and keeps the item when its equipment slot is
   * added to seenSlots for the first time. Reading leaves what every item
   * resolves to as it was, and every kept item ends validated.
   */
  method KeepFirstPerSlot(items: seq<ItemInfo>, catalog: Catalog) returns (uniqueItems: seq<ItemInfo>)
    modifies items
    ensures ResolutionsOf(items, catalog) == old(ResolutionsOf(items, catalog))
    ensures uniqueItems == FirstPerSlot(items, SlotsOf(items, ResolutionsOf(items, catalog), catalog))
    ensures forall o :: o in uniqueItems ==> o in items && o.itemHasBeenValidated && o.CurrentSlot(catalog).Some?
  {
    var seenSlots: set<SlotType> := {};
    uniqueItems := [];
    ghost var res := ResolutionsOf(items, catalog);
    ghost var slots := SlotsOf(items, res, catalog);
    for i := 0 to |items|
      invariant seenSlots == Seen(slots[..i])
      invariant uniqueItems == FirstPerSlot(items[..i], slots[..i])
      invariant forall o :: o in items ==> o.CurrentDefinition(catalog) == res[o]
      invariant forall o :: o in uniqueItems ==> o in items && o.itemHasBeenValidated && o.CurrentSlot(catalog).Some?
    {
      var itemInfo := items[i];
      var component := ReadSlotAt(items, i, catalog);
      assert component == slots[i];
      ScanStep(items, slots, i);
      if component.Some? && component.value !in seenSlots {
        seenSlots := seenSlots + {component.value};
        uniqueItems := uniqueItems + [itemInfo];
      }
    }
    assert items[..|items|] == items && slots[..|items|] == slots;
    assert ResolutionsOf(items, catalog) == res;
  }

  /** FilterUniqueItemsByType: shuffles the configured list itself, then keeps the first item of each slot. */
  method FilterUniqueItemsByType(itemsToEquip: array<ItemInfo>, catalog: Catalog, draws: seq<int>)
    returns (uniqueItems: seq<ItemInfo>)
    requires DrawsValid(draws, itemsToEquip.Length)
    modifies itemsToEquip, set o | o in itemsToEquip[..]
    ensures itemsToEquip[..] == Shuffled(old(itemsToEquip[..]), draws)
    ensures ResolutionsOf(itemsToEquip[..], catalog) == old(ResolutionsOf(itemsToEquip[..], catalog))
    ensures uniqueItems == FirstPerSlot(itemsToEquip[..], SlotsOf(itemsToEquip[..], ResolutionsOf(itemsToEquip[..], catalog), catalog))
    ensures forall o :: o in uniqueItems ==> o in itemsToEquip[..] && o.itemHasBeenValidated && o.CurrentSlot(catalog).Some?
  {
    Shuffle(itemsToEquip, draws);
    var shuffled := itemsToEquip[..];
    forall o | o in shuffled ensures o in old(itemsToEquip[..]) {
      assert o in multiset(shuffled);
    }
    forall o | o in old(itemsToEquip[..]) ensures o in shuffled {
      assert o in multiset(old(itemsToEquip[..]));
    }
    assert ResolutionsOf(shuffled, catalog) == old(ResolutionsOf(itemsToEquip[..], catalog));
    uniqueItems := KeepFirstPerSlot(shuffled, catalog);
  }

  /** Mathf.Min for ints. */
  function Min(a: int, b: int): (m: int)
    ensures m <= a && m <= b && (m == a || m == b)
  {
    if a <= b then a else b
  }

  /** Mathf.Clamp for ints. */
  function Clamp(value: int, min: int, max: int): (clamped: int)
    ensures min <= max ==> min <= clamped <= max
    ensures min <= value <= max ==> clamped == value
  {
    if value < min then min else if value > max then max else value
  }

  /** The exclusive end of the slot-count draw Random.Range(Minimum, Mathf.Min(uniqueCount, Maximum) + 1). */
  function SlotCountRangeEnd(maximum: int, uniqueCount: nat): (end: int)
  {
    Min(uniqueCount, maximum) + 1
  }

  /**
   * What Random.Range(min, end) can return: a value in [min, end) when that
   * range is not empty. Unity's answer for an empty range is not modelled,
   * so then any draw is allowed.
   */
  predicate RangeDraw(min: int, end: int, draw: int)
  {
    min < end ==> min <= draw < end
  }

  /** numberOfSlotsToEquip: the slot-count draw clamped to [0, 4]. */
  function NumberOfSlotsToEquip(draw: int): (n: nat)
    ensures n <= 4
    ensures 0 <= draw <= 4 ==> n == draw
  {
    Clamp(draw, 0, 4)
  }

  /**
   * When the draw's range is not empty, the number of slots to fill is at
   * least the clamped minimum and at most min(4, uniqueCount) and the
   * configured maximum, so every index the grant loop reads is in range.
   */
  lemma SlotCountFitsUniqueItems(minimum: int, maximum: int, uniqueCount: nat, draw: int)
    requires minimum < SlotCountRangeEnd(maximum, uniqueCount)
    requires RangeDraw(minimum, SlotCountRangeEnd(maximum, uniqueCount), draw)
    ensures Clamp(minimum, 0, 4) <= NumberOfSlotsToEquip(draw) <= Min(4, uniqueCount)
    ensures maximum >= 0 ==> NumberOfSlotsToEquip(draw) <= maximum
  {
  }

  /**
   * When the range is empty the clamp alone does not keep the count within
   * the unique items: Minimum 4, Maximum 4 and three unique items make the
   * draw's range [4, 4), and a draw of 4 asks for four slots.
   */
  lemma EmptyRangeCanExceedUniqueItems()
    ensures !(4 < SlotCountRangeEnd(4, 3)) && RangeDraw(4, SlotCountRangeEnd(4, 3), 4)
    ensures NumberOfSlotsToEquip(4) == 4 > 3
  {
  }

  /**
   * How EquipItems ends: no container, the requested number of slots
   * filled, or the ArgumentOutOfRangeException thrown when the loop reads
   * uniqueItemsByType at an index past its end.
   */
  datatype EquipOutcome = NoContainer | Equipped(slotsFilled: nat) | IndexOutOfRange(index: nat)

  /**
   * The for loop of EquipItems: for i below numberOfSlotsToEquip, reads
   * uniqueItemsByType[i] (the exception when i is past the end) and gives
   * the item. The items are validated, so neither the reads nor Give change
   * them and none is skipped.
   */
  method GrantUniqueItems(uniqueItemsByType: seq<ItemInfo>, numberOfSlotsToEquip: nat, inventory: ItemContainer,
                          catalog: Catalog, ghost res: Resolutions)
    returns (outcome: EquipOutcome)
    requires forall o :: o in uniqueItemsByType ==>
      o.itemHasBeenValidated && o.CurrentDefinition(catalog) == DefinitionIn(res, o) && DefinitionIn(res, o).Some?
    modifies inventory
    ensures numberOfSlotsToEquip <= |uniqueItemsByType| ==>
      outcome == Equipped(numberOfSlotsToEquip) &&
      inventory.contents == old(inventory.contents) + Grants(uniqueItemsByType[..numberOfSlotsToEquip], res)
    ensures numberOfSlotsToEquip > |uniqueItemsByType| ==>
      outcome == IndexOutOfRange(|uniqueItemsByType|) &&
      inventory.contents == old(inventory.contents) + Grants(uniqueItemsByType, res)
  {
    outcome := Equipped(numberOfSlotsToEquip);
    for i := 0 to numberOfSlotsToEquip
      invariant outcome == Equipped(numberOfSlotsToEquip) && i <= |uniqueItemsByType|
      invariant inventory.contents == old(inventory.contents) + Grants(uniqueItemsByType[..i], res)
    {
      if i >= |uniqueItemsByType| {
        outcome := IndexOutOfRange(i);
        break;
      }
      var itemInfo := uniqueItemsByType[i];
      var definition := itemInfo.GetItemDefinition(catalog);
      if definition.None? {
        continue;
      }
      itemInfo.Give(inventory, catalog);
      assert uniqueItemsByType[..i + 1][..i] == uniqueItemsByType[..i];
    }
    assert uniqueItemsByType[..|uniqueItemsByType|] == uniqueItemsByType;
  }

  /**
   * What a container holds once EquipItems ran, given the configured list
   * after its shuffle and what its items resolve to: the grants for the
   * first numberOfSlotsToEquip unique items, or for all of them and the
   * exception when there are fewer. With a draw from a non-empty range the
   * exception cannot occur.
   */
  predicate Granted(contents: seq<Item>, outcome: EquipOutcome, items: seq<ItemInfo>, res: Resolutions, catalog: Catalog,
                    minimum: int, maximum: int, slotCountDraw: int)
  {
    var unique := FirstPerSlot(items, SlotsOf(items, res, catalog));
    var n := NumberOfSlotsToEquip(slotCountDraw);
    var end := SlotCountRangeEnd(maximum, |unique|);
    (n <= |unique| ==> outcome == Equipped(n) && contents == Grants(unique[..n], res)) &&
    (n > |unique| ==> outcome == IndexOutOfRange(|unique|) && contents == Grants(unique, res)) &&
    (minimum < end && RangeDraw(minimum, end, slotCountDraw) ==> outcome.Equipped?)
  }

  /** What GrantUniqueItems hands an emptied container is what Granted describes. */
  lemma GrantedOfGrants(contents: seq<Item>, outcome: EquipOutcome, items: seq<ItemInfo>, res: Resolutions, catalog: Catalog,
                        minimum: int, maximum: int, slotCountDraw: int, unique: seq<ItemInfo>)
    requires unique == FirstPerSlot(items, SlotsOf(items, res, catalog))
    requires NumberOfSlotsToEquip(slotCountDraw) <= |unique| ==>
      outcome == Equipped(NumberOfSlotsToEquip(slotCountDraw)) && contents == [] + Grants(unique[..NumberOfSlotsToEquip(slotCountDraw)], res)
    requires NumberOfSlotsToEquip(slotCountDraw) > |unique| ==>
      outcome == IndexOutOfRange(|unique|) && contents == [] + Grants(unique, res)
    ensures Granted(contents, outcome, items, res, catalog, minimum, maximum, slotCountDraw)
  {
    var end := SlotCountRangeEnd(maximum, |unique|);
    if minimum < end && RangeDraw(minimum, end, slotCountDraw) {
      SlotCountFitsUniqueItems(minimum, maximum, |unique|, slotCountDraw);
    }
  }

  /**
   * EquipItems. With no container nothing changes. Otherwise the container
   * is emptied, the configured list is shuffled in place, and the
   * container receives one item for each of the first numberOfSlotsToEquip
   * unique items, in order, each with that item's definition id and Amount.
   * If the count exceeds the unique items, the exception ends the method
   * after all of them were granted. With a draw from a non-empty range that
   * never happens. Every configured item resolves as before.
   */
  method EquipItems(horse: RidableHorse, config: Configuration, catalog: Catalog, shuffleDraws: seq<int>, slotCountDraw: int)
    returns (outcome: EquipOutcome)
    requires DrawsValid(shuffleDraws, config.itemsToEquip.Length)
    modifies horse.equipmentInventory, config.itemsToEquip, set o | o in config.itemsToEquip[..]
    ensures ResolutionsOf(config.itemsToEquip[..], catalog) == old(ResolutionsOf(config.itemsToEquip[..], catalog))
    ensures horse.equipmentInventory == null ==>
      outcome == NoContainer && unchanged(config.itemsToEquip) &&
      forall o :: o in old(config.itemsToEquip[..]) ==> unchanged(o)
    ensures horse.equipmentInventory != null ==>
      config.itemsToEquip[..] == Shuffled(old(config.itemsToEquip[..]), shuffleDraws) &&
      Granted(horse.equipmentInventory.contents, outcome, config.itemsToEquip[..], ResolutionsOf(config.itemsToEquip[..], catalog),
              catalog, config.minimumEquipmentSlotsToFill, config.maximumEquipmentSlotsToFill, slotCountDraw)
  {
    var inventory := horse.equipmentInventory;
    if inventory == null {
      return NoContainer;
    }
    ghost var res0 := ResolutionsOf(config.itemsToEquip[..], catalog);
    inventory.Clear();
    assert ResolutionsOf(config.itemsToEquip[..], catalog) == res0;
    var uniqueItemsByType := FilterUniqueItemsByType(config.itemsToEquip, catalog, shuffleDraws);
    var numberOfSlotsToEquip := NumberOfSlotsToEquip(slotCountDraw);
    ghost var res := ResolutionsOf(config.itemsToEquip[..], catalog);
    outcome := GrantUniqueItems(uniqueItemsByType, numberOfSlotsToEquip, inventory, catalog, res);
    assert ResolutionsOf(config.itemsToEquip[..], catalog) == res;
    GrantedOfGrants(inventory.contents, outcome, config.itemsToEquip[..], res, catalog, config.minimumEquipmentSlotsToFill,
                    config.maximumEquipmentSlotsToFill, slotCountDraw, uniqueItemsByType);
  }

  /** The two random streams one UpdateHorse call reads: Unity's (seat rolls, slot count) and System.Random's (shuffle). */
  datatype HorseDraws = HorseDraws(unity: seq<int>, system: seq<int>)

  /** The draws are ones the generators can produce for this configuration. */
  predicate HorseDrawsValid(config: Configuration, draws: HorseDraws)
  {
    SeatRollsValid(config.chanceForDoubleSaddleSeat, draws.unity) &&
    |draws.unity| > DecideSeats(config.chanceForDoubleSaddleSeat, config.chanceForSingleSaddleSeat, draws.unity).rollsUsed &&
    DrawsValid(draws.system, config.itemsToEquip.Length)
  }

  /** The slot-count draw of EquipItems: the Unity draw right after the seat rolls. */
  function SlotCountDraw(config: Configuration, draws: HorseDraws): (draw: int)
    requires HorseDrawsValid(config, draws)
  {
    draws.unity[DecideSeats(config.chanceForDoubleSaddleSeat, config.chanceForSingleSaddleSeat, draws.unity).rollsUsed]
  }

  /** What the horse's equipment container holds; empty for a horse without one. */
  function Contents(horse: RidableHorse): (held: seq<Item>)
    reads if horse.equipmentInventory == null then {} else {horse.equipmentInventory}
  {
    if horse.equipmentInventory == null then [] else horse.equipmentInventory.contents
  }

  /**
   * One UpdateHorse, as a relation between values: the flags before and
   * after, whether the horse has a container and what it then holds, the
   * configured list before and after, and the outcome. The seat flags are
   * set by the rolls; with no container the list stays as it was;
   * otherwise the list is shuffled and the container holds what Granted
   * says for the shuffled list.
   */
  predicate HorseUpdate(config: Configuration, catalog: Catalog, res: Resolutions, draws: HorseDraws,
                        flagsBefore: set<Flag>, flagsAfter: set<Flag>, hasContainer: bool, contents: seq<Item>,
                        listBefore: seq<ItemInfo>, listAfter: seq<ItemInfo>, outcome: EquipOutcome)
    requires HorseDrawsValid(config, draws) && |listBefore| == config.itemsToEquip.Length
  {
    flagsAfter == FlagsAfterSeatRolls(flagsBefore, config.chanceForDoubleSaddleSeat, config.chanceForSingleSaddleSeat, draws.unity) &&
    (!hasContainer ==> outcome == NoContainer && listAfter == listBefore) &&
    (hasContainer ==>
      listAfter == Shuffled(listBefore, draws.system) &&
      Granted(contents, outcome, listAfter, res, catalog,
              config.minimumEquipmentSlotsToFill, config.maximumEquipmentSlotsToFill, SlotCountDraw(config, draws)))
  }

  /**
   * UpdateHorse: the seat rolls (Unity's generator), then EquipItems, whose
   * slot-count draw is the next Unity draw after the rolls the seat
   * decision used. The seat flags are set only when a roll succeeds.
   */
  method UpdateHorse(horse: RidableHorse, config: Configuration, catalog: Catalog, draws: HorseDraws)
    returns (outcome: EquipOutcome)
    requires HorseDrawsValid(config, draws)
    modifies horse, horse.equipmentInventory, config.itemsToEquip, set o | o in config.itemsToEquip[..]
    ensures HorseUpdate(config, catalog, old(ResolutionsOf(config.itemsToEquip[..], catalog)), draws,
                        old(horse.flags), horse.flags, horse.equipmentInventory != null, Contents(horse),
                        old(config.itemsToEquip[..]), config.itemsToEquip[..], outcome)
    ensures ResolutionsOf(config.itemsToEquip[..], catalog) == old(ResolutionsOf(config.itemsToEquip[..], catalog))
    ensures horse.equipmentInventory == null ==> forall o :: o in old(config.itemsToEquip[..]) ==> unchanged(o)
  {
    var rollsUsed := 1;
    if ChanceSucceeded(config.chanceForDoubleSaddleSeat, draws.unity[0]) {
      SetSeatCount(horse, 2);
    } else {
      rollsUsed := 2;
      if ChanceSucceeded(config.chanceForSingleSaddleSeat, draws.unity[1]) {
        SetSeatCount(horse, 1);
      }
    }
    outcome := EquipItems(horse, config, catalog, draws.system, draws.unity[rollsUsed]);
  }

  /** Position by position, whether the entity list holds a horse there. */
  function PresentMask(horses: seq<RidableHorse?>): (mask: seq<bool>)
    ensures |mask| == |horses|
  {
    seq(|horses|, k requires 0 <= k < |horses| => horses[k] != null)
  }

  /** The horses of a list that are not null, in list order: the selection of the present positions. */
  function NonNull(horses: seq<RidableHorse?>): (r: seq<RidableHorse>)
    ensures forall h :: h in r ==> h in horses
    decreases |horses|
  {
    if horses == [] then []
    else
      var rest := NonNull(horses[..|horses| - 1]);
      var last := horses[|horses| - 1];
      if last == null then rest else rest + [last]
  }

  /** NonNull is the selection of the positions PresentMask marks. */
  lemma {:induction false} NonNullIsSelection(horses: seq<RidableHorse?>)
    ensures NonNull(horses) == Select(horses, PresentMask(horses))
    decreases |horses|
  {
    if horses != [] {
      var init := horses[..|horses| - 1];
      NonNullIsSelection(init);
      assert PresentMask(horses)[..|horses| - 1] == PresentMask(init);
    }
  }

  /**
   * The sweep visits the list's horses in order and each exactly once: the
   * p-th horse visited is the one at the p-th present position, the
   * positions increase, and every position holding a horse is among them.
   */
  lemma NonNullInListOrder(horses: seq<RidableHorse?>)
    ensures var r, idx := NonNull(horses), KeptIndices(PresentMask(horses));
      |r| == |idx| &&
      (forall p :: 0 <= p < |idx| ==> idx[p] < |horses| && r[p] == horses[idx[p]]) &&
      (forall p, q :: 0 <= p < q < |idx| ==> idx[p] < idx[q]) &&
      (forall k :: 0 <= k < |horses| ==> (horses[k] != null <==> k in idx))
  {
    NonNullIsSelection(horses);
    SelectAt(horses, PresentMask(horses));
    KeptIndicesAreTheMarkedOnes(PresentMask(horses));
  }

  /** Splitting the list splits the horses visited. */
  lemma {:induction false} NonNullOfConcat(a: seq<RidableHorse?>, b: seq<RidableHorse?>)
    ensures NonNull(a + b) == NonNull(a) + NonNull(b)
    decreases |b|
  {
    if b != [] {
      var b' := b[..|b| - 1];
      assert (a + b)[..|a + b| - 1] == a + b';
      NonNullOfConcat(a, b');
    } else {
      assert a + b == a;
    }
  }

  /**
   * The sweep's first |outcomes| visits, as a relation between values: the
   * k-th visited horse went through HorseUpdate with the k-th draws, taking
   * the configured list from lists[k] to lists[k + 1]; a visit comes only
   * after one that returned normally, since the exception ends the sweep.
   */
  predicate Visits(config: Configuration, catalog: Catalog, res: Resolutions, draws: seq<HorseDraws>, visited: seq<RidableHorse>,
                   flagsBefore: seq<set<Flag>>, flagsAfter: seq<set<Flag>>, contents: seq<seq<Item>>,
                   lists: seq<seq<ItemInfo>>, outcomes: seq<EquipOutcome>)
    requires |outcomes| <= |draws| && |visited| == |flagsBefore| == |flagsAfter| == |contents| == |outcomes|
    requires |lists| == |outcomes| + 1
    requires forall k :: 0 <= k < |draws| ==> HorseDrawsValid(config, draws[k])
    decreases |outcomes|
  {
    var n := |outcomes|;
    n == 0 ||
    (Visits(config, catalog, res, draws, visited[..n - 1], flagsBefore[..n - 1], flagsAfter[..n - 1], contents[..n - 1],
            lists[..n], outcomes[..n - 1]) &&
     (n >= 2 ==> !outcomes[n - 2].IndexOutOfRange?) &&
     |lists[n - 1]| == config.itemsToEquip.Length &&
     HorseUpdate(config, catalog, res, draws[n - 1], flagsBefore[n - 1], flagsAfter[n - 1],
                 visited[n - 1].equipmentInventory != null, contents[n - 1], lists[n - 1], lists[n], outcomes[n - 1]))
  }

  /** Visits, visit by visit. */
  lemma {:induction false} VisitsAt(config: Configuration, catalog: Catalog, res: Resolutions, draws: seq<HorseDraws>,
                                    visited: seq<RidableHorse>, flagsBefore: seq<set<Flag>>, flagsAfter: seq<set<Flag>>,
                                    contents: seq<seq<Item>>, lists: seq<seq<ItemInfo>>, outcomes: seq<EquipOutcome>)
    requires |outcomes| <= |draws| && |visited| == |flagsBefore| == |flagsAfter| == |contents| == |outcomes|
    requires |lists| == |outcomes| + 1
    requires forall k :: 0 <= k < |draws| ==> HorseDrawsValid(config, draws[k])
    requires Visits(config, catalog, res, draws, visited, flagsBefore, flagsAfter, contents, lists, outcomes)
    ensures forall k :: 0 <= k < |outcomes| ==> |lists[k]| == config.itemsToEquip.Length
    ensures forall k {:trigger outcomes[k]} :: 0 <= k < |outcomes| ==>
      HorseUpdate(config, catalog, res, draws[k], flagsBefore[k], flagsAfter[k],
                  visited[k].equipmentInventory != null, contents[k], lists[k], lists[k + 1], outcomes[k])
    ensures forall k :: 0 <= k < |outcomes| - 1 ==> !outcomes[k].IndexOutOfRange?
    decreases |outcomes|
  {
    var n := |outcomes|;
    if n > 0 {
      VisitsAt(config, catalog, res, draws, visited[..n - 1], flagsBefore[..n - 1], flagsAfter[..n - 1], contents[..n - 1],
               lists[..n], outcomes[..n - 1]);
      forall k {:trigger outcomes[k]} | 0 <= k < n - 1
        ensures |lists[k]| == config.itemsToEquip.Length && HorseUpdate(config, catalog, res, draws[k], flagsBefore[k], flagsAfter[k],
                            visited[k].equipmentInventory != null, contents[k], lists[k], lists[k + 1], outcomes[k])
      {
        assert outcomes[..n - 1][k] == outcomes[k] && lists[..n][k] == lists[k];
      }
      assert |lists[n - 1]| == config.itemsToEquip.Length;
      assert HorseUpdate(config, catalog, res, draws[n - 1], flagsBefore[n - 1], flagsAfter[n - 1],
                         visited[n - 1].equipmentInventory != null, contents[n - 1], lists[n - 1], lists[n], outcomes[n - 1]);
    }
  }

  /** The flags of the horses of a list, in order. */
  function FlagsOf(horses: seq<RidableHorse>): (flags: seq<set<Flag>>)
    reads set h | h in horses
    ensures |flags| == |horses|
    decreases |horses|
  {
    if horses == [] then [] else FlagsOf(horses[..|horses| - 1]) + [horses[|horses| - 1].flags]
  }

  /** FlagsOf, horse by horse. */
  lemma {:induction false} FlagsOfAt(horses: seq<RidableHorse>)
    ensures forall k :: 0 <= k < |horses| ==> FlagsOf(horses)[k] == horses[k].flags
    decreases |horses|
  {
    if horses != [] {
      FlagsOfAt(horses[..|horses| - 1]);
    }
  }

  /** What the containers of the horses of a list hold, in order. */
  function ContentsOf(horses: seq<RidableHorse>): (held: seq<seq<Item>>)
    reads set h | h in horses && h.equipmentInventory != null :: h.equipmentInventory
    ensures |held| == |horses|
    decreases |horses|
  {
    if horses == [] then [] else ContentsOf(horses[..|horses| - 1]) + [Contents(horses[|horses| - 1])]
  }

  /** ContentsOf, horse by horse. */
  lemma {:induction false} ContentsOfAt(horses: seq<RidableHorse>)
    ensures forall k :: 0 <= k < |horses| ==> ContentsOf(horses)[k] == Contents(horses[k])
    decreases |horses|
  {
    if horses != [] {
      ContentsOfAt(horses[..|horses| - 1]);
    }
  }

  /**
   * No horse occurs twice, and no two horses share an equipment container:
   * each horse differs from, and has a container other than, those before it.
   */
  predicate DistinctHorses(horses: seq<RidableHorse>)
    decreases |horses|
  {
    horses == [] ||
    var init, last := horses[..|horses| - 1], horses[|horses| - 1];
    DistinctHorses(init) && last !in init &&
    (last.equipmentInventory != null ==> forall h :: h in init ==> h.equipmentInventory != last.equipmentInventory)
  }

  /** DistinctHorses is pairwise distinctness of the horses and of their containers. */
  lemma {:induction false} DistinctHorsesPairwise(horses: seq<RidableHorse>)
    ensures DistinctHorses(horses) <==>
      forall p, q :: 0 <= p < q < |horses| ==>
        horses[p] != horses[q] &&
        (horses[p].equipmentInventory != null ==> horses[p].equipmentInventory != horses[q].equipmentInventory)
    decreases |horses|
  {
    if horses != [] {
      var init := horses[..|horses| - 1];
      DistinctHorsesPairwise(init);
    }
  }

  /** The horses of a prefix of the list are a prefix of the horses of the list. */
  lemma NonNullOfPrefix(horses: seq<RidableHorse?>, i: nat)
    requires i <= |horses|
    ensures |NonNull(horses[..i])| <= |NonNull(horses)| && NonNull(horses[..i]) == NonNull(horses)[..|NonNull(horses[..i])|]
  {
    assert horses == horses[..i] + horses[i..];
    NonNullOfConcat(horses[..i], horses[i..]);
  }

  /**
   * One more position of the entity list: a null adds no horse; a horse is
   * the next one of NonNull(horses) after those of the prefix.
   */
  lemma NonNullStep(horses: seq<RidableHorse?>, i: nat)
    requires i < |horses|
    ensures horses[i] == null ==> NonNull(horses[..i + 1]) == NonNull(horses[..i])
    ensures horses[i] != null ==>
      NonNull(horses[..i + 1]) == NonNull(horses[..i]) + [horses[i]] &&
      |NonNull(horses[..i])| < |NonNull(horses)| && NonNull(horses)[|NonNull(horses[..i])|] == horses[i]
  {
    assert horses[..i + 1][..i] == horses[..i];
    NonNullOfPrefix(horses, i + 1);
  }

  /** Appending one visit that satisfies HorseUpdate extends Visits. */
  lemma VisitsSnoc(config: Configuration, catalog: Catalog, res: Resolutions, draws: seq<HorseDraws>, visited: seq<RidableHorse>,
                   flagsBefore: seq<set<Flag>>, flagsAfter: seq<set<Flag>>, contents: seq<seq<Item>>,
                   lists: seq<seq<ItemInfo>>, outcomes: seq<EquipOutcome>,
                   horse: RidableHorse, before: set<Flag>, after: set<Flag>, held: seq<Item>, list: seq<ItemInfo>, outcome: EquipOutcome)
    requires |outcomes| < |draws| && |visited| == |flagsBefore| == |flagsAfter| == |contents| == |outcomes|
    requires |lists| == |outcomes| + 1
    requires forall k :: 0 <= k < |draws| ==> HorseDrawsValid(config, draws[k])
    requires |lists[|outcomes|]| == config.itemsToEquip.Length
    requires Visits(config, catalog, res, draws, visited, flagsBefore, flagsAfter, contents, lists, outcomes)
    requires HorseUpdate(config, catalog, res, draws[|outcomes|], before, after, horse.equipmentInventory != null, held,
                         lists[|outcomes|], list, outcome)
    requires outcomes == [] || !outcomes[|outcomes| - 1].IndexOutOfRange?
    ensures Visits(config, catalog, res, draws, visited + [horse], flagsBefore + [before], flagsAfter + [after],
                   contents + [held], lists + [list], outcomes + [outcome])
  {
    var n := |outcomes|;
    assert (visited + [horse])[..n] == visited && (flagsBefore + [before])[..n] == flagsBefore;
    assert (flagsAfter + [after])[..n] == flagsAfter && (contents + [held])[..n] == contents;
    assert (lists + [list])[..n + 1] == lists && (outcomes + [outcome])[..n] == outcomes;
  }

  /** Moving the first element still to come to the part already done. */
  lemma MoveFirst<T>(done: seq<T>, rest: seq<T>)
    requires rest != []
    ensures (done + [rest[0]]) + rest[1..] == done + rest
  {
  }

  /**
   * UpdateHorse on the j-th horse of a sweep over distinct horses with
   * distinct containers: of the horses' flags and contents, only the j-th
   * change.
   */
  method UpdateHorseInSweep(horse: RidableHorse, config: Configuration, catalog: Catalog, draws: HorseDraws,
                            ghost toVisit: seq<RidableHorse>, ghost j: nat)
    returns (outcome: EquipOutcome)
    requires j < |toVisit| && toVisit[j] == horse && DistinctHorses(toVisit)
    requires HorseDrawsValid(config, draws)
    modifies horse, horse.equipmentInventory, config.itemsToEquip, set o | o in config.itemsToEquip[..]
    ensures HorseUpdate(config, catalog, old(ResolutionsOf(config.itemsToEquip[..], catalog)), draws,
                        old(horse.flags), horse.flags, horse.equipmentInventory != null, Contents(horse),
                        old(config.itemsToEquip[..]), config.itemsToEquip[..], outcome)
    ensures ResolutionsOf(config.itemsToEquip[..], catalog) == old(ResolutionsOf(config.itemsToEquip[..], catalog))
    ensures horse.equipmentInventory == null ==> forall o :: o in old(config.itemsToEquip[..]) ==> unchanged(o)
    ensures FlagsOf(toVisit) == old(FlagsOf(toVisit))[j := horse.flags]
    ensures ContentsOf(toVisit) == old(ContentsOf(toVisit))[j := Contents(horse)]
  {
    ghost var flagsBeforeCall, contentsBeforeCall := FlagsOf(toVisit), ContentsOf(toVisit);
    DistinctHorsesPairwise(toVisit);
    FlagsOfAt(toVisit);
    ContentsOfAt(toVisit);
    outcome := UpdateHorse(horse, config, catalog, draws);
    forall k | 0 <= k < |toVisit| && k != j
      ensures toVisit[k].flags == old(toVisit[k].flags) && Contents(toVisit[k]) == old(Contents(toVisit[k]))
    {
      assert toVisit[k] != horse;
      assert toVisit[k].equipmentInventory != null ==> toVisit[k].equipmentInventory != horse.equipmentInventory;
    }
    FlagsOfAt(toVisit);
    ContentsOfAt(toVisit);
  }

  /** Replacing the first element still to come moves it to the part already done. */
  lemma ReplaceNext<T>(done: seq<T>, rest: seq<T>, x: T)
    requires rest != []
    ensures (done + rest)[|done| := x] == (done + [x]) + rest[1..]
  {
  }

  /**
   * One pass of the sweep's loop: UpdateHorse on the next horse to visit,
   * the |visited|-th of toVisit, with its draws. The record of the visits
   * so far (Visits over the value sequences) is extended by this one; the
   * horses' flags and their containers' contents, which were those the
   * record says for the horses visited followed by the initial ones
   * (flagsUntouched, contentsUntouched) for the rest, are so again with
   * this horse moved to the visited part: every other horse of the sweep
   * is left alone. The initial flags and contents (flags0, contents0) split
   * the same way with this horse moved to the visited part.
   */
  method VisitHorse(horse: RidableHorse, config: Configuration, catalog: Catalog, horseDraws: HorseDraws,
                    ghost draws: seq<HorseDraws>, ghost toVisit: seq<RidableHorse>, ghost res: Resolutions,
                    ghost flags0: seq<set<Flag>>, ghost contents0: seq<seq<Item>>,
                    visited: seq<RidableHorse>, outcomes: seq<EquipOutcome>, ghost lists: seq<seq<ItemInfo>>,
                    ghost flagsBefore: seq<set<Flag>>, ghost flagsAfter: seq<set<Flag>>, ghost flagsUntouched: seq<set<Flag>>,
                    ghost contentsBefore: seq<seq<Item>>, ghost contents: seq<seq<Item>>, ghost contentsUntouched: seq<seq<Item>>)
    returns (visited': seq<RidableHorse>, outcomes': seq<EquipOutcome>, ghost lists': seq<seq<ItemInfo>>,
             ghost flagsBefore': seq<set<Flag>>, ghost flagsAfter': seq<set<Flag>>, ghost flagsUntouched': seq<set<Flag>>,
             ghost contentsBefore': seq<seq<Item>>, ghost contents': seq<seq<Item>>, ghost contentsUntouched': seq<seq<Item>>)
    requires |visited| < |toVisit| <= |draws| && toVisit[|visited|] == horse && DistinctHorses(toVisit)
    requires horseDraws == draws[|visited|]
    requires forall k :: 0 <= k < |draws| ==> HorseDrawsValid(config, draws[k])
    requires |visited| == |flagsBefore| == |flagsAfter| == |contents| == |outcomes| && |lists| == |visited| + 1
    requires lists[|visited|] == config.itemsToEquip[..] && res == ResolutionsOf(config.itemsToEquip[..], catalog)
    requires Visits(config, catalog, res, draws, visited, flagsBefore, flagsAfter, contents, lists, outcomes)
    requires outcomes == [] || !outcomes[|outcomes| - 1].IndexOutOfRange?
    requires flags0 == flagsBefore + flagsUntouched && FlagsOf(toVisit) == flagsAfter + flagsUntouched
    requires |contentsBefore| == |visited| && contents0 == contentsBefore + contentsUntouched
    requires ContentsOf(toVisit) == contents + contentsUntouched
    modifies horse, horse.equipmentInventory, config.itemsToEquip, set o | o in config.itemsToEquip[..]
    ensures ResolutionsOf(config.itemsToEquip[..], catalog) == res
    ensures forall o :: o in config.itemsToEquip[..] ==> o in old(config.itemsToEquip[..])
    ensures visited' == visited + [horse]
    ensures |outcomes'| == |flagsBefore'| == |flagsAfter'| == |contents'| == |visited'| && |lists'| == |visited'| + 1
    ensures lists'[0] == lists[0] && lists'[|visited'|] == config.itemsToEquip[..]
    ensures Visits(config, catalog, res, draws, visited', flagsBefore', flagsAfter', contents', lists', outcomes')
    ensures |contentsBefore'| == |visited'|
    ensures flags0 == flagsBefore' + flagsUntouched' && FlagsOf(toVisit) == flagsAfter' + flagsUntouched'
    ensures contents0 == contentsBefore' + contentsUntouched' && ContentsOf(toVisit) == contents' + contentsUntouched'
  {
    ghost var j := |visited|;
    ghost var list := config.itemsToEquip[..];
    FlagsOfAt(toVisit);
    assert old(horse.flags) == flagsUntouched[0];
    var outcome := UpdateHorseInSweep(horse, config, catalog, horseDraws, toVisit, j);
    ReplaceNext(flagsAfter, flagsUntouched, horse.flags);
    ReplaceNext(contents, contentsUntouched, Contents(horse));
    MoveFirst(flagsBefore, flagsUntouched);
    MoveFirst(contentsBefore, contentsUntouched);
    if horse.equipmentInventory != null {
      ShuffledIsPermutation(list, draws[j].system);
    }
    forall o | o in config.itemsToEquip[..] ensures o in list {
      assert o in multiset(config.itemsToEquip[..]);
    }
    VisitsSnoc(config, catalog, res, draws, visited, flagsBefore, flagsAfter, contents, lists, outcomes,
               horse, flagsUntouched[0], horse.flags, Contents(horse), config.itemsToEquip[..], outcome);
    visited', outcomes', lists' := visited + [horse], outcomes + [outcome], lists + [config.itemsToEquip[..]];
    flagsBefore', flagsAfter', flagsUntouched' := flagsBefore + [flagsUntouched[0]], flagsAfter + [horse.flags], flagsUntouched[1..];
    contentsBefore', contents', contentsUntouched' := contentsBefore + [contentsUntouched[0]], contents + [Contents(horse)], contentsUntouched[1..];
  }

  /**
   * One pass of the loop of SweepHorses: the entity at position `swept`
   * of the list is visited when it is a horse and skipped when it is null.
   * The loop's invariant, stated against the list before the sweep
   * (list0), holds again one position further on.
   */
  method SweepStep(horses: seq<RidableHorse?>, config: Configuration, catalog: Catalog, draws: seq<HorseDraws>,
                   ghost toVisit: seq<RidableHorse>, ghost res: Resolutions, ghost list0: seq<ItemInfo>,
                   ghost flags0: seq<set<Flag>>, ghost contents0: seq<seq<Item>>, swept: nat,
                   visited: seq<RidableHorse>, outcomes: seq<EquipOutcome>, ghost lists: seq<seq<ItemInfo>>,
                   ghost flagsBefore: seq<set<Flag>>, ghost flagsAfter: seq<set<Flag>>, ghost flagsUntouched: seq<set<Flag>>,
                   ghost contentsBefore: seq<seq<Item>>, ghost contents: seq<seq<Item>>, ghost contentsUntouched: seq<seq<Item>>)
    returns (swept': nat, visited': seq<RidableHorse>, outcomes': seq<EquipOutcome>, ghost lists': seq<seq<ItemInfo>>,
             ghost flagsBefore': seq<set<Flag>>, ghost flagsAfter': seq<set<Flag>>, ghost flagsUntouched': seq<set<Flag>>,
             ghost contentsBefore': seq<seq<Item>>, ghost contents': seq<seq<Item>>, ghost contentsUntouched': seq<seq<Item>>)
    requires toVisit == NonNull(horses) && DistinctHorses(toVisit) && |draws| == |toVisit|
    requires forall k :: 0 <= k < |draws| ==> HorseDrawsValid(config, draws[k])
    requires swept < |horses| && (outcomes == [] || !outcomes[|outcomes| - 1].IndexOutOfRange?)
    requires visited == NonNull(horses[..swept]) && |visited| <= |toVisit|
    requires |outcomes| == |flagsBefore| == |flagsAfter| == |contents| == |visited| && |lists| == |visited| + 1
    requires lists[0] == list0 && lists[|visited|] == config.itemsToEquip[..]
    requires ResolutionsOf(config.itemsToEquip[..], catalog) == res
    requires forall o :: o in config.itemsToEquip[..] ==> o in list0
    requires Visits(config, catalog, res, draws, visited, flagsBefore, flagsAfter, contents, lists, outcomes)
    requires |contentsBefore| == |visited|
    requires flags0 == flagsBefore + flagsUntouched && FlagsOf(toVisit) == flagsAfter + flagsUntouched
    requires contents0 == contentsBefore + contentsUntouched && ContentsOf(toVisit) == contents + contentsUntouched
    modifies set h | h in toVisit, set h | h in toVisit :: h.equipmentInventory
    modifies config.itemsToEquip, set o | o in list0
    ensures swept' == swept + 1
    ensures visited' == NonNull(horses[..swept']) && |visited'| <= |toVisit|
    ensures |outcomes'| == |flagsBefore'| == |flagsAfter'| == |contents'| == |visited'| && |lists'| == |visited'| + 1
    ensures lists'[0] == list0 && lists'[|visited'|] == config.itemsToEquip[..]
    ensures ResolutionsOf(config.itemsToEquip[..], catalog) == res
    ensures forall o :: o in config.itemsToEquip[..] ==> o in list0
    ensures Visits(config, catalog, res, draws, visited', flagsBefore', flagsAfter', contents', lists', outcomes')
    ensures |contentsBefore'| == |visited'|
    ensures flags0 == flagsBefore' + flagsUntouched' && FlagsOf(toVisit) == flagsAfter' + flagsUntouched'
    ensures contents0 == contentsBefore' + contentsUntouched' && ContentsOf(toVisit) == contents' + contentsUntouched'
  {
    var horse := horses[swept];
    NonNullStep(horses, swept);
    swept' := swept + 1;
    if horse == null {
      visited', outcomes', lists' := visited, outcomes, lists;
      flagsBefore', flagsAfter', flagsUntouched' := flagsBefore, flagsAfter, flagsUntouched;
      contentsBefore', contents', contentsUntouched' := contentsBefore, contents, contentsUntouched;
    } else {
      visited', outcomes', lists', flagsBefore', flagsAfter', flagsUntouched', contentsBefore', contents', contentsUntouched' :=
        VisitHorse(horse, config, catalog, draws[|visited|], draws, toVisit, res, flags0, contents0,
                   visited, outcomes, lists, flagsBefore, flagsAfter, flagsUntouched, contentsBefore, contents, contentsUntouched);
    }
  }

  /**
   * The loop of UpdateAllHorses: walks the entity list until its end or
   * until a visit ends in the out-of-range exception, `swept` being the
   * number of list positions passed. The records are those of
   * UpdateAllHorses, with every visit stated through Visits.
   */
  method SweepHorses(horses: seq<RidableHorse?>, config: Configuration, catalog: Catalog, draws: seq<HorseDraws>)
    returns (visited: seq<RidableHorse>, outcomes: seq<EquipOutcome>, ghost lists: seq<seq<ItemInfo>>,
             ghost flagsBefore: seq<set<Flag>>, ghost flagsAfter: seq<set<Flag>>, ghost flagsUntouched: seq<set<Flag>>,
             ghost contentsBefore: seq<seq<Item>>, ghost contents: seq<seq<Item>>, ghost contentsUntouched: seq<seq<Item>>,
             swept: nat)
    requires DistinctHorses(NonNull(horses))
    requires |draws| == |NonNull(horses)|
    requires forall k :: 0 <= k < |draws| ==> HorseDrawsValid(config, draws[k])
    modifies set h | h in NonNull(horses), set h | h in NonNull(horses) :: h.equipmentInventory
    modifies config.itemsToEquip, set o | o in config.itemsToEquip[..]
    ensures swept <= |horses| && visited == NonNull(horses[..swept]) && |visited| <= |NonNull(horses)|
    ensures swept < |horses| ==> outcomes != [] && outcomes[|outcomes| - 1].IndexOutOfRange?
    ensures |outcomes| == |flagsBefore| == |flagsAfter| == |contents| == |visited| && |lists| == |visited| + 1
    ensures lists[0] == old(config.itemsToEquip[..]) && lists[|visited|] == config.itemsToEquip[..]
    ensures ResolutionsOf(config.itemsToEquip[..], catalog) == old(ResolutionsOf(config.itemsToEquip[..], catalog))
    ensures Visits(config, catalog, old(ResolutionsOf(config.itemsToEquip[..], catalog)), draws, visited,
                   flagsBefore, flagsAfter, contents, lists, outcomes)
    ensures |contentsBefore| == |visited|
    ensures old(FlagsOf(NonNull(horses))) == flagsBefore + flagsUntouched && FlagsOf(NonNull(horses)) == flagsAfter + flagsUntouched
    ensures old(ContentsOf(NonNull(horses))) == contentsBefore + contentsUntouched
    ensures ContentsOf(NonNull(horses)) == contents + contentsUntouched
  {
    ghost var toVisit := NonNull(horses);
    ghost var res := ResolutionsOf(config.itemsToEquip[..], catalog);
    ghost var list0 := config.itemsToEquip[..];
    ghost var flags0, contents0 := FlagsOf(toVisit), ContentsOf(toVisit);
    flagsBefore, flagsAfter, flagsUntouched := [], [], flags0;
    contentsBefore, contents, contentsUntouched := [], [], contents0;
    visited, outcomes, lists := [], [], [list0];
    swept := 0;
    while swept < |horses| && (outcomes == [] || !outcomes[|outcomes| - 1].IndexOutOfRange?)
      invariant swept <= |horses|
      invariant visited == NonNull(horses[..swept]) && |visited| <= |toVisit|
      invariant |outcomes| == |flagsBefore| == |flagsAfter| == |contents| == |visited| && |lists| == |visited| + 1
      invariant lists[0] == list0 && lists[|visited|] == config.itemsToEquip[..]
      invariant ResolutionsOf(config.itemsToEquip[..], catalog) == res
      invariant forall o :: o in config.itemsToEquip[..] ==> o in list0
      invariant Visits(config, catalog, res, draws, visited, flagsBefore, flagsAfter, contents, lists, outcomes)
      invariant |contentsBefore| == |visited|
      invariant flags0 == flagsBefore + flagsUntouched && FlagsOf(toVisit) == flagsAfter + flagsUntouched
      invariant contents0 == contentsBefore + contentsUntouched && ContentsOf(toVisit) == contents + contentsUntouched
      decreases |horses| - swept
    {
      swept, visited, outcomes, lists, flagsBefore, flagsAfter, flagsUntouched, contentsBefore, contents, contentsUntouched :=
        SweepStep(horses, config, catalog, draws, toVisit, res, list0, flags0, contents0, swept,
                  visited, outcomes, lists, flagsBefore, flagsAfter, flagsUntouched, contentsBefore, contents, contentsUntouched);
    }
  }

  /**
   * UpdateAllHorsesCoroutine without its suspensions: UpdateHorse on every
   * horse of the entity list that is not null, in list order, the k-th
   * horse with the k-th stretch of the two random streams. An exception
   * from UpdateHorse (the out-of-range read of EquipItems) ends the whole
   * sweep: the horses after it are not touched. `lists` records the
   * configured list before the first horse and after each visited one;
   * `flagsBefore`, `flagsAfter` and `contents` record the k-th visited
   * horse's flags before and after its visit and what its container then
   * holds. The horses' flags and contents at the end are those for the
   * visited horses and the initial ones for the rest.
   */
  method UpdateAllHorses(horses: seq<RidableHorse?>, config: Configuration, catalog: Catalog, draws: seq<HorseDraws>)
    returns (visited: seq<RidableHorse>, outcomes: seq<EquipOutcome>, ghost lists: seq<seq<ItemInfo>>,
             ghost flagsBefore: seq<set<Flag>>, ghost flagsAfter: seq<set<Flag>>, ghost flagsUntouched: seq<set<Flag>>,
             ghost contentsBefore: seq<seq<Item>>, ghost contents: seq<seq<Item>>, ghost contentsUntouched: seq<seq<Item>>)
    requires DistinctHorses(NonNull(horses))
    requires |draws| == |NonNull(horses)|
    requires forall k :: 0 <= k < |draws| ==> HorseDrawsValid(config, draws[k])
    modifies set h | h in NonNull(horses), set h | h in NonNull(horses) :: h.equipmentInventory
    modifies config.itemsToEquip, set o | o in config.itemsToEquip[..]
    ensures |visited| <= |NonNull(horses)| && visited == NonNull(horses)[..|visited|]
    ensures |outcomes| == |flagsBefore| == |flagsAfter| == |contents| == |visited| && |lists| == |visited| + 1
    ensures forall k :: 0 <= k < |lists| ==> |lists[k]| == config.itemsToEquip.Length
    ensures forall k :: 0 <= k < |visited| - 1 ==> !outcomes[k].IndexOutOfRange?
    ensures |visited| < |NonNull(horses)| ==> 0 < |visited| && outcomes[|visited| - 1].IndexOutOfRange?
    ensures lists[0] == old(config.itemsToEquip[..]) && lists[|visited|] == config.itemsToEquip[..]
    ensures ResolutionsOf(config.itemsToEquip[..], catalog) == old(ResolutionsOf(config.itemsToEquip[..], catalog))
    ensures forall k {:trigger outcomes[k]} :: 0 <= k < |visited| ==>
      HorseUpdate(config, catalog, old(ResolutionsOf(config.itemsToEquip[..], catalog)), draws[k], flagsBefore[k], flagsAfter[k],
                  visited[k].equipmentInventory != null, contents[k], lists[k], lists[k + 1], outcomes[k])
    ensures |contentsBefore| == |visited|
    ensures old(FlagsOf(NonNull(horses))) == flagsBefore + flagsUntouched && FlagsOf(NonNull(horses)) == flagsAfter + flagsUntouched
    ensures old(ContentsOf(NonNull(horses))) == contentsBefore + contentsUntouched
    ensures ContentsOf(NonNull(horses)) == contents + contentsUntouched
  {
    ghost var res := ResolutionsOf(config.itemsToEquip[..], catalog);
    var swept;
    visited, outcomes, lists, flagsBefore, flagsAfter, flagsUntouched, contentsBefore, contents, contentsUntouched, swept :=
      SweepHorses(horses, config, catalog, draws);
    if swept == |horses| {
      assert horses[..swept] == horses;
    }
    NonNullOfPrefix(horses, swept);
    VisitsAt(config, catalog, res, draws, visited, flagsBefore, flagsAfter, contents, lists, outcomes);
    forall k | 0 <= k < |lists| ensures |lists[k]| == config.itemsToEquip.Length {
      if k == |visited| {
        assert lists[k] == config.itemsToEquip[..];
      }
    }
  }
}
