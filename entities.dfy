/**
 * The game-engine objects the engine mutates: an item container (the horse's
 * equipmentInventory) and a ridable horse with its entity flags.
 */
module Entities {

  /** An item created by ItemManager.CreateByItemID: its item id and stack amount. */
  datatype Item = Item(itemId: int, amount: int)

  class ItemContainer {
    var contents: seq<Item>

    constructor ()
      ensures contents == []
    {
      contents := [];
    }

    /** ItemContainer.Clear: every item is removed (and discarded). */
    method Clear()
      modifies this
      ensures contents == []
    {
      contents := [];
    }

    /** ItemContainer.GiveItem: the item is added after the ones already held. */
    method GiveItem(item: Item)
      modifies this
      ensures contents == old(contents) + [item]
    {
      contents := contents + [item];
    }
  }

  /** BaseEntity.Flags: the two seat flags the plugin uses, and any other flag by number. */
  datatype Flag = Reserved9 | Reserved10 | OtherFlag(bit: nat)

  class RidableHorse {
    /** The horse's equipment container; null for a horse that has none. */
    const equipmentInventory: ItemContainer?
    var flags: set<Flag>

    constructor (inventory: ItemContainer?, flags: set<Flag>)
      ensures equipmentInventory == inventory && this.flags == flags
    {
      equipmentInventory := inventory;
      this.flags := flags;
    }

    /** BaseEntity.SetFlag: turns one flag on or off and leaves every other flag alone. */
    method SetFlag(f: Flag, b: bool)
      modifies this
      ensures flags == if b then old(flags) + {f} else old(flags) - {f}
    {
      flags := if b then flags + {f} else flags - {f};
    }
  }
}
