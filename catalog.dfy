/**
 * The game's item catalog, seen from the plugin: a lookup from an item's
 * short name to its definition (ItemManager.FindItemDefinition) and from a
 * definition to the slot of its animal-equipment component
 * (GetComponent<ItemModAnimalEquipment>().slot). A missing key is the
 * engine's null.
 */
module ItemCatalog {
  import opened Wrappers

  /** The slot category of an animal-equipment item, opaque to the plugin. */
  type SlotType = int

  datatype ItemDefinition = ItemDefinition(itemId: int, shortName: string)

  datatype Catalog = Catalog(
    definitions: map<string, ItemDefinition>,
    equipmentSlots: map<ItemDefinition, SlotType>)
  {
    /** ItemManager.FindItemDefinition: null when the short name is unknown. */
    function FindItemDefinition(shortName: string): (d: Option<ItemDefinition>)
    {
      if shortName in definitions then Some(definitions[shortName]) else None
    }

    /** The slot of the definition's equipment component, None when it has none. */
    function EquipmentSlot(d: ItemDefinition): (slot: Option<SlotType>)
    {
      if d in equipmentSlots then Some(equipmentSlots[d]) else None
    }

    /** The slot of a possibly null definition: None for null or for a definition without the component. */
    function SlotOf(d: Option<ItemDefinition>): (slot: Option<SlotType>)
    {
      match d
      case None => None
      case Some(definition) => EquipmentSlot(definition)
    }
  }
}
