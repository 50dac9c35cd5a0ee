/**
 * ItemInfo: one configured item (short name and amount) with the lazily
 * resolved, self-caching ItemDefinition property, and Give, which grants the
 * item to a container.
 */
module Items {
  import opened Wrappers
  import opened ItemCatalog
  import opened Entities

  /** The two cache fields of an ItemInfo: _itemHasBeenValidated and _itemDefinition. */
  datatype CacheState = CacheState(validated: bool, cached: Option<ItemDefinition>)

  /** The outcome of one read of the ItemDefinition property: the value returned and the cache afterwards. */
  datatype Access = Access(result: Option<ItemDefinition>, next: CacheState)

  /**
   * One read of the property from cache state c when the catalog answers
   * `found`: a validated item returns its cache without a lookup; otherwise
   * a successful lookup is cached and marks the item validated, and a failed
   * one returns null and leaves the state as it was.
   */
  function Read(c: CacheState, found: Option<ItemDefinition>): (a: Access)
    ensures a.next != c <==> !c.validated && found.Some?
    ensures a.result.Some? <==> a.next.validated && a.next.cached.Some?
    ensures !c.validated ==> a.result == found
  {
    if c.validated then Access(c.cached, c)
    else match found
      case Some(d) => Access(Some(d), CacheState(true, Some(d)))
      case None => Access(None, c)
  }

  /** The definition a cache state answers with once a read has been made: its cache if validated, null otherwise. */
  function Resolution(c: CacheState): (d: Option<ItemDefinition>)
  {
    if c.validated then c.cached else None
  }

  /** A read returns what the cache it leaves behind resolves to. */
  lemma ReadReturnsResolution(c: CacheState, found: Option<ItemDefinition>)
    ensures Read(c, found).result == Resolution(Read(c, found).next)
  {
  }

  /** Reading twice with the same catalog answer leaves the cache as reading once. */
  lemma ReadIsIdempotent(c: CacheState, found: Option<ItemDefinition>)
    ensures Read(Read(c, found).next, found) == Read(c, found)
  {
  }

  /** The values returned by successive reads, the k-th read seeing catalog answer answers[k]. */
  function Reads(c: CacheState, answers: seq<Option<ItemDefinition>>): (r: seq<Option<ItemDefinition>>)
    ensures |r| == |answers|
    decreases answers
  {
    if answers == [] then []
    else
      var a := Read(c, answers[0]);
      [a.result] + Reads(a.next, answers[1..])
  }

  /** The first successful catalog answer, if any. */
  function FirstFound(answers: seq<Option<ItemDefinition>>): (found: Option<ItemDefinition>)
  {
    if answers == [] then None
    else if answers[0].Some? then answers[0] else FirstFound(answers[1..])
  }

  /** A validated item answers every read with its cache, whatever the catalog says. */
  lemma {:induction false} ValidatedReadsAreCached(cached: Option<ItemDefinition>, answers: seq<Option<ItemDefinition>>, k: nat)
    requires k < |answers|
    ensures Reads(CacheState(true, cached), answers)[k] == cached
  {
    if k > 0 {
      ValidatedReadsAreCached(cached, answers[1..], k - 1);
    }
  }

  /**
   * Lazy memoisation: from an unvalidated state, the k-th read returns the
   * first successful answer among the first k+1 lookups. So failed lookups
   * are retried, and once a read has returned a definition every later read
   * returns that same definition.
   */
  lemma {:induction false} ReadsReturnFirstFound(cached: Option<ItemDefinition>, answers: seq<Option<ItemDefinition>>, k: nat)
    requires k < |answers|
    ensures Reads(CacheState(false, cached), answers)[k] == FirstFound(answers[..k + 1])
  {
    if k > 0 {
      match answers[0]
      case Some(d) =>
        ValidatedReadsAreCached(Some(d), answers[1..], k - 1);
      case None =>
        ReadsReturnFirstFound(cached, answers[1..], k - 1);
        assert answers[..k + 1][1..] == answers[1..][..k];
    }
  }

  /** Cache monotonicity: a definition once returned is returned by every later read. */
  lemma {:induction false} ReadsAreStableOnceFound(c: CacheState, answers: seq<Option<ItemDefinition>>, k: nat, m: nat)
    requires k <= m < |answers|
    requires Reads(c, answers)[k].Some?
    ensures Reads(c, answers)[m] == Reads(c, answers)[k]
    decreases answers
  {
    var a := Read(c, answers[0]);
    if k == 0 {
      if m > 0 {
        ValidatedReadsAreCached(a.next.cached, answers[1..], m - 1);
      }
    } else {
      ReadsAreStableOnceFound(a.next, answers[1..], k - 1, m - 1);
    }
  }

  class ItemInfo {
    const shortName: string
    const amount: int
    var itemHasBeenValidated: bool
    var itemDefinition: Option<ItemDefinition>

    constructor (shortName: string, amount: int)
      ensures this.shortName == shortName && this.amount == amount
      ensures !itemHasBeenValidated && itemDefinition == None
    {
      this.shortName := shortName;
      this.amount := amount;
      itemHasBeenValidated := false;
      itemDefinition := None;
    }

    /** The cache fields as a value. */
    function Cache(): (c: CacheState)
      reads this
    {
      CacheState(itemHasBeenValidated, itemDefinition)
    }

    /** The state of the cache after one read, with the catalog as it is. */
    function CacheAfterRead(catalog: Catalog, c: CacheState): (after: CacheState)
    {
      Read(c, catalog.FindItemDefinition(shortName)).next
    }

    /** What a read of the ItemDefinition property returns in the current state. */
    function CurrentDefinition(catalog: Catalog): Option<ItemDefinition>
      reads this
    {
      Read(Cache(), catalog.FindItemDefinition(shortName)).result
    }

    /** The equipment slot of the current definition; None when there is no definition or no component. */
    function CurrentSlot(catalog: Catalog): Option<SlotType>
      reads this
    {
      catalog.SlotOf(CurrentDefinition(catalog))
    }

    /**
     * The ItemDefinition getter. It performs one Read, and what any later
     * read would return (CurrentDefinition) is the same before and after.
     */
    method GetItemDefinition(catalog: Catalog) returns (d: Option<ItemDefinition>)
      modifies if itemHasBeenValidated then {} else {this}
      ensures d == Read(old(Cache()), catalog.FindItemDefinition(shortName)).result
      ensures Cache() == CacheAfterRead(catalog, old(Cache()))
      ensures d == old(CurrentDefinition(catalog)) && CurrentDefinition(catalog) == d
    {
      if !itemHasBeenValidated {
        var matched := catalog.FindItemDefinition(shortName);
        if matched.Some? {
          itemDefinition := matched;
        } else {
          return None;
        }
        itemHasBeenValidated := true;
      }
      d := itemDefinition;
    }

    /**
     * Give: creates the item from the definition's id with this item's
     * amount and adds it to the container. The source dereferences the
     * definition unconditionally, so it must resolve.
     */
    method Give(inventory: ItemContainer, catalog: Catalog)
      requires CurrentDefinition(catalog).Some?
      modifies inventory, if itemHasBeenValidated then {} else {this}
      ensures inventory.contents == old(inventory.contents) + [Item(old(CurrentDefinition(catalog)).value.itemId, amount)]
      ensures Cache() == CacheState(true, old(CurrentDefinition(catalog)))
    {
      var d := GetItemDefinition(catalog);
      var item := Item(d.value.itemId, amount);
      inventory.GiveItem(item);
    }
  }
}
