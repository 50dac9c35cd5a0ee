/**
 * The selection made by FilterUniqueItemsByType, on values: given the
 * shuffled items and, position by position, the equipment slot each one
 * resolves to (None when it has no definition or no equipment component),
 * keep an item exactly when its slot is added to seenSlots for the first
 * time — first-seen wins per slot category.
 */
module UniqueSlots {
  import opened Wrappers
  import opened ItemCatalog

  /** The slot categories met in `slots`: the contents of seenSlots after scanning them. */
  function Seen(slots: seq<Option<SlotType>>): (seen: set<SlotType>)
    decreases |slots|
  {
    if slots == [] then {}
    else
      var init := slots[..|slots| - 1];
      match slots[|slots| - 1]
      case None => Seen(init)
      case Some(s) => Seen(init) + {s}
  }

  /** Position by position, whether the scan keeps the item there. */
  function KeepMask(slots: seq<Option<SlotType>>): (mask: seq<bool>)
    ensures |mask| == |slots|
    decreases |slots|
  {
    if slots == [] then []
    else
      var init := slots[..|slots| - 1];
      var last := slots[|slots| - 1];
      KeepMask(init) + [last.Some? && last.value !in Seen(init)]
  }

  /** The elements of xs at the positions where mask holds, in their order. */
  function Select<T>(xs: seq<T>, mask: seq<bool>): (selected: seq<T>)
    requires |xs| == |mask|
    decreases |xs|
  {
    if xs == [] then []
    else
      var rest := Select(xs[..|xs| - 1], mask[..|mask| - 1]);
      if mask[|mask| - 1] then rest + [xs[|xs| - 1]] else rest
  }

  /** The positions where mask holds, in increasing order. */
  function KeptIndices(mask: seq<bool>): (indices: seq<nat>)
    decreases |mask|
  {
    if mask == [] then []
    else
      var rest := KeptIndices(mask[..|mask| - 1]);
      if mask[|mask| - 1] then rest + [|mask| - 1] else rest
  }

  /** The items FilterUniqueItemsByType returns for these items and their slots. */
  function FirstPerSlot<T>(items: seq<T>, slots: seq<Option<SlotType>>): (kept: seq<T>)
    requires |items| == |slots|
  {
    Select(items, KeepMask(slots))
  }

  /** Selection only ever returns elements of the list, and no more of them than it has. */
  lemma {:induction false} SelectWithin<T>(xs: seq<T>, mask: seq<bool>)
    requires |xs| == |mask|
    ensures |Select(xs, mask)| <= |xs|
    ensures forall x :: x in Select(xs, mask) ==> x in xs
    decreases |xs|
  {
    if xs != [] {
      var init := xs[..|xs| - 1];
      SelectWithin(init, mask[..|mask| - 1]);
      assert forall x :: x in init ==> x in xs;
    }
  }

  /** Scanning position i: its slot joins the seen ones, and its item is kept iff the slot is new. */
  lemma ScanStep<T>(items: seq<T>, slots: seq<Option<SlotType>>, i: nat)
    requires |items| == |slots| && i < |slots|
    ensures Seen(slots[..i + 1]) == if slots[i].Some? then Seen(slots[..i]) + {slots[i].value} else Seen(slots[..i])
    ensures FirstPerSlot(items[..i + 1], slots[..i + 1]) ==
      if slots[i].Some? && slots[i].value !in Seen(slots[..i])
      then FirstPerSlot(items[..i], slots[..i]) + [items[i]]
      else FirstPerSlot(items[..i], slots[..i])
  {
    assert slots[..i + 1][..i] == slots[..i];
    assert items[..i + 1][..i] == items[..i];
    assert KeepMask(slots[..i + 1])[..i] == KeepMask(slots[..i]);
  }

  /** A category has been seen exactly when some scanned position has it. */
  lemma {:induction false} SeenMeansOccurs(slots: seq<Option<SlotType>>, s: SlotType)
    ensures s in Seen(slots) <==> exists j :: 0 <= j < |slots| && slots[j] == Some(s)
    decreases |slots|
  {
    if slots != [] {
      var init := slots[..|slots| - 1];
      SeenMeansOccurs(init, s);
      if s in Seen(init) {
        var j :| 0 <= j < |init| && init[j] == Some(s);
        assert slots[j] == Some(s);
      }
      if exists j :: 0 <= j < |slots| && slots[j] == Some(s) {
        var j :| 0 <= j < |slots| && slots[j] == Some(s);
        if j < |init| {
          assert init[j] == Some(s);
        }
      }
    }
  }

  /** Position k is kept exactly when its slot is not among those seen before it. */
  lemma {:induction false} KeepMaskAt(slots: seq<Option<SlotType>>, k: nat)
    requires k < |slots|
    ensures KeepMask(slots)[k] == (slots[k].Some? && slots[k].value !in Seen(slots[..k]))
    decreases |slots|
  {
    var init := slots[..|slots| - 1];
    if k < |init| {
      KeepMaskAt(init, k);
      assert init[..k] == slots[..k];
    } else {
      assert init == slots[..k];
    }
  }

  /** First-seen wins: position k is kept iff it has a slot and no earlier position has that slot. */
  lemma KeptIffFirstOccurrence(slots: seq<Option<SlotType>>, k: nat)
    requires k < |slots|
    ensures KeepMask(slots)[k] <==> slots[k].Some? && forall j :: 0 <= j < k ==> slots[j] != slots[k]
  {
    KeepMaskAt(slots, k);
    if slots[k].Some? {
      SeenMeansOccurs(slots[..k], slots[k].value);
      if exists j :: 0 <= j < k && slots[j] == slots[k] {
        var j :| 0 <= j < k && slots[j] == slots[k];
        assert slots[..k][j] == slots[k];
      }
    }
  }

  /** The kept positions are increasing, in range, and exactly those where mask holds. */
  lemma {:induction false} KeptIndicesAreTheMarkedOnes(mask: seq<bool>)
    ensures forall p :: 0 <= p < |KeptIndices(mask)| ==> KeptIndices(mask)[p] < |mask|
    ensures forall p, q :: 0 <= p < q < |KeptIndices(mask)| ==> KeptIndices(mask)[p] < KeptIndices(mask)[q]
    ensures forall k :: 0 <= k < |mask| ==> (mask[k] <==> k in KeptIndices(mask))
    decreases |mask|
  {
    if mask != [] {
      var init := mask[..|mask| - 1];
      KeptIndicesAreTheMarkedOnes(init);
      forall k | 0 <= k < |init| ensures mask[k] == init[k] { }
    }
  }

  /** Select takes, in order, the elements at the kept positions. */
  lemma {:induction false} SelectAt<T>(xs: seq<T>, mask: seq<bool>)
    requires |xs| == |mask|
    ensures |Select(xs, mask)| == |KeptIndices(mask)|
    ensures forall p :: 0 <= p < |KeptIndices(mask)| ==>
      KeptIndices(mask)[p] < |xs| && Select(xs, mask)[p] == xs[KeptIndices(mask)[p]]
    decreases |xs|
  {
    KeptIndicesAreTheMarkedOnes(mask);
    if xs != [] {
      var xi, mi := xs[..|xs| - 1], mask[..|mask| - 1];
      SelectAt(xi, mi);
      KeptIndicesAreTheMarkedOnes(mi);
      forall p | 0 <= p < |KeptIndices(mi)| ensures xi[KeptIndices(mi)[p]] == xs[KeptIndices(mi)[p]] { }
    }
  }

  /** As many items are kept as there are distinct slot categories among the slots. */
  lemma {:induction false} KeptCountIsDistinctSlots(slots: seq<Option<SlotType>>)
    ensures |KeptIndices(KeepMask(slots))| == |Seen(slots)|
    decreases |slots|
  {
    if slots != [] {
      var init := slots[..|slots| - 1];
      var last := slots[|slots| - 1];
      KeptCountIsDistinctSlots(init);
      var mask := KeepMask(slots);
      assert mask[..|mask| - 1] == KeepMask(init);
      if last.Some? && last.value !in Seen(init) {
        assert Seen(slots) == Seen(init) + {last.value};
      } else {
        assert Seen(slots) == Seen(init);
      }
    }
  }

  /**
   * The FilterUniqueItemsByType guarantees. The result is an order-preserving
   * subsequence of the items, taken at the positions idx. Every kept item
   * has a slot, and no two kept items share one. A position is kept exactly
   * when it is the first with its slot. There are exactly as many kept items
   * as distinct slot categories, so an empty list gives an empty result.
   */
  lemma FirstPerSlotSpec<T>(items: seq<T>, slots: seq<Option<SlotType>>)
    requires |items| == |slots|
    ensures var r, idx := FirstPerSlot(items, slots), KeptIndices(KeepMask(slots));
      |r| == |idx| == |Seen(slots)| &&
      (forall p :: 0 <= p < |idx| ==> idx[p] < |items| && r[p] == items[idx[p]]) &&
      (forall p, q :: 0 <= p < q < |idx| ==> idx[p] < idx[q]) &&
      (forall p :: 0 <= p < |idx| ==> slots[idx[p]].Some?) &&
      (forall p, q :: 0 <= p < q < |idx| ==> slots[idx[p]] != slots[idx[q]]) &&
      (forall k :: 0 <= k < |items| ==>
         (k in idx <==> slots[k].Some? && forall j :: 0 <= j < k ==> slots[j] != slots[k]))
  {
    var mask := KeepMask(slots);
    var idx := KeptIndices(mask);
    SelectAt(items, mask);
    KeptIndicesAreTheMarkedOnes(mask);
    KeptCountIsDistinctSlots(slots);
    forall k | 0 <= k < |items|
      ensures k in idx <==> slots[k].Some? && forall j :: 0 <= j < k ==> slots[j] != slots[k]
    {
      KeptIffFirstOccurrence(slots, k);
    }
    forall p, q | 0 <= p < q < |idx| ensures slots[idx[p]] != slots[idx[q]] {
      KeptIffFirstOccurrence(slots, idx[q]);
    }
  }

  /** If every item has the same slot (or none), at most one item is kept. */
  lemma OneCategoryKeepsAtMostOne<T>(items: seq<T>, slots: seq<Option<SlotType>>, s: SlotType)
    requires |items| == |slots|
    requires forall k :: 0 <= k < |slots| ==> slots[k] == Some(s) || slots[k] == None
    ensures |FirstPerSlot(items, slots)| <= 1
  {
    FirstPerSlotSpec(items, slots);
    var seen := Seen(slots);
    forall t | t in seen ensures t == s {
      SeenMeansOccurs(slots, t);
    }
    if s in seen {
      assert seen == {s};
    } else {
      assert seen == {};
    }
  }
}
