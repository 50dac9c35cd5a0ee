/**
 * CoroutineUtil: a registry of running coroutines by name. The host's
 * ServerMgr.StartCoroutine / StopCoroutine are outside the model: a started
 * coroutine is an opaque handle supplied by the caller, and every handle
 * passed to the host's StopCoroutine is recorded, in order, in `stopped`.
 */
module Coroutines {
  import opened Wrappers

  /** A Unity Coroutine handle. */
  datatype CoroutineHandle = CoroutineHandle(id: nat)

  /** The handle an entry holds, as a multiset: empty for a null handle. */
  function HandleOf(entry: Option<CoroutineHandle>): (handles: multiset<CoroutineHandle>)
    ensures |handles| == if entry.Some? then 1 else 0
    ensures forall h :: h in handles <==> entry == Some(h)
  {
    if entry.Some? then multiset{entry.value} else multiset{}
  }

  /** The handles a StopCoroutine(name) passes to the host: the entry's handle when it exists and is not null. */
  function StoppedBy(active: map<string, Option<CoroutineHandle>>, name: string): (handles: seq<CoroutineHandle>)
    ensures name in active ==> multiset(handles) == HandleOf(active[name])
    ensures name !in active ==> handles == []
  {
    if name in active && active[name].Some? then [active[name].value] else []
  }

  /** The names whose handle is not null. */
  function NonNullNames(active: map<string, Option<CoroutineHandle>>): (names: set<string>)
    ensures names <= active.Keys
    ensures forall n :: n in active ==> (n in names <==> active[n].Some?)
  {
    set n | n in active && active[n].Some?
  }

  /** The non-null handles of a registry, each counted once per entry that holds it. */
  ghost function NonNullHandles(active: map<string, Option<CoroutineHandle>>): (handles: multiset<CoroutineHandle>)
    decreases |active|
  {
    if active == map[] then multiset{}
    else
      var n :| n in active;
      NonNullHandles(active - {n}) + HandleOf(active[n])
  }

  /** NonNullHandles does not depend on which entry it takes first: removing any one entry removes its handle. */
  lemma {:induction false} NonNullHandlesRemove(active: map<string, Option<CoroutineHandle>>, name: string)
    requires name in active
    ensures NonNullHandles(active) == NonNullHandles(active - {name}) + HandleOf(active[name])
    decreases |active|
  {
    var n :| n in active && NonNullHandles(active) == NonNullHandles(active - {n}) + HandleOf(active[n]);
    if n != name {
      assert |active - {n}| == |active| - 1 by { assert (active - {n}).Keys == active.Keys - {n}; }
      NonNullHandlesRemove(active - {n}, name);
      assert (active - {n}) - {name} == (active - {name}) - {n};
      assert |active - {name}| == |active| - 1 by { assert (active - {name}).Keys == active.Keys - {name}; }
      NonNullHandlesRemove(active - {name}, n);
    }
  }

  /** NonNullHandles holds one handle per non-null entry, and exactly the handles some entry holds. */
  lemma {:induction false} NonNullHandlesOf(active: map<string, Option<CoroutineHandle>>)
    ensures |NonNullHandles(active)| == |NonNullNames(active)|
    ensures forall h :: h in NonNullHandles(active) <==> exists n :: n in active && active[n] == Some(h)
    decreases |active|
  {
    if active != map[] {
      var n :| n in active;
      var rest := active - {n};
      assert rest.Keys == active.Keys - {n};
      NonNullHandlesRemove(active, n);
      NonNullHandlesOf(rest);
      if active[n].Some? {
        assert NonNullNames(active) == NonNullNames(rest) + {n};
      } else {
        assert NonNullNames(active) == NonNullNames(rest);
      }
      forall h | exists m :: m in active && active[m] == Some(h)
        ensures h in NonNullHandles(active)
      {
        var m :| m in active && active[m] == Some(h);
        if m != n {
          assert m in rest && rest[m] == Some(h);
        }
      }
    }
  }

  /** A log holding the registry's non-null handles as a multiset holds one per non-null entry and no other handle. */
  lemma LogOfHandles(active: map<string, Option<CoroutineHandle>>, log: seq<CoroutineHandle>)
    requires multiset(log) == NonNullHandles(active)
    ensures |log| == |NonNullNames(active)|
    ensures forall n :: n in NonNullNames(active) ==> active[n].value in log
    ensures forall h :: h in log ==> exists n :: n in active && active[n] == Some(h)
  {
    NonNullHandlesOf(active);
    assert |multiset(log)| == |log|;
    forall n | n in NonNullNames(active) ensures active[n].value in log {
      assert active[n].value in multiset(log);
    }
    forall h | h in log ensures exists n :: n in active && active[n] == Some(h) {
      assert h in multiset(log);
    }
  }

  /** Stopping one entry moves its handle, if any, from the registry to the stopped log. */
  lemma StopMovesHandle(before: map<string, Option<CoroutineHandle>>, name: string, log: seq<CoroutineHandle>)
    requires name in before
    ensures multiset(log + StoppedBy(before, name)) + NonNullHandles(before - {name}) == multiset(log) + NonNullHandles(before)
  {
    NonNullHandlesRemove(before, name);
  }

  class CoroutineRegistry {
    /** The registered coroutines by name; None stands for a null handle. */
    var activeCoroutines: map<string, Option<CoroutineHandle>>
    var stopped: seq<CoroutineHandle>

    constructor ()
      ensures activeCoroutines == map[] && stopped == []
    {
      activeCoroutines := map[];
      stopped := [];
    }

    /** StopCoroutine: stops and removes the named entry; every other entry stays, and an absent name is a no-op. */
    method StopCoroutine(coroutineName: string)
      modifies this
      ensures activeCoroutines == old(activeCoroutines) - {coroutineName}
      ensures stopped == old(stopped) + StoppedBy(old(activeCoroutines), coroutineName)
      ensures coroutineName !in old(activeCoroutines) ==> activeCoroutines == old(activeCoroutines) && stopped == old(stopped)
    {
      if coroutineName in activeCoroutines {
        var coroutine := activeCoroutines[coroutineName];
        if coroutine.Some? {
          stopped := stopped + [coroutine.value];
        }
        activeCoroutines := activeCoroutines - {coroutineName};
      }
    }

    /** StartCoroutine: stops any coroutine already under the name, then registers the new handle under it. */
    method StartCoroutine(coroutineName: string, started: Option<CoroutineHandle>)
      modifies this
      ensures activeCoroutines == old(activeCoroutines)[coroutineName := started]
      ensures stopped == old(stopped) + StoppedBy(old(activeCoroutines), coroutineName)
    {
      StopCoroutine(coroutineName);
      activeCoroutines := activeCoroutines[coroutineName := started];
    }

    /**
     * StopAllCoroutines: stops every entry of a snapshot of the names. The
     * registry is left empty. Each non-null handle it held is passed to the
     * host, in some order, and nothing else is.
     */
    method StopAllCoroutines()
      modifies this
      ensures activeCoroutines == map[]
      ensures |stopped| == |old(stopped)| + |NonNullNames(old(activeCoroutines))|
      ensures stopped[..|old(stopped)|] == old(stopped)
      ensures forall n :: n in NonNullNames(old(activeCoroutines)) ==> old(activeCoroutines)[n].value in stopped[|old(stopped)|..]
      ensures forall h :: h in stopped[|old(stopped)|..] ==> exists n :: n in old(activeCoroutines) && old(activeCoroutines)[n] == Some(h)
      ensures multiset(stopped[|old(stopped)|..]) == NonNullHandles(old(activeCoroutines))
    {
      var names := activeCoroutines.Keys;
      ghost var handedOver := [];
      while names != {}
        invariant names == activeCoroutines.Keys
        invariant stopped == old(stopped) + handedOver
        invariant multiset(handedOver) + NonNullHandles(activeCoroutines) == NonNullHandles(old(activeCoroutines))
        decreases names
      {
        var name :| name in names;
        ghost var before := activeCoroutines;
        StopMovesHandle(before, name, handedOver);
        StopCoroutine(name);
        handedOver := handedOver + StoppedBy(before, name);
        names := names - {name};
      }
      assert activeCoroutines == map[];
      LogOfHandles(old(activeCoroutines), handedOver);
      assert stopped[..|old(stopped)|] == old(stopped) && stopped[|old(stopped)|..] == handedOver;
    }
  }
}
