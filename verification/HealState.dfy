/** The critical sections of the heal state (cmd/admin-heal-ops.go, allHealState) on the
    objects themselves, each proved to be one step of the registry. */
module HealState {
  import opened Basics
  import opened HealRegistry

  class HealSequence {
    const path: Path
    const background: bool
    var endTime: Option<int>

    constructor (path: Path, background: bool)
      ensures this.path == path && this.background == background && endTime == None
    {
      this.path, this.background := path, background;
      endTime := None;
    }

    ghost function View(): Sequence
      reads this
    {
      Sequence(path, background, endTime)
    }

    predicate HasEnded()
      reads this
    {
      !background && endTime.Some?
    }
  }

  class AllHealState {
    var healSeqMap: map<Path, HealSequence>
    ghost var launched: seq<HealSequence>  // every sequence ever launched
    ghost var registry: Registry           // the abstract state

    ghost predicate Valid()
      reads this, launched
    {
      && registry.Valid() && Disjoint(registry)
      && |launched| == |registry.sequences|
      && (forall i :: 0 <= i < |launched| ==> registry.sequences[i] == launched[i].View())
      && (forall i, j :: 0 <= i < j < |launched| ==> launched[i] != launched[j])
      && healSeqMap.Keys == registry.byPath.Keys
      && (forall p :: p in healSeqMap ==> healSeqMap[p] == launched[registry.byPath[p]])
    }

    constructor ()
      ensures Valid() && registry == EMPTY
    {
      healSeqMap, launched, registry := map[], [], EMPTY;
    }

    /** Entries of the map, as the registry sees them. */
    lemma Entry(p: Path)
      requires Valid() && p in healSeqMap
      ensures p in registry.byPath && registry.byPath[p] < |launched|
      ensures registry.sequences[registry.byPath[p]] == healSeqMap[p].View()
      ensures healSeqMap[p].HasEnded() <==> !registry.Running(registry.byPath[p])
    {
    }

    /** Looks for a running sequence on an overlapping path. */
    method OverlapsRunning(path: Path) returns (found: bool)
      ensures found <==> exists p :: p in healSeqMap && !healSeqMap[p].HasEnded() && Overlap(p, path)
      ensures found <==>
              exists p :: p in healSeqMap && (healSeqMap[p].background || healSeqMap[p].endTime.None?) && (p <= path || path <= p)
    {
      var rest := healSeqMap.Keys;
      while rest != {}
        invariant rest <= healSeqMap.Keys
        invariant forall p :: p in healSeqMap.Keys - rest && !healSeqMap[p].HasEnded() ==> !Overlap(p, path)
        decreases rest
      {
        var k :| k in rest;
        if !healSeqMap[k].HasEnded() && Overlap(k, path) {
          return true;
        }
        rest := rest - {k};
      }
      return false;
    }

    lemma FoundIsRefused(path: Path)
      requires Valid()
      ensures Admitted(registry, path) <==> !exists p :: p in healSeqMap && !healSeqMap[p].HasEnded() && Overlap(p, path)
    {
      hide Overlap, Disjoint;
      forall p | p in healSeqMap
        ensures p in registry.byPath && (healSeqMap[p].HasEnded() <==> !registry.Running(registry.byPath[p]))
      {
        Entry(p);
      }
    }

    /** The check and registration at the end of a launch. */
    method Register(h: HealSequence) returns (admitted: bool)
      requires Valid() && h !in launched && h.endTime.None?
      modifies this
      ensures Valid()
      ensures admitted <==> Admitted(old(registry), h.path)
      ensures registry == Step(old(registry), Launch(h.path, h.background))
      ensures launched == old(launched) + (if admitted then [h] else [])
    {
      hide Overlap, Disjoint;
      var found := OverlapsRunning(h.path);
      FoundIsRefused(h.path);
      if found {
        return false;
      }
      StepKeepsDisjoint(registry, Launch(h.path, h.background));
      hide Admitted, Registry.Running;
      registry := Step(registry, Launch(h.path, h.background));
      healSeqMap := healSeqMap[h.path := h];
      launched := launched + [h];
      return true;
    }

    /** The goroutine of sequence number `id` records its end. */
    method End(h: HealSequence, time: int, ghost id: nat)
      requires Valid() && id < |launched| && launched[id] == h && h.endTime.None?
      modifies this`registry, h`endTime
      ensures Valid() && registry == Step(old(registry), Event.End(id, time)) && h.endTime == Some(time)
    {
      StepKeepsDisjoint(registry, Event.End(id, time));
      registry := Step(registry, Event.End(id, time));
      h.endTime := Some(time);
    }

    /** A stop, or a status query, looks a path up. */
    method GetHealSequence(path: Path) returns (h: HealSequence?)
      requires Valid()
      modifies this`registry
      ensures Valid() && registry == Step(old(registry), BeginStop(path))
      ensures h == null <==> path !in healSeqMap
      ensures h != null ==> h == healSeqMap[path] && (path, registry.byPath[path]) in registry.stops
    {
      StepKeepsDisjoint(registry, BeginStop(path));
      registry := Step(registry, BeginStop(path));
      h := if path in healSeqMap then healSeqMap[path] else null;
    }

    /** The stop of sequence number `id`, which has ended, removes the path. */
    method FinishStop(path: Path, ghost id: nat)
      requires Valid() && Enabled(registry, Event.FinishStop(path, id))
      modifies this`registry, this`healSeqMap
      ensures Valid() && registry == Step(old(registry), Event.FinishStop(path, id))
    {
      StepKeepsDisjoint(registry, Event.FinishStop(path, id));
      registry := Step(registry, Event.FinishStop(path, id));
      healSeqMap := healSeqMap - {path};
    }

    /** Deletes entries of the map while ranging over it. */
    method DeleteExpired(now: int)
      modifies this`healSeqMap
      ensures healSeqMap == map p | p in old(healSeqMap) && !Expired(old(healSeqMap)[p].View(), now) :: old(healSeqMap)[p]
      ensures forall p :: p in healSeqMap <==>
                p in old(healSeqMap) &&
                var h := old(healSeqMap)[p];
                h.background || h.endTime.None? || now <= h.endTime.value + 10 * 60
    {
      var rest := healSeqMap.Keys;
      while rest != {}
        invariant rest <= healSeqMap.Keys <= old(healSeqMap).Keys
        invariant forall p :: p in healSeqMap ==> healSeqMap[p] == old(healSeqMap)[p]
        invariant forall p :: p in old(healSeqMap).Keys - rest ==>
                    (p in healSeqMap <==> !Expired(old(healSeqMap)[p].View(), now))
        decreases rest
      {
        var path :| path in rest;
        var h := healSeqMap[path];
        if h.HasEnded() && h.endTime.value + KEEP_DURATION < now {
          healSeqMap := healSeqMap - {path};
        }
        rest := rest - {path};
      }
    }

    /** The periodic clean-up. */
    method Clean(now: int)
      requires Valid()
      modifies this`registry, this`healSeqMap
      ensures Valid() && registry == Step(old(registry), Event.Clean(now))
    {
      StepKeepsDisjoint(registry, Event.Clean(now));
      registry := Step(registry, Event.Clean(now));
      hide Expired;
      DeleteExpired(now);
    }
  }
}
