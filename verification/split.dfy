/**
  The registry state as the sources spell it: two separate ECS records.

  `getSet`, and so `emplace`, `get`, `has` and `view`, works on the record
  `core_ecs`; `create`, `remove`, `addSystem` and `update` work on the
  record `core.ecs`, a field of the global `Core`.  Nothing ever registers a
  storage in the second one, so `remove` has nothing to remove from.
 */
module SplitRegistry {
  import opened SparseSet
  import opened Registry

  /** `lookup` is `core_ecs`; `core` is `core.ecs`. */
  datatype SplitEcs<K(==, !new), V> = SplitEcs(lookup: Ecs<K, V>, core: Ecs<K, V>)
  {
    ghost predicate Valid() {
      lookup.Valid() && core.Valid()
    }

    /** `create()` as written: the counter of `core.ecs`. */
    function Create(): (res: (SplitEcs<K, V>, Entity))
      ensures res.1 == core.nextEntity
      ensures res.0.lookup == lookup && res.0.core.sets == core.sets
    {
      var (c, e) := core.Create();
      (this.(core := c), e)
    }

    /** `emplace<T>(e, c)` as written: through `getSet`, so into `core_ecs`. */
    function Emplace(t: K, e: Entity, c: V): (r: SplitEcs<K, V>)
      requires Valid()
      ensures r.Valid()
      ensures r.core == core
      ensures forall u, x :: r.lookup.Holds(u, x) <==> lookup.Holds(u, x) || (u == t && x == e)
    {
      this.(lookup := lookup.Emplace(t, e, c))
    }

    /** `remove(e)` as written: the loop walks the storages of `core.ecs`. */
    function Remove(e: Entity): (r: SplitEcs<K, V>)
      requires Valid()
      ensures r.Valid()
      ensures r.lookup == lookup
      ensures forall t :: !r.core.Holds(t, e)
    {
      this.(core := core.Remove(e))
    }

    /** `view<T...>()` as written: through `getSet`, so over `core_ecs`. */
    function View(ts: seq<K>): (res: (SplitEcs<K, V>, seq<Entity>))
      requires Valid() && |ts| > 0
      ensures res.0.Valid() && res.0.core == core
      ensures forall e :: e in res.1 <==> forall i :: 0 <= i < |ts| ==> lookup.Holds(ts[i], e)
    {
      var (l, out) := lookup.View(ts);
      (this.(lookup := l), out)
    }
  }

  /** Both records before any call. */
  function InitSplit<K(==, !new), V>(): (r: SplitEcs<K, V>)
    ensures r.Valid()
    ensures forall t, e :: !r.lookup.Holds(t, e) && !r.core.Holds(t, e)
  {
    SplitEcs(Init(), Init())
  }

  /** As written, `e = create(); emplace<T>(e, c); remove(e); view<T>()` still lists `e`. */
  lemma RemovedEntityStillViewed<K(!new), V>(t: K, c: V)
    ensures var (r1, e) := InitSplit<K, V>().Create();
            var r2 := r1.Emplace(t, e, c).Remove(e);
            e in r2.View([t]).1
  {
    var (r1, e) := InitSplit<K, V>().Create();
    var r2 := r1.Emplace(t, e, c).Remove(e);
    assert r2.lookup.Holds(t, e);
    assert forall i :: 0 <= i < |[t]| ==> r2.lookup.Holds([t][i], e);
  }

  /** With one record, as the merged registry has it, the same calls list nothing. */
  lemma RemovedEntityNotViewed<K(!new), V>(t: K, c: V)
    ensures var (r1, e) := Init<K, V>().Create();
            var r2 := r1.Emplace(t, e, c).Remove(e);
            e !in r2.View([t]).1
  {
    var (r1, e) := Init<K, V>().Create();
    ViewAfterRemove(r1.Emplace(t, e, c), e, [t]);
  }
}
