/**
  The registry: the id counter, the table from component type to its
  storage, the ordered list of systems, and a log of system invocations.

  Component types are tokens of a type `K`; every storage of the table holds
  payloads of one opaque type `V`.  Looking up a storage creates it when the
  type is seen for the first time, so `has`, `get` and `view` return the
  registry as it is after that lazy registration.
 */
module Registry {
  import opened SparseSet
  import opened Views

  /** A registered system, identified by a token. */
  type SystemId = nat

  datatype Ecs<K(==, !new), V> = Ecs(nextEntity: Entity, sets: map<K, Storage<V>>, systems: seq<SystemId>, trace: seq<SystemId>)
  {
    /** Every registered storage keeps the sparse-set invariant. */
    ghost predicate Valid() {
      forall t :: t in sets ==> sets[t].Valid()
    }

    /** Entity `e` owns a component of type `t`. */
    predicate Holds(t: K, e: Entity) {
      t in sets && sets[t].Has(e)
    }

    /** `getSet<T>()`: the storage for `t`, registered empty on first use. */
    function GetSet(t: K): (res: (Ecs<K, V>, Storage<V>))
      requires Valid()
      ensures res.0.Valid() && res.1.Valid()
      ensures t in res.0.sets && res.0.sets[t] == res.1
      ensures t in sets ==> res.0 == this && res.1 == sets[t]
      ensures t !in sets ==> |res.1.entities| == 0 && res.0 == this.(sets := sets[t := res.1])
      ensures forall u, e :: res.0.Holds(u, e) <==> Holds(u, e)
    {
      if t in sets then (this, sets[t])
      else
        var s := Empty<V>();
        (this.(sets := sets[t := s]), s)
    }

    /** `emplace<T>(e, c)`: insert into the storage for `t`; a no-op when `e` already owns one. */
    function Emplace(t: K, e: Entity, c: V): (r: Ecs<K, V>)
      requires Valid()
      ensures r.Valid()
      ensures forall u, x :: r.Holds(u, x) <==> Holds(u, x) || (u == t && x == e)
      ensures Holds(t, e) ==> r == this
      ensures !Holds(t, e) ==> r.Get(t, e) == c
      ensures forall u, x :: (u != t || x != e) && Holds(u, x) ==> r.Get(u, x) == Get(u, x)
      ensures r.nextEntity == nextEntity && r.systems == systems && r.trace == trace
    {
      var (reg, s) := GetSet(t);
      reg.(sets := reg.sets[t := s.Insert(e, c)])
    }

    /** `get<T>(e)`: the value `e` owns in the storage for `t`. */
    function Get(t: K, e: Entity): (c: V)
      requires Valid() && Holds(t, e)
      ensures forall i :: 0 <= i < |sets[t].entities| && sets[t].entities[i] == e ==> sets[t].components[i] == c
    {
      GetSet(t).1.Get(e)
    }

    /** `has<T>(e)`: membership, after registering the storage for `t` if need be. */
    function Has(t: K, e: Entity): (res: (Ecs<K, V>, bool))
      requires Valid()
      ensures res.0.Valid() && t in res.0.sets
      ensures res.1 <==> Holds(t, e)
      ensures forall u, x :: res.0.Holds(u, x) <==> Holds(u, x)
      ensures forall u :: u in sets ==> u in res.0.sets && res.0.sets[u] == sets[u]
      ensures res.0.nextEntity == nextEntity && res.0.systems == systems && res.0.trace == trace
    {
      var (reg, s) := GetSet(t);
      (reg, s.Has(e))
    }

    /** `getSet` for each type in turn. */
    function RegisterAll(ts: seq<K>): (r: Ecs<K, V>)
      requires Valid()
      decreases |ts|
      ensures r.Valid()
      ensures forall i :: 0 <= i < |ts| ==> ts[i] in r.sets
      ensures forall t :: t in sets ==> t in r.sets && r.sets[t] == sets[t]
      ensures forall t :: t in r.sets && t !in sets ==> |r.sets[t].entities| == 0
      ensures forall u, x :: r.Holds(u, x) <==> Holds(u, x)
      ensures r.nextEntity == nextEntity && r.systems == systems && r.trace == trace
    {
      if |ts| == 0 then this else GetSet(ts[0]).0.RegisterAll(ts[1..])
    }

    /** The storages for `ts`, in the order of `ts`. */
    function StoragesOf(ts: seq<K>): (ss: seq<Storage<V>>)
      requires forall i :: 0 <= i < |ts| ==> ts[i] in sets
      ensures |ss| == |ts| && forall i :: 0 <= i < |ts| ==> ss[i] == sets[ts[i]]
    {
      seq(|ts|, i requires 0 <= i < |ts| => sets[ts[i]])
    }

    /** `view<T...>()`: the entities owning a component of every type in `ts`. */
    function View(ts: seq<K>): (res: (Ecs<K, V>, seq<Entity>))
      requires Valid() && |ts| > 0
      ensures res.0.Valid()
      ensures forall i :: 0 <= i < |ts| ==> ts[i] in res.0.sets
      ensures forall u, x :: res.0.Holds(u, x) <==> Holds(u, x)
      ensures forall u :: u in sets ==> u in res.0.sets && res.0.sets[u] == sets[u]
      ensures res.0.nextEntity == nextEntity && res.0.systems == systems && res.0.trace == trace
      ensures forall e :: e in res.1 <==> forall i :: 0 <= i < |ts| ==> Holds(ts[i], e)
      ensures forall i :: 0 <= i < |ts| ==> |res.1| <= |res.0.sets[ts[i]].entities|
      ensures forall a, b :: 0 <= a < b < |res.1| ==> res.1[a] != res.1[b]
    {
      var reg := RegisterAll(ts);
      StoragesOfHave(reg, ts);
      (reg, GetMatching(reg.StoragesOf(ts)))
    }

    /** `create()`: hand out the counter and advance it, wrapping at 2^32. */
    function Create(): (res: (Ecs<K, V>, Entity))
      ensures res.1 == nextEntity
      ensures nextEntity + 1 < ENTITY_LIMIT ==> res.0.nextEntity == nextEntity + 1
      ensures nextEntity + 1 == ENTITY_LIMIT ==> res.0.nextEntity == 0
      ensures res.0.sets == sets && res.0.systems == systems && res.0.trace == trace
    {
      (this.(nextEntity := (nextEntity + 1) % ENTITY_LIMIT), nextEntity)
    }

    /** `n` successive calls of `create()`. */
    function CreateMany(n: nat): (res: (Ecs<K, V>, seq<Entity>))
      decreases n
      ensures |res.1| == n
      ensures res.0.sets == sets && res.0.systems == systems && res.0.trace == trace
    {
      if n == 0 then (this, [])
      else
        var (reg, e) := Create();
        var (last, es) := reg.CreateMany(n - 1);
        (last, [e] + es)
    }

    /** `remove(e)`: take `e` out of every registered storage that has it. */
    function Remove(e: Entity): (r: Ecs<K, V>)
      requires Valid()
      ensures r.Valid()
      ensures r.sets.Keys == sets.Keys
      ensures forall t :: !r.Holds(t, e)
      ensures forall t, x :: x != e ==> (r.Holds(t, x) <==> Holds(t, x))
      ensures forall t, x :: x != e && Holds(t, x) ==> r.Get(t, x) == Get(t, x)
      ensures (forall t :: !Holds(t, e)) ==> r == this
      ensures r.nextEntity == nextEntity && r.systems == systems && r.trace == trace
    {
      var r := this.(sets := RemoveEach(sets, e));
      assert (forall t :: !Holds(t, e)) ==> r.sets == sets by {
        if (forall t :: !Holds(t, e)) {
          forall t | t in sets ensures r.sets[t] == sets[t] {
            assert !Holds(t, e);
          }
        }
      }
      r
    }

    /** `addSystem(s)`: register `s` after every system registered so far. */
    function AddSystem(s: SystemId): (r: Ecs<K, V>)
      ensures |r.systems| == |systems| + 1 && r.systems[|systems|] == s
      ensures r.systems[..|systems|] == systems
      ensures r.nextEntity == nextEntity && r.sets == sets && r.trace == trace
    {
      this.(systems := systems + [s])
    }

    /** `update()`: run every registered system once, in registration order.
        `step(s, r)` is what system `s` does to the registry. */
    function Update(step: (SystemId, Ecs<K, V>) -> Ecs<K, V>): (r: Ecs<K, V>)
      ensures r.systems == systems
      ensures r.trace == trace + systems
    {
      RunSystems(this, systems, step)
    }
  }

  /** The loop of `remove(e)`: each storage that has `e` drops it; the others
      are left as they are, which is what dropping an absent entity does anyway. */
  function RemoveEach<K(==, !new), V>(sets: map<K, Storage<V>>, e: Entity): (m: map<K, Storage<V>>)
    requires forall t :: t in sets ==> sets[t].Valid()
    ensures m.Keys == sets.Keys
    ensures forall t :: t in m ==> m[t] == sets[t].Remove(e)
  {
    map t | t in sets :: if sets[t].Has(e) then sets[t].Remove(e) else sets[t]
  }

  /** The `j`-th storage of a view has `e` exactly when `e` owns the view's `j`-th type. */
  lemma StoragesOfHave<K(!new), V>(r: Ecs<K, V>, ts: seq<K>)
    requires forall i :: 0 <= i < |ts| ==> ts[i] in r.sets
    ensures |r.StoragesOf(ts)| == |ts|
    ensures forall e, j :: 0 <= j < |ts| ==> (r.StoragesOf(ts)[j].Has(e) <==> r.Holds(ts[j], e))
  {
  }

  /** Run the `pending` systems in order, logging each invocation. The list of
      registered systems is the one `update` started with. */
  function RunSystems<K(==, !new), V>(r: Ecs<K, V>, pending: seq<SystemId>,
                                step: (SystemId, Ecs<K, V>) -> Ecs<K, V>): (out: Ecs<K, V>)
    decreases |pending|
    ensures out.systems == r.systems
    ensures out.trace == r.trace + pending
  {
    if |pending| == 0 then r
    else
      var after := step(pending[0], r).(systems := r.systems, trace := r.trace + [pending[0]]);
      RunSystems(after, pending[1..], step)
  }

  /** The registry before any call. */
  function Init<K(==, !new), V>(): (r: Ecs<K, V>)
    ensures r.Valid()
    ensures r.nextEntity == 0 && |r.systems| == 0 && |r.trace| == 0
    ensures forall t, e :: !r.Holds(t, e)
  {
    Ecs(0, map[], [], [])
  }

  /** Seen as a relation between types and entities, emplace adds exactly the pair it is given. */
  lemma EmplaceAdds<K(!new), V>(r: Ecs<K, V>, t: K, e: Entity, c: V, owned: set<(K, Entity)>)
    requires r.Valid()
    requires forall u, x: Entity :: r.Holds(u, x) <==> (u, x) in owned
    ensures r.Emplace(t, e, c).Valid()
    ensures forall u, x: Entity :: r.Emplace(t, e, c).Holds(u, x) <==> (u, x) in owned + {(t, e)}
  {
  }

  /** A later lookup of the same type finds the storage the first one registered. */
  lemma GetSetStable<K(!new), V>(r: Ecs<K, V>, t: K)
    requires r.Valid()
    ensures r.GetSet(t).0.GetSet(t) == r.GetSet(t)
  {
  }

  /** Up to the last id, `n` creates hand out `next, next+1, ...`; the counter is
      `next + n` unless that run ended on 2^32-1. */
  lemma {:induction false} CreateManyIncreasing<K(!new), V>(r: Ecs<K, V>, n: nat)
    decreases n
    requires r.nextEntity + n <= ENTITY_LIMIT
    ensures forall i :: 0 <= i < n ==> r.CreateMany(n).1[i] == r.nextEntity + i
    ensures r.nextEntity + n < ENTITY_LIMIT ==> r.CreateMany(n).0.nextEntity == r.nextEntity + n
  {
    if n > 0 {
      var (reg, e) := r.Create();
      CreateManyIncreasing(reg, n - 1);
      var es := reg.CreateMany(n - 1).1;
      assert r.CreateMany(n).1 == [e] + es;
    }
  }

  /** Hence ids are strictly increasing, and so never repeat, up to the last id. */
  lemma CreateManyDistinct<K(!new), V>(r: Ecs<K, V>, n: nat)
    requires r.nextEntity + n <= ENTITY_LIMIT
    ensures forall i, j :: 0 <= i < j < n ==> r.CreateMany(n).1[i] < r.CreateMany(n).1[j]
  {
    CreateManyIncreasing(r, n);
  }

  /** From the initial registry, all 2^32 ids handed out before the wrap are distinct. */
  lemma InitIdsDistinct<K(!new), V>()
    ensures var ids := Init<K, V>().CreateMany(ENTITY_LIMIT).1;
            forall i, j :: 0 <= i < j < ENTITY_LIMIT ==> ids[i] != ids[j]
  {
    CreateManyDistinct(Init<K, V>(), ENTITY_LIMIT);
  }

  /** In general the counter advances by `n` modulo 2^32. */
  lemma {:induction false} CreateManyCounter<K(!new), V>(r: Ecs<K, V>, n: nat)
    decreases n
    ensures r.CreateMany(n).0.nextEntity == (r.nextEntity + n) % ENTITY_LIMIT
  {
    if n > 0 {
      var reg := r.Create().0;
      CreateManyCounter(reg, n - 1);
      assert reg.nextEntity == (r.nextEntity + 1) % ENTITY_LIMIT;
      ModSucc(r.nextEntity + 1, n - 1);
    }
  }

  lemma ModSucc(a: nat, m: nat)
    ensures (a % ENTITY_LIMIT + m) % ENTITY_LIMIT == (a + m) % ENTITY_LIMIT
  {
  }

  /** After 2^32 creates the counter is back where it started, so the next
      `create()` returns the id the first of them returned. */
  lemma CreateWrapsAround<K(!new), V>(r: Ecs<K, V>)
    ensures r.CreateMany(ENTITY_LIMIT).0.Create().1 == r.CreateMany(ENTITY_LIMIT).1[0]
  {
    CreateManyCounter(r, ENTITY_LIMIT);
    CreateManyHead(r, ENTITY_LIMIT);
    assert (r.nextEntity + ENTITY_LIMIT) % ENTITY_LIMIT == r.nextEntity;
  }

  lemma CreateManyHead<K(!new), V>(r: Ecs<K, V>, n: nat)
    requires n > 0
    ensures r.CreateMany(n).1[0] == r.nextEntity
  {
    var (reg, e) := r.Create();
    assert r.CreateMany(n).1 == [e] + reg.CreateMany(n - 1).1;
  }

  /** After `remove(e)` a view over any types no longer lists `e`. */
  lemma ViewAfterRemove<K(!new), V>(r: Ecs<K, V>, e: Entity, ts: seq<K>)
    requires r.Valid() && |ts| > 0
    ensures e !in r.Remove(e).View(ts).1
  {
    var r1 := r.Remove(e);
    assert !r1.Holds(ts[0], e);
  }

  /** Running one system applies its step to the registry as it stands and logs it. */
  lemma RunSystemsOne<K(!new), V>(r: Ecs<K, V>, s: SystemId, step: (SystemId, Ecs<K, V>) -> Ecs<K, V>)
    ensures RunSystems(r, [s], step) == step(s, r).(systems := r.systems, trace := r.trace + [s])
  {
    var after := step(s, r).(systems := r.systems, trace := r.trace + [s]);
    assert [s][1..] == [];
    assert RunSystems(r, [s], step) == RunSystems(after, [], step);
  }

  /** Running `p` then `q` is running `p + q`: each system sees the registry the
      systems before it left behind. */
  lemma {:induction false} RunSystemsAppend<K(!new), V>(r: Ecs<K, V>, p: seq<SystemId>, q: seq<SystemId>,
                                                      step: (SystemId, Ecs<K, V>) -> Ecs<K, V>)
    decreases |p|
    ensures RunSystems(r, p + q, step) == RunSystems(RunSystems(r, p, step), q, step)
  {
    if |p| == 0 {
      assert p + q == q;
    } else {
      var after := step(p[0], r).(systems := r.systems, trace := r.trace + [p[0]]);
      RunSystemsAppend(after, p[1..], q, step);
      assert (p + q)[0] == p[0];
      assert (p + q)[1..] == p[1..] + q;
    }
  }

  /** Systems that keep the storages valid leave a valid registry behind. */
  lemma {:induction false} RunSystemsValid<K(!new), V>(r: Ecs<K, V>, p: seq<SystemId>,
                                                     step: (SystemId, Ecs<K, V>) -> Ecs<K, V>)
    requires r.Valid()
    requires forall s, x: Ecs<K, V> :: x.Valid() ==> step(s, x).Valid()
    decreases |p|
    ensures RunSystems(r, p, step).Valid()
  {
    if |p| > 0 {
      var after := step(p[0], r).(systems := r.systems, trace := r.trace + [p[0]]);
      assert after.Valid();
      RunSystemsValid(after, p[1..], step);
    }
  }

  /** After an update with such systems the registry can be used again. */
  lemma UpdateKeepsValid<K(!new), V>(r: Ecs<K, V>, step: (SystemId, Ecs<K, V>) -> Ecs<K, V>)
    requires r.Valid()
    requires forall s, x: Ecs<K, V> :: x.Valid() ==> step(s, x).Valid()
    ensures r.Update(step).Valid()
  {
    RunSystemsValid(r, r.systems, step);
  }

  /** `update()` twice runs every system twice, the first pass entirely before the second. */
  lemma UpdateTwice<K(!new), V>(r: Ecs<K, V>, step: (SystemId, Ecs<K, V>) -> Ecs<K, V>)
    ensures r.Update(step).Update(step).trace == r.trace + r.systems + r.systems
  {
  }
}
