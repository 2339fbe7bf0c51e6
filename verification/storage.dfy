/**
  Sparse-set component storage: one instance per component type.

  A storage keeps a dense sequence of entity ids, a parallel dense sequence
  of component values, and a map (the "connection") from each entity that
  owns a component to its slot in the two sequences.  Insertion appends;
  removal moves the last element into the vacated slot and pops.
 */
module SparseSet {

  /** Number of values of the 32-bit `unsigned int` used for entity ids. */
  const ENTITY_LIMIT: int := 0x1_0000_0000

  /** An entity id: a 32-bit unsigned integer. */
  type Entity = e: int | 0 <= e < ENTITY_LIMIT

  datatype Storage<C> = Storage(entities: seq<Entity>, components: seq<C>, connection: map<Entity, nat>)
  {
    /** The invariant every storage keeps: the two dense sequences are parallel,
        every listed entity maps to its own slot, and every mapped entity is
        listed at the slot it maps to. */
    ghost predicate Valid() {
      && |entities| == |components|
      && (forall i :: 0 <= i < |entities| ==> entities[i] in connection && connection[entities[i]] == i)
      && (forall e :: e in connection ==> connection[e] < |entities| && entities[connection[e]] == e)
    }

    /** Membership test through the connection map. */
    function Has(e: Entity): (r: bool)
      ensures Valid() ==> (r <==> e in entities)
    {
      e in connection
    }

    /** The value owned by `e`; only defined when `e` owns one. */
    function Get(e: Entity): (c: C)
      requires Valid() && Has(e)
      ensures forall i :: 0 <= i < |entities| && entities[i] == e ==> components[i] == c
    {
      components[connection[e]]
    }

    /** Attach `c` to `e`, unless `e` already owns a value (first write wins). */
    function Insert(e: Entity, c: C): (r: Storage<C>)
      requires Valid()
      ensures r.Valid()
      ensures r.Has(e)
      ensures Has(e) ==> r == this
      ensures !Has(e) ==> r.entities == entities + [e] && r.components == components + [c]
      ensures !Has(e) ==> r.connection[e] == |entities| && r.Get(e) == c
      ensures forall x :: x != e ==> (r.Has(x) <==> Has(x))
      ensures forall x :: x != e && Has(x) ==> r.Has(x) && r.connection[x] == connection[x] && r.Get(x) == Get(x)
    {
      if Has(e) then this
      else Storage(entities + [e], components + [c], connection[e := |components|])
    }

    /** Detach `e`'s value by swapping it with the last slot and popping. */
    function Remove(e: Entity): (r: Storage<C>)
      requires Valid()
      ensures r.Valid()
      ensures !r.Has(e)
      ensures !Has(e) ==> r == this
      ensures Has(e) ==> |r.entities| == |entities| - 1
      ensures Has(e) && connection[e] < |entities| - 1 ==>
                && r.entities[connection[e]] == entities[|entities| - 1]
                && r.components[connection[e]] == components[|entities| - 1]
      ensures Has(e) ==> forall j :: 0 <= j < |r.entities| && j != connection[e] ==>
                r.entities[j] == entities[j] && r.components[j] == components[j]
      ensures forall x :: x != e ==> (r.Has(x) <==> Has(x))
      ensures forall x :: x != e && Has(x) ==> r.Get(x) == Get(x)
    {
      if !Has(e) then this
      else
        var index := connection[e];
        var last := |entities| - 1;
        var ents := entities[index := entities[last]][last := entities[index]];
        var comps := components[index := components[last]][last := components[index]];
        var conn := connection[ents[index] := index];
        Storage(ents[..last], comps[..last], conn - {e})
    }
  }

  /** A freshly constructed storage. */
  function Empty<C>(): (s: Storage<C>)
    ensures s.Valid()
    ensures |s.entities| == 0
    ensures forall e :: !s.Has(e)
  {
    Storage([], [], map[])
  }

  /** No entity id occurs twice in a valid storage. */
  lemma ValidNoDuplicates<C>(s: Storage<C>)
    requires s.Valid()
    ensures forall i, j :: 0 <= i < j < |s.entities| ==> s.entities[i] != s.entities[j]
  {
  }

  /** A second insert for the same entity is ignored: the first value stays. */
  lemma InsertKeepsFirst<C>(s: Storage<C>, e: Entity, v1: C, v2: C)
    requires s.Valid()
    ensures s.Insert(e, v1).Insert(e, v2) == s.Insert(e, v1)
    ensures s.Insert(e, v1).Insert(e, v2).Get(e) == (if s.Has(e) then s.Get(e) else v1)
  {
  }

  /** Removing twice is the same as removing once. */
  lemma RemoveIdempotent<C>(s: Storage<C>, e: Entity)
    requires s.Valid()
    ensures s.Remove(e).Remove(e) == s.Remove(e)
  {
  }

  /** Inserting a new entity and then removing it restores the storage exactly. */
  lemma InsertThenRemove<C>(s: Storage<C>, e: Entity, c: C)
    requires s.Valid() && !s.Has(e)
    ensures s.Insert(e, c).Remove(e) == s
  {
    var t := s.Insert(e, c);
    var last := |s.entities|;
    assert t.connection[e] == last;
    var ents := t.entities[last := t.entities[last]][last := t.entities[last]];
    assert ents == t.entities;
    assert ents[..last] == s.entities;
    var comps := t.components[last := t.components[last]][last := t.components[last]];
    assert comps == t.components;
    assert comps[..last] == s.components;
    assert t.connection[ents[last] := last] - {e} == s.connection;
  }
}
