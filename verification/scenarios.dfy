/**
  Concrete runs of the registry and of a storage, stated as lemmas over the
  contracts of the operations.
 */
module Scenarios {
  import opened SparseSet
  import opened Views
  import opened Registry

  datatype ComponentType = Position | Velocity

  lemma HeadIsMember(s: seq<Entity>)
    requires s != []
    ensures s[0] in s
  {
  }

  lemma NoMembersEmpty(s: seq<Entity>)
    requires forall x :: x !in s
    ensures s == []
  {
    if s != [] {
      HeadIsMember(s);
      assert false;
    }
  }

  /** A duplicate-free sequence whose every element is `e`, and which contains `e`, is `[e]`. */
  lemma OnlyElement(out: seq<Entity>, e: Entity)
    requires e in out
    requires forall x :: x in out ==> x == e
    requires forall a, b :: 0 <= a < b < |out| ==> out[a] != out[b]
    ensures out == [e]
  {
    assert out[0] in out;
    var rest := out[1..];
    assert forall k :: 0 <= k < |rest| ==> rest[k] == out[k + 1] && rest[k] != out[0];
    assert e !in rest;
    assert forall x :: x in rest ==> x in out;
    NoMembersEmpty(rest);
    assert out == [out[0]] + out[1..];
  }

  /** Create an entity, give it a position, view positions: the view is that
      entity, and its position is the one given. */
  lemma MainScenario<V>(pos: V)
    ensures var (r1, e1) := Init<ComponentType, V>().Create();
            var r2 := r1.Emplace(Position, e1, pos);
            var (r3, out) := r2.View([Position]);
            && e1 == 0
            && out == [e1]
            && r3.Get(Position, e1) == pos
  {
    var (r1, e1) := Init<ComponentType, V>().Create();
    var r2 := r1.Emplace(Position, e1, pos);
    var (r3, out) := r2.View([Position]);
    assert forall x :: r2.Holds(Position, x) ==> x == e1;
    OnlyElement(out, e1);
  }

  /** Three entities with positions {1, 2} and velocities {2, 3}: the view over
      both types is exactly the second. */
  lemma TwoTypeScenario<V>(p1: V, p2: V, v2: V, v3: V)
    ensures var (r1, e1) := Init<ComponentType, V>().Create();
            var (r2, e2) := r1.Create();
            var (r3, e3) := r2.Create();
            var r4 := r3.Emplace(Position, e1, p1).Emplace(Position, e2, p2)
                        .Emplace(Velocity, e2, v2).Emplace(Velocity, e3, v3);
            r4.View([Position, Velocity]).1 == [e2]
  {
    var (r1, e1) := Init<ComponentType, V>().Create();
    var (r2, e2) := r1.Create();
    var (r3, e3) := r2.Create();
    assert e1 == 0 && e2 == 1 && e3 == 2;
    TwoTypeMembers(r3, p1, p2, v2, v3);
    ViewOfOverlap(r3.Emplace(Position, e1, p1).Emplace(Position, e2, p2)
                    .Emplace(Velocity, e2, v2).Emplace(Velocity, e3, v3));
  }

  lemma TwoTypeMembers<V>(r: Ecs<ComponentType, V>, p1: V, p2: V, v2: V, v3: V)
    requires r.Valid() && forall t, x :: !r.Holds(t, x)
    ensures var d := r.Emplace(Position, 0, p1).Emplace(Position, 1, p2)
                      .Emplace(Velocity, 1, v2).Emplace(Velocity, 2, v3);
            && d.Valid()
            && (forall x: Entity :: d.Holds(Position, x) <==> x == 0 || x == 1)
            && (forall x: Entity :: d.Holds(Velocity, x) <==> x == 1 || x == 2)
  {
    PositionsAdded(r, p1, p2);
    VelocitiesAdded(r.Emplace(Position, 0, p1).Emplace(Position, 1, p2), v2, v3);
  }

  lemma PositionsAdded<V>(r: Ecs<ComponentType, V>, p1: V, p2: V)
    requires r.Valid() && forall t, x :: !r.Holds(t, x)
    ensures var b := r.Emplace(Position, 0, p1).Emplace(Position, 1, p2);
            && b.Valid()
            && (forall x: Entity :: b.Holds(Position, x) <==> x == 0 || x == 1)
            && (forall x: Entity :: !b.Holds(Velocity, x))
  {
  }

  lemma VelocitiesAdded<V>(b: Ecs<ComponentType, V>, v2: V, v3: V)
    requires b.Valid()
    requires forall x: Entity :: b.Holds(Position, x) <==> x == 0 || x == 1
    requires forall x: Entity :: !b.Holds(Velocity, x)
    ensures var d := b.Emplace(Velocity, 1, v2).Emplace(Velocity, 2, v3);
            && d.Valid()
            && (forall x: Entity :: d.Holds(Position, x) <==> x == 0 || x == 1)
            && (forall x: Entity :: d.Holds(Velocity, x) <==> x == 1 || x == 2)
  {
  }

  lemma ViewOfOverlap<V>(r: Ecs<ComponentType, V>)
    requires r.Valid()
    requires forall x: Entity :: r.Holds(Position, x) <==> x == 0 || x == 1
    requires forall x: Entity :: r.Holds(Velocity, x) <==> x == 1 || x == 2
    ensures r.View([Position, Velocity]).1 == [1]
  {
    var ts := [Position, Velocity];
    var out := r.View(ts).1;
    forall x ensures x in out <==> x == 1 {
      assert (forall i :: 0 <= i < |ts| ==> r.Holds(ts[i], x)) <==> r.Holds(Position, x) && r.Holds(Velocity, x);
    }
    OnlyElement(out, 1);
  }

  /** Insert entities 1, 2, 3 and remove 1: entity 3 moves into slot 0 with its
      value, and entity 2 keeps slot 1 and its value. */
  lemma SwapRemoveScenario<C>(a: C, b: C, c: C)
    ensures var s := Empty<C>().Insert(1, a).Insert(2, b).Insert(3, c).Remove(1);
            && s.entities == [3, 2]
            && !s.Has(1)
            && s.Get(3) == c && s.Get(2) == b
  {
    InsertThree(a, b, c);
    RemoveFirstOfThree(Empty<C>().Insert(1, a).Insert(2, b).Insert(3, c), a, b, c);
  }

  lemma InsertThree<C>(a: C, b: C, c: C)
    ensures var s := Empty<C>().Insert(1, a).Insert(2, b).Insert(3, c);
            s.Valid() && s.entities == [1, 2, 3] && s.components == [a, b, c]
  {
    InsertTwo(a, b);
    InsertAfterTwo(Empty<C>().Insert(1, a).Insert(2, b), a, b, c);
  }

  lemma InsertTwo<C>(a: C, b: C)
    ensures var s := Empty<C>().Insert(1, a).Insert(2, b);
            s.Valid() && s.entities == [1, 2] && s.components == [a, b]
  {
    var s1 := Empty<C>().Insert(1, a);
    assert s1.entities == [1] && s1.components == [a];
  }

  lemma InsertAfterTwo<C>(s: Storage<C>, a: C, b: C, c: C)
    requires s.Valid() && s.entities == [1, 2] && s.components == [a, b]
    ensures var r := s.Insert(3, c);
            r.Valid() && r.entities == [1, 2, 3] && r.components == [a, b, c]
  {
    assert !s.Has(3);
  }

  lemma RemoveFirstOfThree<C>(s: Storage<C>, a: C, b: C, c: C)
    requires s.Valid() && s.entities == [1, 2, 3] && s.components == [a, b, c]
    ensures var r := s.Remove(1);
            && r.entities == [3, 2]
            && !r.Has(1)
            && r.Get(3) == c && r.Get(2) == b
  {
    assert s.entities[0] == 1 && s.connection[1] == 0;
    var r := s.Remove(1);
    assert r.entities[0] == 3 && r.components[0] == c;
    assert r.entities[1] == 2 && r.components[1] == b;
  }
}
