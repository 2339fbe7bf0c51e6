/**
  Views: the intersection query over a non-empty list of storages.

  The storage with the fewest entities drives the iteration; each of its
  entities is kept, in the driver's dense order, when every storage of the
  view has it.
 */
module Views {
  import opened SparseSet

  /** Every storage of the view is valid. */
  ghost predicate AllValid<C>(sets: seq<Storage<C>>) {
    forall j :: 0 <= j < |sets| ==> sets[j].Valid()
  }

  /** The short-circuit conjunction of `has(e)` over the view's storages, left to right. */
  function AllHave<C>(sets: seq<Storage<C>>, e: Entity): (r: bool)
    ensures r <==> forall j :: 0 <= j < |sets| ==> sets[j].Has(e)
  {
    if |sets| == 0 then true else sets[0].Has(e) && AllHave(sets[1..], e)
  }

  /** The left-to-right scan for the smallest storage: having looked at
      `sets[..j]` with `best` the first smallest among them, look at the rest. */
  function SmallestFrom<C>(sets: seq<Storage<C>>, j: nat, best: nat): (k: nat)
    requires j <= |sets| && best < |sets| && (best < j || best == 0)
    requires forall i :: 0 <= i < best ==> |sets[i].entities| > |sets[best].entities|
    requires forall i :: best <= i < j ==> |sets[best].entities| <= |sets[i].entities|
    decreases |sets| - j
    ensures k < |sets|
    ensures forall i :: 0 <= i < |sets| ==> |sets[k].entities| <= |sets[i].entities|
    ensures forall i :: 0 <= i < k ==> |sets[i].entities| > |sets[k].entities|
  {
    if j == |sets| then best
    else SmallestFrom(sets, j + 1, if |sets[j].entities| < |sets[best].entities| then j else best)
  }

  /** The index of the storage whose entity list `getSmallest` returns: the
      first one among those with the fewest entities. */
  function GetSmallest<C>(sets: seq<Storage<C>>): (k: nat)
    requires |sets| > 0
    ensures k < |sets|
    ensures forall i :: 0 <= i < |sets| ==> |sets[k].entities| <= |sets[i].entities|
    ensures forall i :: 0 <= i < k ==> |sets[i].entities| > |sets[k].entities|
  {
    SmallestFrom(sets, 0, 0)
  }

  /** The driver's entities from slot `i` on that every storage has, in slot order. */
  function KeepFrom<C>(sets: seq<Storage<C>>, base: Storage<C>, i: nat): (out: seq<Entity>)
    requires base.Valid() && i <= |base.entities|
    decreases |base.entities| - i
    ensures |out| <= |base.entities| - i
  {
    if i == |base.entities| then []
    else
      var e := base.entities[i];
      var rest := KeepFrom(sets, base, i + 1);
      if AllHave(sets, e) then [e] + rest else rest
  }

  /** What the scan from slot `i` keeps: the driver's entities at slot `i` or
      later that every storage has, each exactly once, in increasing slot order. */
  lemma KeepFromSpec<C>(sets: seq<Storage<C>>, base: Storage<C>, i: nat)
    requires base.Valid() && i <= |base.entities|
    ensures var out := KeepFrom(sets, base, i);
      && (forall a :: 0 <= a < |out| ==> out[a] in base.connection && base.connection[out[a]] >= i)
      && (forall e :: e in out <==> base.Has(e) && base.connection[e] >= i && AllHave(sets, e))
      && (forall a, b :: 0 <= a < b < |out| ==> base.connection[out[a]] < base.connection[out[b]])
  {
    KeepFromSlots(sets, base, i);
    KeepFromMembers(sets, base, i);
    assert AscendingFrom(base, KeepFrom(sets, base, i), i);
  }

  /** Every element of `out` sits in `base` at slot `i` or later, and slots increase along `out`. */
  ghost predicate AscendingFrom<C>(base: Storage<C>, out: seq<Entity>, i: nat) {
    && (forall a :: 0 <= a < |out| ==> out[a] in base.connection && base.connection[out[a]] >= i)
    && (forall a, b :: 0 <= a < b < |out| ==> base.connection[out[a]] < base.connection[out[b]])
  }

  /** Every kept entity sits in the driver at slot `i` or later, and slots increase. */
  lemma {:induction false} KeepFromSlots<C>(sets: seq<Storage<C>>, base: Storage<C>, i: nat)
    requires base.Valid() && i <= |base.entities|
    decreases |base.entities| - i
    ensures AscendingFrom(base, KeepFrom(sets, base, i), i)
  {
    if i < |base.entities| {
      KeepFromSlots(sets, base, i + 1);
      var e := base.entities[i];
      var rest := KeepFrom(sets, base, i + 1);
      assert base.connection[e] == i;
      if AllHave(sets, e) {
        var out := [e] + rest;
        assert KeepFrom(sets, base, i) == out;
        assert forall a :: 0 < a < |out| ==> out[a] == rest[a - 1];
      } else {
        assert KeepFrom(sets, base, i) == rest;
      }
    }
  }

  /** An entity is kept exactly when it sits in the driver at slot `i` or later
      and every storage has it. */
  lemma {:induction false} KeepFromMembers<C>(sets: seq<Storage<C>>, base: Storage<C>, i: nat)
    requires base.Valid() && i <= |base.entities|
    decreases |base.entities| - i
    ensures forall e :: e in KeepFrom(sets, base, i) <==> base.Has(e) && base.connection[e] >= i && AllHave(sets, e)
  {
    if i < |base.entities| {
      KeepFromMembers(sets, base, i + 1);
    }
  }

  /** `getMatching`: the entities every storage has, in the smallest storage's order. */
  function GetMatching<C>(sets: seq<Storage<C>>): (out: seq<Entity>)
    requires |sets| > 0 && AllValid(sets)
    ensures forall e :: e in out <==> forall j :: 0 <= j < |sets| ==> sets[j].Has(e)
    ensures forall j :: 0 <= j < |sets| ==> |out| <= |sets[j].entities|
    ensures forall a :: 0 <= a < |out| ==> out[a] in sets[GetSmallest(sets)].connection
    ensures forall a, b :: 0 <= a < b < |out| ==>
              sets[GetSmallest(sets)].connection[out[a]] < sets[GetSmallest(sets)].connection[out[b]]
    ensures forall a, b :: 0 <= a < b < |out| ==> out[a] != out[b]
  {
    var base := sets[GetSmallest(sets)];
    KeepFromSpec(sets, base, 0);
    var out := KeepFrom(sets, base, 0);
    assert forall e :: e in out <==> AllHave(sets, e) by {
      forall e ensures e in out <==> AllHave(sets, e) {
        if AllHave(sets, e) {
          assert base.Has(e);
        }
      }
    }
    out
  }

  /** Whichever storage drives the scan, the same entities come out. */
  lemma MatchingIndependentOfDriver<C>(sets: seq<Storage<C>>, d: nat)
    requires |sets| > 0 && AllValid(sets) && d < |sets|
    ensures forall e :: e in KeepFrom(sets, sets[d], 0) <==> e in GetMatching(sets)
  {
    KeepFromSpec(sets, sets[d], 0);
    forall e ensures e in KeepFrom(sets, sets[d], 0) <==> e in GetMatching(sets) {
      if e in GetMatching(sets) {
        assert sets[d].Has(e);
      }
    }
  }

  /** A view over a single storage lists exactly that storage's entities, in order. */
  lemma SingleStorageView<C>(s: Storage<C>)
    requires s.Valid()
    ensures GetMatching([s]) == s.entities
  {
    SingleFrom(s, 0);
  }

  lemma {:induction false} SingleFrom<C>(s: Storage<C>, i: nat)
    requires s.Valid() && i <= |s.entities|
    decreases |s.entities| - i
    ensures KeepFrom([s], s, i) == s.entities[i..]
  {
    if i < |s.entities| {
      SingleStep(s, i);
      SingleFrom(s, i + 1);
      assert s.entities[i..] == [s.entities[i]] + s.entities[i + 1..];
    }
  }

  lemma SingleStep<C>(s: Storage<C>, i: nat)
    requires s.Valid() && i < |s.entities|
    ensures KeepFrom([s], s, i) == [s.entities[i]] + KeepFrom([s], s, i + 1)
  {
    assert [s][0] == s;
    assert AllHave([s], s.entities[i]);
  }
}
