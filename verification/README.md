# Mocha ECS and key-state model

A Dafny model of the entity-component-system core of the Mocha engine and of
its keyboard edge detection.

- `storage.dfy` (module `SparseSet`) models `ComponentSet<Component>`. This
  class is duplicated as `ComponentStorage<T>` in `ecs_test.cpp`. A storage is
  a dense list of entity ids, a parallel dense list of component values, and
  the "connection" map from entity to slot. `Valid()` is the invariant tying
  the three together. Insert appends, and ignores an entity that already has a
  value. Remove swaps the entry with the last slot, pops it and erases the
  entity from the map.
- `view.dfy` (module `Views`) models `View<...>::getSmallest` and
  `getMatching`. The first storage with the fewest entities drives the scan.
  Each of its entities is kept, in slot order, when every storage of the view
  has it.
- `registry.dfy` (module `Registry`) models the global ECS state and its free
  functions:
  - `getSet` registers an empty storage the first time a type is looked up;
  - `emplace`, `get`, `has` and `view` go through `getSet`;
  - `create` hands out the counter;
  - `remove` takes an entity out of every storage;
  - `addSystem` and `update` keep the system list.

  Component types are tokens of a type `K`, and every storage holds values of
  one type `V`. A system is an id. What a system does to the registry is a
  function `step` supplied by the caller. Every invocation is appended to a
  trace.
- `input.dfy` (module `Input`) models the key-state queries. Each key has a
  current and a previous flag. `keyCallback` shifts current into previous and
  records the new action. `KeyCallbackAsWritten` is the callback as written.
  `KeyCallback` is the corrected one, which keeps a repeated key down (see
  Findings).
- `split.dfy` (module `SplitRegistry`) models the registry state as the
  sources spell it. `getSet`, and so `emplace` and `view`, works on the record
  `core_ecs` (src/ecs.hpp:118). `create` and `remove` work on `core.ecs`, a
  field of the global `Core` (src/core.hpp:51-55). The module shows that, as
  written, `remove` misses the storages `emplace` filled (see Findings). The
  rest of the model uses the single record of `Registry`.
- `scenarios.dfy` (module `Scenarios`) holds concrete runs:
  - the `main` of `ecs_test.cpp`;
  - a two-type view;
  - the swap-remove example.

`get` on an entity that owns no value would index with a map slot that
`operator[]` has just created. The model therefore requires the entity to be
present. The key queries index the state arrays before their bound check
runs, so they require `0 <= key < MAX_KEYS`.

## Model

| member | source | states |
|---|---|---|
| SparseSet.Storage.Has | src/ecs.hpp:32-35 | for a valid storage, lookup through the connection map is membership in the dense entity list |
| SparseSet.Storage.Get | src/ecs.hpp:61-64 | the value returned is the one in the entity's own slot |
| SparseSet.Storage.Insert | src/ecs.hpp:37-43 | keeps the invariant. If the entity is present, nothing changes. Otherwise the entity and the value are appended at the new last slot, and `get` returns the value. Every other entity keeps its membership, slot and value |
| SparseSet.Storage.Remove | src/ecs.hpp:45-59 | keeps the invariant, and the entity is gone afterwards. Absent: nothing changes. Present: the size drops by one, the former last entry moves into the freed slot with its value, and other slots stay as they were. Every other entity keeps its membership and value |
| SparseSet.Empty | src/ecs.hpp:126-129 | a new storage is valid and has no entity |
| SparseSet.ValidNoDuplicates | src/ecs.hpp:72-74 | no entity id occurs twice in a valid storage |
| SparseSet.InsertKeepsFirst | src/ecs.hpp:37-39 | a second insert for the same entity is ignored, so the first value stays |
| SparseSet.RemoveIdempotent | src/ecs.hpp:45-47 | removing twice equals removing once |
| SparseSet.InsertThenRemove | src/ecs.hpp:37-59 | inserting a new entity and then removing it gives back exactly the original storage |
| Views.AllHave | src/ecs.hpp:90 | the fold of `has` is true exactly when every storage of the view has the entity |
| Views.SmallestFrom | src/ecs.hpp:104-106 | the fold with strict `<` ends on a storage no larger than any other, and every earlier storage is strictly larger |
| Views.GetSmallest | src/ecs.hpp:102-109 | the driver is the first storage among those with the fewest entities |
| Views.KeepFrom | src/ecs.hpp:88-94 | the scan from slot `i` keeps at most as many entities as the driver has from slot `i` on. What it keeps is stated by `Views.KeepFromSpec` |
| Views.KeepFromSpec | src/ecs.hpp:88-94 | the scan from slot `i` keeps exactly the driver entities at slot `i` or later that every storage has, each once, in increasing slot order |
| Views.KeepFromSlots | src/ecs.hpp:88-94 | every kept entity sits in the driver at slot `i` or later, and slots increase along the result |
| Views.KeepFromMembers | src/ecs.hpp:88-94 | an entity is kept exactly when it is in the driver from slot `i` on and every storage has it |
| Views.GetMatching | src/ecs.hpp:83-97 | the result is exactly the intersection of the storages. It is no longer than any storage, follows the driver's dense order and has no duplicates |
| Views.MatchingIndependentOfDriver | src/ecs.hpp:83-109 | scanning any storage of the view instead of the smallest yields the same set of entities |
| Views.SingleStorageView | src/ecs.hpp:83-97 | a view over a single storage lists exactly its entities, in order |
| Registry.Ecs.GetSet | src/ecs.hpp:122-132 | a known type yields its storage and an unchanged registry. An unknown type gets an empty storage registered under it, and nothing else changes. Ownership is unchanged either way |
| Registry.GetSetStable | src/ecs.hpp:122-132 | a second lookup of the same type returns the storage the first one registered, and changes nothing |
| Registry.Ecs.Emplace | src/ecs.hpp:134-138 | the ownership relation gains exactly (type, entity). An existing owner keeps everything. A new pair gets the value. All other values and the other fields are unchanged |
| Registry.EmplaceAdds | src/ecs.hpp:134-138 | as a set of (type, entity) pairs, emplace adds exactly the pair it is given |
| Registry.Ecs.Get | src/ecs.hpp:140-144 | the value is the one in the entity's slot of that type's storage |
| Registry.Ecs.Has | src/ecs.hpp:146-150 | the answer is ownership. The type is registered afterwards, and nothing else changes: existing storages, ownership, the counter, the systems and the trace stay as they were |
| Registry.Ecs.RegisterAll | src/ecs.hpp:155 | every type of the view is registered. Existing storages are untouched, new ones are empty, and ownership is unchanged |
| Registry.Ecs.View | src/ecs.hpp:152-156 | the entities listed are exactly those owning every type of the view. The list has no duplicates and is no longer than any of the storages. The view's types are registered afterwards, and nothing else changes: existing storages, ownership, the counter, the systems and the trace stay as they were |
| Registry.Ecs.Create | src/ecs.cpp:8-11 | returns the counter and advances it by one, wrapping from 2^32-1 to 0. The storages and systems are unchanged |
| Registry.Ecs.CreateMany | src/ecs.cpp:8-11 | `n` creates hand out `n` ids and touch nothing but the counter |
| Registry.CreateManyIncreasing | src/ecs.cpp:8-11 | while `next+n <= 2^32`, `n` creates hand out `next, next+1, ..., next+n-1`. The counter ends at `next+n` unless the run ended on id 2^32-1 |
| Registry.CreateManyDistinct | src/ecs.cpp:8-11 | while `next+n <= 2^32`, successive ids are strictly increasing, so none repeats |
| Registry.InitIdsDistinct | src/ecs.cpp:8-11 | from the initial registry, the 2^32 ids handed out before the counter wraps are pairwise distinct |
| Registry.CreateManyCounter | src/ecs.cpp:8-11 | after `n` creates the counter is `(next+n) mod 2^32` |
| Registry.CreateWrapsAround | src/ecs.cpp:8-11 | after 2^32 creates, `create` returns the first id again |
| Registry.RemoveEach | src/ecs.cpp:15-22 | the loop leaves the same set of types, and each storage becomes that storage with the entity removed |
| Registry.Ecs.Remove | src/ecs.cpp:13-23 | no storage has the entity afterwards. Every other entity keeps its memberships and values, and the set of registered types is unchanged. An entity with no components leaves the registry unchanged |
| Registry.ViewAfterRemove | src/ecs.cpp:13-23 | after `remove(e)` no view lists `e` |
| Registry.Ecs.AddSystem | src/ecs.cpp:25-28 | the system is appended at the end, and earlier entries and all other fields are unchanged |
| Registry.RunSystems | src/ecs.cpp:32-35 | running the pending systems logs each one once, in order, and leaves the system list as it was |
| Registry.Ecs.Update | src/ecs.cpp:30-36 | one update appends every registered system to the trace once, in registration order, and keeps the system list |
| Registry.RunSystemsOne | src/ecs.cpp:32-35 | running one system applies its step to the registry as it stands, then logs the system |
| Registry.RunSystemsAppend | src/ecs.cpp:32-35 | running `p` and then `q` is running `p + q`, so each system sees the registry that the systems before it left |
| Registry.RunSystemsValid | src/ecs.cpp:32-35 | systems whose steps keep every storage valid leave a valid registry |
| Registry.UpdateKeepsValid | src/ecs.cpp:30-36 | after an update with such systems, the registry is valid and can be used again |
| Registry.UpdateTwice | src/ecs.cpp:30-36 | two updates run all systems of the first pass before any of the second |
| Registry.Init | src/ecs.hpp:112-116 | the initial registry is valid, owns nothing, and has counter 0, no systems and an empty trace |
| Input.CheckKeyOutOfBounds | src/input.cpp:9-17 | every key that indexes the state arrays passes. The out-of-range keys that also pass are exactly the negative ones and MAX_KEYS itself |
| Input.KeyInBounds | src/core.hpp:6 | a key is in bounds exactly when `0 <= key < MAX_KEYS`, and every such key passes the check as written |
| Input.BoundsCheckAdmitsOutOfRange | src/input.cpp:11 | the check as written accepts MAX_KEYS and -1, neither of which indexes the state arrays |
| Input.Keys.KeyPressed | src/input.cpp:19-24 | pressed exactly when the key is down now and was up before |
| Input.Keys.KeyDown | src/input.cpp:26-30 | down exactly when the current flag is set |
| Input.Keys.KeyReleased | src/input.cpp:32-37 | released exactly when the key is up now and was down before |
| Input.Keys.KeyUp | src/input.cpp:39-43 | up exactly when the current flag is clear |
| Input.Keys.GetKeyState | src/input.cpp:45-51 | the result is Pressed, Down, Released or Up exactly for the four combinations of current and previous |
| Input.DownXorUp | src/input.cpp:26-43 | exactly one of down and up holds |
| Input.EdgesImplyLevels | src/input.cpp:19-37 | a press is a down, and a release is an up |
| Input.Keys.KeyCallbackAsWritten | src/window.cpp:116-120 | as written: previous takes the old current, and current is set exactly for GLFW_PRESS. No other key changes |
| Input.CallbackThenState | src/window.cpp:116-120 | after the corrected callback, the state is fixed by the key's old current flag and whether the action is a release: Pressed, Down, Released or Up |
| Input.RepeatReadsAsReleased | src/window.cpp:119 | as written, a press followed by a GLFW_REPEAT reads as Released |
| Input.Keys.KeyCallback | src/window.cpp:116-120 | corrected callback, defined for every key GLFW passes. For a key with a slot, previous takes the old current, and current is set for every action except GLFW_RELEASE. A key without a slot changes nothing. No other key changes |
| Input.UnknownKeyHasNoSlot | src/window.cpp:118-119 | GLFW_KEY_UNKNOWN (-1) has no slot in the state arrays, and the corrected callback leaves the state unchanged for it |
| Input.HeldCallbackKeepsDown | src/window.cpp:116-120 | with the corrected callback a repeat keeps a held key Down. For press and release it agrees with the callback as written |
| SplitRegistry.SplitEcs.Create | src/ecs.cpp:8-11 | as written: returns the counter of `core.ecs` and leaves both tables as they are |
| SplitRegistry.SplitEcs.Emplace | src/ecs.hpp:134-138 | as written: ownership in `core_ecs` gains exactly (type, entity), and `core.ecs` is untouched |
| SplitRegistry.SplitEcs.Remove | src/ecs.cpp:13-23 | as written: no storage of `core.ecs` has the entity afterwards, and `core_ecs` is untouched |
| SplitRegistry.SplitEcs.View | src/ecs.hpp:152-156 | as written: lists exactly the entities owning every type in `core_ecs`, and `core.ecs` is untouched |
| SplitRegistry.InitSplit | src/ecs.hpp:112-118 | both records start valid and own nothing |
| SplitRegistry.RemovedEntityStillViewed | src/ecs.cpp:15 | as written, `e = create(); emplace(e, c); remove(e); view()` still lists `e` |
| SplitRegistry.RemovedEntityNotViewed | src/ecs.cpp:13-23 | with the single table, the same calls do not list `e` |
| Scenarios.MainScenario | ecs_test.cpp:143-153 | after create and emplace of a position, the first id is 0, the position view is exactly that entity, and `get` returns the position |
| Scenarios.TwoTypeScenario | src/ecs.hpp:152-156 | with positions on entities 0 and 1 and velocities on 1 and 2, the two-type view is exactly `[1]` |
| Scenarios.SwapRemoveScenario | ecs_test.cpp:25-39 | after inserting 1, 2, 3 and removing 1, the entities are `[3, 2]`. Entity 3 keeps its value in slot 0, and entity 2 keeps its value |

## Left out

- Window, drawing, resource loading, logging and the concrete systems are not
  part of this model. They are GLFW/OpenGL calls, file I/O and printing.
- The error message printed by `checkKeyOutOfBounds` is output only and is
  not modelled.
- C++ type erasure is not modelled: `std::type_index` keys, `void*` storage,
  and the cast to `ComponentSet<std::any>*` in `remove`. Component types are
  tokens, and one value type `V` stands for all components.
- Storage-level `get` returns a mutable reference. Writes through it are not
  modelled. The registry-level `get` in `src/ecs.hpp` returns a copy.
- The iteration order of the `unordered_map` in `remove` is not modelled. Each
  storage's removal touches only that storage, so the order cannot matter.
- Systems that call `addSystem` during `update` are not modelled. Appending
  to the vector inside its range-for is undefined behaviour in C++. `update`
  therefore runs the list it started with.
- The signed `int` slot values of the connection map are modelled as `nat`.
  Overflow would need 2^31 entities in one storage.
- The copies in `ecs_test.cpp` are not modelled separately. `ComponentStorage`
  (lines 8-55), its `View` (lines 57-90) and `create` (lines 97-100) do the
  same thing as `ComponentSet`, `View` and `create` in `src/ecs.hpp` and
  `src/ecs.cpp`, step for step, so one model covers both.
- `ecs_test.cpp` declares `get` as returning a reference and `view` as
  returning the `View` object. The model follows `src/ecs.hpp`, where `view`
  returns the matching list directly.
- Registry.Ecs.Remove: the registry keeps one table. In the sources, `getSet`
  uses `core_ecs` (src/ecs.hpp:118-131) and `remove` uses `core.ecs`
  (src/ecs.cpp:15). The single table is taken as the evident intent. The
  as-written split is modelled in `SplitRegistry` and listed under Findings.
  The same holds for `create`, `addSystem` and `update`, which touch only
  fields that no lookup reads.
- Input.Keys.KeyCallbackAsWritten: requires `0 <= key < MAX_KEYS`. As written,
  the callback indexes both arrays with the key unchecked
  (src/window.cpp:118-119), and for GLFW_KEY_UNKNOWN (-1) that write falls
  outside the arrays, which a sequence model cannot express. The corrected
  `Input.Keys.KeyCallback` takes every key.
- Registry.Ecs.Get: requires the entity to own the type. The source would read
  the slot that `operator[]` just inserted, which is 0, and add the entity to
  the map.
- Input.Keys.KeyPressed, Input.Keys.KeyDown, Input.Keys.KeyReleased,
  Input.Keys.KeyUp and Input.Keys.GetKeyState: they require
  `0 <= key < MAX_KEYS`. The source indexes the arrays before its bound check,
  so other keys read outside the arrays.
- The GLFW action codes 0 (release), 1 (press) and 2 (repeat), and the key
  code -1 for an unknown key, are GLFW's
  values. GLFW's header is not part of this model.

## Findings

| source | as written | input that shows it | evidently intended | confidence | as-written member | corrected member |
|---|---|---|---|---|---|---|
| src/input.cpp:11 | `key > MAX_KEYS` rejects only keys above 512 | key 512 or key -1 passes the check but indexes outside the 512-entry arrays | reject every key outside `0 <= key < MAX_KEYS` | not executed | Input.BoundsCheckAdmitsOutOfRange | Input.KeyInBounds |
| src/ecs.cpp:15 | `remove` walks `core.ecs.sets`, but `getSet` registers storages only in `core_ecs.sets`. The split is read from the declarations. The files do not build as they stand: `core_ecs` is only declared `extern`, src/ecs.cpp uses `ComponentSet` without including src/ecs.hpp, and src/core.hpp uses `Entity` and `System`, which src/mocha.hpp does not declare | `e = create(); emplace<P>(e, p); remove(e); view<P>()` still lists `e` | one table, so `remove` drops `e` from every storage `emplace` used | not executed | SplitRegistry.RemovedEntityStillViewed | Registry.ViewAfterRemove |
| src/window.cpp:118-119 | the callback writes both state arrays at index `key` with no bound check | GLFW passes GLFW_KEY_UNKNOWN (-1) for a key without a key code, and the write lands before the arrays | ignore keys without a slot | not executed | Input.UnknownKeyHasNoSlot | Input.Keys.KeyCallback |
| src/window.cpp:119 | current is set only when `action == GLFW_PRESS` | press a key, then GLFW delivers GLFW_REPEAT while it is held; `getKeyState` gives kReleased | a held key stays down: current is set for every action except GLFW_RELEASE | not executed | Input.RepeatReadsAsReleased | Input.HeldCallbackKeepsDown |
