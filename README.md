# intrusive_ptr and intrusive_ref_counter, modelled in Dafny

The library is a small intrusive reference-counting pair:

- `intrusive_ref_counter` is a mixin. It embeds an atomic `unsigned int` count in the object itself.
- `intrusive_ptr` is a handle that holds a raw address and keeps that count up to date through two protocol hooks:
  - `intrusive_ptr_add_ref` increments the count.
  - `intrusive_ptr_release` decrements it, and deletes the object when the decrement took the count from 1 to 0.

The model has three modules.

- `Protocol` (`protocol.dfy`) is pure. It holds:
  - one counted object as a value, `Counter(count, alive)`;
  - the two hooks and the counter's `inc`/`dec` as functions;
  - histories of add-ref/release events. About these it proves that the count balances, that the object exists exactly while counted, that it is destroyed at most once and only by a release that finds the count at 1, and that it is destroyed exactly when the releases catch up with the add-refs.
- `Intrusive` (`intrusive.dfy`) is imperative.
  - `RefCounter` is a class whose `counter` field the operations update in place. Its ghost `alive` flag stands for "not yet deleted", and ghost bookkeeping records which handles hold the object (`holders`) and how many counts are held by raw pointers (`loose`).
  - `RefCounter.Valid()` is the reference-count invariant: `counter == |holders| + loose`, and every holder points at the object.
  - `Handle` is a class with the one field `ptr`, as in `intrusive_ptr`. Every constructor, the destructor (`Destroy`), every assignment operator, `reset`, `detach` and `swap` is a method. Each method states:
    - the new address;
    - the exact effect on the count, through `Protocol`'s functions;
    - that the invariant is kept.
  - `AddRef` and `Release` are the bare hooks. `AddRefRaw` and `ReleaseRaw` are the same hooks called by hand on a raw pointer (a factory's pre-increment, a detached address); they also record the raw pointer's count and keep the invariant.
  - The free comparison operators and `swap` are module-level members.
- `Scenarios` (`scenarios.dfy`) holds client sequences proved from those contracts alone:
  - shared ownership ending in destruction;
  - adopting a pre-counted object;
  - detach-and-re-adopt, and detach-then-release by hand;
  - taking `n` copies.

## Model

| member | source | states |
|---|---|---|
| Protocol.Fresh | solution.h:166-170 | a counter built by the default or the copy constructor exists and has count 0 |
| Protocol.Inc | solution.h:191-193 | `inc` raises the count by exactly one and the object stays alive |
| Protocol.Dec | solution.h:195-197 | `dec` returns the count as it was before and lowers it by exactly one |
| Protocol.Release | solution.h:205-209 | release lowers the count by one; the object is deleted exactly when `dec` returned 1, so afterwards it exists iff a count remains |
| Protocol.ReleaseUndoesInc | solution.h:200-209 | add-ref then release restores an object somebody else holds, and deletes one nobody held |
| Protocol.RunAppend | solution.h:200-209 | extending a legal history by one enabled hook call is legal, takes one more step, and adds a destruction only if that step deletes the object |
| Protocol.RunBalance | solution.h:191-197 | after any legal history: final count + releases == initial count + add-refs |
| Protocol.AliveIffCounted | solution.h:205-209 | after any non-empty legal history the object exists iff its count is positive |
| Protocol.DestroyedAtMostOnce | solution.h:205-209 | a legal history deletes the object at most once, and exactly once iff it starts alive and ends deleted |
| Protocol.DestroyedByLastRelease | solution.h:205-209 | a history that deletes a live object ends with a release, and just before it the object existed with count exactly 1 |
| Protocol.DestroyedIffBalanced | solution.h:200-209 | from a live object, a non-empty legal history deletes it iff releases == initial count + add-refs |
| Intrusive.RefCounter.constructor | solution.h:166-169 | a new counter is fresh (count 0, alive), nobody holds it, and the invariant holds |
| Intrusive.RefCounter.Copy | solution.h:170 | copy-constructing a counter does not copy the count: the new counter is fresh |
| Intrusive.RefCounter.Assign | solution.h:172-174 | copy-assigning a counter leaves its count and its holders unchanged |
| Intrusive.RefCounter.UseCount | solution.h:176-178 | `use_count` reports the current count |
| Intrusive.RefCounter.Inc | solution.h:191-193 | the field update is `Protocol.Inc` of the old state |
| Intrusive.RefCounter.Dec | solution.h:195-197 | returns the previous count, and the new state is `Protocol.Dec` of the old one |
| Intrusive.AddRef | solution.h:200-203 | the object's new state is `Protocol.Inc` of the old one; only the count changes |
| Intrusive.Release | solution.h:205-209 | the object's new state is `Protocol.Release` of the old one: deleted exactly when the count reaches 0 |
| Intrusive.Handle.constructor | solution.h:14 | a default handle is null |
| Intrusive.Handle.FromRaw | solution.h:16-19 | stores `p`; the count rises by one iff `add_ref` holds and `p` is non-null; with `add_ref` false the handle adopts an existing count |
| Intrusive.Handle.Copy | solution.h:21-31 | shares the source's address and adds exactly one count if it is non-null; the source is unchanged |
| Intrusive.Handle.Move | solution.h:33-40 | takes the source's address, leaves the source null, and leaves the count unchanged (the holding passes from source to target) |
| Intrusive.Handle.Destroy | solution.h:42-45 | releases the held object exactly once if non-null; the object survives iff other counts remain |
| Intrusive.Handle.TakeOver | solution.h:47-91 | the common tail `intrusive_ptr(...).swap(*this)` plus the temporary's destruction: this takes the temporary's address and the old address is released once |
| Intrusive.Handle.CopyAssign | solution.h:47-52 | self-assignment changes nothing; otherwise this gets the source's address with one more count, and the old referent is released once |
| Intrusive.Handle.CopyAssignConverted | solution.h:54-60 | as copy-assignment, without the self check; self-assignment still leaves the count unchanged |
| Intrusive.Handle.AssignRaw | solution.h:62-66 | this holds `r` with one added count, and the old referent is released once; assigning the address already held changes nothing |
| Intrusive.Handle.MoveAssign | solution.h:68-73 | self-move changes nothing; otherwise this takes the source's address, the source becomes null, and the old referent is released once |
| Intrusive.Handle.MoveAssignConverted | solution.h:74-80 | as move-assignment, without the self check |
| Intrusive.Handle.Reset | solution.h:82-84 | the handle becomes null and the old referent is released once |
| Intrusive.Handle.ResetTo | solution.h:86-91 | the handle holds `r`, which gains a count iff `add_ref`, and the old referent is released once |
| Intrusive.Handle.Deref | solution.h:93-99 | `*` and `->` yield the held (non-null) address |
| Intrusive.Handle.Get | solution.h:101-103 | `get` yields the held address |
| Intrusive.Handle.Detach | solution.h:104-108 | returns the held address and nulls the handle without touching the count; the count passes to the caller |
| Intrusive.Handle.IsSet | solution.h:110-112 | `operator bool` is true iff the address is non-null |
| Intrusive.Handle.Swap | solution.h:114-116 | exchanges the two addresses; counts are unchanged, and each object's holding passes between the handles |
| Intrusive.AddRefRaw | solution.h:200-203 | add-ref called by hand on a raw pointer: the state is `Protocol.Inc` of the old one, the new count is owned by the raw pointer, and the invariant holds |
| Intrusive.ReleaseRaw | solution.h:205-209 | release called by hand on a raw pointer that owns a count: the state is `Protocol.Release` of the old one, that raw count is given up, and a destroyed object is left with no owners |
| Intrusive.HeldObjectIsCounted | solution.h:16-45 | a handle that holds an address keeps that object alive with count at least 1 |
| Intrusive.SwapHandles | solution.h:157-160 | free `swap` has the same effect as the member |
| Intrusive.Equal | solution.h:122-125 | handles compare equal iff they hold the same address |
| Intrusive.NotEqual | solution.h:127-130 | `!=` is the negation of `==` |
| Intrusive.EqualRaw | solution.h:132-135 | handle == raw iff it holds that address |
| Intrusive.NotEqualRaw | solution.h:137-140 | handle != raw is the negation of handle == raw |
| Intrusive.RawEqual | solution.h:142-145 | raw == handle agrees with handle == raw |
| Intrusive.RawNotEqual | solution.h:147-150 | raw != handle is the negation of raw == handle |
| Intrusive.Less | solution.h:152-155 | `<` on handles orders their addresses with null first; handles that are less are unequal |
| Intrusive.LessIsStrictTotalOrder | solution.h:152-155 | `<` is irreflexive, transitive and asymmetric, and total up to `==` when distinct objects have distinct ids |
| Scenarios.ShareThenMove | solution.h:16-40 | wrap, copy, move: the count grows by exactly 2, the moved-from handle is null |
| Scenarios.SharedOwnership | solution.h:16-45 | a fresh object wrapped, copied and moved, then every handle destroyed, ends deleted with count 0 |
| Scenarios.AdoptPreCounted | solution.h:16-19 | a factory-counted object adopted with `add_ref` false keeps count 1 and is deleted by the handle's destructor |
| Scenarios.DetachThenAdopt | solution.h:104-108 | detaching and re-wrapping with `add_ref` false moves the holding to the new handle with no count change |
| Scenarios.DetachThenRelease | solution.h:104-108 | detaching and then releasing the address by hand has the same effect on the object as the handle's destructor |
| Scenarios.AdoptThenDetach | solution.h:16-19 | adopting with `add_ref` false then detaching returns the same address and leaves the object untouched |
| Scenarios.TakeCopies | solution.h:21-24 | `n` copies of a non-null handle raise the count by exactly `n`, and all share the address |

## Left out

- Atomicity and memory orders (`fetch_add` relaxed, `fetch_sub` acq_rel, `load` acquire) are left out. The model is sequential, so it says nothing about concurrent handles on different threads. `<thread>` is included by the header but not used by the core.
- Template conversions (`intrusive_ptr<Y>` to `intrusive_ptr<T>` when `Y*` converts to `T*`) are left out. The converting copy and move constructors are the plain `Copy` and `Move`. The converting assignments are kept as separate members because they omit the self check.
- `static_cast<const Derived*>` and `delete` are modelled by the ghost `alive` flag turning false. The object's own destructor and the freeing of memory are not modelled.
- Intrusive.RefCounter.Dec: requires a positive count. The source's `unsigned int` would wrap from 0 to its maximum, but that only happens on misuse.
- Intrusive.Release: requires a live object with a positive count. Releasing a deleted object is undefined behaviour. Releasing a live object whose count is 0 wraps the count to 2^32-1 and deletes nothing, so the object leaks (misuse). The `requires` excludes both.
- Intrusive.AddRef: requires a live object, and the count is unbounded. Wrap-around at 2^32 counts is not modelled.
- Intrusive.Handle.FromRaw: with `add_ref` false, requires the object to have a raw-pointer count to adopt (`loose > 0`). The source accepts any address and leaves balancing to the caller.
- Intrusive.Handle.ResetTo: the same requirement as `FromRaw` when `add_ref` is false.
- Intrusive.Handle.Destroy: leaves `ptr` in place. A destroyed handle is not used again, just as in C++.
- Intrusive.Less: orders objects by a constant `id` field standing in for the address. `std::less<T*>` orders by address, and the model does not represent addresses as numbers. Ids are chosen when an object is built and need not be distinct, so `<` is total only when distinct objects have distinct ids (the `requires` of `LessIsStrictTotalOrder`).
- The protected destructor of `intrusive_ref_counter` (line 181) only restricts where deletion can happen in C++, so it has no counterpart.
