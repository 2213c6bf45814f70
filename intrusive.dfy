/**
 * `intrusive_ref_counter` (the counter mixin every counted object derives from),
 * the protocol functions `intrusive_ptr_add_ref` / `intrusive_ptr_release`, and
 * `intrusive_ptr` (the owning handle) with its free operators.
 *
 * Atomic operations are plain field updates (one thread). Destroying the
 * counted object is the ghost flag `alive` going false. The ghost fields
 * `holders` and `loose` record who owns each count, so that the invariant
 * "the count is the number of handles pointing here, plus the counts held by
 * raw pointers" can be stated and kept by every operation.
 */
module Intrusive {
  import Protocol

  /** The counter mixin inside one counted object. */
  class RefCounter {
    /** The object's address, as far as `std::less` over pointers sees it. */
    const id: nat
    var counter: nat
    /** The counted object still exists; cleared by the release that destroys it. */
    ghost var alive: bool
    /** The handles whose address is this object. */
    ghost var holders: set<Handle>
    /** Counts owned by raw pointers rather than handles (a detached address, a factory's pre-increment). */
    ghost var loose: nat

    ghost function State(): Protocol.Counter
      reads this
    {
      Protocol.Counter(counter, alive)
    }

    /** The object exists and every count is owned by a holder or a raw pointer. */
    ghost predicate Valid()
      reads this, holders
    {
      && alive
      && counter == |holders| + loose
      && forall h :: h in holders ==> h.ptr == this
    }

    /** Default constructor: the count starts at 0. */
    constructor (id: nat)
      ensures this.id == id && State() == Protocol.Fresh()
      ensures holders == {} && loose == 0 && Valid()
    {
      this.id := id;
      counter := 0;
      alive := true;
      holders := {};
      loose := 0;
    }

    /**
     * Copy constructor: the copy is a new object that nobody holds, so its
     * count starts at 0 whatever the count of `other`.
     */
    constructor Copy(other: RefCounter, id: nat)
      ensures this.id == id && State() == Protocol.Fresh()
      ensures holders == {} && loose == 0 && Valid()
    {
      this.id := id;
      counter := 0;
      alive := true;
      holders := {};
      loose := 0;
    }

    /** Copy assignment: the counting state is not part of the object's value and stays as it is. */
    method Assign(other: RefCounter)
      ensures State() == old(State()) && holders == old(holders) && loose == old(loose)
    {
    }

    /** `use_count`: the current count, read without changing anything. */
    function UseCount(): (n: nat)
      reads this
      ensures n == State().count
    {
      counter
    }

    /** `inc`. */
    method Inc()
      requires alive
      modifies this`counter
      ensures State() == Protocol.Inc(old(State()))
    {
      counter := counter + 1;
    }

    /** `dec`: returns the count before the decrement. */
    method Dec() returns (prev: nat)
      requires alive && counter > 0
      modifies this`counter
      ensures prev == old(counter)
      ensures State() == Protocol.Dec(old(State())).after
    {
      prev := counter;
      counter := counter - 1;
    }
  }

  /** `intrusive_ptr_add_ref`. */
  method AddRef(p: RefCounter)
    requires p.alive
    modifies p`counter
    ensures p.State() == Protocol.Inc(old(p.State()))
  {
    p.Inc();
  }

  /** `intrusive_ptr_release`: the object is destroyed exactly when `dec` reports 1. */
  method Release(p: RefCounter)
    requires p.alive && p.counter > 0
    modifies p`counter, p`alive
    ensures p.State() == Protocol.Release(old(p.State()))
  {
    var prev := p.Dec();
    if prev == 1 {
      p.alive := false;
    }
  }

  /**
   * `intrusive_ptr_add_ref` called by hand on a raw pointer (a factory's
   * pre-increment): the new count is owned by that raw pointer.
   */
  method AddRefRaw(p: RefCounter)
    requires p.Valid()
    modifies p
    ensures p.State() == Protocol.Inc(old(p.State()))
    ensures p.holders == old(p.holders) && p.loose == old(p.loose) + 1
    ensures p.Valid()
  {
    AddRef(p);
    p.loose := p.loose + 1;
  }

  /**
   * `intrusive_ptr_release` called by hand on a raw pointer that owns a count
   * (a detached address): that count is given up, and if it was the last one
   * the object is destroyed with nobody left owning it.
   */
  method ReleaseRaw(p: RefCounter)
    requires p.Valid() && p.loose > 0
    modifies p
    ensures p.State() == Protocol.Release(old(p.State()))
    ensures p.holders == old(p.holders) && p.loose + 1 == old(p.loose)
    ensures p.alive ==> p.Valid()
    ensures !p.alive ==> p.holders == {} && p.loose == 0
  {
    p.loose := p.loose - 1;
    Release(p);
  }

  /** Removing a member takes one off the size; a set of at most one member is exactly that member. */
  lemma RemoveMember<T>(s: set<T>, x: T)
    requires x in s
    ensures |s - {x}| == |s| - 1
    ensures |s| <= 1 ==> s == {x}
  {
    if |s| <= 1 {
      assert |s - {x}| == 0;
      assert s - {x} == {};
    }
  }

  /** Exchanging a member for a non-member keeps the size. */
  lemma ExchangeMember<T>(s: set<T>, x: T, y: T)
    requires x in s && y !in s
    ensures |s - {x} + {y}| == |s|
  {
    RemoveMember(s, x);
  }

  /** Neither the count of `p`, nor its lifetime, nor who owns its counts has changed. */
  twostate predicate Untouched(p: RefCounter)
    reads p
  {
    && p.State() == old(p.State())
    && p.holders == old(p.holders)
    && p.loose == old(p.loose)
  }

  /** `p` is now held by `h` as well: counted once more, or by taking over a raw pointer's count. */
  twostate predicate AcquiredBy(p: RefCounter, new h: Handle, addRef: bool)
    reads p
  {
    && old(p.alive)
    && p.State() == (if addRef then Protocol.Inc(old(p.State())) else old(p.State()))
    && p.holders == old(p.holders) + {h}
    && p.loose + (if addRef then 0 else 1) == old(p.loose)
  }

  /** `h` no longer holds `p` and has released its count; if that destroyed `p`, nobody owned it any more. */
  twostate predicate ReleasedBy(p: RefCounter, new h: Handle)
    reads p, p.holders
  {
    && old(p.alive) && old(p.counter) > 0
    && p.State() == Protocol.Release(old(p.State()))
    && p.holders == old(p.holders) - {h}
    && p.loose == old(p.loose)
    && (p.alive ==> p.Valid())
    && (!p.alive ==> p.holders == {} && p.loose == 0)
  }

  /** The count of `p` passed from handle `from` to handle `to`; the count itself did not move. */
  twostate predicate TransferredBy(p: RefCounter, new from: Handle, new to: Handle)
    reads p
  {
    && p.State() == old(p.State())
    && p.holders == old(p.holders) - {from} + {to}
    && p.loose == old(p.loose)
  }

  /** `intrusive_ptr`: an address, possibly null, that owns one count of its object. */
  class Handle {
    var ptr: RefCounter?

    ghost function Targets(): set<RefCounter>
      reads this
    {
      if ptr == null then {} else {ptr}
    }

    /** A non-null handle is one of the holders of a live, balanced object. */
    ghost predicate Valid()
      reads this, Targets(), if ptr == null then {} else ptr.holders
    {
      ptr != null ==> this in ptr.holders && ptr.Valid()
    }

    /** Default constructor: the null handle. */
    constructor ()
      ensures ptr == null && Valid()
    {
      ptr := null;
    }

    /**
     * Construction from an address: stores `p`, and counts it when `addRef`
     * holds and `p` is not null. With `addRef` false the handle adopts a count
     * that the caller already owns.
     */
    constructor FromRaw(p: RefCounter?, addRef: bool := true)
      requires p != null ==> p.Valid() && (addRef || p.loose > 0)
      modifies if p == null then {} else {p}
      ensures ptr == p && Valid()
      ensures p != null ==> AcquiredBy(p, this, addRef)
    {
      ptr := p;
      new;
      if p != null {
        p.holders := p.holders + {this};
        if addRef {
          AddRef(p);
        } else {
          p.loose := p.loose - 1;
        }
      }
    }

    /** Copy construction (also the converting copy): shares the address and counts it once more. */
    constructor Copy(r: Handle)
      requires r.Valid()
      modifies r.Targets()
      ensures ptr == r.ptr && Valid() && r.Valid()
      ensures ptr != null ==> AcquiredBy(ptr, this, true)
    {
      ptr := r.ptr;
      new;
      if ptr != null {
        ptr.holders := ptr.holders + {this};
        AddRef(ptr);
      }
    }

    /** Move construction (also the converting move): takes the address and nulls the source; no count changes. */
    constructor Move(r: Handle)
      requires r.Valid()
      modifies r, r.Targets()
      ensures ptr == old(r.ptr) && r.ptr == null
      ensures Valid() && r.Valid()
      ensures ptr != null ==> TransferredBy(ptr, r, this)
    {
      ptr := r.ptr;
      new;
      r.ptr := null;
      if ptr != null {
        ptr.holders := ptr.holders - {r} + {this};
      }
    }

    /** The destructor: releases the object when the address is not null. */
    method Destroy()
      requires Valid()
      ensures ptr == old(ptr)
      modifies Targets()
      ensures ptr != null ==> ReleasedBy(ptr, this)
    {
      if ptr != null {
        RemoveMember(ptr.holders, this);
        ptr.holders := ptr.holders - {this};
        Release(ptr);
      }
    }

    /** Member `swap`: exchanges the two addresses; every count stays where it was. */
    method Swap(b: Handle)
      requires Valid() && b.Valid()
      modifies this, b, Targets(), b.Targets()
      ensures ptr == old(b.ptr) && b.ptr == old(ptr)
      ensures Valid() && b.Valid()
      ensures var p, q := old(ptr), old(b.ptr);
        && (p == q && p != null ==> Untouched(p))
        && (p != q && p != null ==> TransferredBy(p, this, b))
        && (p != q && q != null ==> TransferredBy(q, b, this))
    {
      var p, q := ptr, b.ptr;
      if p != q {
        if p != null {
          assert b !in p.holders;
          ExchangeMember(p.holders, this, b);
          p.holders := p.holders - {this} + {b};
        }
        if q != null {
          assert this !in q.holders;
          ExchangeMember(q.holders, b, this);
          q.holders := q.holders - {b} + {this};
        }
        ptr, b.ptr := q, p;
        assert p != null ==> forall h :: h in p.holders ==> h.ptr == p;
        assert q != null ==> forall h :: h in q.holders ==> h.ptr == q;
      } else {
        ptr, b.ptr := q, p;
      }
    }

    /** `get`: the stored address; reading it changes no count. */
    function Get(): (p: RefCounter?)
      reads this
      ensures p == ptr
    {
      ptr
    }

    /** `operator*` and `operator->`: the object itself, only for a non-null handle. */
    function Deref(): (p: RefCounter)
      requires ptr != null
      reads this
      ensures p == Get()
    {
      ptr
    }

    /** `operator bool`. */
    function IsSet(): (b: bool)
      reads this
      ensures b <==> Get() != null
    {
      ptr != null
    }

    /**
     * `detach`: hands the address to the caller without releasing it; the
     * count the handle owned now belongs to that raw pointer.
     */
    method Detach() returns (p: RefCounter?)
      requires Valid()
      modifies this, Targets()
      ensures p == old(ptr) && ptr == null && Valid()
      ensures p != null ==> && p.State() == old(p.State())
                            && p.holders == old(p.holders) - {this}
                            && p.loose == old(p.loose) + 1
                            && p.Valid()
    {
      p := ptr;
      ptr := null;
      if p != null {
        p.holders := p.holders - {this};
        p.loose := p.loose + 1;
      }
    }

    /**
     * The second half of every assignment and `reset`: swap the freshly built
     * temporary `tmp` in, then run its destructor, which releases the address
     * this handle held before. When both held the same object, the release
     * drops the temporary's count and cannot destroy the object.
     */
    method TakeOver(tmp: Handle)
      requires Valid() && tmp.Valid() && tmp != this
      modifies this, tmp, Targets(), tmp.Targets()
      ensures ptr == old(tmp.ptr) && Valid()
      ensures var p, q := old(ptr), old(tmp.ptr);
        && (p == q && p != null ==> ReleasedBy(p, tmp) && p.alive)
        && (p != q && q != null ==> TransferredBy(q, tmp, this))
        && (p != q && p != null ==> ReleasedBy(p, this))
    {
      tmp.Swap(this);
      tmp.Destroy();
    }

    /**
     * Copy assignment: unless `r` is this very handle, copy `r` into a
     * temporary and take it over. The new address gains a count, the old one
     * is released once; assigning a handle to itself changes nothing.
     */
    method CopyAssign(r: Handle)
      requires Valid() && r.Valid()
      modifies this, Targets(), r.Targets()
      ensures ptr == old(r.ptr) && r.ptr == old(r.ptr)
      ensures Valid() && r.Valid()
      ensures var p, q := old(ptr), old(r.ptr);
        && (p == q && p != null ==> Untouched(p))
        && (p != q && q != null ==> AcquiredBy(q, this, true))
        && (p != q && p != null ==> ReleasedBy(p, this))
    {
      if this != r {
        var tmp := new Handle.Copy(r);
        if ptr == r.ptr && ptr != null {
          Protocol.ReleaseUndoesInc(old(ptr.State()));
        }
        TakeOver(tmp);
      }
    }

    /**
     * Converting copy assignment: the same construct-then-swap, without the
     * self-assignment test; on `r == this` it is still a no-op.
     */
    method CopyAssignConverted(r: Handle)
      requires Valid() && r.Valid()
      modifies this, Targets(), r.Targets()
      ensures ptr == old(r.ptr) && r.ptr == old(r.ptr)
      ensures Valid() && r.Valid()
      ensures var p, q := old(ptr), old(r.ptr);
        && (p == q && p != null ==> Untouched(p))
        && (p != q && q != null ==> AcquiredBy(q, this, true))
        && (p != q && p != null ==> ReleasedBy(p, this))
    {
      var tmp := new Handle.Copy(r);
      if ptr == r.ptr && ptr != null {
        Protocol.ReleaseUndoesInc(old(ptr.State()));
      }
      TakeOver(tmp);
    }

    /**
     * Move assignment: unless `r` is this very handle, move `r` into a
     * temporary and take it over. The count `r` owned moves to this handle,
     * `r` becomes null, and the old address is released once.
     */
    method MoveAssign(r: Handle)
      requires Valid() && r.Valid()
      modifies this, r, Targets(), r.Targets()
      ensures ptr == old(r.ptr) && Valid() && r.Valid()
      ensures this != r ==> r.ptr == null
      ensures var p, q := old(ptr), old(r.ptr);
        && (this == r && p != null ==> Untouched(p))
        && (this != r && p != q && q != null ==> TransferredBy(q, r, this))
        && (this != r && p != null ==> ReleasedBy(p, if p == q then r else this))
    {
      if this != r {
        var tmp := new Handle.Move(r);
        TakeOver(tmp);
      }
    }

    /**
     * Converting move assignment: the same construct-then-swap, without the
     * self-assignment test; on `r == this` it is still a no-op.
     */
    method MoveAssignConverted(r: Handle)
      requires Valid() && r.Valid()
      modifies this, r, Targets(), r.Targets()
      ensures ptr == old(r.ptr) && Valid() && r.Valid()
      ensures this != r ==> r.ptr == null
      ensures var p, q := old(ptr), old(r.ptr);
        && (this == r && p != null ==> Untouched(p))
        && (this != r && p != q && q != null ==> TransferredBy(q, r, this))
        && (this != r && p != null ==> ReleasedBy(p, if p == q then r else this))
    {
      var tmp := new Handle.Move(r);
      TakeOver(tmp);
    }

    /** `reset()`: take over a null handle, releasing the old address once. */
    method Reset()
      requires Valid()
      modifies this, Targets()
      ensures ptr == null && Valid()
      ensures old(ptr) != null ==> ReleasedBy(old(ptr), this)
    {
      var tmp := new Handle();
      TakeOver(tmp);
    }

    /**
     * `reset(p)` and `reset(p, add_ref)`: take over a handle built from `p`.
     * When `p` is the current address, the new count and the release of the
     * old one meet on the same object, which survives.
     */
    method ResetTo(p: RefCounter?, addRef: bool := true)
      requires Valid()
      requires p != null ==> p.Valid() && (addRef || p.loose > 0)
      modifies this, Targets(), if p == null then {} else {p}
      ensures ptr == p && Valid()
      ensures var o := old(ptr);
        && (o == p && p != null ==> && p.State() == (if addRef then old(p.State()) else Protocol.Release(old(p.State())))
                                    && p.alive
                                    && p.holders == old(p.holders)
                                    && p.loose + (if addRef then 0 else 1) == old(p.loose))
        && (o != p && p != null ==> AcquiredBy(p, this, addRef))
        && (o != p && o != null ==> ReleasedBy(o, this))
    {
      var tmp := new Handle.FromRaw(p, addRef);
      if ptr == p && p != null && addRef {
        Protocol.ReleaseUndoesInc(old(p.State()));
      }
      TakeOver(tmp);
    }

    /** Assignment from an address: take over a handle that counts `p`. */
    method AssignRaw(p: RefCounter?)
      requires Valid() && (p != null ==> p.Valid())
      modifies this, Targets(), if p == null then {} else {p}
      ensures ptr == p && Valid()
      ensures var o := old(ptr);
        && (o == p && p != null ==> Untouched(p))
        && (o != p && p != null ==> AcquiredBy(p, this, true))
        && (o != p && o != null ==> ReleasedBy(o, this))
    {
      var tmp := new Handle.FromRaw(p);
      if ptr == p && p != null {
        Protocol.ReleaseUndoesInc(old(p.State()));
      }
      TakeOver(tmp);
    }
  }

  /** A valid non-null handle points at a live object whose count includes the handle's own. */
  lemma HeldObjectIsCounted(h: Handle)
    requires h.Valid() && h.IsSet()
    ensures h.Get().alive && h.Get().UseCount() >= 1
  {
    RemoveMember(h.ptr.holders, h);
  }

  /** Free `swap`: forwards to the member. */
  method SwapHandles(a: Handle, b: Handle)
    requires a.Valid() && b.Valid()
    modifies a, b, a.Targets(), b.Targets()
    ensures a.ptr == old(b.ptr) && b.ptr == old(a.ptr)
    ensures a.Valid() && b.Valid()
    ensures var p, q := old(a.ptr), old(b.ptr);
      && (p == q && p != null ==> Untouched(p))
      && (p != q && p != null ==> TransferredBy(p, a, b))
      && (p != q && q != null ==> TransferredBy(q, b, a))
  {
    a.Swap(b);
  }

  /** `a == b` over two handles: the same address. */
  function Equal(a: Handle, b: Handle): (r: bool)
    reads a, b
    ensures r <==> a.Get() == b.Get()
  {
    a.Get() == b.Get()
  }

  /** `a != b` over two handles. */
  function NotEqual(a: Handle, b: Handle): (r: bool)
    reads a, b
    ensures r <==> !Equal(a, b)
  {
    a.Get() != b.Get()
  }

  /** `a == p` with an address on the right. */
  function EqualRaw(a: Handle, p: RefCounter?): (r: bool)
    reads a
    ensures r <==> a.Get() == p
  {
    a.Get() == p
  }

  /** `a != p` with an address on the right. */
  function NotEqualRaw(a: Handle, p: RefCounter?): (r: bool)
    reads a
    ensures r <==> !EqualRaw(a, p)
  {
    a.Get() != p
  }

  /** `p == b` with the address on the left. */
  function RawEqual(p: RefCounter?, b: Handle): (r: bool)
    reads b
    ensures r <==> EqualRaw(b, p)
  {
    p == b.Get()
  }

  /** `p != b` with the address on the left. */
  function RawNotEqual(p: RefCounter?, b: Handle): (r: bool)
    reads b
    ensures r <==> !RawEqual(p, b)
  {
    p != b.Get()
  }

  /** Position of an address in the total order `std::less` imposes: null first, then by `id`. */
  function Rank(p: RefCounter?): nat
  {
    if p == null then 0 else p.id + 1
  }

  /** `a < b`: compares the addresses with `std::less`. */
  function Less(a: Handle, b: Handle): (r: bool)
    reads a, b
    ensures r ==> NotEqual(a, b)
  {
    Rank(a.Get()) < Rank(b.Get())
  }

  /**
   * `<` orders handles strictly, and when distinct objects have distinct
   * addresses it is total: of two handles, exactly one is less or they are equal.
   */
  lemma LessIsStrictTotalOrder(a: Handle, b: Handle, c: Handle)
    requires a.Get() != null && b.Get() != null && a.Get() != b.Get() ==> a.Get().id != b.Get().id
    ensures !Less(a, a)
    ensures Less(a, b) && Less(b, c) ==> Less(a, c)
    ensures Less(a, b) ==> !Less(b, a)
    ensures Less(a, b) || Less(b, a) || Equal(a, b)
  {
  }
}
