/**
 * Clients of the handle and the counter: the ownership sequences the design
 * promises, proved from the contracts of the operations alone.
 */
module Scenarios {
  import Protocol
  import opened Intrusive

  /**
   * The first half of shared ownership: wrap a live object (one count more),
   * copy the handle (one more), move the copy into a third handle (no change;
   * the moved-from handle is null).
   */
  method ShareThenMove(a: RefCounter) returns (h1: Handle, h2: Handle, h3: Handle)
    requires a.Valid()
    modifies a
    ensures h1.Get() == a && h2.Get() == null && h3.Get() == a && h1 != h3
    ensures h1.Valid() && h2.Valid() && h3.Valid()
    ensures a.UseCount() == old(a.UseCount()) + 2 && a.loose == old(a.loose)
  {
    h1 := new Handle.FromRaw(a);
    h2 := new Handle.Copy(h1);
    h3 := new Handle.Move(h2);
    assert h1 in a.holders;
  }

  /**
   * Shared ownership, end to end: a fresh object has count 0; wrapped, copied
   * and moved it has count 2; destroying the moved-to handle leaves 1, and
   * destroying the first handle destroys the object.
   */
  method SharedOwnership() returns (a: RefCounter)
    ensures !a.alive && a.UseCount() == 0
  {
    a := new RefCounter(1);
    assert a.UseCount() == 0;
    var h1, h2, h3 := ShareThenMove(a);
    assert a.UseCount() == 2;
    h3.Destroy();
    assert a.alive && h1 in a.holders;
    assert a.UseCount() == 1 && h1.Valid();
    h1.Destroy();
    h2.Destroy();
  }

  /**
   * Adopting a pre-counted object: a factory increments the count on the
   * caller's behalf, the handle adopts that count with `add_ref` false (the
   * count stays 1), and destroying the handle destroys the object.
   */
  method AdoptPreCounted() returns (b: RefCounter)
    ensures !b.alive && b.UseCount() == 0
  {
    b := new RefCounter(2);
    AddRefRaw(b);
    assert b.UseCount() == 1;

    var h := new Handle.FromRaw(b, false);
    assert b.UseCount() == 1;

    h.Destroy();
  }

  /**
   * `detach` and then re-wrapping with `add_ref` false: the count that the old
   * handle owned passes to the new one, and nothing else changes.
   */
  method DetachThenAdopt(h: Handle) returns (g: Handle)
    requires h.Valid()
    modifies h, h.Targets()
    ensures h.Get() == null && g.Get() == old(h.Get())
    ensures h.Valid() && g.Valid()
    ensures g.Get() != null ==> TransferredBy(g.Get(), h, g)
  {
    var p := h.Detach();
    g := new Handle.FromRaw(p, false);
  }

  /**
   * `detach` and then releasing the address by hand: the object loses the
   * count the handle owned, exactly as if the handle had been destroyed.
   */
  method DetachThenRelease(h: Handle) returns (p: RefCounter?)
    requires h.Valid()
    modifies h, h.Targets()
    ensures h.Get() == null && p == old(h.Get()) && h.Valid()
    ensures p != null ==> ReleasedBy(p, h)
  {
    p := h.Detach();
    if p != null {
      ReleaseRaw(p);
    }
  }

  /**
   * Wrapping an address with `add_ref` false and detaching it again gives the
   * same address back, with no effect on the object.
   */
  method AdoptThenDetach(p: RefCounter) returns (q: RefCounter?)
    requires p.Valid() && p.loose > 0
    modifies p
    ensures q == p && p.Valid() && Untouched(p)
  {
    var h := new Handle.FromRaw(p, false);
    q := h.Detach();
  }

  /** `n` copies of a non-null handle: the count grows by exactly `n`, and every copy shares the address. */
  method TakeCopies(h: Handle, n: nat) returns (copies: seq<Handle>)
    requires h.Valid() && h.Get() != null
    modifies h.Targets()
    ensures |copies| == n && h.Valid()
    ensures h.Get().UseCount() == old(h.Get().UseCount()) + n
    ensures forall i :: 0 <= i < n ==> copies[i].Valid() && copies[i].Get() == h.Get()
  {
    var p := h.ptr;
    copies := [];
    while |copies| < n
      invariant |copies| <= n && h.ptr == p && h.Valid()
      invariant p.UseCount() == old(p.UseCount()) + |copies|
      invariant forall i :: 0 <= i < |copies| ==> copies[i].Valid() && copies[i].ptr == p
    {
      var c := new Handle.Copy(h);
      copies := copies + [c];
    }
  }
}
