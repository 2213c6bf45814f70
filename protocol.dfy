/**
 * The counting protocol shared by `intrusive_ptr` and `intrusive_ref_counter`:
 * the embedded count of one counted object, the two protocol operations
 * `intrusive_ptr_add_ref` and `intrusive_ptr_release`, and what any legal
 * history of those operations does to the object.
 *
 * The count is unbounded here; the source's `unsigned int` never wraps under
 * correct use, and releasing a count nobody holds is misuse.
 */
module Protocol {

  /** One counted object: its embedded count and whether it still exists. */
  datatype Counter = Counter(count: nat, alive: bool)

  /** The value `dec` hands back (the count before the decrement) and the new state. */
  datatype Decremented = Decremented(prev: nat, after: Counter)

  /** A counter as built by the default or the copy constructor: nobody holds it yet. */
  function Fresh(): (c: Counter)
    ensures c.alive && c.count == 0
  {
    Counter(0, true)
  }

  /** `inc` (fetch_add of one): the object gains a holder. */
  function Inc(c: Counter): (r: Counter)
    requires c.alive
    ensures r.alive && r.count == c.count + 1
  {
    Counter(c.count + 1, true)
  }

  /** `dec` (fetch_sub of one): returns the count as it was before the decrement. */
  function Dec(c: Counter): (r: Decremented)
    requires c.alive && c.count > 0
    ensures r.prev == c.count && r.after.count + 1 == c.count && r.after.alive
  {
    Decremented(c.count, Counter(c.count - 1, true))
  }

  /**
   * `intrusive_ptr_release`: decrement, and destroy the object exactly when
   * `dec` reported 1, so the object survives exactly when a count remains.
   */
  function Release(c: Counter): (r: Counter)
    requires c.alive && c.count > 0
    ensures r.count + 1 == c.count
    ensures r.alive <==> r.count > 0
    ensures !r.alive <==> c.count == 1
  {
    var d := Dec(c);
    if d.prev == 1 then Counter(d.after.count, false) else d.after
  }

  /**
   * An add-ref followed by a release restores an object that somebody else
   * already holds; an object nobody held is destroyed instead.
   */
  lemma ReleaseUndoesInc(c: Counter)
    requires c.alive
    ensures c.count > 0 ==> Release(Inc(c)) == c
    ensures c.count == 0 ==> !Release(Inc(c)).alive
  {
  }

  /** The protocol operations as events on one object. */
  datatype Event = AddRefEvent | ReleaseEvent

  /** An event may happen: the object exists, and a release finds a count to drop. */
  predicate Enabled(c: Counter, e: Event)
  {
    c.alive && (e.ReleaseEvent? ==> c.count > 0)
  }

  function Apply(c: Counter, e: Event): Counter
    requires Enabled(c, e)
  {
    match e
    case AddRefEvent => Inc(c)
    case ReleaseEvent => Release(c)
  }

  /**
   * A legal history: no event touches a destroyed object and no release drops
   * a count that is not there (the misuse the source does not guard against).
   */
  predicate Legal(c: Counter, h: seq<Event>)
    decreases |h|
  {
    h == [] || (Enabled(c, h[0]) && Legal(Apply(c, h[0]), h[1..]))
  }

  /** The object after the whole history. */
  function Run(c: Counter, h: seq<Event>): Counter
    requires Legal(c, h)
    decreases |h|
  {
    if h == [] then c else Run(Apply(c, h[0]), h[1..])
  }

  /** How many events of the history destroyed the object. */
  function Destructions(c: Counter, h: seq<Event>): nat
    requires Legal(c, h)
    decreases |h|
  {
    if h == [] then 0
    else
      var next := Apply(c, h[0]);
      (if next.alive then 0 else 1) + Destructions(next, h[1..])
  }

  /** How many times `e` occurs in `h`. */
  function Occurrences(h: seq<Event>, e: Event): nat
    decreases |h|
  {
    if h == [] then 0 else (if h[0] == e then 1 else 0) + Occurrences(h[1..], e)
  }

  /** Extending a legal history by one enabled event: the run takes one more step. */
  lemma {:induction false} RunAppend(c: Counter, h: seq<Event>, e: Event)
    requires Legal(c, h) && Enabled(Run(c, h), e)
    ensures Legal(c, h + [e])
    ensures Run(c, h + [e]) == Apply(Run(c, h), e)
    ensures Destructions(c, h + [e]) == Destructions(c, h) + (if Apply(Run(c, h), e).alive then 0 else 1)
    decreases |h|
  {
    if h == [] {
      assert [e][1..] == [];
    } else {
      assert (h + [e])[1..] == h[1..] + [e];
      RunAppend(Apply(c, h[0]), h[1..], e);
    }
  }

  /** The count balances: what it started with, plus every add-ref, minus every release. */
  lemma {:induction false} RunBalance(c: Counter, h: seq<Event>)
    requires Legal(c, h)
    ensures Run(c, h).count + Occurrences(h, ReleaseEvent) == c.count + Occurrences(h, AddRefEvent)
    decreases |h|
  {
    if h != [] {
      RunBalance(Apply(c, h[0]), h[1..]);
    }
  }

  /** After a non-empty legal history the object exists exactly when it is still counted. */
  lemma {:induction false} AliveIffCounted(c: Counter, h: seq<Event>)
    requires Legal(c, h) && h != []
    ensures Run(c, h).alive <==> Run(c, h).count > 0
    decreases |h|
  {
    if h[1..] != [] {
      AliveIffCounted(Apply(c, h[0]), h[1..]);
    }
  }

  /**
   * The object is destroyed at most once, and exactly when the history ends
   * with it destroyed. The bound follows from legality alone (no event may
   * touch a destroyed object); what keeps handles from making such a call is
   * `Intrusive.ReleasedBy`, which leaves a destroyed object with no holders
   * and no raw-pointer counts.
   */
  lemma {:induction false} DestroyedAtMostOnce(c: Counter, h: seq<Event>)
    requires Legal(c, h)
    ensures Destructions(c, h) <= 1
    ensures Destructions(c, h) == 1 <==> c.alive && !Run(c, h).alive
    decreases |h|
  {
    if h != [] {
      var next := Apply(c, h[0]);
      DestroyedAtMostOnce(next, h[1..]);
      if !next.alive {
        assert h[1..] == [];
      }
    }
  }

  /**
   * Destruction happens only on the 1 -> 0 transition: a history that destroys
   * the object ends with a release, and just before it the object existed with
   * a count of exactly one.
   */
  lemma {:induction false} DestroyedByLastRelease(c: Counter, h: seq<Event>)
    requires Legal(c, h) && c.alive && !Run(c, h).alive
    ensures h != [] && h[|h| - 1] == ReleaseEvent
    ensures Legal(c, h[..|h| - 1])
    ensures Run(c, h[..|h| - 1]).alive && Run(c, h[..|h| - 1]).count == 1
    decreases |h|
  {
    var next := Apply(c, h[0]);
    var rest := h[1..];
    if rest == [] {
      assert h[..|h| - 1] == [];
    } else {
      DestroyedByLastRelease(next, rest);
      var init := rest[..|rest| - 1];
      assert h[..|h| - 1] == [h[0]] + init;
      assert h[..|h| - 1][1..] == init;
    }
  }

  /**
   * From a live object, a non-empty legal history destroys it exactly when
   * the releases have caught up with the initial count plus every add-ref.
   */
  lemma DestroyedIffBalanced(c: Counter, h: seq<Event>)
    requires Legal(c, h) && c.alive && h != []
    ensures !Run(c, h).alive <==> Occurrences(h, ReleaseEvent) == c.count + Occurrences(h, AddRefEvent)
  {
    RunBalance(c, h);
    AliveIffCounted(c, h);
  }
}
