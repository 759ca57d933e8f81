/** The Svelte `Counter` class: a count and the step by which it moves.
    The class below keeps the two fields and updates them in place; the
    `Snapshot` values and the transition functions beside it state what each
    method does, so that properties of several calls can be proved as lemmas. */
module Counters {

  /** The two fields of a counter taken together as a value. */
  datatype Snapshot = Snapshot(count: int, incrementor: int)

  /** The state of a freshly constructed counter. */
  const Initial: Snapshot := Snapshot(0, 1)

  /** `increment`: the count moves up by the incrementor. */
  function Incremented(s: Snapshot): Snapshot {
    s.(count := s.count + s.incrementor)
  }

  /** `decrement`: the count moves down by the incrementor. */
  function Decremented(s: Snapshot): Snapshot {
    s.(count := s.count - s.incrementor)
  }

  /** `resetCount`: the count goes back to zero. */
  function CountReset(s: Snapshot): Snapshot {
    s.(count := 0)
  }

  /** `resetIncrementor`: the incrementor goes back to one. */
  function IncrementorReset(s: Snapshot): Snapshot {
    s.(incrementor := 1)
  }

  /** The state after `n` successive calls of `increment`. */
  function Increments(s: Snapshot, n: nat): Snapshot {
    if n == 0 then s else Incremented(Increments(s, n - 1))
  }

  /** n calls of `increment` add n times the incrementor and keep the incrementor. */
  lemma {:induction false} IncrementsAddMultiple(s: Snapshot, n: nat)
    ensures Increments(s, n).count == s.count + n * s.incrementor
    ensures Increments(s, n).incrementor == s.incrementor
  {
    if n > 0 {
      IncrementsAddMultiple(s, n - 1);
      assert (n - 1) * s.incrementor + s.incrementor == n * s.incrementor;
    }
  }

  /** `decrement` undoes `increment` when the incrementor is not changed between them. */
  lemma IncrementThenDecrement(s: Snapshot)
    ensures Decremented(Incremented(s)) == s
  {
  }

  /** `increment` undoes `decrement` likewise. */
  lemma DecrementThenIncrement(s: Snapshot)
    ensures Incremented(Decremented(s)) == s
  {
  }

  /** Resetting the count twice is the same as resetting it once. */
  lemma CountResetIdempotent(s: Snapshot)
    ensures CountReset(CountReset(s)) == CountReset(s)
    ensures CountReset(s).incrementor == s.incrementor
  {
  }

  /** Resetting the incrementor twice is the same as resetting it once. */
  lemma IncrementorResetIdempotent(s: Snapshot)
    ensures IncrementorReset(IncrementorReset(s)) == IncrementorReset(s)
    ensures IncrementorReset(s).count == s.count
  {
  }

  /** After both resets, in either order, the counter is in its initial state. */
  lemma ResetsRestoreInitial(s: Snapshot)
    ensures CountReset(IncrementorReset(s)) == Initial
    ensures IncrementorReset(CountReset(s)) == Initial
  {
  }

  class Counter {
    var count: int
    var incrementor: int

    /** The current fields as a value. */
    function State(): Snapshot
      reads this
    {
      Snapshot(count, incrementor)
    }

    /** A new counter (also the exported instance) counts from 0 in steps of 1. */
    constructor ()
      ensures count == 0 && incrementor == 1
      ensures State() == Initial
    {
      count := 0;
      incrementor := 1;
    }

    method Increment()
      modifies this
      ensures count == old(count) + old(incrementor)
      ensures incrementor == old(incrementor)
      ensures State() == Incremented(old(State()))
    {
      count := count + incrementor;
    }

    method Decrement()
      modifies this
      ensures count == old(count) - old(incrementor)
      ensures incrementor == old(incrementor)
      ensures State() == Decremented(old(State()))
    {
      count := count - incrementor;
    }

    method ResetCount()
      modifies this
      ensures count == 0
      ensures incrementor == old(incrementor)
      ensures State() == CountReset(old(State()))
    {
      count := 0;
    }

    method ResetIncrementor()
      modifies this
      ensures incrementor == 1
      ensures count == old(count)
      ensures State() == IncrementorReset(old(State()))
    {
      incrementor := 1;
    }
  }

  /** A caller that increments and then decrements one counter finds it as it was. */
  method IncrementThenDecrementRestores(c: Counter)
    modifies c
    ensures c.count == old(c.count) && c.incrementor == old(c.incrementor)
  {
    c.Increment();
    c.Decrement();
  }

  /** A caller that increments one counter n times moves its count by n times
      its incrementor. */
  method IncrementTimes(c: Counter, n: nat)
    modifies c
    ensures c.State() == Increments(old(c.State()), n)
    ensures c.count == old(c.count) + n * old(c.incrementor) && c.incrementor == old(c.incrementor)
  {
    for i := 0 to n
      invariant c.State() == Increments(old(c.State()), i)
    {
      c.Increment();
    }
    IncrementsAddMultiple(old(c.State()), n);
  }
}
