/**
 * The channel-built wait group: a counter guarded by a one-token lock
 * channel, and a `done` channel that is closed exactly while the counter
 * is 0 and replaced by a fresh open one when the counter leaves 0.
 *
 * Each method is one critical section between taking and returning the
 * lock token. The `done` channels are numbered in the order they are made:
 * `epoch` is the current one, and every earlier one has been closed.
 * Go's `int` is 64 bits wide here, and `counter + delta` wraps around.
 */
module WaitGroup {
  import opened GoBase

  /** How `Add` ends. */
  datatype AddResult =
    | Added
    /** `panic("negative WaitGroup counter")`, after the lock token was put back. */
    | NegativeCounter
    /** The runtime panic of closing the already closed `done`, with the lock token still taken. */
    | CloseOfClosedChannel

  class WaitGroup {
    var counter: int
    /** The number of the current `done` channel. */
    var epoch: nat
    var doneClosed: bool
    /** The lock channel holds its token; false once a panic has kept it, and every later call blocks. */
    var lockFree: bool

    /** The counter is a non-negative int64, and `done` is closed exactly when it is 0. */
    ghost predicate Valid()
      reads this
    {
      0 <= counter <= MaxInt64 && (doneClosed <==> counter == 0)
    }

    /** Whether the `done` channel numbered e has been closed: all earlier ones are. */
    predicate Closed(e: nat)
      reads this
    {
      e < epoch || (e == epoch && doneClosed)
    }

    /** `New`: counter 0, `done` already closed, the token in the lock. */
    constructor ()
      ensures counter == 0 && doneClosed && epoch == 0 && lockFree && Valid()
    {
      counter, epoch := 0, 0;
      doneClosed, lockFree := true, true;
    }

    /**
     * `Add(delta)`, which takes the token and so waits while a panic keeps
     * it. A sum past MaxInt64 wraps to a negative int64, so it panics as a
     * negative counter does.
     */
    method Add(delta: int) returns (r: AddResult)
      requires Valid() && lockFree && IsInt64(delta)
      modifies this
      ensures Valid()
      ensures forall e: nat :: old(Closed(e)) ==> Closed(e)
      ensures old(counter) + delta < 0 || old(counter) + delta > MaxInt64 ==> r == NegativeCounter && unchanged(this)
      ensures old(counter) == 0 && delta == 0 ==>
        r == CloseOfClosedChannel && !lockFree && counter == 0 && epoch == old(epoch) && doneClosed
      ensures 0 <= old(counter) + delta <= MaxInt64 && !(old(counter) == 0 && delta == 0) ==>
        r == Added && lockFree && counter == old(counter) + delta &&
        epoch == (if old(counter) == 0 then old(epoch) + 1 else old(epoch)) &&
        (doneClosed <==> counter == 0)
    {
      lockFree := false;
      var newCounter := Wrap64(counter + delta);
      WrappedCounter(counter, delta);
      if newCounter < 0 {
        lockFree := true;
        return NegativeCounter;
      }
      if counter == 0 && delta > 0 {
        epoch, doneClosed := epoch + 1, false;
      }
      counter := newCounter;
      if counter == 0 {
        if doneClosed {
          return CloseOfClosedChannel;
        }
        doneClosed := true;
      }
      lockFree := true;
      r := Added;
    }

    /** `Done`: `Add(-1)`. */
    method Done() returns (r: AddResult)
      requires Valid() && lockFree
      modifies this
      ensures Valid()
      ensures old(counter) == 0 ==> r == NegativeCounter && unchanged(this)
      ensures old(counter) > 0 ==>
        r == Added && lockFree && counter == old(counter) - 1 && epoch == old(epoch) && (doneClosed <==> counter == 0)
    {
      r := Add(-1);
    }

    /**
     * The critical section of `Wait`: the current `done` channel is read
     * under the token, and the caller then blocks until that channel is
     * Closed. When the counter is 0 it already is, so Wait returns at once.
     */
    method WaitChannel() returns (ch: nat)
      requires Valid() && lockFree
      ensures ch == epoch
      ensures Closed(ch) <==> counter == 0
    {
      ch := epoch;
    }
  }

  /**
   * `wg.counter + delta` for a counter in range: it wraps to a negative
   * int64 exactly when the exact sum is negative or past MaxInt64, and is
   * the exact sum otherwise.
   */
  lemma WrappedCounter(counter: int, delta: int)
    requires 0 <= counter <= MaxInt64 && IsInt64(delta)
    ensures Wrap64(counter + delta) < 0 <==> counter + delta < 0 || counter + delta > MaxInt64
    ensures Wrap64(counter + delta) >= 0 ==> Wrap64(counter + delta) == counter + delta
  {
  }

  /**
   * `New()`, `Add(MaxInt64)`, then `Add(1)`: the second sum wraps around,
   * so that Add panics as a negative counter and the counter stays MaxInt64.
   */
  method AddPastMaxInt64() returns (first: AddResult, second: AddResult, counter: int)
    ensures first == Added && second == NegativeCounter && counter == MaxInt64
  {
    var wg := new WaitGroup();
    first := wg.Add(MaxInt64);
    second := wg.Add(1);
    counter := wg.counter;
  }
}
