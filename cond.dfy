/**
 * The channel-built condition variable: a FIFO queue of waiter channels
 * guarded by a one-token lock channel. `Wait` queues a fresh channel and
 * blocks on it; `Signal` closes the head waiter, `Broadcast` all of them.
 *
 * Each method is the critical section between taking and returning the
 * token, so the token is back in the lock when it ends. A waiter channel
 * is named by the number of the `make` that created it; `closed` records
 * the channels closed so far, and a waiter returns once its channel is in
 * it. The Locker L is modelled as a lock that is held or free.
 */
module Cond {

  class Cond {
    /** The queued waiter channels, head first. */
    var waiters: seq<nat>
    /** The number of waiter channels made so far. */
    var made: nat
    ghost var closed: set<nat>
    /** Whether the Locker L is held. */
    var held: bool

    /** Queued channels are distinct, already made, and still open. */
    ghost predicate Valid()
      reads this
    {
      (forall i, j :: 0 <= i < j < |waiters| ==> waiters[i] != waiters[j]) &&
      (forall i :: 0 <= i < |waiters| ==> waiters[i] < made && waiters[i] !in closed) &&
      (forall c :: c in closed ==> c < made)
    }

    /** `New`: no waiters. */
    constructor (held: bool)
      ensures waiters == [] && made == 0 && closed == {} && this.held == held && Valid()
    {
      waiters, made := [], 0;
      closed := {};
      this.held := held;
    }

    /** `close(ch)`: allowed only on an open channel, as closing a closed one panics. */
    method Close(ch: nat)
      requires ch !in closed
      modifies this`closed
      ensures closed == old(closed) + {ch}
    {
      closed := closed + {ch};
    }

    /**
     * The first half of `Wait`, called with L held: a fresh channel joins
     * the tail of the queue, and then L is released.
     */
    method Wait() returns (ch: nat)
      requires Valid() && held
      modifies this
      ensures Valid()
      ensures ch == old(made) && ch !in old(closed) && made == old(made) + 1
      ensures waiters == old(waiters) + [ch] && closed == old(closed) && !held
    {
      ch := made;
      made := made + 1;
      waiters := waiters + [ch];
      held := false;
    }

    /** The second half of `Wait`: once its channel is closed the waiter takes L again. */
    method Resume(ch: nat)
      requires Valid() && ch in closed && !held
      modifies this`held
      ensures Valid() && held
    {
      held := true;
    }

    /** `Signal`: the head waiter alone is taken off the queue and woken; nothing happens on an empty queue. */
    method Signal()
      requires Valid()
      modifies this
      ensures Valid()
      ensures old(waiters) == [] ==> unchanged(this)
      ensures old(waiters) != [] ==>
        waiters == old(waiters)[1..] && closed == old(closed) + {old(waiters)[0]} && made == old(made) && held == old(held)
    {
      if |waiters| > 0 {
        var waiter := waiters[0];
        waiters := waiters[1..];
        Close(waiter);
      }
    }

    /** `Broadcast`: every queued waiter is woken and the queue emptied. */
    method Broadcast()
      requires Valid()
      modifies this
      ensures Valid()
      ensures waiters == [] && closed == old(closed) + (set i | 0 <= i < |old(waiters)| :: old(waiters)[i]) && made == old(made)
      ensures held == old(held)
    {
      for i := 0 to |waiters|
        modifies this`closed
        invariant closed == old(closed) + (set j | 0 <= j < i :: waiters[j])
        invariant forall j :: i <= j < |waiters| ==> waiters[j] !in closed
      {
        Close(waiters[i]);
      }
      waiters := [];
    }
  }
}
