/**
 * The publish-subscribe broker: a registry from topic to its set of
 * subscriptions, and per subscription a FIFO queue drained by its own
 * `run` loop, which hands each message to the subscriber's handler.
 *
 * Every critical section under the broker's mutex or a subscription's
 * mutex is an atomic step. An exported operation is one method: the
 * steps it takes after releasing the broker's mutex (the deliveries of
 * `Publish`, the closing of subscriptions in `Close`) are loops inside
 * it. The `run` goroutine is the environment calling RunStep, each step
 * enabled exactly when its condition-variable wait would return. The
 * handler bodies and the message payloads are opaque.
 */
module PubSub {
  import opened GoBase

  /** A message, opaque to the broker. */
  type Msg = string

  /** The text of the error `Subscribe` and `Publish` return on a closed broker. */
  const ErrClosed := "pubsub closed"

  /** What one pass of the `run` loop does. */
  datatype Step =
    /** The head of the queue is taken off and handed to the handler. */
    | Deliver(msg: Msg)
    /** The queue is empty and the subscription closed: `run` returns and closes `done`. */
    | Exit

  /** Every subscription in the registry. */
  ghost function Members(m: map<string, set<Subscription>>): set<Subscription> {
    set t, s | t in m && s in m[t] :: s
  }

  /**
   * `after` is `before` with sub taken out of topic's set, and topic
   * deleted when its set became empty; a missing topic changes nothing.
   */
  ghost predicate Without(before: map<string, set<Subscription>>, after: map<string, set<Subscription>>, topic: string, sub: Subscription) {
    (forall t :: t in after <==> t in before && (t != topic || before[t] - {sub} != {})) &&
    (forall t :: t in after ==> after[t] == if t == topic then before[t] - {sub} else before[t])
  }

  class Subscription {
    const broker: PubSub
    const topic: string
    var queue: seq<Msg>
    var closed: bool
    /** The `unsubOnce` has run its function. */
    var unsubscribed: bool
    /** `run` has returned and closed `done`. */
    var exited: bool

    /** The subscription `Subscribe` makes: an empty queue, open. */
    constructor (broker: PubSub, topic: string)
      ensures this.broker == broker && this.topic == topic
      ensures queue == [] && !closed && !unsubscribed && !exited
    {
      this.broker, this.topic := broker, topic;
      queue, closed, unsubscribed, exited := [], false, false, false;
    }

    /** `addqueue`: the message joins the tail of the queue, or is dropped once the subscription is closed. */
    method AddQueue(msg: Msg)
      modifies this`queue
      ensures queue == old(queue) + (if closed then [] else [msg])
    {
      if closed {
        return;
      }
      queue := queue + [msg];
    }

    /**
     * One pass of the `run` loop, enabled once the wait on the condition
     * variable is over: the queue is non-empty or the subscription is
     * closed. A queued message is always delivered first, so `run`
     * exits only with an empty queue.
     */
    method RunStep() returns (step: Step)
      requires !exited && (queue != [] || closed)
      modifies this`queue, this`exited
      ensures old(queue) == [] ==> step == Exit && exited && queue == []
      ensures old(queue) != [] ==> step == Deliver(old(queue)[0]) && queue == old(queue)[1..] && !exited
    {
      if |queue| == 0 && closed {
        exited := true;
        return Exit;
      }
      var msg := queue[0];
      queue := queue[1..];
      step := Deliver(msg);
    }

    /**
     * `run` once the subscription is closed, when no message can join the
     * queue any more: every queued message is delivered, in order, before
     * `run` returns.
     */
    method Drain() returns (delivered: seq<Msg>)
      requires closed && !exited
      modifies this`queue, this`exited
      ensures delivered == old(queue) && queue == [] && exited
    {
      delivered := [];
      while !exited
        invariant delivered + queue == old(queue)
        invariant exited ==> queue == []
        decreases |queue|, !exited
      {
        var step := RunStep();
        if step.Deliver? {
          delivered := delivered + [step.msg];
        }
      }
    }

    /** Marking the subscription closed under its mutex, and a `Broadcast` that wakes `run`. */
    method MarkClosed()
      modifies this`closed
      ensures closed
    {
      closed := true;
    }

    /**
     * `Unsubscribe`: only the first call has an effect. It takes the
     * subscription out of the registry (unless the broker is closed) and
     * marks the subscription closed.
     */
    method Unsubscribe()
      requires broker.Valid()
      modifies this`closed, this`unsubscribed, broker`subs
      ensures broker.Valid()
      ensures old(unsubscribed) ==> unsubscribed && closed == old(closed) && broker.subs == old(broker.subs)
      ensures !old(unsubscribed) ==> unsubscribed && closed
      ensures !old(unsubscribed) && broker.closed ==> broker.subs == old(broker.subs)
      ensures !old(unsubscribed) && !broker.closed ==> Without(old(broker.subs), broker.subs, topic, this)
    {
      if unsubscribed {
        return;
      }
      unsubscribed := true;
      broker.RemoveSubscription(topic, this);
      MarkClosed();
    }
  }

  class PubSub {
    var subs: map<string, set<Subscription>>
    var closed: bool

    /** A closed broker has no registry, and no topic is kept with an empty set. */
    ghost predicate Valid()
      reads this
    {
      (closed ==> subs == map[]) && forall t :: t in subs ==> subs[t] != {}
    }

    /** `NewPubSub`. */
    constructor ()
      ensures subs == map[] && !closed && Valid()
    {
      subs, closed := map[], false;
    }

    /** The subscriptions of a topic; none for a topic without an entry. */
    function Subscribers(topic: string): set<Subscription>
      reads this
    {
      if topic in subs then subs[topic] else {}
    }

    /**
     * `Subscribe`: on a closed broker an error and no change; otherwise a
     * new open subscription joins its topic's set, which is made first if
     * the topic has none.
     */
    method Subscribe(topic: string) returns (sub: Subscription?, err: Option<string>)
      requires Valid()
      modifies this`subs
      ensures Valid()
      ensures closed ==> sub == null && err == Some(ErrClosed) && subs == old(subs)
      ensures !closed ==>
        err == None && sub != null && fresh(sub) && sub.broker == this && sub.topic == topic &&
        sub.queue == [] && !sub.closed && !sub.unsubscribed && !sub.exited &&
        subs == old(subs)[topic := old(Subscribers(topic)) + {sub}]
    {
      if closed {
        return null, Some(ErrClosed);
      }
      sub := new Subscription(this, topic);
      if topic !in subs {
        subs := subs[topic := {}];
      }
      subs := subs[topic := subs[topic] + {sub}];
      err := None;
    }

    /**
     * `Publish`: on a closed broker an error; otherwise the message joins
     * the tail of the queue of every subscription of the topic that is
     * not closed. A topic without an entry has nothing to deliver to.
     */
    method Publish(topic: string, msg: Msg) returns (err: Option<string>)
      requires Valid()
      modifies Subscribers(topic)`queue
      ensures closed ==> err == Some(ErrClosed)
      ensures !closed ==> err == None
      ensures forall s :: s in Subscribers(topic) ==> s.queue == old(s.queue) + (if s.closed then [] else [msg])
    {
      if closed {
        return Some(ErrClosed);
      }
      if topic !in subs {
        return None;
      }
      var subsCopy := Snapshot(subs[topic]);
      for i := 0 to |subsCopy|
        invariant forall s :: s in subs[topic] ==>
          s.queue == old(s.queue) + (if s in subsCopy[..i] && !s.closed then [msg] else [])
      {
        assert subsCopy[i] in subsCopy && subsCopy[i] !in subsCopy[..i];
        assert subsCopy[..i + 1] == subsCopy[..i] + [subsCopy[i]];
        subsCopy[i].AddQueue(msg);
      }
      assert subsCopy[..|subsCopy|] == subsCopy;
      err := None;
    }

    /** `removeSubscription`: nothing once the broker is closed; otherwise sub leaves its topic's set. */
    method RemoveSubscription(topic: string, sub: Subscription)
      requires Valid()
      modifies this`subs
      ensures Valid()
      ensures closed ==> subs == old(subs)
      ensures !closed ==> Without(old(subs), subs, topic, sub)
    {
      if closed {
        return;
      }
      if topic in subs {
        var rest := subs[topic] - {sub};
        subs := subs[topic := rest];
        if |rest| == 0 {
          subs := subs - {topic};
        }
      }
    }

    /**
     * `Close`, up to its wait for the `run` loops: a repeated call
     * returns nil and changes nothing; the first marks the broker closed,
     * clears the registry and marks every registered subscription closed.
     */
    method Close() returns (err: Option<string>)
      requires Valid()
      modifies this, Members(subs)`closed
      ensures Valid() && closed && err == None
      ensures old(closed) ==> subs == old(subs)
      ensures !old(closed) ==> subs == map[] && forall s :: s in old(Members(subs)) ==> s.closed
    {
      if closed {
        return None;
      }
      closed := true;
      var allSubs := Collect(subs);
      subs := map[];
      var rest := allSubs;
      while rest != {}
        modifies allSubs`closed
        invariant rest <= allSubs
        invariant forall s :: s in allSubs - rest ==> s.closed
        decreases |rest|
      {
        var s :| s in rest;
        s.MarkClosed();
        rest := rest - {s};
      }
      err := None;
    }
  }

  /** The copy of a topic's set into a slice: each subscription exactly once, in the map's order. */
  method Snapshot(ss: set<Subscription>) returns (copy: seq<Subscription>)
    ensures forall s :: s in copy <==> s in ss
    ensures forall i, j :: 0 <= i < j < |copy| ==> copy[i] != copy[j]
  {
    copy := [];
    var rest := ss;
    while rest != {}
      invariant forall s :: s in copy <==> s in ss - rest
      invariant rest <= ss
      invariant forall i, j :: 0 <= i < j < |copy| ==> copy[i] != copy[j]
      decreases |rest|
    {
      var s :| s in rest;
      copy := copy + [s];
      rest := rest - {s};
    }
  }

  /** The loops of `Close` that gather every subscription of every topic. */
  method Collect(m: map<string, set<Subscription>>) returns (all: set<Subscription>)
    ensures all == Members(m)
  {
    all := {};
    var topics := m.Keys;
    while topics != {}
      invariant topics <= m.Keys
      invariant all == Members(m - topics)
      decreases |topics|
    {
      var t :| t in topics;
      all := AddAll(all, m[t]);
      MembersAdd(m, topics, t);
      topics := topics - {t};
    }
    assert m - {} == m;
  }

  /** The inner loop of `Close`'s gathering: every subscription of one topic is appended. */
  method AddAll(all0: set<Subscription>, ss: set<Subscription>) returns (all: set<Subscription>)
    ensures all == all0 + ss
  {
    all := all0;
    var rest := ss;
    while rest != {}
      invariant rest <= ss
      invariant all == all0 + (ss - rest)
      decreases |rest|
    {
      var s :| s in rest;
      all := all + {s};
      rest := rest - {s};
    }
  }

  /** Taking one more topic into account adds exactly its subscriptions. */
  lemma MembersAdd(m: map<string, set<Subscription>>, topics: set<string>, t: string)
    requires t in topics && topics <= m.Keys
    ensures Members(m - (topics - {t})) == Members(m - topics) + m[t]
  {
    var after := m - (topics - {t});
    forall s | s in Members(after) ensures s in Members(m - topics) + m[t] {
      var u :| u in after && s in after[u];
      if u != t {
        assert u in m - topics && s in (m - topics)[u];
      }
    }
    forall s | s in Members(m - topics) ensures s in Members(after) {
      var u :| u in m - topics && s in (m - topics)[u];
      assert u in after && s in after[u];
    }
    forall s | s in m[t] ensures s in Members(after) {
      assert t in after && s in after[t];
    }
  }
}
