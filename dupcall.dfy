/**
 * The duplicate-call suppressor: concurrent `Do` calls share one run of
 * the callback. The first caller starts a call group and its worker;
 * callers arriving while the group is in flight join it; every waiter
 * gets the group's single result unless its own context ends first, and
 * once no waiter is left the worker's context is cancelled.
 *
 * Each critical section under the mutex is one atomic method: the entry
 * of `Do` (Begin), a waiter's cancellation (Cancel), a waiter's return
 * after `done` (Finish), and the worker's completion (Complete). Which of
 * them happens next, and the callback's result, belong to the
 * environment. A context is given by its error: None while it is live.
 */
module DupCall {
  import opened GoBase

  /** A callback result, opaque here; None is Go's nil. */
  type Value = string

  class Group {
    var res: Option<Value>
    var err: Option<string>
    /** `done` has been closed. */
    var done: bool
    /** The callers waiting on this group. */
    var waiting: int
    /** `cancelWorker` has been called. */
    var workerCanceled: bool

    /** The group a first caller makes: one waiter, no result yet. */
    constructor ()
      ensures res == None && err == None && !done && waiting == 1 && !workerCanceled
    {
      res, err, done := None, None, false;
      waiting, workerCanceled := 1, false;
    }
  }

  /** How the entry of `Do` ends. */
  datatype Entry =
    /** The context had already ended: `Do` returns nil and its error. */
    | Returned(err: string)
    /** The caller waits on the group in flight. */
    | Joined(grp: Group)
    /** The caller made a new group and started its worker. */
    | Started(grp: Group)

  class Call {
    var current: Group?

    /**
     * A current group is always in flight: the worker clears `current` in
     * the same critical section that closes `done`.
     */
    ghost predicate Valid()
      reads this, current
    {
      current != null ==> !current.done && current.waiting >= 0
    }

    constructor ()
      ensures current == null && Valid()
    {
      current := null;
    }

    /**
     * The entry of `Do`: an ended context returns at once and changes
     * nothing. Otherwise a group still in flight is joined, with one more
     * waiter, even one whose worker was already cancelled; without one a
     * new group with a single waiter becomes current. The check that
     * drops a current group whose `done` is closed never fires, since no
     * current group is done.
     */
    method Begin(ctxErr: Option<string>) returns (e: Entry)
      requires Valid()
      modifies this, current
      ensures Valid()
      ensures ctxErr.Some? ==>
        e == Returned(ctxErr.value) && current == old(current) && (current != null ==> unchanged(current))
      ensures ctxErr.None? && old(current) != null ==>
        e == Joined(old(current)) && current == old(current) &&
        current.waiting == old(current.waiting) + 1 && current.res == old(current.res) &&
        current.err == old(current.err) && !current.done && current.workerCanceled == old(current.workerCanceled)
      ensures ctxErr.None? && old(current) == null ==>
        e.Started? && fresh(e.grp) && current == e.grp &&
        e.grp.waiting == 1 && !e.grp.done && !e.grp.workerCanceled && e.grp.res == None && e.grp.err == None
    {
      if ctxErr.Some? {
        return Returned(ctxErr.value);
      }
      current := if current != null && current.done then null else current;
      if current != null {
        var grp := current;
        grp.waiting := grp.waiting + 1;
        return Joined(grp);
      }
      var grp := new Group();
      current := grp;
      e := Started(grp);
    }

    /**
     * A waiter whose context ends before `done`: it leaves the group and
     * returns nil and the context's error; the last waiter to leave
     * cancels the worker.
     */
    method Cancel(grp: Group, ctxErr: string) returns (res: Option<Value>, err: Option<string>)
      requires Valid() && grp.waiting > 0
      modifies grp`waiting, grp`workerCanceled
      ensures Valid()
      ensures res == None && err == Some(ctxErr)
      ensures grp.waiting == old(grp.waiting) - 1
      ensures grp.workerCanceled <==> old(grp.workerCanceled) || grp.waiting == 0
    {
      grp.waiting := grp.waiting - 1;
      if grp.waiting == 0 {
        grp.workerCanceled := true;
      }
      res, err := None, Some(ctxErr);
    }

    /** A waiter that sees `done` closed: it leaves the group and returns the group's result. */
    method Finish(grp: Group) returns (res: Option<Value>, err: Option<string>)
      requires Valid() && grp.done && grp.waiting > 0
      modifies grp`waiting
      ensures Valid()
      ensures res == grp.res && err == grp.err
      ensures grp.waiting == old(grp.waiting) - 1
    {
      res, err := grp.res, grp.err;
      grp.waiting := grp.waiting - 1;
    }

    /**
     * The worker's completion, once per group: the callback's result is
     * stored, `done` is closed and `current` cleared. Since only this step
     * writes the result and it needs `done` still open, every waiter that
     * finishes sees the same result.
     */
    method Complete(grp: Group, res: Option<Value>, err: Option<string>)
      requires Valid() && !grp.done
      modifies this, grp`res, grp`err, grp`done
      ensures Valid()
      ensures grp.res == res && grp.err == err && grp.done && current == null
    {
      grp.res, grp.err := res, err;
      grp.done := true;
      current := null;
    }
  }
}
