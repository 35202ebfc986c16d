/**
 * The key lock: a caller locks a set of string keys all at once or waits
 * until some holder unlocks and tries again; the caller may give up
 * through a cancel channel.
 *
 * The mutex makes every critical section one atomic method of KeyLock:
 * the attempt of `LockKeys` (check, then acquire or record the current
 * update channel), the returned unlock closure, and the `select` that ends
 * a wait. The update channel is identified by a generation number, raised
 * each time an unlock closes the channel and makes a new one.
 */
module KeyLock {
  import opened GoStrings

  /** What a successful `LockKeys` hands back: the unlock closure and the sorted keys it captured. */
  datatype Handle = Handle(id: nat, keys: seq<string>)

  datatype Attempt =
    | Locked(handle: Handle)
    /** A conflict: the caller waits for the update channel of this generation to close. */
    | Blocked(generation: nat)

  function Keys(s: seq<string>): set<string> {
    set k | k in s
  }

  /** Every locked key belongs to exactly one live holder: the key sets of distinct holders are disjoint. */
  ghost predicate Exclusive(locked: set<string>, holders: map<nat, set<string>>, nextId: nat) {
    (forall id :: id in holders ==> id < nextId && holders[id] <= locked) &&
    (forall k :: k in locked ==> exists id :: id in holders && k in holders[id]) &&
    (forall i, j :: i in holders && j in holders && i != j ==> holders[i] !! holders[j])
  }

  /** Locking keys none of which is locked, under a new holder, keeps the holders exclusive. */
  lemma AcquireKeepsExclusive(locked: set<string>, holders: map<nat, set<string>>, nextId: nat, ks: set<string>)
    requires Exclusive(locked, holders, nextId) && ks !! locked
    ensures Exclusive(locked + ks, holders[nextId := ks], nextId + 1)
  {
    var h := holders[nextId := ks];
    forall k | k in locked + ks ensures exists id :: id in h && k in h[id] {
      if k !in ks {
        var id :| id in holders && k in holders[id];
        assert id != nextId && h[id] == holders[id];
      } else {
        assert nextId in h && k in h[nextId];
      }
    }
  }

  /** Releasing a live holder's keys and dropping the holder keeps the others exclusive. */
  lemma ReleaseKeepsExclusive(locked: set<string>, holders: map<nat, set<string>>, nextId: nat, id: nat)
    requires Exclusive(locked, holders, nextId) && id in holders
    ensures Exclusive(locked - holders[id], holders - {id}, nextId)
  {
    var h := holders - {id};
    forall k | k in locked - holders[id] ensures exists j :: j in h && k in h[j] {
      var j :| j in holders && k in holders[j];
      assert j != id && h[j] == holders[j];
    }
  }

  class KeyLock {
    var locked: set<string>
    /** Which update channel is current; each unlock closes it and makes the next. */
    var generation: nat
    /** The keys of every holder whose unlock has not been called yet. */
    ghost var holders: map<nat, set<string>>
    /** Tells the unlock closures apart: the number of successful attempts so far. */
    var nextId: nat

    ghost predicate Valid()
      reads this
    {
      Exclusive(locked, holders, nextId)
    }

    /** `New`. */
    constructor ()
      ensures locked == {} && generation == 0 && holders == map[] && Valid()
    {
      locked, generation := {}, 0;
      holders := map[];
      nextId := 0;
    }

    /** The conflict loop: some requested key is already locked. */
    method Conflict(keys: seq<string>) returns (conflict: bool)
      ensures conflict <==> exists i :: 0 <= i < |keys| && keys[i] in locked
    {
      conflict := false;
      for i := 0 to |keys|
        invariant !conflict && forall j :: 0 <= j < i ==> keys[j] !in locked
      {
        if keys[i] in locked {
          conflict := true;
          break;
        }
      }
    }

    /**
     * One attempt of `LockKeys` under the mutex, on the sorted copy of the
     * caller's keys: all of them are locked in one step when none is in
     * use; otherwise nothing changes and the attempt reports the current
     * generation to wait on.
     */
    method TryLock(keys: seq<string>) returns (r: Attempt)
      requires Valid()
      modifies this
      ensures Valid()
      ensures keys == [] ==> r.Locked?
      ensures Keys(keys) !! old(locked) ==>
        r == Locked(Handle(old(nextId), SortStrings(keys))) && locked == old(locked) + Keys(keys) &&
        generation == old(generation) && holders == old(holders)[old(nextId) := Keys(keys)] && nextId == old(nextId) + 1
      ensures !(Keys(keys) !! old(locked)) ==> r == Blocked(old(generation)) && unchanged(this)
    {
      var keysCopy := SortStrings(keys);
      SortedCopy(keys);
      assert forall k :: k in keysCopy <==> k in Keys(keys);
      var conflict := Conflict(keysCopy);
      if conflict {
        ghost var i :| 0 <= i < |keysCopy| && keysCopy[i] in locked;
        assert keysCopy[i] in Keys(keys);
        return Blocked(generation);
      }
      AcquireKeepsExclusive(locked, holders, nextId, Keys(keys));
      AddKeys(keysCopy);
      holders := holders[nextId := Keys(keys)];
      nextId := nextId + 1;
      r := Locked(Handle(nextId - 1, keysCopy));
    }

    /**
     * The unlock closure of a holder that has not unlocked yet: its keys
     * are released, the update channel is closed (waking every waiter) and
     * a new one made.
     */
    method Unlock(h: Handle)
      requires Valid() && h.id in holders && holders[h.id] == Keys(h.keys)
      modifies this
      ensures Valid()
      ensures locked == old(locked) - Keys(h.keys) && generation == old(generation) + 1
      ensures holders == old(holders) - {h.id} && nextId == old(nextId)
    {
      ReleaseKeepsExclusive(locked, holders, nextId, h.id);
      RemoveKeys(h.keys);
      generation := generation + 1;
      holders := holders - {h.id};
    }

    /** The loop that marks the keys locked. */
    method AddKeys(ks: seq<string>)
      modifies this`locked
      ensures locked == old(locked) + Keys(ks)
    {
      for i := 0 to |ks|
        invariant locked == old(locked) + Keys(ks[..i])
      {
        assert Keys(ks[..i + 1]) == Keys(ks[..i]) + {ks[i]} by {
          assert ks[..i + 1] == ks[..i] + [ks[i]];
        }
        locked := locked + {ks[i]};
      }
      assert ks[..|ks|] == ks;
    }

    /** The loop of the unlock closure that deletes the keys. */
    method RemoveKeys(ks: seq<string>)
      modifies this`locked
      ensures locked == old(locked) - Keys(ks)
    {
      for i := 0 to |ks|
        invariant locked == old(locked) - Keys(ks[..i])
      {
        assert Keys(ks[..i + 1]) == Keys(ks[..i]) + {ks[i]} by {
          assert ks[..i + 1] == ks[..i] + [ks[i]];
        }
        locked := locked - {ks[i]};
      }
      assert ks[..|ks|] == ks;
    }

    /**
     * The `select` that ends a wait on generation `gen`: enabled once the
     * cancel channel is ready or that update channel has been closed; when
     * both are, `preferCancel` is Go's random choice. Nothing changes: a
     * cancelled caller gets a no-op unlock, and one that was woken tries
     * again.
     */
    method Resume(gen: nat, cancelReady: bool, preferCancel: bool) returns (canceled: bool)
      requires cancelReady || generation != gen
      ensures !cancelReady ==> !canceled
      ensures cancelReady && generation == gen ==> canceled
      ensures cancelReady && generation != gen ==> (canceled <==> preferCancel)
    {
      if cancelReady && generation != gen {
        canceled := preferCancel;
      } else {
        canceled := cancelReady;
      }
    }
  }

  /** The sorted copy holds the caller's keys, each as often; the caller's slice itself is not touched. */
  lemma SortedCopy(keys: seq<string>)
    ensures SortedStrings(SortStrings(keys)) && multiset(SortStrings(keys)) == multiset(keys)
    ensures Keys(SortStrings(keys)) == Keys(keys)
  {
    var s := SortStrings(keys);
    forall k ensures k in s <==> k in keys {
      assert k in s <==> k in multiset(s);
      assert k in keys <==> k in multiset(keys);
    }
  }
}
