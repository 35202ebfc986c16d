/**
 * The channel-built readers-writer lock: a writer channel holding one
 * token and a readers channel holding up to MaxReaders tokens. A reader
 * takes one reader token; the writer takes the writer token and then,
 * one at a time, every reader token.
 *
 * A channel is the number of tokens in its buffer. Each send or receive
 * is one atomic step, so `Lock`, whose receives may each block, is the
 * step that takes the writer token followed by MaxReaders steps that each
 * take one reader token. A receive is enabled only when its channel has a
 * token; a send only when the buffer has room, which Valid guarantees for
 * every send here.
 */
module RWMutex {

  /** `maxReaders`, `1 << 4`. */
  const MaxReaders: nat := 16

  class RWMutex {
    /** Tokens in the writer channel, whose capacity is 1. */
    var writer: nat
    /** Tokens in the readers channel, whose capacity is MaxReaders. */
    var readers: nat
    /** Reader tokens held by readers between RLock and RUnlock. */
    ghost var readersHeld: nat
    /** Reader tokens the writer has taken so far. */
    ghost var writerHeld: nat
    /** The writer token has been taken. */
    ghost var writing: bool

    /** Every reader token is somewhere, the writer token too, and only a writer holds reader tokens for writing. */
    ghost predicate Valid()
      reads this
    {
      readers + readersHeld + writerHeld == MaxReaders &&
      writer + (if writing then 1 else 0) == 1 &&
      (writerHeld > 0 ==> writing)
    }

    /** `Lock` has returned: the writer holds its token and all reader tokens. */
    ghost predicate WriteLocked()
      reads this
    {
      writing && writerHeld == MaxReaders
    }

    /** `New`: the writer token and MaxReaders reader tokens are put in their channels. */
    constructor ()
      ensures Valid() && writer == 1 && readers == MaxReaders
      ensures readersHeld == 0 && writerHeld == 0 && !writing
    {
      writer, readers := 0, 0;
      readersHeld, writerHeld, writing := 0, 0, false;
      new;
      writer := 1;
      for i := 0 to MaxReaders
        modifies this`readers
        invariant readers == i
      {
        PutReader();
      }
    }

    /** One send to the readers channel, which needs room in its buffer. */
    method PutReader()
      requires readers < MaxReaders
      modifies this`readers
      ensures readers == old(readers) + 1
    {
      readers := readers + 1;
    }

    /** `RLock`: enabled while a reader token is available; a reader takes it. */
    method RLock()
      requires Valid() && readers > 0
      modifies this
      ensures Valid()
      ensures readers == old(readers) - 1 && readersHeld == old(readersHeld) + 1
      ensures writer == old(writer) && writerHeld == old(writerHeld) && writing == old(writing)
    {
      readers := readers - 1;
      readersHeld := readersHeld + 1;
    }

    /** `RUnlock` by a reader holding a token: the token goes back, and the buffer always has room for it. */
    method RUnlock()
      requires Valid() && readersHeld > 0
      modifies this
      ensures Valid()
      ensures readers == old(readers) + 1 && readersHeld == old(readersHeld) - 1
      ensures writer == old(writer) && writerHeld == old(writerHeld) && writing == old(writing)
    {
      PutReader();
      readersHeld := readersHeld - 1;
    }

    /** The first receive of `Lock`: enabled while the writer token is available, so one writer at a time. */
    method LockWriter()
      requires Valid() && writer > 0
      modifies this
      ensures Valid()
      ensures old(!writing) && writing && writer == 0 && writerHeld == 0
      ensures readers == old(readers) && readersHeld == old(readersHeld)
    {
      writer := 0;
      writing := true;
    }

    /**
     * One receive of the loop of `Lock`, by the writer that holds the
     * writer token and has not taken every reader token yet. After the
     * last one no reader holds a token and none is available.
     */
    method LockReader()
      requires Valid() && writing && writerHeld < MaxReaders && readers > 0
      modifies this
      ensures Valid()
      ensures readers == old(readers) - 1 && writerHeld == old(writerHeld) + 1
      ensures writer == old(writer) && readersHeld == old(readersHeld) && writing
      ensures WriteLocked() ==> readersHeld == 0 && readers == 0
    {
      readers := readers - 1;
      writerHeld := writerHeld + 1;
    }

    /**
     * `Unlock` by the writer after `Lock` returned: every reader token is
     * put back before the writer token. No send blocks, so the whole call
     * is one step.
     */
    method Unlock()
      requires Valid() && WriteLocked()
      modifies this
      ensures Valid()
      ensures writer == 1 && readers == MaxReaders && !writing && writerHeld == 0 && readersHeld == 0
    {
      for i := 0 to MaxReaders
        modifies this`readers, this`writerHeld
        invariant readers == i && writerHeld == MaxReaders - i
      {
        PutReader();
        writerHeld := writerHeld - 1;
      }
      writer := writer + 1;
      writing := false;
    }
  }
}
