/** The log ring in shared memory (src/io.c): osal_printf overwrites the oldest message when the
    ring is full, osal_io_shm_get_message takes the oldest one. */
module LogRing {

  import opened Basics

  /** The slot k places after slot i, on a ring of `slots` slots. */
  ghost function Position(i: nat, k: nat, slots: nat): (p: nat)
    requires i < slots && k <= slots
    ensures p < slots && (p == i <==> k == 0 || k == slots)
  {
    if i + k < slots then i + k else i + k - slots
  }

  lemma PositionShift(i: nat, k: nat, slots: nat)
    requires i < slots && k < slots
    ensures Position(Position(i, 1, slots), k, slots) == Position(i, k + 1, slots)
    ensures Position(Position(i, k, slots), 1, slots) == Position(i, k + 1, slots)
  {
  }

  /** (i + 1) % max_messages, where i + 1 is a 32-bit sum. */
  function Next(i: nat, maxMessages: nat): nat
    requires maxMessages > 0
  {
    (i + 1) % TWO32 % maxMessages
  }

  /** The slots that can be in use: a 32-bit index reaches no further. */
  function Slots(maxMessages: nat): nat {
    if maxMessages < TWO32 then maxMessages else TWO32
  }

  /** Up to 2^32 messages all slots are used. */
  lemma SlotsExact(maxMessages: nat)
    ensures maxMessages <= 0x1_0000_0000 ==> Slots(maxMessages) == maxMessages
    ensures maxMessages > 0x1_0000_0000 ==> Slots(maxMessages) == 0x1_0000_0000
  {
  }

  lemma NextIsPosition(i: nat, maxMessages: nat)
    requires maxMessages > 0 && i < Slots(maxMessages)
    ensures Next(i, maxMessages) == Position(i, 1, Slots(maxMessages))
  {
    if i + 1 < Slots(maxMessages) {
      SmallModulus(i + 1, TWO32);
      SmallModulus(i + 1, maxMessages);
    } else if maxMessages < TWO32 {
      SmallModulus(i + 1, TWO32);
      SelfModulus(maxMessages);
    } else {
      SelfModulus(TWO32);
      SmallModulus(0, maxMessages);
    }
  }

  lemma SelfModulus(b: nat)
    requires b > 0
    ensures b % b == 0
  {
  }

  lemma SmallModulus(a: nat, b: nat)
    requires a < b
    ensures a % b == a
  {
  }

  class Ring<M(0)> {
    // max_messages, a 64-bit size.
    const maxMessages: nat
    // 32-bit indices: of the message printed last and of the message written last.
    var actPrinted: nat
    var actWritten: nat
    const msgs: array<M>
    // The count of the semaphore that writers post.
    var sem: nat

    // Every message ever written, and how many of them have left the ring in which way.
    ghost var writes: seq<M>
    ghost var delivered: nat
    ghost var overwritten: nat

    /** The messages in the ring, oldest first. */
    ghost function Pending(): seq<M>
      requires delivered + overwritten <= |writes|
      reads this
    {
      writes[delivered + overwritten..]
    }

    ghost predicate Valid()
      reads this, msgs
    {
      && 1 <= maxMessages == msgs.Length
      && delivered + overwritten <= |writes|
      && Holds(msgs[..], actPrinted, actWritten, Pending(), Slots(maxMessages))
      && |Pending()| <= sem
    }

    /** The initialization of osal_io_shm_setup. */
    constructor (maxMsgs: nat)
      requires maxMsgs >= 1
      ensures Valid() && maxMessages == maxMsgs && fresh(msgs)
      ensures writes == [] && delivered == 0 && overwritten == 0 && sem == 0
    {
      maxMessages := maxMsgs;
      actPrinted, actWritten, sem := 0, 0, 0;
      msgs := new M[maxMsgs];
      writes, delivered, overwritten := [], 0, 0;
    }

    /** The ring branch of osal_printf: appends, and drops the oldest message if the ring is full. */
    method Print(m: M)
      requires Valid()
      modifies this, msgs
      ensures Valid()
      ensures writes == old(writes) + [m] && delivered == old(delivered)
      ensures overwritten == old(overwritten) + if |old(Pending())| == Slots(maxMessages) - 1 then 1 else 0
      ensures sem == old(sem) + 1
    {
      ghost var slots, pending := Slots(maxMessages), Pending();
      NextIsPosition(actWritten, maxMessages);
      NextIsPosition(actPrinted, maxMessages);
      PositionShift(actPrinted, |pending|, slots);
      WriteHolds(msgs[..], actPrinted, actWritten, pending, slots, m);
      var nextWrite := Next(actWritten, maxMessages);
      if nextWrite == actPrinted {
        actPrinted := Next(actPrinted, maxMessages);
        overwritten := overwritten + 1;
      }
      msgs[nextWrite] := m;
      actWritten := nextWrite;
      writes := writes + [m];
      sem := sem + 1;
      assert Pending() == if |pending| == slots - 1 then (pending + [m])[1..] else pending + [m];
    }

    /** osal_io_shm_get_message as one step; `waits` stands for a timeout that is not NULL.  With an
        empty ring the semaphore is taken if it can be, but nothing can arrive within the step. */
    method GetMessage(waits: bool, msg0: M) returns (ok: bool, msg: M)
      requires Valid()
      modifies this
      ensures Valid()
      ensures writes == old(writes) && overwritten == old(overwritten)
      ensures ok <==> old(Pending()) != []
      ensures ok ==> msg == old(Pending())[0] && delivered == old(delivered) + 1
      ensures !ok ==> msg == msg0 && delivered == old(delivered)
      ensures sem == if !ok && waits && old(sem) > 0 then old(sem) - 1 else old(sem)
    {
      ghost var slots, pending := Slots(maxMessages), Pending();
      ok, msg := false, msg0;
      if actPrinted == actWritten {
        if waits && sem > 0 {
          sem := sem - 1;
        }
      }
      if actPrinted != actWritten {
        NextIsPosition(actPrinted, maxMessages);
        ReadHolds(msgs[..], actPrinted, actWritten, pending, slots);
        actPrinted := Next(actPrinted, maxMessages);
        msg := msgs[actPrinted];
        ok := true;
        delivered := delivered + 1;
        assert Pending() == pending[1..];
      }
    }
  }

  /** The slots after `printed`, up to `written`, hold the pending messages. */
  ghost predicate Holds<M>(msgs: seq<M>, printed: nat, written: nat, pending: seq<M>, slots: nat) {
    && printed < slots <= |msgs| && |pending| < slots
    && written == Position(printed, |pending|, slots)
    && forall k: nat {:trigger pending[k]} :: k < |pending| ==> msgs[Position(printed, k + 1, slots)] == pending[k]
  }

  /** Writing refines the drop-oldest queue of capacity slots - 1; the ring is full exactly when
      the next slot is the one printed last. */
  lemma WriteHolds<M>(msgs: seq<M>, printed: nat, written: nat, pending: seq<M>, slots: nat, m: M)
    requires Holds(msgs, printed, written, pending, slots)
    ensures
      var next := Position(written, 1, slots);
      && (next == printed <==> |pending| == slots - 1)
      && if |pending| == slots - 1 then Holds(msgs[next := m], Position(printed, 1, slots), next, (pending + [m])[1..], slots)
         else Holds(msgs[next := m], printed, next, pending + [m], slots)
  {
    var next := Position(written, 1, slots);
    PositionShift(printed, |pending|, slots);
    if |pending| == slots - 1 {
      var after, rest := Position(printed, 1, slots), (pending + [m])[1..];
      forall k: nat | k < |rest| ensures msgs[next := m][Position(after, k + 1, slots)] == rest[k] {
        if k + 1 < slots {
          PositionShift(printed, k + 1, slots);
        }
        if k + 1 < |pending| {
          assert rest[k] == pending[k + 1];
        }
      }
      PositionShift(printed, |rest|, slots);
    }
  }

  /** Reading takes the oldest message. */
  lemma ReadHolds<M>(msgs: seq<M>, printed: nat, written: nat, pending: seq<M>, slots: nat)
    requires Holds(msgs, printed, written, pending, slots)
    ensures printed == written <==> pending == []
    ensures pending != [] ==>
              && msgs[Position(printed, 1, slots)] == pending[0]
              && Holds(msgs, Position(printed, 1, slots), written, pending[1..], slots)
  {
    if pending != [] {
      var after, rest := Position(printed, 1, slots), pending[1..];
      forall k: nat | k < |rest| ensures msgs[Position(after, k + 1, slots)] == rest[k] {
        PositionShift(printed, k + 1, slots);
        assert rest[k] == pending[k + 1];
      }
      PositionShift(printed, |rest|, slots);
    }
  }
}
