/** The ring of bytes inside a pipe. */
module Pipes {

  const PIPE_SIZE: nat := 1024

  type Byte = b: int | 0 <= b < 256

  // ---- the ring ----

  datatype Ring = Ring(bytes: seq<Byte>, readPos: nat, writePos: nat, amount: int)

  /** The slot i places after position p, going round once at most. */
  function Slot(p: nat, i: nat): nat
    requires p < PIPE_SIZE && i <= PIPE_SIZE
  {
    if p + i < PIPE_SIZE then p + i else p + i - PIPE_SIZE
  }

  /** The bytes still to be read are consecutive slots starting at readPos. */
  predicate RingInv(r: Ring) {
    && |r.bytes| == PIPE_SIZE
    && r.readPos < PIPE_SIZE && r.writePos < PIPE_SIZE
    && 0 <= r.amount <= PIPE_SIZE
    && r.writePos == Slot(r.readPos, r.amount)
  }

  function Unread(r: Ring): seq<Byte>
    requires RingInv(r)
  {
    seq(r.amount, i requires 0 <= i < r.amount => r.bytes[Slot(r.readPos, i)])
  }

  /** The three lines of read_from_pipe between the semaphore calls. */
  function Taken(r: Ring): Ring {
    r.(readPos := (r.readPos + 1) % PIPE_SIZE, amount := r.amount - 1)
  }

  /** The three lines of write_to_pipe between the semaphore calls. */
  function Put(r: Ring, b: Byte): Ring
    requires r.writePos < |r.bytes|
  {
    r.(bytes := r.bytes[r.writePos := b], writePos := (r.writePos + 1) % PIPE_SIZE, amount := r.amount + 1)
  }

  lemma TakenUnread(r: Ring)
    requires RingInv(r) && r.amount > 0
    ensures RingInv(Taken(r))
    ensures Unread(r) == [r.bytes[r.readPos]] + Unread(Taken(r))
  {
    var t := Taken(r);
    forall i | 0 <= i < t.amount ensures Slot(t.readPos, i) == Slot(r.readPos, i + 1) {
    }
  }

  /** No unread byte is overwritten. */
  lemma PutUnread(r: Ring, b: Byte)
    requires RingInv(r) && r.amount < PIPE_SIZE
    ensures RingInv(Put(r, b))
    ensures Unread(Put(r, b)) == Unread(r) + [b]
    ensures forall i | 0 <= i < r.amount :: Slot(r.readPos, i) != r.writePos
  {
  }

  /** One entry of pipeList, without its semaphores. */
  class PipeEntry {
    const pipe: array<Byte>
    var readPos: nat
    var writePos: nat
    var amount: int

    ghost function Value(): Ring
      reads this, pipe
    {
      Ring(pipe[..], readPos, writePos, amount)
    }

    ghost predicate Valid()
      reads this, pipe
    {
      RingInv(Value())
    }

    constructor ()
      ensures Valid() && Unread(Value()) == [] && fresh(pipe)
    {
      pipe := new Byte[PIPE_SIZE](_ => 0);
      readPos, writePos, amount := 0, 0, 0;
    }

    method TakeByte() returns (b: Byte)
      requires Valid() && amount > 0
      modifies this
      ensures Valid() && Value() == Taken(old(Value()))
      ensures [b] + Unread(Value()) == old(Unread(Value()))
    {
      TakenUnread(Value());
      b := pipe[readPos];
      readPos := (readPos + 1) % PIPE_SIZE;
      amount := amount - 1;
    }

    method PutByte(b: Byte)
      requires Valid() && amount < PIPE_SIZE
      modifies this, pipe
      ensures Valid() && Value() == Put(old(Value()), b)
      ensures Unread(Value()) == old(Unread(Value())) + [b]
    {
      PutUnread(Value(), b);
      ghost var r := Value();
      pipe[writePos] := b;
      writePos := (writePos + 1) % PIPE_SIZE;
      amount := amount + 1;
      assert Value() == Put(r, b);
    }
  }
}
