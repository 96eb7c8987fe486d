/**
 The table of phylo.c: the state array, the ring its first num entries form,
 and try_to_eat.
 */
module Philosophers {

  const MIN_PHILOSOPHERS: nat := 3

  datatype PState = NONE | THINKING | HUNGRY | EATING

  /** Where a philosopher's process is in its loop; Gone: there is no such process. */
  datatype Place =
    | Gone
    | Away
    | WantHungry                                   // in its wait on the mutex
    | SetHungry | TryOwn | PostHungry
    | OwnSem                                       // in its wait on its own semaphore
    | Dining
    | WantThinking
    | SetThinking | TryLeft | TryRight | PostThinking

  /** Between the wait and the post on the mutex. */
  predicate Inside(p: Place) {
    p.SetHungry? || p.TryOwn? || p.PostHungry? || p.SetThinking? || p.TryLeft? || p.TryRight? || p.PostThinking?
  }

  predicate Wants(p: Place) {
    p.WantHungry? || p.WantThinking?
  }

  /** Between its own sem_wait and the return to THINKING. */
  predicate Past(p: Place) {
    p.Dining? || p.WantThinking? || p.SetThinking?
  }

  /** From HUNGRY up to its own sem_wait. */
  predicate Sitting(p: Place) {
    p.TryOwn? || p.PostHungry? || p.OwnSem?
  }

  predicate Tries(p: Place) {
    p.TryOwn? || p.TryLeft? || p.TryRight?
  }

  /** The neighbours on a ring of num seats. */
  function Left(id: nat, num: nat): (r: nat)
    requires id < num
    ensures r < num
  {
    if id == 0 then num - 1 else id - 1
  }

  function Right(id: nat, num: nat): (r: nat)
    requires id < num
    ensures r < num
  {
    if id == num - 1 then 0 else id + 1
  }

  lemma ModAfterOneLap(x: nat, num: nat)
    requires x < num
    ensures x % num == x && (x + num) % num == x
  {
    assert (x + num) / num == 1;
  }

  /** The macros LEFT and RIGHT. */
  lemma LeftIsMacro(id: nat, num: nat)
    requires id < num
    ensures Left(id, num) == (id + num - 1) % num
  {
    ModAfterOneLap(Left(id, num), num);
  }

  lemma RightIsMacro(id: nat, num: nat)
    requires id < num
    ensures Right(id, num) == (id + 1) % num
  {
    ModAfterOneLap(Right(id, num), num);
  }

  lemma LeftRight(id: nat, num: nat)
    requires id < num
    ensures Left(Right(id, num), num) == id && Right(Left(id, num), num) == id
    ensures num >= 3 ==> Left(id, num) != Right(id, num) && Left(id, num) != id && Right(id, num) != id
  {
  }

  /** id may start eating. */
  predicate MayEat(st: seq<PState>, num: nat, id: nat)
    requires id < num <= |st|
  {
    st[id] == HUNGRY && st[Left(id, num)] != EATING && st[Right(id, num)] != EATING
  }

  function Try(st: seq<PState>, num: nat, id: nat): seq<PState>
    requires id < num <= |st|
  {
    if MayEat(st, num, id) then st[id := EATING] else st
  }

  /** No two distinct neighbours eat. */
  ghost predicate Peaceful(st: seq<PState>, num: nat)
    requires num <= |st|
  {
    forall i {:trigger Right(i, num)} | 0 <= i < num && Right(i, num) != i :: st[i] != EATING || st[Right(i, num)] != EATING
  }

  lemma TryKeepsPeace(st: seq<PState>, num: nat, id: nat)
    requires id < num <= |st| && Peaceful(st, num)
    ensures Peaceful(Try(st, num, id), num)
  {
    LeftRight(id, num);
    forall i | 0 <= i < num && Right(i, num) != i
      ensures Try(st, num, id)[i] != EATING || Try(st, num, id)[Right(i, num)] != EATING
    {
      LeftRight(i, num);
    }
  }

  lemma StandingUpKeepsPeace(st: seq<PState>, num: nat, id: nat, x: PState)
    requires id < |st| && num <= |st| && x != EATING && Peaceful(st, num)
    ensures Peaceful(st[id := x], num)
  {
  }

  class Table {
    const states: array<PState>
    var num: nat

    constructor (size: nat)
      ensures fresh(states) && states.Length == size && num == 0
      ensures forall i | 0 <= i < size :: states[i] == NONE
    {
      states := new PState[size](_ => NONE);
      num := 0;
    }

    /** posted: whether id's semaphore gets a post. */
    method TryToEat(id: nat) returns (posted: bool)
      requires id < num <= states.Length
      modifies states
      ensures posted == old(MayEat(states[..], num, id))
      ensures states[..] == Try(old(states[..]), num, id)
    {
      LeftIsMacro(id, num);
      RightIsMacro(id, num);
      if states[id] == HUNGRY && states[(id + num - 1) % num] != EATING && states[(id + 1) % num] != EATING {
        states[id] := EATING;
        return true;
      }
      return false;
    }

    /** The first critical section of philosopher_action. */
    method GetHungry(id: nat) returns (posted: bool)
      requires id < num <= states.Length && Peaceful(states[..], num)
      modifies states
      ensures states[..] == Try(old(states[..])[id := HUNGRY], num, id)
      ensures posted == (states[id] == EATING)
      ensures Peaceful(states[..], num)
    {
      StandingUpKeepsPeace(states[..], num, id, HUNGRY);
      TryKeepsPeace(states[..][id := HUNGRY], num, id);
      states[id] := HUNGRY;
      assert states[..] == old(states[..])[id := HUNGRY];
      posted := TryToEat(id);
    }

    /** The second critical section: both neighbours get their chance. */
    method GetThinking(id: nat) returns (left: bool, right: bool)
      requires id < num <= states.Length && Peaceful(states[..], num)
      modifies states
      ensures var up := old(states[..])[id := THINKING];
              && left == MayEat(up, num, Left(id, num))
              && right == MayEat(Try(up, num, Left(id, num)), num, Right(id, num))
              && states[..] == Try(Try(up, num, Left(id, num)), num, Right(id, num))
      ensures Peaceful(states[..], num)
    {
      StandingUpKeepsPeace(states[..], num, id, THINKING);
      states[id] := THINKING;
      assert states[..] == old(states[..])[id := THINKING];
      LeftIsMacro(id, num);
      RightIsMacro(id, num);
      TryKeepsPeace(states[..], num, Left(id, num));
      left := TryToEat((id + num - 1) % num);
      TryKeepsPeace(states[..], num, Right(id, num));
      right := TryToEat((id + 1) % num);
    }
  }
}
