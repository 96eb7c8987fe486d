/**
 On the ring that grows and shrinks: when is a philosopher that has passed its
 own semaphore really EATING?  Every post on that semaphore stands for one
 turn at eating, but a unit may outlive its philosopher.
 */
module DiningUnits {
  import opened Philosophers
  import opened DiningRing

  /** The units of i's semaphore that stand for no turn of i at eating, less the turns that have none. */
  function Stray(s: Ring, i: nat): int
    requires Sized(s) && i < |s.at|
  {
    if s.at[i].Gone? then s.sem[i]
    else s.sem[i] + (if Past(s.at[i]) then 1 else 0) - (if s.st[i] == EATING then 1 else 0)
  }

  /** No semaphore has a unit to spare.  One may have too few: the host can take one. */
  ghost predicate NoSpare(s: Ring)
    requires Sized(s)
  {
    forall i {:trigger Stray(s, i)} | 0 <= i < |s.at| :: Stray(s, i) <= 0
  }

  /** Everybody past its own semaphore is EATING. */
  ghost predicate PastEats(s: Ring)
    requires Sized(s)
  {
    forall i {:trigger s.at[i]} | 0 <= i < |s.at| && Past(s.at[i]) :: s.st[i] == EATING
  }

  // ---- what else holds of states, semaphores and places ----

  /** A philosopher that is hungry or eats is at a place where it can be. */
  predicate AtPlace(s: Ring, i: nat)
    requires Sized(s) && i < |s.at|
  {
    && s.sem[i] >= 0
    && (!s.at[i].Gone? && (s.st[i] == HUNGRY || s.st[i] == EATING) ==> Sitting(s.at[i]) || Past(s.at[i]))
    && (Sitting(s.at[i]) ==> s.st[i] == HUNGRY || s.st[i] == EATING)
  }

  predicate BeingRemoved(h: Host) {
    h.RemoveClose? || h.RemoveSet? || h.RemoveCount?
  }

  /** Everybody counted has a process, except the last one while it is removed. */
  ghost predicate Present(s: Ring) {
    && Sized(s)
    && (forall i {:trigger s.at[i]} | 0 <= i < s.num && s.at[i].Gone? :: i == s.num - 1 && (BeingRemoved(s.host) || Stuck(s)))
    && (s.host.AddCount? && s.num < |s.at| ==> !s.at[s.num].Gone?)
  }

  ghost predicate Orderly(s: Ring) {
    && Inv(s) && Present(s)
    && forall i {:trigger AtPlace(s, i)} | 0 <= i < |s.at| :: AtPlace(s, i)
  }

  // ---- philosophers ----

  lemma PhilosopherKeepsPresent(s: Ring, id: nat)
    requires Inv(s) && Present(s) && Enabled(s, PhilosopherMoves(id))
    ensures Present(Philosopher(s, id))
  {
    if id < s.num {
      PhilosopherPlaces(s, id);
      PhilosopherKeepsPeace(s, id);
    }
    if Stuck(s) {
      StuckStays(s, PhilosopherMoves(id));
    }
  }

  /** try_to_eat changes a hungry philosopher's state and its semaphore together. */
  lemma TryForUnits(s: Ring, k: nat, j: nat)
    requires Sized(s) && k < s.num && j < |s.at| && AtPlace(s, j) && !s.at[k].Gone?
    ensures AtPlace(TryFor(s, k), j) && Stray(TryFor(s, k), j) == Stray(s, j)
  {
  }

  lemma SomebodyInside(s: Ring, id: nat)
    requires Inv(s) && Present(s) && id < s.num && Inside(s.at[id])
    ensures forall k | 0 <= k < s.num :: !s.at[k].Gone?
  {
  }

  /** The step that follows a try changes nothing but the place. */
  lemma GoesUnits(s: Ring, id: nat, p: Place, j: nat)
    requires Sized(s) && id < |s.at| && j < |s.at| && AtPlace(s, j)
    requires !s.at[id].Gone? && !p.Gone? && Past(s.at[id]) == Past(p) && Sitting(s.at[id]) == Sitting(p)
    ensures AtPlace(Goes(s, id, p), j) && Stray(Goes(s, id, p), j) == Stray(s, j)
  {
  }

  lemma TriesUnits(s: Ring, id: nat, j: nat)
    requires Orderly(s) && id < s.num && Tries(s.at[id]) && j < |s.at|
    ensures var t := Philosopher(s, id);
            |t.at| == |s.at| && Sized(t) && AtPlace(t, j) && Stray(t, j) == Stray(s, j)
  {
    var p := s.at[id];
    var k := if p.TryOwn? then id else if p.TryLeft? then Left(id, s.num) else Right(id, s.num);
    var q := if p.TryOwn? then PostHungry else if p.TryLeft? then TryRight else PostThinking;
    SomebodyInside(s, id);
    assert AtPlace(s, j);
    TryForUnits(s, k, j);
    GoesUnits(TryFor(s, k), id, q, j);
    assert Philosopher(s, id) == Goes(TryFor(s, k), id, q);
  }

  /** A spare unit is used up when somebody who does not eat goes back to thinking. */
  predicate UsesUp(s: Ring, id: nat)
    requires Sized(s) && id < |s.at|
  {
    s.at[id].SetThinking? && s.st[id] != EATING
  }

  lemma OtherUnits(s: Ring, id: nat, j: nat)
    requires Inv(s) && Enabled(s, PhilosopherMoves(id)) && !Tries(s.at[id])
    requires j < |s.at| && AtPlace(s, j) && AtPlace(s, id)
    ensures var t := Philosopher(s, id);
            && |t.at| == |s.at| && Sized(t) && AtPlace(t, j)
            && Stray(t, j) == Stray(s, j) - (if j == id && UsesUp(s, id) then 1 else 0)
  {
  }

  lemma PhilosopherUnits(s: Ring, id: nat, j: nat)
    requires Orderly(s) && Enabled(s, PhilosopherMoves(id)) && j < |s.at|
    ensures var t := Philosopher(s, id);
            && |t.at| == |s.at| && Sized(t) && AtPlace(t, j)
            && Stray(t, j) == Stray(s, j) - (if j == id && UsesUp(s, id) then 1 else 0)
  {
    if Tries(s.at[id]) {
      TriesUnits(s, id, j);
    } else {
      assert AtPlace(s, j) && AtPlace(s, id);
      OtherUnits(s, id, j);
    }
  }

  // ---- the host ----

  lemma HostKeepsPresent(s: Ring, m: Move)
    requires Inv(s) && Present(s) && Enabled(s, m) && !m.PhilosopherMoves?
    ensures Present(Step(s, m))
  {
    if Stuck(s) {
      StuckStays(s, m);
    } else {
      HostSticksWhen(s, m);
    }
  }

  /** The host kills the last philosopher while its semaphore has a unit. */
  predicate KillsUnit(s: Ring, m: Move) {
    m.HostMoves? && s.host.RemoveKill? && !m.fail && 0 < s.num <= |s.sem| && s.sem[s.num - 1] > 0
  }

  lemma AddingUnits(s: Ring, fail: bool, j: nat)
    requires Inv(s) && Adding(s.host) && j < |s.at| && AtPlace(s, j)
    ensures var t := HostAdd(s, fail);
            |t.at| == |s.at| && Sized(t) && AtPlace(t, j) && Stray(t, j) == Stray(s, j)
  {
  }

  /** Steps of the host that leave every Stray as it is. */
  predicate Calm(s: Ring, m: Move) {
    m.HostMoves? ==> !s.host.RemoveSem? && (s.host.RemoveKill? ==> m.fail) && (s.host.RemoveClose? ==> !m.last)
  }

  lemma RemovingUnits(s: Ring, m: Move, j: nat)
    requires Inv(s) && Enabled(s, m) && m.HostMoves? && Removing(s.host) && j < |s.at| && AtPlace(s, j)
    ensures var t := HostRemove(s, m.fail, m.last);
            && |t.at| == |s.at| && Sized(t) && AtPlace(t, j)
            && (KillsUnit(s, m) && j == s.num - 1 ==> Stray(t, j) > 0)
            && (!KillsUnit(s, m) && Stray(s, j) <= 0 ==> Stray(t, j) <= 0)
            && (Calm(s, m) ==> Stray(t, j) == Stray(s, j))
  {
  }

  lemma HostUnits(s: Ring, m: Move, j: nat)
    requires Orderly(s) && Enabled(s, m) && !m.PhilosopherMoves? && j < |s.at|
    ensures var t := Step(s, m);
            && |t.at| == |s.at| && Sized(t) && AtPlace(t, j)
            && (KillsUnit(s, m) && j == s.num - 1 ==> Stray(t, j) > 0)
            && (!KillsUnit(s, m) && Stray(s, j) <= 0 ==> Stray(t, j) <= 0)
            && (Calm(s, m) ==> Stray(t, j) == Stray(s, j))
  {
    assert AtPlace(s, j);
    if m.HostMoves? {
      if Adding(s.host) {
        AddingUnits(s, m.fail, j);
      } else if Removing(s.host) {
        RemovingUnits(s, m, j);
      }
    }
  }

  // ---- any step ----

  lemma StepKeepsOrder(s: Ring, m: Move)
    requires Orderly(s) && Enabled(s, m)
    ensures Orderly(Step(s, m)) && |Step(s, m).at| == |s.at|
  {
    var t := Step(s, m);
    StepKeepsInv(s, m);
    if m.PhilosopherMoves? {
      PhilosopherKeepsPresent(s, m.id);
      PhilosopherUnits(s, m.id, m.id);
    } else {
      HostKeepsPresent(s, m);
      if |s.at| > 0 {
        HostUnits(s, m, 0);
      }
    }
    forall j | 0 <= j < |t.at| ensures AtPlace(t, j) {
      if m.PhilosopherMoves? {
        PhilosopherUnits(s, m.id, j);
      } else {
        HostUnits(s, m, j);
      }
    }
  }

  /** A step makes a spare unit exactly when the host kills a philosopher whose semaphore has one. */
  lemma SpareExactlyWhen(s: Ring, m: Move)
    requires Orderly(s) && Enabled(s, m) && NoSpare(s)
    ensures Orderly(Step(s, m))
    ensures NoSpare(Step(s, m)) <==> !KillsUnit(s, m)
  {
    var t := Step(s, m);
    StepKeepsOrder(s, m);
    if KillsUnit(s, m) {
      HostUnits(s, m, s.num - 1);
    } else {
      forall j | 0 <= j < |t.at| ensures Stray(t, j) <= 0 {
        assert Stray(s, j) <= 0;
        if m.PhilosopherMoves? {
          PhilosopherUnits(s, m.id, j);
        } else {
          HostUnits(s, m, j);
        }
      }
    }
  }

  // ---- the property itself ----

  /** A HUNGRY philosopher passes its own semaphore. */
  predicate Misleads(s: Ring, m: Move) {
    m.PhilosopherMoves? && m.id < |s.at| && m.id < |s.st| && s.at[m.id].OwnSem? && s.st[m.id] == HUNGRY
  }

  lemma PhilosopherKeepsEating(s: Ring, id: nat, j: nat)
    requires Orderly(s) && Enabled(s, PhilosopherMoves(id)) && j < |s.at|
    requires Past(s.at[j]) ==> s.st[j] == EATING
    requires !Misleads(s, PhilosopherMoves(id))
    ensures var t := Philosopher(s, id);
            |t.at| == |s.at| && |t.st| == |s.st| && (Past(t.at[j]) ==> t.st[j] == EATING)
  {
    assert AtPlace(s, id);
  }

  lemma HostKeepsEating(s: Ring, m: Move, j: nat)
    requires Orderly(s) && Enabled(s, m) && !m.PhilosopherMoves? && j < |s.at|
    requires Past(s.at[j]) ==> s.st[j] == EATING
    ensures var t := Step(s, m);
            |t.at| == |s.at| && |t.st| == |s.st| && (Past(t.at[j]) ==> t.st[j] == EATING)
  {
  }

  /** From a ring where everybody past its own semaphore eats, a step breaks this exactly when a HUNGRY one passes. */
  lemma BreaksExactlyWhen(s: Ring, m: Move)
    requires Orderly(s) && Enabled(s, m) && PastEats(s)
    ensures Orderly(Step(s, m))
    ensures PastEats(Step(s, m)) <==> !Misleads(s, m)
  {
    var t := Step(s, m);
    StepKeepsOrder(s, m);
    if Misleads(s, m) {
      assert Past(t.at[m.id]) && t.st[m.id] != EATING;
    } else {
      forall j | 0 <= j < |t.at| && Past(t.at[j]) ensures t.st[j] == EATING {
        if m.PhilosopherMoves? {
          PhilosopherKeepsEating(s, m.id, j);
        } else {
          HostKeepsEating(s, m, j);
        }
      }
    }
  }

  /** Without a spare unit nobody HUNGRY can pass. */
  lemma UnsparedEats(s: Ring)
    requires Orderly(s) && NoSpare(s)
    ensures PastEats(s)
    ensures forall m | Enabled(s, m) :: !Misleads(s, m)
  {
    forall i | 0 <= i < |s.at| ensures Past(s.at[i]) ==> s.st[i] == EATING {
      assert Stray(s, i) <= 0 && AtPlace(s, i);
    }
    forall m | Enabled(s, m) ensures !Misleads(s, m) {
      if m.PhilosopherMoves? {
        assert Stray(s, m.id) <= 0 && AtPlace(s, m.id);
      }
    }
  }

  // ---- whole runs ----

  /** In no step of the run does the host kill a philosopher whose semaphore has a unit. */
  ghost predicate NoneKilled(s: Ring, ms: seq<Move>)
    requires Orderly(s)
    decreases |ms|
  {
    ms != [] && Enabled(s, ms[0]) ==>
      !KillsUnit(s, ms[0]) && (StepKeepsOrder(s, ms[0]); NoneKilled(Step(s, ms[0]), ms[1..]))
  }

  ghost predicate StaysUnspared(s: Ring, ms: seq<Move>)
    requires Orderly(s)
    decreases |ms|
  {
    && NoSpare(s)
    && (ms != [] && Enabled(s, ms[0]) ==> (StepKeepsOrder(s, ms[0]); StaysUnspared(Step(s, ms[0]), ms[1..])))
  }

  lemma {:induction false} RunSparesExactlyWhen(s: Ring, ms: seq<Move>)
    requires Orderly(s) && NoSpare(s)
    ensures StaysUnspared(s, ms) <==> NoneKilled(s, ms)
    decreases |ms|
  {
    if ms != [] && Enabled(s, ms[0]) {
      SpareExactlyWhen(s, ms[0]);
      if NoSpare(Step(s, ms[0])) {
        RunSparesExactlyWhen(Step(s, ms[0]), ms[1..]);
      }
    }
  }

  lemma {:induction false} EndOfUnsparedRun(s: Ring, ms: seq<Move>, t: Ring)
    requires Orderly(s) && Reaches(s, ms, t) && StaysUnspared(s, ms)
    ensures Orderly(t) && NoSpare(t)
    decreases |ms|
  {
    if ms != [] {
      StepKeepsOrder(s, ms[0]);
      EndOfUnsparedRun(Step(s, ms[0]), ms[1..], t);
    }
  }

  lemma OpensOrderly(s: Ring)
    requires Opens(s)
    ensures Orderly(s) && NoSpare(s)
  {
    OpensInv(s);
  }

  /**
   Unless the host kills a philosopher whose semaphore has a unit, everybody
   past its own semaphore is EATING and no neighbour is, nor is past its own,
   on the ring of the moment.
   */
  lemma EatersSitApart(s: Ring, ms: seq<Move>, t: Ring, i: nat)
    requires Opens(s) && Orderly(s) && Reaches(s, ms, t) && NoneKilled(s, ms)
    ensures Sized(t)
    ensures i < t.num && Past(t.at[i]) ==>
              && t.st[i] == EATING
              && (forall j | j == Left(i, t.num) || j == Right(i, t.num) ::
                    j != i ==> t.st[j] != EATING && !Past(t.at[j]))
  {
    OpensOrderly(s);
    RunSparesExactlyWhen(s, ms);
    EndOfUnsparedRun(s, ms, t);
    UnsparedEats(t);
    if i < t.num && Past(t.at[i]) {
      LeftRight(i, t.num);
      assert Right(Left(i, t.num), t.num) == i;
      assert t.st[i] == EATING;
      forall j | j == Left(i, t.num) || j == Right(i, t.num) ensures j != i ==> t.st[j] != EATING && !Past(t.at[j]) {
        assert Past(t.at[j]) ==> t.st[j] == EATING;
      }
    }
  }
}
