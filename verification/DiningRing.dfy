/**
 Philosophers eating while the table grows and shrinks.  Everybody who touches
 the table holds its mutex, a semaphore of initial value 1.  Of the mutex and of
 the philosophers' own semaphores only the values matter here.
 */
module DiningRing {
  import opened Philosophers

  /** Where the process that runs the command loop is. */
  datatype Host =
    | Idle
    | AddWait | AddSet | AddOpen | AddCreate | AddCount | AddPost
    | RemoveWait | RemoveTest | RemoveYield | RemoveSem | RemoveKill | RemoveClose | RemoveSet | RemoveCount | RemovePost

  /** value: the mutex.  sem: the philosophers' own semaphores, which outlive the philosophers. */
  datatype Ring = Ring(st: seq<PState>, num: nat, value: int, at: seq<Place>, host: Host, sem: seq<int>)

  predicate HostInside(h: Host) {
    !h.Idle? && !h.AddWait? && !h.RemoveWait? && !h.RemoveSem?
  }

  /**
   fail: the system call of this step reports an error.  last: nobody but the
   host has the semaphore open that this step closes, so it starts at 0 again.
   */
  datatype Move = PhilosopherMoves(id: nat) | HostMoves(fail: bool, last: bool) | HostAdds | HostRemoves

  predicate Enabled(s: Ring, m: Move) {
    match m
    case PhilosopherMoves(id) =>
      && id < |s.at| && !s.at[id].Gone?
      && (Wants(s.at[id]) ==> s.value > 0)
      && (s.at[id].OwnSem? ==> id < |s.sem| && s.sem[id] > 0)
    case HostMoves(_, _) =>
      && !s.host.Idle?
      && (s.host.AddWait? || s.host.RemoveWait? ==> s.value > 0)
      && (s.host.RemoveSem? ==> 0 < s.num <= |s.sem| && s.sem[s.num - 1] > 0)
    case HostAdds => s.host.Idle? && s.num < |s.st|
    case HostRemoves => s.host.Idle? && s.num > MIN_PHILOSOPHERS
  }

  predicate Sized(s: Ring) {
    s.num <= |s.st| == |s.at| == |s.sem|
  }

  /** try_to_eat for k, with its post. */
  function TryFor(s: Ring, k: nat): Ring
    requires Sized(s) && k < s.num
  {
    if MayEat(s.st, s.num, k) then s.(st := Try(s.st, s.num, k), sem := s.sem[k := s.sem[k] + 1]) else s
  }

  function Goes(s: Ring, id: nat, p: Place): Ring
    requires id < |s.at|
  {
    s.(at := s.at[id := p])
  }

  /** Philosopher id takes its next step. */
  function Philosopher(s: Ring, id: nat): Ring
    requires Sized(s) && id < |s.at| && (id < s.num || s.at[id].Away?)
  {
    match s.at[id]
    case Gone => s
    case Away => Goes(s, id, WantHungry)
    case WantHungry => s.(value := s.value - 1, at := s.at[id := SetHungry])
    case SetHungry => s.(st := s.st[id := HUNGRY], at := s.at[id := TryOwn])
    case TryOwn => Goes(TryFor(s, id), id, PostHungry)
    case PostHungry => s.(value := s.value + 1, at := s.at[id := OwnSem])
    case OwnSem => s.(sem := s.sem[id := s.sem[id] - 1], at := s.at[id := Dining])
    case Dining => Goes(s, id, WantThinking)
    case WantThinking => s.(value := s.value - 1, at := s.at[id := SetThinking])
    case SetThinking => s.(st := s.st[id := THINKING], at := s.at[id := TryLeft])
    case TryLeft => Goes(TryFor(s, Left(id, s.num)), id, TryRight)
    case TryRight => Goes(TryFor(s, Right(id, s.num)), id, PostThinking)
    case PostThinking => s.(value := s.value + 1, at := s.at[id := Away])
  }

  /** Both neighbours of the last philosopher eat. */
  predicate MustStay(s: Ring)
    requires 0 < s.num <= |s.st|
  {
    s.st[Left(s.num - 1, s.num)] == EATING && s.st[Right(s.num - 1, s.num)] == EATING
  }

  /** add_philosopher(num_philosophers), step by step. */
  function HostAdd(s: Ring, fail: bool): Ring
    requires Sized(s) && s.num < |s.st|
  {
    match s.host
    case AddWait => s.(value := s.value - 1, host := AddSet)
    case AddSet => s.(st := s.st[s.num := NONE], host := AddOpen)
    case AddOpen => s.(host := if fail then Idle else AddCreate)          // the failing return keeps the mutex
    case AddCreate => if fail then s.(host := AddPost) else s.(at := s.at[s.num := Away], host := AddCount)
    case AddCount => s.(num := s.num + 1, host := AddPost)
    case _ => s
  }

  /** remove_philosopher, step by step. */
  function HostRemove(s: Ring, fail: bool, last: bool): Ring
    requires Sized(s) && 0 < s.num
  {
    match s.host
    case RemoveWait => s.(value := s.value - 1, host := RemoveTest)
    case RemoveTest => s.(host := if MustStay(s) then RemoveYield else RemoveKill)
    case RemoveYield => s.(value := s.value + 1, host := RemoveSem)
    case RemoveSem => s.(sem := s.sem[s.num - 1 := s.sem[s.num - 1] - 1], host := RemoveWait)
    case RemoveKill => if fail then s.(host := RemovePost) else s.(at := s.at[s.num - 1 := Gone], host := RemoveClose)
    case RemoveClose =>
      if fail then s.(host := Idle)                                       // so does this one
      else s.(sem := if last then s.sem[s.num - 1 := 0] else s.sem, host := RemoveSet)
    case RemoveSet => s.(st := s.st[s.num - 1 := NONE], host := RemoveCount)
    case RemoveCount => s.(num := s.num - 1, host := RemovePost)
    case _ => s
  }

  predicate Adding(h: Host) {
    h.AddWait? || h.AddSet? || h.AddOpen? || h.AddCreate? || h.AddCount?
  }

  predicate Removing(h: Host) {
    h.RemoveWait? || h.RemoveTest? || h.RemoveYield? || h.RemoveSem? || h.RemoveKill? || h.RemoveClose?
    || h.RemoveSet? || h.RemoveCount?
  }

  // ---- the invariant ----

  /** At most one process is inside, and none is while the mutex is up. */
  ghost predicate Exclusive(s: Ring) {
    && 0 <= s.value <= 1
    && (HostInside(s.host) ==> s.value == 0)
    && (forall i | 0 <= i < |s.at| && Inside(s.at[i]) :: s.value == 0 && !HostInside(s.host))
    && (forall i, j | 0 <= i < |s.at| && 0 <= j < |s.at| && Inside(s.at[i]) && Inside(s.at[j]) :: i == j)
  }

  /** Who has a process, and what the host may rely on at each place. */
  ghost predicate Seated(s: Ring) {
    && Sized(s)
    && (forall i | 0 <= i < |s.at| && !s.at[i].Gone? :: i < s.num || (i == s.num && s.host.AddCount? && (s.at[i].Away? || s.at[i].WantHungry?)))
    && (Adding(s.host) ==> s.num < |s.st|)
    && (Removing(s.host) ==> s.num > MIN_PHILOSOPHERS)
    && (s.host.AddOpen? || s.host.AddCreate? || s.host.AddCount? ==> s.st[s.num] == NONE)
    && (s.host.RemoveKill? || s.host.RemoveClose? || s.host.RemoveSet? || s.host.RemoveCount? ==> !MustStay(s))
    && (s.host.RemoveClose? || s.host.RemoveSet? || s.host.RemoveCount? ==> s.at[s.num - 1].Gone?)
  }

  ghost predicate Inv(s: Ring) {
    Seated(s) && Exclusive(s) && Peaceful(s.st, s.num)
  }

  ghost function Step(s: Ring, m: Move): Ring
    requires Inv(s) && Enabled(s, m)
  {
    match m
    case PhilosopherMoves(id) => Philosopher(s, id)
    case HostMoves(fail, last) =>
      if Adding(s.host) then HostAdd(s, fail)
      else if Removing(s.host) then HostRemove(s, fail, last)
      else s.(value := s.value + 1, host := Idle)
    case HostAdds => s.(host := AddWait)
    case HostRemoves => s.(host := RemoveWait)
  }

  lemma PhilosopherKeepsPeace(s: Ring, id: nat)
    requires Inv(s) && id < s.num && Enabled(s, PhilosopherMoves(id))
    ensures var t := Philosopher(s, id); Sized(t) && t.num == s.num && |t.st| == |s.st| && Peaceful(t.st, t.num)
  {
    var p := s.at[id];
    if p.SetHungry? {
      StandingUpKeepsPeace(s.st, s.num, id, HUNGRY);
    } else if p.SetThinking? {
      StandingUpKeepsPeace(s.st, s.num, id, THINKING);
    } else if p.TryOwn? {
      TryKeepsPeace(s.st, s.num, id);
    } else if p.TryLeft? {
      TryKeepsPeace(s.st, s.num, Left(id, s.num));
    } else if p.TryRight? {
      TryKeepsPeace(s.st, s.num, Right(id, s.num));
    }
  }

  /** What a philosopher's step does to places, mutex and host. */
  lemma PhilosopherPlaces(s: Ring, id: nat)
    requires Sized(s) && id < s.num && Enabled(s, PhilosopherMoves(id))
    ensures var t := Philosopher(s, id);
            && t.host == s.host && |t.at| == |s.at| && t.at == s.at[id := t.at[id]] && !t.at[id].Gone?
            && (Inside(t.at[id]) && !Inside(s.at[id]) ==> s.value > 0 && t.value == s.value - 1)
            && (Inside(s.at[id]) && !Inside(t.at[id]) ==> t.value == s.value + 1)
            && (Inside(s.at[id]) == Inside(t.at[id]) ==> t.value == s.value)
  {
  }

  lemma PhilosopherKeepsExclusion(s: Ring, id: nat)
    requires Inv(s) && id < s.num && Enabled(s, PhilosopherMoves(id))
    ensures Exclusive(Philosopher(s, id))
  {
    PhilosopherPlaces(s, id);
  }

  lemma PhilosopherKeepsSeats(s: Ring, id: nat)
    requires Inv(s) && id < s.num && Enabled(s, PhilosopherMoves(id))
    ensures Seated(Philosopher(s, id))
  {
    PhilosopherKeepsPeace(s, id);
    PhilosopherPlaces(s, id);
    if HostInside(s.host) {
      assert !Inside(s.at[id]);
    }
  }

  lemma PhilosopherKeepsInv(s: Ring, id: nat)
    requires Inv(s) && id < s.num && Enabled(s, PhilosopherMoves(id))
    ensures Inv(Philosopher(s, id))
  {
    PhilosopherKeepsPeace(s, id);
    PhilosopherKeepsSeats(s, id);
    PhilosopherKeepsExclusion(s, id);
  }

  /** A philosopher with nobody's state beside it sits down between the last and the first. */
  lemma OneMoreKeepsPeace(st: seq<PState>, num: nat)
    requires num < |st| && st[num] == NONE && Peaceful(st, num)
    ensures Peaceful(st, num + 1)
  {
    forall i | 0 <= i < num + 1 && Right(i, num + 1) != i
      ensures st[i] != EATING || st[Right(i, num + 1)] != EATING
    {
      if i < num - 1 {
        assert Right(i, num) == Right(i, num + 1);
      }
    }
  }

  /** The last philosopher leaves: its neighbours, who then sit together, must not both eat, and that is enough. */
  lemma OneLessKeepsPeace(st: seq<PState>, num: nat)
    requires 2 < num <= |st| && Peaceful(st, num)
    ensures Peaceful(st, num - 1) <==> st[Left(num - 1, num)] != EATING || st[Right(num - 1, num)] != EATING
  {
    var l := num - 2;
    assert Left(num - 1, num) == l && Right(num - 1, num) == 0 && Right(l, num - 1) == 0;
    if st[l] != EATING || st[0] != EATING {
      forall i | 0 <= i < num - 1 ensures st[i] != EATING || st[Right(i, num - 1)] != EATING {
        assert i < l ==> Right(i, num) == Right(i, num - 1);
      }
    }
  }

  /** The host waits with the removal exactly as long as it would bring two eaters together. */
  lemma HostWaitsExactlyWhen(s: Ring, m: Move)
    requires Inv(s) && Enabled(s, m) && m.HostMoves? && s.host.RemoveTest?
    ensures Step(s, m).host == if Peaceful(s.st, s.num - 1) then RemoveKill else RemoveYield
  {
    OneLessKeepsPeace(s.st, s.num);
  }

  lemma AddKeepsPeace(s: Ring, fail: bool)
    requires Inv(s) && Adding(s.host)
    ensures var t := HostAdd(s, fail); t.num <= |t.st| && Peaceful(t.st, t.num)
  {
    if s.host.AddSet? {
      StandingUpKeepsPeace(s.st, s.num, s.num, NONE);
    } else if s.host.AddCount? {
      OneMoreKeepsPeace(s.st, s.num);
    }
  }

  lemma RemoveKeepsPeace(s: Ring, fail: bool, last: bool)
    requires Inv(s) && Removing(s.host)
    ensures var t := HostRemove(s, fail, last); t.num <= |t.st| && Peaceful(t.st, t.num)
  {
    if s.host.RemoveSet? {
      StandingUpKeepsPeace(s.st, s.num, s.num - 1, NONE);
    } else if s.host.RemoveCount? {
      OneLessKeepsPeace(s.st, s.num);
    }
  }

  lemma HostKeepsPeace(s: Ring, m: Move)
    requires Inv(s) && Enabled(s, m) && m.HostMoves?
    ensures var t := Step(s, m); t.num <= |t.st| && Peaceful(t.st, t.num)
  {
    if Adding(s.host) {
      AddKeepsPeace(s, m.fail);
    } else if Removing(s.host) {
      RemoveKeepsPeace(s, m.fail, m.last);
    }
  }

  lemma RemoveKeepsSeats(s: Ring, fail: bool, last: bool)
    requires Inv(s) && Removing(s.host)
    ensures Seated(HostRemove(s, fail, last))
  {
  }

  lemma HostKeepsSeats(s: Ring, m: Move)
    requires Inv(s) && Enabled(s, m) && m.HostMoves?
    ensures Seated(Step(s, m))
  {
    if Removing(s.host) {
      RemoveKeepsSeats(s, m.fail, m.last);
    }
  }

  lemma HostKeepsExclusion(s: Ring, m: Move)
    requires Inv(s) && Enabled(s, m) && m.HostMoves?
    ensures Exclusive(Step(s, m))
  {
  }

  lemma HostKeepsInv(s: Ring, m: Move)
    requires Inv(s) && Enabled(s, m) && m.HostMoves?
    ensures Inv(Step(s, m))
  {
    HostKeepsPeace(s, m);
    HostKeepsSeats(s, m);
    HostKeepsExclusion(s, m);
  }

  /** The one who has just been created may already come to the mutex. */
  lemma NewcomerKeepsInv(s: Ring, id: nat)
    requires Inv(s) && id == s.num && Enabled(s, PhilosopherMoves(id))
    ensures s.at[id].Away? && Inv(Philosopher(s, id))
  {
  }

  lemma StepKeepsInv(s: Ring, m: Move)
    requires Inv(s) && Enabled(s, m)
    ensures Inv(Step(s, m))
  {
    match m
    case PhilosopherMoves(id) =>
      if id < s.num {
        PhilosopherKeepsInv(s, id);
      } else {
        NewcomerKeepsInv(s, id);
      }
    case HostMoves(_, _) => HostKeepsInv(s, m);
    case _ =>
  }

  /** The table as phylo sets it up. */
  predicate Opens(s: Ring) {
    && s.num == 0 && |s.st| == |s.at| == |s.sem| && s.value == 1 && s.host.Idle?
    && (forall i | 0 <= i < |s.st| :: s.st[i] == NONE && s.at[i].Gone? && s.sem[i] == 0)
  }

  /** t is reached from s by the moves of ms, in that order. */
  ghost predicate Reaches(s: Ring, ms: seq<Move>, t: Ring)
    requires Inv(s)
    decreases |ms|
  {
    if ms == [] then t == s
    else Enabled(s, ms[0]) && (StepKeepsInv(s, ms[0]); Reaches(Step(s, ms[0]), ms[1..], t))
  }

  lemma {:induction false} ReachableInv(s: Ring, ms: seq<Move>, t: Ring)
    requires Inv(s) && Reaches(s, ms, t)
    ensures Inv(t)
    decreases |ms|
  {
    if ms != [] {
      StepKeepsInv(s, ms[0]);
      ReachableInv(Step(s, ms[0]), ms[1..], t);
    }
  }

  lemma OpensInv(s: Ring)
    requires Opens(s)
    ensures Inv(s)
  {
  }

  /**
   Whatever the philosophers and the host do, in whatever order, no two
   distinct neighbours on the table of the moment ever eat together.
   */
  lemma NeighboursNeverEatTogether(s: Ring, ms: seq<Move>, t: Ring, i: nat)
    requires Opens(s) && Inv(s) && Reaches(s, ms, t)
    ensures i < t.num <= |t.st| && Right(i, t.num) != i ==> t.st[i] != EATING || t.st[Right(i, t.num)] != EATING
    ensures t.num <= |t.st|
  {
    ReachableInv(s, ms, t);
  }

  // ---- the mutex that nobody posts ----

  /** The mutex is down and whoever could post it is gone. */
  ghost predicate Stuck(s: Ring) {
    s.value == 0 && !HostInside(s.host) && forall i | 0 <= i < |s.at| :: !Inside(s.at[i])
  }

  /** The host returns with the mutex: a failing sem_open in add_philosopher, a failing sem_close in remove_philosopher. */
  predicate KeepsMutex(s: Ring, m: Move) {
    m.HostMoves? && m.fail && (s.host.AddOpen? || s.host.RemoveClose?)
  }

  lemma PhilosopherNeverSticks(s: Ring, id: nat)
    requires Inv(s) && Enabled(s, PhilosopherMoves(id)) && !Stuck(s)
    ensures !Stuck(Philosopher(s, id))
  {
    var t := Philosopher(s, id);
    if Inside(s.at[id]) && !s.at[id].PostHungry? && !s.at[id].PostThinking? {
      assert Inside(t.at[id]);
    } else if s.value == 0 && !HostInside(s.host) {
      var i :| 0 <= i < |s.at| && Inside(s.at[i]);
      assert i != id ==> Inside(t.at[i]);
    } else if Wants(s.at[id]) {
      assert Inside(t.at[id]);
    }
  }

  lemma HostSticksWhen(s: Ring, m: Move)
    requires Inv(s) && Enabled(s, m) && !m.PhilosopherMoves? && !Stuck(s)
    ensures Stuck(Step(s, m)) <==> KeepsMutex(s, m)
  {
    var t := Step(s, m);
    if !HostInside(s.host) && s.value == 0 {
      var i :| 0 <= i < |s.at| && Inside(s.at[i]);
      assert Inside(t.at[i]);
    }
  }

  /** The mutex gets lost in exactly two steps. */
  lemma SticksExactlyWhen(s: Ring, m: Move)
    requires Inv(s) && Enabled(s, m) && !Stuck(s)
    ensures Stuck(Step(s, m)) <==> KeepsMutex(s, m)
  {
    if m.PhilosopherMoves? {
      PhilosopherNeverSticks(s, m.id);
    } else {
      HostSticksWhen(s, m);
    }
  }

  /** Once it is lost nobody changes the table again. */
  lemma StuckStays(s: Ring, m: Move)
    requires Inv(s) && Enabled(s, m) && Stuck(s)
    ensures var t := Step(s, m); Stuck(t) && t.st == s.st && t.num == s.num
  {
    if m.PhilosopherMoves? {
      assert !Inside(s.at[m.id]);
    }
  }

  /** Some step of the run loses the mutex. */
  ghost predicate Loses(s: Ring, ms: seq<Move>)
    requires Inv(s)
    decreases |ms|
  {
    && ms != [] && Enabled(s, ms[0])
    && (KeepsMutex(s, ms[0]) || (StepKeepsInv(s, ms[0]); Loses(Step(s, ms[0]), ms[1..])))
  }

  lemma {:induction false} StuckForGood(s: Ring, ms: seq<Move>, t: Ring)
    requires Inv(s) && Stuck(s) && Reaches(s, ms, t)
    ensures Stuck(t) && t.st == s.st && t.num == s.num
    decreases |ms|
  {
    if ms != [] {
      StepKeepsInv(s, ms[0]);
      StuckStays(s, ms[0]);
      StuckForGood(Step(s, ms[0]), ms[1..], t);
    }
  }

  /** A run ends stuck exactly when the host returned with the mutex somewhere along it. */
  lemma {:induction false} RunSticksExactlyWhen(s: Ring, ms: seq<Move>, t: Ring)
    requires Inv(s) && !Stuck(s) && Reaches(s, ms, t)
    ensures Stuck(t) <==> Loses(s, ms)
    decreases |ms|
  {
    if ms != [] {
      var u := Step(s, ms[0]);
      StepKeepsInv(s, ms[0]);
      SticksExactlyWhen(s, ms[0]);
      if Stuck(u) {
        StuckForGood(u, ms[1..], t);
      } else {
        RunSticksExactlyWhen(u, ms[1..], t);
      }
    }
  }

  lemma ReachesFirst(s: Ring, m: Move, ms: seq<Move>, t: Ring)
    requires Inv(s) && Enabled(s, m)
    ensures Inv(Step(s, m))
    ensures Reaches(Step(s, m), ms, t) ==> Reaches(s, [m] + ms, t)
  {
    StepKeepsInv(s, m);
    assert ([m] + ms)[1..] == ms;
  }

  /** The very first philosopher's semaphore cannot be opened: nobody will ever sit down. */
  lemma ATableGetsStuck(s: Ring) returns (ms: seq<Move>, t: Ring)
    requires Opens(s) && Inv(s) && |s.st| > 0
    ensures Reaches(s, ms, t) && Stuck(t) && t.num == 0
  {
    var go, stop := HostMoves(false, false), HostMoves(true, false);
    StepKeepsInv(s, HostAdds);
    var a := Step(s, HostAdds);
    StepKeepsInv(a, go);
    var b := Step(a, go);
    StepKeepsInv(b, go);
    var c := Step(b, go);
    StepKeepsInv(c, stop);
    t := Step(c, stop);
    ReachesFirst(c, stop, [], t);
    ReachesFirst(b, go, [stop] + [], t);
    ReachesFirst(a, go, [go] + ([stop] + []), t);
    ReachesFirst(s, HostAdds, [go] + ([go] + ([stop] + [])), t);
    ms := [HostAdds] + ([go] + ([go] + ([stop] + [])));
  }
}
