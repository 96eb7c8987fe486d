/**
 Philosophers on a table of fixed size, with every semaphore in full: the
 mutex, and one of initial value 0 for each of them.  A philosopher's id
 stands for its pid.
 */
module DiningTable {
  import opened Common
  import opened Philosophers
  import opened Semaphores

  /** holder: who is between its wait and its post on the mutex, or -1. */
  datatype Table = Table(st: seq<PState>, sems: seq<SemState>, mutex: SemState, at: seq<Place>, holder: int)

  ghost predicate Sized(s: Table) {
    && MIN_PHILOSOPHERS <= |s.st| <= MAX_PROCESSES
    && |s.st| == |s.sems| == |s.at|
  }

  predicate Sets(p: Place) {
    p.SetHungry? || p.SetThinking?
  }

  /** Whom the philosopher at place p tries for. */
  function Tried(p: Place, i: nat, n: nat): (k: nat)
    requires i < n
    ensures k < n
  {
    if p.TryOwn? then i else if p.TryLeft? then Left(i, n) else Right(i, n)
  }

  predicate CanMove(s: Table, i: nat) {
    && i < |s.at| <= |s.sems| && !s.at[i].Gone?
    && (Wants(s.at[i]) ==> i !in s.mutex.waiting)
    && (s.at[i].OwnSem? ==> i !in s.sems[i].waiting)
  }

  // ---- the moves ----

  /** try_to_eat for k, with its post. */
  ghost function TryFor(s: Table, k: nat): Table
    requires Sized(s) && k < |s.st|
  {
    if MayEat(s.st, |s.st|, k) then s.(st := Try(s.st, |s.st|, k), sems := s.sems[k := PostStep(s.sems[k])]) else s
  }

  function Goes(s: Table, i: nat, p: Place): Table
    requires i < |s.at|
  {
    s.(at := s.at[i := p])
  }

  function WaitMutex(s: Table, i: nat, p: Place): Table
    requires i < |s.at|
  {
    var t := s.(mutex := WaitStep(s.mutex, i));
    if Passes(s.mutex) then Goes(t, i, p).(holder := i) else t
  }

  function PostMutex(s: Table, i: nat, p: Place): Table
    requires i < |s.at|
  {
    Goes(s, i, p).(mutex := PostStep(s.mutex), holder := -1)
  }

  function WaitOwn(s: Table, i: nat): Table
    requires i < |s.at| == |s.sems|
  {
    var t := s.(sems := s.sems[i := WaitStep(s.sems[i], i)]);
    if Passes(s.sems[i]) then Goes(t, i, Dining) else t
  }

  ghost function Move(s: Table, i: nat): Table
    requires Sized(s) && i < |s.at|
  {
    var n := |s.st|;
    match s.at[i]
    case Gone => s
    case Away => Goes(s, i, WantHungry)
    case WantHungry => WaitMutex(s, i, SetHungry)
    case SetHungry => Goes(s.(st := s.st[i := HUNGRY]), i, TryOwn)
    case TryOwn => Goes(TryFor(s, i), i, PostHungry)
    case PostHungry => PostMutex(s, i, OwnSem)
    case OwnSem => WaitOwn(s, i)
    case Dining => Goes(s, i, WantThinking)
    case WantThinking => WaitMutex(s, i, SetThinking)
    case SetThinking => Goes(s.(st := s.st[i := THINKING]), i, TryLeft)
    case TryLeft => Goes(TryFor(s, Left(i, n)), i, TryRight)
    case TryRight => Goes(TryFor(s, Right(i, n)), i, PostThinking)
    case PostThinking => PostMutex(s, i, Away)
  }

  // ---- the invariant ----

  ghost predicate MutexInv(s: Table) {
    && SemInv(s.mutex)
    && s.mutex.value == (if s.holder < 0 then 1 else 0)
    && (forall i | 0 <= i < |s.at| :: Inside(s.at[i]) <==> i == s.holder)
    && s.holder < |s.at|
    && (forall p | p in s.mutex.waiting || p in s.mutex.woken :: p < |s.at| && Wants(s.at[p]))
  }

  /** Philosopher i's state, semaphore and place agree. */
  ghost predicate Own(s: Table, i: nat)
    requires Sized(s) && i < |s.st|
  {
    && SemInv(s.sems[i]) && !s.at[i].Gone?
    && (forall p | p in s.sems[i].waiting || p in s.sems[i].woken :: p == i && s.at[i].OwnSem?)
    && s.sems[i].value + (if Past(s.at[i]) then 1 else 0) == (if s.st[i] == EATING then 1 else 0)
    && (Sitting(s.at[i]) ==> s.st[i] == HUNGRY || s.st[i] == EATING)
    && (s.st[i] == HUNGRY ==> Sitting(s.at[i]))
    && (s.st[i] == EATING ==> Sitting(s.at[i]) || Past(s.at[i]))
  }

  predicate HasEater(st: seq<PState>, i: nat)
    requires i < |st|
  {
    st[Left(i, |st|)] == EATING || st[Right(i, |st|)] == EATING
  }

  /** The holder is still going to try for h. */
  predicate Pending(s: Table, h: nat) {
    && 0 <= s.holder < |s.at|
    && var p := s.at[s.holder];
       || (p.TryOwn? && h == s.holder)
       || (p.TryLeft? && h == Left(s.holder, |s.at|))
       || ((p.TryLeft? || p.TryRight?) && h == Right(s.holder, |s.at|))
  }

  ghost predicate Served(s: Table, h: nat)
    requires h < |s.st|
  {
    s.st[h] == HUNGRY ==> HasEater(s.st, h) || Pending(s, h)
  }

  ghost predicate Inv(s: Table) {
    && Sized(s) && MutexInv(s) && Peaceful(s.st, |s.st|)
    && (forall i {:trigger Own(s, i)} | 0 <= i < |s.st| :: Own(s, i))
    && (forall i {:trigger Served(s, i)} | 0 <= i < |s.st| :: Served(s, i))
  }

  // ---- the mutex ----

  lemma WaitMutexKeeps(s: Table, i: nat, p: Place)
    requires Sized(s) && MutexInv(s) && i < |s.at| && Wants(s.at[i]) && i !in s.mutex.waiting && Inside(p)
    ensures MutexInv(WaitMutex(s, i, p))
  {
    WaitKeepsInv(s.mutex, i);
  }

  lemma PostMutexKeeps(s: Table, i: nat, p: Place)
    requires Sized(s) && MutexInv(s) && i == s.holder && !Inside(p)
    ensures MutexInv(PostMutex(s, i, p))
  {
    PostKeepsInv(s.mutex);
    if s.mutex.waiting != [] {
      assert s.mutex.waiting[0] in s.mutex.waiting;
      assert s.mutex.waiting == [s.mutex.waiting[0]] + s.mutex.waiting[1..];
    }
  }

  lemma GoesKeepsMutex(s: Table, i: nat, p: Place)
    requires Sized(s) && MutexInv(s) && i < |s.at| && Inside(s.at[i]) == Inside(p) && !Wants(s.at[i])
    ensures MutexInv(Goes(s, i, p))
  {
  }

  lemma MoveKeepsMutex(s: Table, i: nat)
    requires Sized(s) && MutexInv(s) && CanMove(s, i)
    ensures MutexInv(Move(s, i))
  {
    var n := |s.st|;
    match s.at[i]
    case Gone =>
    case Away => GoesKeepsMutex(s, i, WantHungry);
    case WantHungry => WaitMutexKeeps(s, i, SetHungry);
    case SetHungry => GoesKeepsMutex(s, i, TryOwn);
    case TryOwn => GoesKeepsMutex(s, i, PostHungry);
    case PostHungry => PostMutexKeeps(s, i, OwnSem);
    case OwnSem => GoesKeepsMutex(s, i, Dining);
    case Dining => GoesKeepsMutex(s, i, WantThinking);
    case WantThinking => WaitMutexKeeps(s, i, SetThinking);
    case SetThinking => GoesKeepsMutex(s, i, TryLeft);
    case TryLeft => GoesKeepsMutex(s, i, TryRight);
    case TryRight => GoesKeepsMutex(s, i, PostThinking);
    case PostThinking => PostMutexKeeps(s, i, Away);
  }

  // ---- peace ----

  lemma MoveKeepsPeace(s: Table, i: nat)
    requires Sized(s) && i < |s.at| && Peaceful(s.st, |s.st|)
    ensures Sized(Move(s, i)) && Peaceful(Move(s, i).st, |s.st|) && |Move(s, i).st| == |s.st|
  {
    var n := |s.st|;
    var p := s.at[i];
    if p.SetHungry? {
      StandingUpKeepsPeace(s.st, n, i, HUNGRY);
    } else if p.SetThinking? {
      StandingUpKeepsPeace(s.st, n, i, THINKING);
    } else if p.TryOwn? {
      TryKeepsPeace(s.st, n, i);
    } else if p.TryLeft? {
      TryKeepsPeace(s.st, n, Left(i, n));
    } else if p.TryRight? {
      TryKeepsPeace(s.st, n, Right(i, n));
    }
  }

  // ---- states, semaphores and places ----

  lemma TryForKeepsOwn(s: Table, k: nat, j: nat)
    requires Sized(s) && k < |s.st| && j < |s.st| && Own(s, j) && Own(s, k)
    ensures Own(TryFor(s, k), j)
  {
    PostKeepsInv(s.sems[k]);
    if s.sems[k].waiting != [] {
      assert s.sems[k].waiting[0] in s.sems[k].waiting;
      assert s.sems[k].waiting == [s.sems[k].waiting[0]] + s.sems[k].waiting[1..];
    }
  }

  lemma WaitOwnKeepsOwn(s: Table, i: nat, j: nat)
    requires Sized(s) && i < |s.st| && j < |s.st| && Own(s, j) && Own(s, i)
    requires s.at[i].OwnSem? && i !in s.sems[i].waiting
    ensures Own(WaitOwn(s, i), j)
  {
    WaitKeepsInv(s.sems[i], i);
  }

  /** Moves that touch neither a state nor a philosopher's semaphore. */
  lemma QuietKeepsOwn(s: Table, i: nat, j: nat)
    requires Sized(s) && i < |s.st| && j < |s.st| && Own(s, j)
    requires !Tries(s.at[i]) && !Sets(s.at[i]) && !s.at[i].OwnSem?
    ensures Sized(Move(s, i)) && |Move(s, i).st| == |s.st| && Own(Move(s, i), j)
  {
  }

  lemma SetKeepsOwn(s: Table, i: nat, j: nat)
    requires Sized(s) && i < |s.st| && j < |s.st| && Own(s, j) && Sets(s.at[i])
    ensures Sized(Move(s, i)) && |Move(s, i).st| == |s.st| && Own(Move(s, i), j)
  {
  }

  lemma TryMove(s: Table, i: nat)
    requires Sized(s) && i < |s.st| && Tries(s.at[i])
    ensures var p := s.at[i]; var k := Tried(p, i, |s.st|);
            Move(s, i) == Goes(TryFor(s, k), i, if p.TryOwn? then PostHungry else if p.TryLeft? then TryRight else PostThinking)
  {
  }

  lemma GoesKeepsOwn(s: Table, i: nat, q: Place, j: nat)
    requires Sized(s) && i < |s.st| && j < |s.st| && Own(s, j)
    requires Past(s.at[i]) == Past(q) && Sitting(s.at[i]) == Sitting(q) && !s.at[i].OwnSem? && !q.Gone?
    ensures Own(Goes(s, i, q), j)
  {
  }

  lemma MoveKeepsOwn(s: Table, i: nat, j: nat)
    requires Sized(s) && CanMove(s, i) && j < |s.st| && Own(s, j) && Own(s, i)
    requires Tries(s.at[i]) ==> Own(s, Tried(s.at[i], i, |s.st|))
    ensures Sized(Move(s, i)) && |Move(s, i).st| == |s.st| && Own(Move(s, i), j)
  {
    var p := s.at[i];
    if Tries(p) {
      TryMove(s, i);
      var k := Tried(p, i, |s.st|);
      TryForKeepsOwn(s, k, j);
      GoesKeepsOwn(TryFor(s, k), i, Move(s, i).at[i], j);
    } else if p.OwnSem? {
      WaitOwnKeepsOwn(s, i, j);
    } else if Sets(p) {
      SetKeepsOwn(s, i, j);
    } else {
      QuietKeepsOwn(s, i, j);
    }
  }

  // ---- everybody hungry is served ----

  lemma TryForServes(s: Table, k: nat, h: nat)
    requires Sized(s) && k < |s.st| && h < |s.st|
    ensures HasEater(s.st, h) ==> HasEater(TryFor(s, k).st, h)
    ensures TryFor(s, k).st[h] == HUNGRY ==> s.st[h] == HUNGRY
    ensures TryFor(s, k).st[k] == HUNGRY ==> HasEater(TryFor(s, k).st, k)
  {
  }

  lemma StandingUpServes(st: seq<PState>, i: nat, x: PState, h: nat)
    requires 3 <= |st| && i < |st| && h < |st| && x != EATING && HasEater(st, h)
    ensures HasEater(st[i := x], h) || (st[i] == EATING && (h == Left(i, |st|) || h == Right(i, |st|)))
  {
    LeftRight(h, |st|);
  }

  lemma QuietKeepsServed(s: Table, i: nat, h: nat)
    requires Sized(s) && MutexInv(s) && CanMove(s, i) && h < |s.st| && Served(s, h)
    requires !Tries(s.at[i]) && !Sets(s.at[i])
    ensures Sized(Move(s, i)) && |Move(s, i).st| == |s.st| && Served(Move(s, i), h)
  {
  }

  lemma SetKeepsServed(s: Table, i: nat, h: nat)
    requires Sized(s) && MutexInv(s) && CanMove(s, i) && h < |s.st| && Served(s, h) && Own(s, i) && Sets(s.at[i])
    ensures Sized(Move(s, i)) && |Move(s, i).st| == |s.st| && Served(Move(s, i), h)
  {
    if HasEater(s.st, h) {
      StandingUpServes(s.st, i, if s.at[i].SetHungry? then HUNGRY else THINKING, h);
    }
  }

  lemma TryKeepsServed(s: Table, i: nat, h: nat)
    requires Sized(s) && MutexInv(s) && CanMove(s, i) && h < |s.st| && Served(s, h) && Tries(s.at[i])
    ensures Sized(Move(s, i)) && |Move(s, i).st| == |s.st| && Served(Move(s, i), h)
  {
    TryMove(s, i);
    TryForServes(s, Tried(s.at[i], i, |s.st|), h);
  }

  lemma MoveKeepsServed(s: Table, i: nat, h: nat)
    requires Sized(s) && MutexInv(s) && CanMove(s, i) && h < |s.st| && Served(s, h) && Own(s, i)
    ensures Sized(Move(s, i)) && |Move(s, i).st| == |s.st| && Served(Move(s, i), h)
  {
    if Tries(s.at[i]) {
      TryKeepsServed(s, i, h);
    } else if Sets(s.at[i]) {
      SetKeepsServed(s, i, h);
    } else {
      QuietKeepsServed(s, i, h);
    }
  }

  lemma MoveKeepsInv(s: Table, i: nat)
    requires Inv(s) && CanMove(s, i)
    ensures Inv(Move(s, i)) && |Move(s, i).st| == |s.st|
  {
    MoveKeepsMutex(s, i);
    MoveKeepsPeace(s, i);
    assert Own(s, i);
    var k := Tried(s.at[i], i, |s.st|);
    assert Own(s, k);
    forall j | 0 <= j < |s.st| ensures Own(Move(s, i), j) {
      assert Own(s, j);
      MoveKeepsOwn(s, i, j);
    }
    forall h | 0 <= h < |s.st| ensures Served(Move(s, i), h) {
      assert Served(s, h);
      MoveKeepsServed(s, i, h);
    }
  }

  // ---- whole runs ----

  /** A table where everybody is away and no semaphore has been used. */
  ghost predicate Opens(s: Table) {
    && Sized(s) && Opened(s.mutex, 1) && s.holder == -1
    && forall i | 0 <= i < |s.st| :: s.st[i] == NONE && s.at[i].Away? && Opened(s.sems[i], 0)
  }

  lemma OpensInv(s: Table)
    requires Opens(s)
    ensures Inv(s)
  {
  }

  /** t is reached from s when the philosophers of who move in that order. */
  ghost predicate Reaches(s: Table, who: seq<nat>, t: Table)
    decreases |who|
  {
    if who == [] then t == s
    else Sized(s) && CanMove(s, who[0]) && Reaches(Move(s, who[0]), who[1..], t)
  }

  lemma {:induction false} ReachableInv(s: Table, who: seq<nat>, t: Table)
    requires Inv(s) && Reaches(s, who, t)
    ensures Inv(t)
    decreases |who|
  {
    if who != [] {
      MoveKeepsInv(s, who[0]);
      ReachableInv(Move(s, who[0]), who[1..], t);
    }
  }

  /**
   Between its sem_wait on its own semaphore and THINKING a philosopher is
   EATING, and no neighbour of it is EATING or at such a place.
   */
  lemma EatersSitApart(s: Table, who: seq<nat>, t: Table, i: nat)
    requires Opens(s) && Reaches(s, who, t)
    ensures Inv(t)
    ensures i < |t.st| && Past(t.at[i]) ==>
              && t.st[i] == EATING
              && t.st[Left(i, |t.st|)] != EATING && t.st[Right(i, |t.st|)] != EATING
              && !Past(t.at[Left(i, |t.st|)]) && !Past(t.at[Right(i, |t.st|)])
  {
    OpensInv(s);
    ReachableInv(s, who, t);
    if i < |t.st| && Past(t.at[i]) {
      var l, r := Left(i, |t.st|), Right(i, |t.st|);
      LeftRight(i, |t.st|);
      assert Own(t, i) && Own(t, l) && Own(t, r);
      assert Right(l, |t.st|) == i;
    }
  }

  /** Whenever the mutex is free, every HUNGRY philosopher has an EATING neighbour. */
  lemma HungryWaitsForAnEater(s: Table, who: seq<nat>, t: Table, h: nat)
    requires Opens(s) && Reaches(s, who, t)
    ensures Inv(t)
    ensures t.mutex.value > 0 && h < |t.st| && t.st[h] == HUNGRY ==> HasEater(t.st, h)
  {
    OpensInv(s);
    ReachableInv(s, who, t);
    if h < |t.st| {
      assert Served(t, h);
    }
  }

  /** A philosopher parked on its own semaphore is HUNGRY. */
  lemma ParkedIsHungry(s: Table, i: nat)
    requires Inv(s) && i < |s.st| && s.at[i].OwnSem? && i in s.sems[i].waiting
    ensures s.st[i] == HUNGRY
  {
    assert Own(s, i);
    var w := s.sems[i].woken;
    assert w == {};
  }

  lemma SomebodyWoken(s: Table, i: nat) returns (j: nat)
    requires Inv(s) && s.holder < 0 && i in s.mutex.waiting
    ensures j < |s.at| && CanMove(s, j)
  {
    assert |s.mutex.woken| >= 1;
    j :| j in s.mutex.woken;
  }

  lemma InvNeverDeadlocks(s: Table) returns (i: nat)
    requires Inv(s)
    ensures i < |s.st| && CanMove(s, i)
  {
    assert Own(s, 0);
    if s.holder >= 0 {
      i := s.holder;
    } else if CanMove(s, 0) {
      i := 0;
    } else if Wants(s.at[0]) {
      i := SomebodyWoken(s, 0);
    } else {
      ParkedIsHungry(s, 0);
      assert Served(s, 0);
      i := if s.st[Left(0, |s.st|)] == EATING then Left(0, |s.st|) else Right(0, |s.st|);
      assert s.st[i] == EATING && Own(s, i);
      if !CanMove(s, i) {
        if Wants(s.at[i]) {
          i := SomebodyWoken(s, i);
        } else {
          ParkedIsHungry(s, i);
        }
      }
    }
  }

  /** The table never deadlocks: some philosopher is not parked on a semaphore. */
  lemma NeverDeadlocks(s: Table, who: seq<nat>, t: Table) returns (i: nat)
    requires Opens(s) && Reaches(s, who, t)
    ensures i < |t.st| && CanMove(t, i)
  {
    OpensInv(s);
    ReachableInv(s, who, t);
    i := InvNeverDeadlocks(t);
  }
}
