/**
 A spare unit does harm: from a ring that has one, philosophers and host can go
 on until a HUNGRY philosopher passes its own semaphore.
 */
module DiningSpares {
  import opened Philosophers
  import opened DiningRing
  import opened DiningUnits

  // ---- putting runs together ----

  /** No step of the run changes a Stray, and nobody HUNGRY passes. */
  ghost predicate CalmRun(s: Ring, ms: seq<Move>)
    requires Orderly(s)
    decreases |ms|
  {
    ms != [] && Enabled(s, ms[0]) ==>
      Calm(s, ms[0]) && !Misleads(s, ms[0]) && (StepKeepsOrder(s, ms[0]); CalmRun(Step(s, ms[0]), ms[1..]))
  }

  /** ms leads from s to t; calmly, if that is asked for. */
  ghost predicate Leads(s: Ring, ms: seq<Move>, t: Ring, calm: bool) {
    Orderly(s) && Orderly(t) && Reaches(s, ms, t) && (calm ==> CalmRun(s, ms))
  }

  lemma {:induction false} LeadsOn(s: Ring, ms: seq<Move>, t: Ring, m: Move, calm: bool)
    requires Leads(s, ms, t, calm) && Enabled(t, m) && (calm ==> Calm(t, m) && !Misleads(t, m))
    ensures Orderly(Step(t, m)) && Leads(s, ms + [m], Step(t, m), calm)
    decreases |ms|
  {
    StepKeepsOrder(t, m);
    var all := ms + [m];
    if ms == [] {
      assert all[0] == m && all[1..] == [];
    } else {
      StepKeepsOrder(s, ms[0]);
      LeadsOn(Step(s, ms[0]), ms[1..], t, m, calm);
      assert all[0] == ms[0] && all[1..] == ms[1..] + [m];
    }
  }

  lemma OneMore(s: Ring, ms: seq<Move>, t: Ring, m: Move, calm: bool) returns (ms': seq<Move>, u: Ring)
    requires Leads(s, ms, t, calm) && Enabled(t, m) && (calm ==> Calm(t, m) && !Misleads(t, m))
    ensures u == Step(t, m) && Leads(s, ms', u, calm)
  {
    LeadsOn(s, ms, t, m, calm);
    ms', u := ms + [m], Step(t, m);
  }

  ghost predicate SameStrays(s: Ring, t: Ring)
    requires Sized(s) && Sized(t)
  {
    |t.at| == |s.at| && forall j {:trigger Stray(t, j)} | 0 <= j < |t.at| :: Stray(t, j) == Stray(s, j)
  }

  lemma CalmStep(s: Ring, m: Move)
    requires Orderly(s) && PastEats(s) && Enabled(s, m) && Calm(s, m) && !Misleads(s, m)
    ensures Orderly(Step(s, m)) && PastEats(Step(s, m)) && SameStrays(s, Step(s, m))
  {
    var t := Step(s, m);
    BreaksExactlyWhen(s, m);
    StepKeepsOrder(s, m);
    forall j | 0 <= j < |t.at| ensures Stray(t, j) == Stray(s, j) {
      if m.PhilosopherMoves? {
        PhilosopherUnits(s, m.id, j);
      } else {
        HostUnits(s, m, j);
      }
    }
  }

  /** A calm run from a ring where everybody past its own semaphore eats keeps that and every Stray. */
  lemma {:induction false} CalmRunKeeps(s: Ring, ms: seq<Move>, t: Ring)
    requires Leads(s, ms, t, true) && PastEats(s)
    ensures PastEats(t) && SameStrays(s, t)
    decreases |ms|
  {
    if ms != [] {
      CalmStep(s, ms[0]);
      var u := Step(s, ms[0]);
      CalmRunKeeps(u, ms[1..], t);
      forall j | 0 <= j < |t.at| ensures Stray(t, j) == Stray(s, j) {
        assert Stray(t, j) == Stray(u, j);
      }
    }
  }

  // ---- what philosophers do ----

  /** Outside, and not past its own semaphore. */
  predicate Out(p: Place) {
    p.Away? || p.WantHungry?
  }

  /** Outside, and past it. */
  predicate Fed(p: Place) {
    p.Dining? || p.WantThinking?
  }

  /** Philosopher i comes to its first try. */
  lemma SitsHungry(s: Ring, ms: seq<Move>, t: Ring, i: nat, calm: bool) returns (ms': seq<Move>, u: Ring)
    requires Leads(s, ms, t, calm) && t.value == 1 && i < t.num && Out(t.at[i])
    ensures Leads(s, ms', u, calm)
    ensures u == t.(st := t.st[i := HUNGRY], value := 0, at := t.at[i := TryOwn])
  {
    ms', u := ms, t;
    if t.at[i].Away? {
      ms', u := OneMore(s, ms', u, PhilosopherMoves(i), calm);
    }
    ms', u := OneMore(s, ms', u, PhilosopherMoves(i), calm);
    ms', u := OneMore(s, ms', u, PhilosopherMoves(i), calm);
  }

  /** Philosopher i gets hungry and comes to its own semaphore, eating or not. */
  lemma GetsHungry(s: Ring, ms: seq<Move>, t: Ring, i: nat, calm: bool) returns (ms': seq<Move>, u: Ring)
    requires Leads(s, ms, t, calm) && t.value == 1 && i < t.num && Out(t.at[i])
    ensures Leads(s, ms', u, calm)
    ensures u == Goes(TryFor(t.(st := t.st[i := HUNGRY]), i), i, OwnSem)
  {
    ms', u := SitsHungry(s, ms, t, i, calm);
    ms', u := OneMore(s, ms', u, PhilosopherMoves(i), calm);
    ms', u := OneMore(s, ms', u, PhilosopherMoves(i), calm);
  }

  lemma StandsUp(s: Ring, ms: seq<Move>, t: Ring, i: nat, calm: bool) returns (ms': seq<Move>, u: Ring)
    requires Leads(s, ms, t, calm) && t.value == 1 && i < t.num && Fed(t.at[i])
    ensures Leads(s, ms', u, calm)
    ensures u == t.(st := t.st[i := THINKING], value := 0, at := t.at[i := TryLeft])
  {
    ms', u := ms, t;
    if t.at[i].Dining? {
      ms', u := OneMore(s, ms', u, PhilosopherMoves(i), calm);
    }
    ms', u := OneMore(s, ms', u, PhilosopherMoves(i), calm);
    ms', u := OneMore(s, ms', u, PhilosopherMoves(i), calm);
  }

  /** t after i has gone back to thinking and tried for its neighbours. */
  function Thinks(t: Ring, i: nat): Ring
    requires Sized(t) && i < t.num
  {
    Goes(TryFor(TryFor(t.(st := t.st[i := THINKING]), Left(i, t.num)), Right(i, t.num)), i, Away)
  }

  /** try_to_eat looks at states and semaphores only. */
  lemma TryForFrame(t: Ring, value: int, at: seq<Place>, k: nat)
    requires Sized(t) && |at| == |t.at| && k < t.num
    ensures TryFor(t.(value := value, at := at), k) == TryFor(t, k).(value := value, at := at)
  {
  }

  lemma TriesLeft(s: Ring, ms: seq<Move>, t: Ring, i: nat, calm: bool) returns (ms': seq<Move>, u: Ring)
    requires Leads(s, ms, t, calm) && i < t.num && t.at[i].TryLeft?
    ensures Leads(s, ms', u, calm)
    ensures u == TryFor(t, Left(i, t.num)).(at := t.at[i := TryRight])
  {
    ms', u := OneMore(s, ms, t, PhilosopherMoves(i), calm);
  }

  lemma TriesRight(s: Ring, ms: seq<Move>, t: Ring, i: nat, calm: bool) returns (ms': seq<Move>, u: Ring)
    requires Leads(s, ms, t, calm) && i < t.num && t.at[i].TryRight?
    ensures Leads(s, ms', u, calm)
    ensures u == TryFor(t, Right(i, t.num)).(value := t.value + 1, at := t.at[i := Away])
  {
    ms', u := OneMore(s, ms, t, PhilosopherMoves(i), calm);
    ms', u := OneMore(s, ms', u, PhilosopherMoves(i), calm);
    assert t.at[i := PostThinking][i := Away] == t.at[i := Away];
  }

  /** The two tries, and the post that follows. */
  lemma TriesBoth(s: Ring, ms: seq<Move>, t: Ring, i: nat, calm: bool) returns (ms': seq<Move>, u: Ring)
    requires Leads(s, ms, t, calm) && i < t.num && t.at[i].TryLeft?
    ensures Leads(s, ms', u, calm)
    ensures var v := TryFor(TryFor(t, Left(i, t.num)), Right(i, t.num));
            u == v.(value := t.value + 1, at := t.at[i := Away])
  {
    var w := TryFor(t, Left(i, t.num));
    TryForFrame(w, w.value, t.at[i := TryRight], Right(i, t.num));
    ms', u := TriesLeft(s, ms, t, i, calm);
    ms', u := TriesRight(s, ms', u, i, calm);
    assert t.at[i := TryRight][i := Away] == t.at[i := Away];
  }

  lemma ThinksFrame(t: Ring, i: nat)
    requires Sized(t) && i < t.num && t.value == 1
    ensures var v := t.(st := t.st[i := THINKING], value := 0, at := t.at[i := TryLeft]);
            TryFor(TryFor(v, Left(i, t.num)), Right(i, t.num)).(value := 1, at := t.at[i := Away]) == Thinks(t, i)
  {
    var b := t.(st := t.st[i := THINKING]);
    var l, r := Left(i, t.num), Right(i, t.num);
    TryForFrame(b, 0, t.at[i := TryLeft], l);
    TryForFrame(TryFor(b, l), 0, t.at[i := TryLeft], r);
  }

  lemma GetsThinking(s: Ring, ms: seq<Move>, t: Ring, i: nat, calm: bool) returns (ms': seq<Move>, u: Ring)
    requires Leads(s, ms, t, calm) && t.value == 1 && i < t.num && Fed(t.at[i])
    ensures Leads(s, ms', u, calm) && u == Thinks(t, i)
  {
    ms', u := StandsUp(s, ms, t, i, calm);
    assert u.at[i := Away] == t.at[i := Away];
    ms', u := TriesBoth(s, ms', u, i, calm);
    ThinksFrame(t, i);
  }

  /** Philosopher i, eating, passes its own semaphore and goes back to thinking. */
  lemma Finishes(s: Ring, ms: seq<Move>, t: Ring, i: nat, calm: bool) returns (ms': seq<Move>, u: Ring)
    requires Leads(s, ms, t, calm) && t.value == 1 && i < t.num && t.at[i].OwnSem? && t.sem[i] > 0
    requires calm ==> t.st[i] == EATING
    ensures Leads(s, ms', u, calm)
    ensures u == Thinks(t.(sem := t.sem[i := t.sem[i] - 1]), i)
  {
    ms', u := OneMore(s, ms, t, PhilosopherMoves(i), calm);
    ms', u := GetsThinking(s, ms', u, i, calm);
    ThinksAnywhere(t.(sem := t.sem[i := t.sem[i] - 1]), i, t.at[i := Dining]);
  }

  lemma ThinksAnywhere(t: Ring, i: nat, at: seq<Place>)
    requires Sized(t) && i < t.num && |at| == |t.at| && at[i := Away] == t.at[i := Away]
    ensures Thinks(t.(at := at), i) == Thinks(t, i)
  {
    var b := t.(st := t.st[i := THINKING]);
    var l, r := Left(i, t.num), Right(i, t.num);
    TryForFrame(b, t.value, at, l);
    TryForFrame(TryFor(b, l), t.value, at, r);
  }

  // ---- what the host does ----

  const GO: Move := HostMoves(false, false)

  /** Nobody is inside and the host waits for a command. */
  predicate Resting(s: Ring) {
    s.host.Idle? && s.value == 1
  }

  lemma HostSits(s: Ring, ms: seq<Move>, t: Ring, calm: bool) returns (ms': seq<Move>, u: Ring)
    requires Leads(s, ms, t, calm) && Resting(t) && t.num < |t.st|
    ensures Leads(s, ms', u, calm)
    ensures u == t.(st := t.st[t.num := NONE], host := AddOpen, value := 0)
  {
    ms', u := OneMore(s, ms, t, HostAdds, calm);
    ms', u := OneMore(s, ms', u, GO, calm);
    ms', u := OneMore(s, ms', u, GO, calm);
  }

  lemma HostCreates(s: Ring, ms: seq<Move>, t: Ring, calm: bool) returns (ms': seq<Move>, u: Ring)
    requires Leads(s, ms, t, calm) && t.host.AddOpen?
    ensures Leads(s, ms', u, calm)
    ensures t.num < |t.at| && u == t.(at := t.at[t.num := Away], host := AddCount)
  {
    ms', u := OneMore(s, ms, t, GO, calm);
    ms', u := OneMore(s, ms', u, GO, calm);
  }

  /** The host adds a philosopher. */
  lemma AddsOne(s: Ring, ms: seq<Move>, t: Ring, calm: bool) returns (ms': seq<Move>, u: Ring)
    requires Leads(s, ms, t, calm) && Resting(t) && t.num < |t.st|
    ensures Leads(s, ms', u, calm) && Resting(u)
    ensures u == t.(st := t.st[t.num := NONE], at := t.at[t.num := Away], num := t.num + 1)
  {
    ms', u := HostSits(s, ms, t, calm);
    ms', u := HostCreates(s, ms', u, calm);
    ms', u := OneMore(s, ms', u, GO, calm);
    ms', u := OneMore(s, ms', u, GO, calm);
  }

  lemma HostTests(s: Ring, ms: seq<Move>, t: Ring) returns (ms': seq<Move>, u: Ring)
    requires Leads(s, ms, t, false) && Resting(t) && t.num > MIN_PHILOSOPHERS
    ensures Leads(s, ms', u, false) && u == t.(host := RemoveTest, value := 0)
  {
    ms', u := OneMore(s, ms, t, HostRemoves, false);
    ms', u := OneMore(s, ms', u, GO, false);
  }

  /** The host kills the last philosopher. */
  lemma HostKills(s: Ring, ms: seq<Move>, t: Ring) returns (ms': seq<Move>, u: Ring)
    requires Leads(s, ms, t, false) && Resting(t) && t.num > MIN_PHILOSOPHERS && !MustStay(t)
    ensures Leads(s, ms', u, false)
    ensures u == t.(at := t.at[t.num - 1 := Gone], host := RemoveClose, value := 0)
  {
    ms', u := HostTests(s, ms, t);
    ms', u := OneMore(s, ms', u, GO, false);
    ms', u := OneMore(s, ms', u, GO, false);
  }

  lemma HostClears(s: Ring, ms: seq<Move>, t: Ring, calm: bool) returns (ms': seq<Move>, u: Ring)
    requires Leads(s, ms, t, calm) && t.host.RemoveClose?
    ensures Leads(s, ms', u, calm)
    ensures t.num > 0 && u == t.(st := t.st[t.num - 1 := NONE], host := RemoveCount)
  {
    ms', u := OneMore(s, ms, t, GO, calm);
    ms', u := OneMore(s, ms', u, GO, calm);
  }

  /** The host removes the last one, whose semaphore somebody else has open. */
  lemma RemovesOne(s: Ring, ms: seq<Move>, t: Ring) returns (ms': seq<Move>, u: Ring)
    requires Leads(s, ms, t, false) && Resting(t) && t.num > MIN_PHILOSOPHERS && !MustStay(t)
    ensures Leads(s, ms', u, false) && Resting(u)
    ensures u == t.(st := t.st[t.num - 1 := NONE], at := t.at[t.num - 1 := Gone], num := t.num - 1)
  {
    ms', u := HostKills(s, ms, t);
    ms', u := HostClears(s, ms', u, false);
    ms', u := OneMore(s, ms', u, GO, false);
    ms', u := OneMore(s, ms', u, GO, false);
  }

  // ---- a run with a spare unit ----

  /** Four philosophers sit down, all of them away. */
  lemma FourSitDown(s: Ring) returns (ms: seq<Move>, t: Ring)
    requires Opens(s) && Orderly(s) && |s.st| >= 4
    ensures Leads(s, ms, t, false) && Resting(t) && t.num == 4
    ensures forall i | 0 <= i < 4 :: t.at[i].Away? && t.st[i] == NONE && t.sem[i] == 0
  {
    ms, t := AddsOne(s, [], s, false);
    ms, t := AddsOne(s, ms, t, false);
    ms, t := AddsOne(s, ms, t, false);
    ms, t := AddsOne(s, ms, t, false);
  }

  /** The last of four eats, is removed before it passes its semaphore, and comes back. */
  lemma TheLastComesBack(s: Ring) returns (ms: seq<Move>, t: Ring)
    requires Opens(s) && Orderly(s) && |s.st| >= 4
    ensures Leads(s, ms, t, false) && Resting(t) && t.num == 4 && t.sem[3] == 1
    ensures forall i | 0 <= i < 4 :: t.at[i].Away? && t.st[i] == NONE
  {
    ms, t := FourSitDown(s);
    ms, t := GetsHungry(s, ms, t, 3, false);
    ms, t := RemovesOne(s, ms, t);
    ms, t := AddsOne(s, ms, t, false);
  }

  /**
   A run in which the last philosopher is removed with a unit on its semaphore:
   the one who comes next passes with it, HUNGRY beside an EATING neighbour.
   */
  lemma ASpareUnitSpoilsARun(s: Ring) returns (ms: seq<Move>, t: Ring)
    requires Opens(s) && Orderly(s) && |s.st| >= 4
    ensures Reaches(s, ms, t) && Inv(t) && t.num == 4
    ensures Past(t.at[3]) && t.st[3] == HUNGRY && Right(3, t.num) == 0 && t.st[0] == EATING
  {
    ms, t := TheLastComesBack(s);
    ms, t := GetsHungry(s, ms, t, 0, false);
    ms, t := GetsHungry(s, ms, t, 3, false);
    ms, t := OneMore(s, ms, t, PhilosopherMoves(3), false);
  }

  // ---- from any ring with a spare unit ----

  /** How many steps a philosopher inside is from its post. */
  function ToGo(p: Place): nat {
    match p
    case PostHungry => 1
    case PostThinking => 1
    case TryOwn => 2
    case TryRight => 2
    case SetHungry => 3
    case TryLeft => 3
    case SetThinking => 4
    case _ => 0
  }

  /** The same philosophers have a process. */
  ghost predicate SamePeople(s: Ring, t: Ring) {
    |t.at| == |s.at| && forall j {:trigger t.at[j]} | 0 <= j < |t.at| :: t.at[j].Gone? <==> s.at[j].Gone?
  }

  lemma {:induction false} PhilosopherLeaves(s: Ring, ms: seq<Move>, t: Ring, i: nat) returns (ms': seq<Move>, u: Ring)
    requires Leads(s, ms, t, true) && i < t.num && Inside(t.at[i])
    ensures Leads(s, ms', u, true) && u.value == 1 && u.num == t.num && u.host == t.host && SamePeople(t, u)
    decreases ToGo(t.at[i])
  {
    ms', u := OneMore(s, ms, t, PhilosopherMoves(i), true);
    PhilosopherPlaces(t, i);
    PhilosopherKeepsPeace(t, i);
    if Inside(u.at[i]) {
      ms', u := PhilosopherLeaves(s, ms', u, i);
    }
  }

  /** How many steps the host is from its post, if it lets creating and killing fail. */
  function HostToGo(h: Host): nat {
    match h
    case AddPost => 1
    case AddCount => 2
    case AddCreate => 2
    case AddOpen => 3
    case AddSet => 4
    case RemovePost => 1
    case RemoveCount => 2
    case RemoveSet => 3
    case RemoveClose => 4
    case RemoveKill => 2
    case RemoveYield => 1
    case RemoveTest => 3
    case _ => 0
  }

  /** The host is on its way to remove somebody, or waits for the semaphore to do so. */
  predicate Leaving(h: Host) {
    h.RemoveWait? || h.RemoveTest? || h.RemoveYield? || h.RemoveSem?
  }

  function HostsWay(h: Host): Move {
    HostMoves(h.AddCreate? || h.RemoveKill?, false)
  }

  lemma HostStep(t: Ring)
    requires Orderly(t) && HostInside(t.host)
    ensures Enabled(t, HostsWay(t.host)) && Calm(t, HostsWay(t.host))
    ensures var u := Step(t, HostsWay(t.host));
            && HostToGo(u.host) < HostToGo(t.host)
            && (HostInside(u.host) ==> u.value == t.value)
            && (!HostInside(u.host) ==> u.value == t.value + 1 && (u.host.Idle? || Leaving(t.host)))
            && (Leaving(u.host) ==> Leaving(t.host))
            && (t.num >= MIN_PHILOSOPHERS ==> u.num >= MIN_PHILOSOPHERS)
  {
  }

  lemma {:induction false} HostLeaves(s: Ring, ms: seq<Move>, t: Ring) returns (ms': seq<Move>, u: Ring)
    requires Leads(s, ms, t, true) && HostInside(t.host)
    ensures Leads(s, ms', u, true) && u.value == 1 && (u.host.Idle? || Leaving(t.host))
    ensures t.num >= MIN_PHILOSOPHERS ==> u.num >= MIN_PHILOSOPHERS
    ensures SamePeople(t, u)
    decreases HostToGo(t.host)
  {
    HostStep(t);
    HostKeepsPeople(t);
    ms', u := OneMore(s, ms, t, HostsWay(t.host), true);
    if HostInside(u.host) {
      ms', u := HostLeaves(s, ms', u);
    }
  }

  lemma HostKeepsPeople(t: Ring)
    requires Orderly(t) && HostInside(t.host) && Enabled(t, HostsWay(t.host))
    ensures SamePeople(t, Step(t, HostsWay(t.host)))
  {
  }

  /** Whoever is inside leaves. */
  lemma Settles(s: Ring, ms: seq<Move>, t: Ring) returns (ms': seq<Move>, u: Ring)
    requires Leads(s, ms, t, true) && !Stuck(t)
    ensures Leads(s, ms', u, true) && u.value == 1
    ensures !Leaving(t.host) ==> !Leaving(u.host)
    ensures t.num >= MIN_PHILOSOPHERS ==> u.num >= MIN_PHILOSOPHERS
    ensures SamePeople(t, u)
  {
    if t.value == 1 {
      ms', u := ms, t;
    } else if HostInside(t.host) {
      ms', u := HostLeaves(s, ms, t);
    } else {
      var i :| 0 <= i < |t.at| && Inside(t.at[i]);
      ms', u := PhilosopherLeaves(s, ms, t, i);
    }
  }

  // ---- the harm ----

  /** Some run from s, in which nobody with a unit is killed, ends with somebody past its own semaphore who does not eat. */
  ghost predicate Spoilt(s: Ring)
    requires Orderly(s)
  {
    exists ms, t {:trigger Reaches(s, ms, t)} :: Reaches(s, ms, t) && NoneKilled(s, ms) && Sized(t) && !PastEats(t)
  }

  lemma {:induction false} CalmIsClean(s: Ring, ms: seq<Move>, t: Ring, m: Move)
    requires Leads(s, ms, t, true) && Enabled(t, m) && !KillsUnit(t, m)
    ensures Orderly(Step(t, m)) && Reaches(s, ms + [m], Step(t, m)) && NoneKilled(s, ms + [m])
    decreases |ms|
  {
    StepKeepsOrder(t, m);
    var all := ms + [m];
    if ms == [] {
      assert all[0] == m && all[1..] == [];
    } else {
      StepKeepsOrder(s, ms[0]);
      CalmIsClean(Step(s, ms[0]), ms[1..], t, m);
      assert all[0] == ms[0] && all[1..] == ms[1..] + [m];
    }
  }

  /** i, HUNGRY, passes its own semaphore. */
  lemma PassesHungry(s: Ring, ms: seq<Move>, t: Ring, i: nat)
    requires Leads(s, ms, t, true) && i < t.num && t.at[i].OwnSem? && t.st[i] == HUNGRY && t.sem[i] > 0
    ensures Spoilt(s)
  {
    var m := PhilosopherMoves(i);
    CalmIsClean(s, ms, t, m);
    var u := Step(t, m);
    assert Past(u.at[i]) && u.st[i] == HUNGRY;
  }

  /** What the lemmas below start from: a ring that settled after a calm run, where i has a unit to spare. */
  ghost predicate Spares(s: Ring, ms: seq<Move>, t: Ring, i: nat) {
    && Leads(s, ms, t, true) && PastEats(s)
    && t.value == 1 && MIN_PHILOSOPHERS <= t.num && i < t.num && !t.at[i].Gone?
    && i < |s.at| && Stray(s, i) > 0
    && forall j {:trigger Stray(s, j)} | 0 <= j < |s.at| :: Stray(s, j) >= 0
  }

  lemma Settled(t: Ring, j: nat)
    requires Orderly(t) && t.value == 1 && j < t.num
    ensures Out(t.at[j]) || t.at[j].OwnSem? || Fed(t.at[j])
    ensures Out(t.at[j]) ==> t.st[j] != HUNGRY && t.st[j] != EATING
    ensures t.at[j].OwnSem? ==> t.st[j] == HUNGRY || t.st[j] == EATING
  {
    assert AtPlace(t, j) && !Inside(t.at[j]);
  }

  /** What is known of j when the ring has settled. */
  lemma Units(s: Ring, ms: seq<Move>, t: Ring, i: nat, j: nat)
    requires Spares(s, ms, t, i) && j < t.num
    ensures Out(t.at[j]) || t.at[j].OwnSem? || Fed(t.at[j])
    ensures Out(t.at[j]) ==> t.st[j] != HUNGRY && t.st[j] != EATING
    ensures t.at[j].OwnSem? ==> t.st[j] == HUNGRY || (t.st[j] == EATING && t.sem[j] > 0)
    ensures Fed(t.at[j]) ==> t.st[j] == EATING
    ensures j == i && t.at[j].OwnSem? ==> t.sem[j] > 0
  {
    CalmRunKeeps(s, ms, t);
    Settled(t, j);
    assert Stray(t, j) == Stray(s, j);
  }

  function Thought(st: seq<PState>, num: nat, j: nat): seq<PState>
    requires j < num <= |st|
  {
    Try(Try(st[j := THINKING], num, Left(j, num)), num, Right(j, num))
  }

  lemma ThinksForm(t: Ring, j: nat)
    requires Sized(t) && j < t.num
    ensures var u := Thinks(t, j);
            && u.st == Thought(t.st, t.num, j) && |u.st| == |t.st| && u.at == t.at[j := Away]
            && u.num == t.num && u.value == t.value
  {
  }

  /** Somebody who eats goes back to thinking. */
  lemma GoesBack(s: Ring, ms: seq<Move>, t: Ring, i: nat, j: nat) returns (ms': seq<Move>, u: Ring)
    requires Spares(s, ms, t, i) && j < t.num && t.st[j] == EATING
    ensures Spares(s, ms', u, i) && u.num == t.num && |u.st| == |t.st|
    ensures u.at == t.at[j := Away] && u.st == Thought(t.st, t.num, j)
  {
    Units(s, ms, t, i, j);
    if t.at[j].OwnSem? {
      ThinksForm(t.(sem := t.sem[j := t.sem[j] - 1]), j);
      ms', u := Finishes(s, ms, t, j, true);
    } else {
      ThinksForm(t, j);
      ms', u := GetsThinking(s, ms, t, j, true);
    }
  }

  lemma Hungers(s: Ring, ms: seq<Move>, t: Ring, i: nat, j: nat) returns (ms': seq<Move>, u: Ring)
    requires Spares(s, ms, t, i) && j < t.num && Out(t.at[j])
    ensures Spares(s, ms', u, i) && u.num == t.num && |u.st| == |t.st|
    ensures u.at == t.at[j := OwnSem] && u.st == Try(t.st[j := HUNGRY], t.num, j)
  {
    ms', u := GetsHungry(s, ms, t, j, true);
  }

  /** i gets hungry beside a neighbour that eats, and passes with the unit it has to spare. */
  lemma BesideAnEater(s: Ring, ms: seq<Move>, t: Ring, i: nat)
    requires Spares(s, ms, t, i) && Out(t.at[i])
    requires t.st[Left(i, t.num)] == EATING || t.st[Right(i, t.num)] == EATING
    ensures Spoilt(s)
  {
    LeftRight(i, t.num);
    var ms', u := Hungers(s, ms, t, i, i);
    Units(s, ms', u, i, i);
    PassesHungry(s, ms', u, i);
  }

  /** What two places further on going back to thinking does for the place in between. */
  lemma ThoughtFeeds(st: seq<PState>, num: nat, i: nat)
    requires MIN_PHILOSOPHERS <= num <= |st| && i < num && st[i] != HUNGRY && st[i] != EATING
    requires st[Right(i, num)] != EATING
    ensures var r := Right(i, num); var rr := Right(r, num); var w := Thought(st, num, rr);
            && w[rr] == THINKING && w[i] == st[i]
            && w[r] == if st[r] == HUNGRY then EATING else st[r]
  {
    LeftRight(Right(i, num), num);
    LeftRight(Right(Right(i, num), num), num);
  }

  /** The neighbour's other neighbour goes back to thinking, and then the neighbour eats. */
  lemma FeedsByStandingUp(s: Ring, ms: seq<Move>, t: Ring, i: nat)
    requires Spares(s, ms, t, i) && Out(t.at[i])
    requires var r := Right(i, t.num); t.st[r] != EATING && t.st[Right(r, t.num)] == EATING
    ensures Spoilt(s)
  {
    var r := Right(i, t.num);
    Units(s, ms, t, i, i);
    Units(s, ms, t, i, r);
    ThoughtFeeds(t.st, t.num, i);
    LeftRight(i, t.num);
    var ms', u := GoesBack(s, ms, t, i, Right(r, t.num));
    if t.st[r] == HUNGRY {
      BesideAnEater(s, ms', u, i);
    } else {
      LeftRight(r, t.num);
      ms', u := Hungers(s, ms', u, i, r);
      BesideAnEater(s, ms', u, i);
    }
  }

  /** i itself eats and goes back to thinking, and then tries for the neighbour. */
  lemma FeedsByTrying(s: Ring, ms: seq<Move>, t: Ring, i: nat)
    requires Spares(s, ms, t, i) && Out(t.at[i])
    requires var r := Right(i, t.num);
             t.st[Left(i, t.num)] != EATING && t.st[r] == HUNGRY && t.st[Right(r, t.num)] != EATING
    ensures Spoilt(s)
  {
    var r := Right(i, t.num);
    LeftRight(i, t.num);
    LeftRight(r, t.num);
    var ms', u := Hungers(s, ms, t, i, i);
    assert u.st[i] == EATING;
    var ms2, v := GoesBack(s, ms', u, i, i);
    BesideAnEater(s, ms2, v, i);
  }

  lemma FromOutside(s: Ring, ms: seq<Move>, t: Ring, i: nat)
    requires Spares(s, ms, t, i) && Out(t.at[i])
    ensures Spoilt(s)
  {
    var l, r := Left(i, t.num), Right(i, t.num);
    LeftRight(i, t.num);
    LeftRight(r, t.num);
    Units(s, ms, t, i, i);
    Units(s, ms, t, i, r);
    if t.st[l] == EATING || t.st[r] == EATING {
      BesideAnEater(s, ms, t, i);
    } else if t.st[Right(r, t.num)] == EATING {
      FeedsByStandingUp(s, ms, t, i);
    } else if t.st[r] == HUNGRY {
      FeedsByTrying(s, ms, t, i);
    } else {
      var ms', u := Hungers(s, ms, t, i, r);
      BesideAnEater(s, ms', u, i);
    }
  }

  lemma FromAnywhere(s: Ring, ms: seq<Move>, t: Ring, i: nat)
    requires Spares(s, ms, t, i)
    ensures Spoilt(s)
  {
    Units(s, ms, t, i, i);
    if Out(t.at[i]) {
      FromOutside(s, ms, t, i);
    } else if t.st[i] == EATING {
      var ms', u := GoesBack(s, ms, t, i, i);
      FromOutside(s, ms', u, i);
    } else {
      PassesHungry(s, ms, t, i);
    }
  }

  // ---- a semaphore without a philosopher ----

  /** The host, not on its way to remove anybody, gets to wait for a command. */
  lemma HostRests(s: Ring, ms: seq<Move>, t: Ring) returns (ms': seq<Move>, u: Ring)
    requires Leads(s, ms, t, true) && t.value == 1 && !Leaving(t.host)
    ensures Leads(s, ms', u, true) && Resting(u) && SamePeople(t, u)
    ensures t.num >= MIN_PHILOSOPHERS ==> u.num >= MIN_PHILOSOPHERS
  {
    ms', u := ms, t;
    if !t.host.Idle? {
      ms', u := OneMore(s, ms, t, GO, true);
      ms', u := HostLeaves(s, ms', u);
    }
  }

  /** The host adds philosophers until i sits at the table. */
  lemma {:induction false} AddsUntil(s: Ring, ms: seq<Move>, t: Ring, i: nat) returns (ms': seq<Move>, u: Ring)
    requires Leads(s, ms, t, true) && Resting(t) && t.num <= i < |t.at|
    ensures Leads(s, ms', u, true) && Resting(u) && u.num == i + 1 && |u.at| == |t.at| && !u.at[i].Gone?
    decreases i - t.num
  {
    ms', u := AddsOne(s, ms, t, true);
    if t.num < i {
      ms', u := AddsUntil(s, ms', u, i);
    }
  }

  /** A unit that can do harm: its philosopher is there, or can be brought back. */
  predicate Surviving(s: Ring, i: nat)
    requires Sized(s) && i < |s.at|
  {
    Stray(s, i) > 0 && (s.at[i].Gone? ==> !Leaving(s.host))
  }

  /** Nobody's semaphore lacks a unit that the host has taken. */
  ghost predicate NoneTaken(s: Ring)
    requires Sized(s)
  {
    forall j {:trigger Stray(s, j)} | 0 <= j < |s.at| :: Stray(s, j) >= 0
  }

  lemma Counted(t: Ring, i: nat)
    requires Orderly(t) && t.value == 1 && i < |t.at|
    ensures t.at[i].Gone? <==> i >= t.num
  {
  }

  /**
   Whatever state philosophers, host and mutex are in, a surviving spare unit
   does harm in some run that kills nobody with a unit.
   */
  lemma SpareDoesHarm(s: Ring, i: nat)
    requires Orderly(s) && !Stuck(s) && s.num >= MIN_PHILOSOPHERS && NoneTaken(s)
    requires i < |s.at| && Surviving(s, i)
    ensures Spoilt(s)
  {
    if PastEats(s) {
      var ms, t := Settles(s, [], s);
      Counted(t, i);
      if t.at[i].Gone? {
        ms, t := HostRests(s, ms, t);
        Counted(t, i);
        ms, t := AddsUntil(s, ms, t, i);
      }
      FromAnywhere(s, ms, t, i);
    } else {
      assert Reaches(s, [], s);
    }
  }

  /** Without one no such run does. */
  lemma UnsparedIsUnspoilt(s: Ring)
    requires Orderly(s) && NoSpare(s)
    ensures !Spoilt(s)
  {
    forall ms, t {:trigger Reaches(s, ms, t)} | Reaches(s, ms, t) && NoneKilled(s, ms) && Sized(t) ensures PastEats(t) {
      RunSparesExactlyWhen(s, ms);
      EndOfUnsparedRun(s, ms, t);
      UnsparedEats(t);
    }
  }

  /**
   On a ring that is not stuck, from which the host has taken no unit and is not
   removing anybody: some philosopher can come to be past its own semaphore
   without eating, killing nobody with a unit, exactly when there is a spare one.
   */
  lemma SpoiltExactlyWhen(s: Ring)
    requires Orderly(s) && !Stuck(s) && s.num >= MIN_PHILOSOPHERS && NoneTaken(s) && !Leaving(s.host)
    ensures Spoilt(s) <==> !NoSpare(s)
  {
    if NoSpare(s) {
      UnsparedIsUnspoilt(s);
    } else {
      var i :| 0 <= i < |s.at| && Stray(s, i) > 0;
      SpareDoesHarm(s, i);
    }
  }
}
