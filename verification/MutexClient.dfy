/**
 The processes of test_sync: each repeats `slow_inc` on a shared 64-bit
 variable between a wait and a post on one semaphore of initial value 1, with
 a possible switch after every single access.
 */
module MutexClient {
  import opened Common
  import opened Semaphores
  import opened Words

  /**
   Where a process is: outside; in sem_wait; holding the semaphore; having read
   `before`; having read and incremented `aux`; having written; having read
   `after`.
   */
  datatype At =
    | Outside
    | InWait
    | Holding
    | ReadBefore(before: int)
    | Added(before: int, aux: int)
    | WroteBack(before: int)
    | ReadAfter(before: int, after: int)

  datatype Proc = Proc(inc: int, at: At)

  /** total is the sum of the increments of all completed rounds. */
  datatype State = State(sem: SemState, global: int, procs: map<Pid, Proc>, total: int)

  ghost predicate Starts(s: State) {
    && Opened(s.sem, 1) && s.global == s.total == 0
    && (forall p | p in s.procs :: p < MAX_PROCESSES && s.procs[p].at == Outside)
  }

  predicate Enabled(s: State, p: Pid) {
    p in s.procs && p !in s.sem.waiting
  }

  function Next(s: State, p: Pid): State
    requires p in s.procs
  {
    var inc := s.procs[p].inc;
    match s.procs[p].at
    case Outside => s.(procs := s.procs[p := Proc(inc, InWait)])
    case InWait =>
      s.(sem := WaitStep(s.sem, p), procs := s.procs[p := Proc(inc, if Passes(s.sem) then Holding else InWait)])
    case Holding => s.(procs := s.procs[p := Proc(inc, ReadBefore(s.global))])
    case ReadBefore(before) => s.(procs := s.procs[p := Proc(inc, Added(before, UInt64(UInt64(s.global) + UInt64(inc))))])
    case Added(before, aux) => s.(global := Int64(aux), procs := s.procs[p := Proc(inc, WroteBack(before))])
    case WroteBack(before) => s.(procs := s.procs[p := Proc(inc, ReadAfter(before, s.global))])
    case ReadAfter(_, _) =>
      s.(sem := PostStep(s.sem), total := s.total + inc, procs := s.procs[p := Proc(inc, Outside)])
  }

  predicate Critical(at: At) {
    !at.Outside? && !at.InWait?
  }

  ghost function Holders(s: State): set<Pid> {
    set p | p in s.procs && Critical(s.procs[p].at)
  }

  /** What the variable holds while p is in its critical section. */
  predicate InsideInv(s: State, p: Pid)
    requires p in s.procs
  {
    var inc := s.procs[p].inc;
    match s.procs[p].at
    case Outside => true
    case InWait => true
    case Holding => s.global == Int64(s.total)
    case ReadBefore(before) => s.global == before == Int64(s.total)
    case Added(before, aux) => s.global == before == Int64(s.total) && aux == UInt64(s.total + inc)
    case WroteBack(before) => s.global == Int64(s.total + inc) && before == Int64(s.total)
    case ReadAfter(before, after) => s.global == after == Int64(s.total + inc) && before == Int64(s.total)
  }

  ghost predicate Inv(s: State) {
    && SemInv(s.sem)
    && s.sem.value + |Holders(s)| == 1
    && (Holders(s) == {} ==> s.global == Int64(s.total))
    && (forall p {:trigger InsideInv(s, p)} | p in s.procs :: InsideInv(s, p))
    && (forall p | p in s.procs :: p < MAX_PROCESSES)
    && (forall p | p in s.sem.waiting || p in s.sem.woken :: p in s.procs && s.procs[p].at == InWait)
  }

  // ---- machine arithmetic ----

  lemma Wraps(t: int, i: int)
    ensures UInt64(UInt64(Int64(t)) + UInt64(i)) == UInt64(t + i)
    ensures Int64(UInt64(t + i)) == Int64(t + i)
  {
    Int64IsCongruent(t);
    ModSum(t, i);
    Int64OfMod(t + i);
  }

  lemma Int64Adds(t: int, i: int)
    ensures Int64(Int64(t) + i) == Int64(t + i)
  {
    Int64IsCongruent(t);
    ModSum(t, i);
    ModSum(Int64(t), i);
    Int64OfMod(t + i);
    Int64OfMod(Int64(t) + i);
  }

  // ---- counting ----

  lemma OnlyHolder(s: State, p: Pid, q: Pid)
    requires s.sem.value + |Holders(s)| == 1 && s.sem.value >= 0
    requires p in Holders(s) && q in Holders(s)
    ensures p == q
  {
    if p != q {
      assert {p, q} <= Holders(s);
      SubsetSize({p, q}, Holders(s));
    }
  }

  lemma HoldersMove(s: State, t: State, p: Pid)
    requires p in s.procs && p in t.procs && t.procs == s.procs[p := t.procs[p]]
    ensures Holders(t) == if Critical(t.procs[p].at) then Holders(s) + {p} else Holders(s) - {p}
  {
  }

  // ---- one step ----

  lemma StepKeepsInv(s: State, p: Pid)
    requires Inv(s) && Enabled(s, p)
    ensures Inv(Next(s, p))
  {
    var t := Next(s, p);
    HoldersMove(s, t, p);
    CountKeeps(s, p);
    QueueKeeps(s, p);
    forall q | q in t.procs ensures InsideInv(t, q) {
      ValueKeeps(s, p, q);
    }
    if Holders(t) == {} {
      FreeKeeps(s, p);
    }
  }

  lemma CountKeeps(s: State, p: Pid)
    requires SemInv(s.sem) && s.sem.value + |Holders(s)| == 1 && Enabled(s, p) && p < MAX_PROCESSES
    ensures SemInv(Next(s, p).sem) && Next(s, p).sem.value + |Holders(Next(s, p))| == 1
  {
    HoldersMove(s, Next(s, p), p);
    if s.procs[p].at == InWait {
      WaitKeepsInv(s.sem, p);
    } else if s.procs[p].at.ReadAfter? {
      PostKeepsInv(s.sem);
    }
    AddRemove(Holders(s), p);
  }

  lemma AddRemove(a: set<Pid>, p: Pid)
    ensures p in a ==> a + {p} == a && |a - {p}| == |a| - 1
    ensures p !in a ==> a - {p} == a && |a + {p}| == |a| + 1
  {
  }

  lemma QueueKeeps(s: State, p: Pid)
    requires Inv(s) && Enabled(s, p)
    ensures forall q | q in Next(s, p).sem.waiting || q in Next(s, p).sem.woken ::
              q in s.procs && Next(s, p).procs[q].at == InWait
  {
    if s.sem.waiting != [] {
      assert s.sem.waiting[0] in s.sem.waiting;
      assert s.sem.waiting == [s.sem.waiting[0]] + s.sem.waiting[1..];
    }
  }

  lemma ValueKeeps(s: State, p: Pid, q: Pid)
    requires Inv(s) && Enabled(s, p) && q in s.procs
    ensures InsideInv(Next(s, p), q)
  {
    assert InsideInv(s, p) && InsideInv(s, q);
    if q == p {
      OwnValue(s, p);
    } else if Critical(s.procs[q].at) {
      if Critical(s.procs[p].at) {
        OnlyHolder(s, p, q);
      }
    }
  }

  lemma OwnValue(s: State, p: Pid)
    requires Inv(s) && Enabled(s, p)
    ensures InsideInv(Next(s, p), p)
  {
    assert InsideInv(s, p);
    var inc := s.procs[p].inc;
    Wraps(s.total, inc);
    if s.procs[p].at == InWait && Passes(s.sem) {
      assert |Holders(s)| == 0;
    }
  }

  lemma FreeKeeps(s: State, p: Pid)
    requires Inv(s) && Enabled(s, p) && Holders(Next(s, p)) == {}
    ensures Next(s, p).global == Int64(Next(s, p).total)
  {
    assert InsideInv(s, p);
    HoldersMove(s, Next(s, p), p);
    if Holders(s) != {} {
      assert Holders(s) - {p} == {};
      assert p in Holders(s);
    }
  }

  // ---- whole runs ----

  /** t is reached from s when the scheduler lets the processes of ps run one step each, in order. */
  ghost predicate Reaches(s: State, ps: seq<Pid>, t: State)
    decreases |ps|
  {
    if ps == [] then t == s
    else Enabled(s, ps[0]) && Reaches(Next(s, ps[0]), ps[1..], t)
  }

  lemma {:induction false} ReachableInv(s: State, ps: seq<Pid>, t: State)
    requires Inv(s) && Reaches(s, ps, t)
    ensures Inv(t)
    decreases |ps|
  {
    if ps != [] {
      StepKeepsInv(s, ps[0]);
      ReachableInv(Next(s, ps[0]), ps[1..], t);
    }
  }

  lemma StartInv(s: State)
    requires Starts(s)
    ensures Inv(s)
  {
    assert Holders(s) == {};
  }

  /**
   No lost update: whenever the semaphore is free, the variable is the sum of
   all completed increments, modulo 2^64; and at most one process is between
   its wait and its post.
   */
  lemma NoLostUpdate(s: State, ps: seq<Pid>, t: State, p: Pid, q: Pid)
    requires Starts(s) && Reaches(s, ps, t)
    ensures t.sem.value in {0, 1}
    ensures t.sem.value == 1 ==> t.global == Int64(t.total)
    ensures p in Holders(t) && q in Holders(t) ==> p == q
  {
    StartInv(s);
    ReachableInv(s, ps, t);
    if t.sem.value == 1 {
      assert |Holders(t)| == 0;
    }
    if p in Holders(t) && q in Holders(t) {
      OnlyHolder(t, p, q);
    }
  }

  /** The two values a round prints differ by exactly its increment. */
  lemma RoundAddsItsIncrement(s: State, ps: seq<Pid>, t: State, p: Pid)
    requires Starts(s) && Reaches(s, ps, t) && p in t.procs && t.procs[p].at.ReadAfter?
    ensures t.procs[p].at.after == Int64(t.procs[p].at.before + t.procs[p].inc)
  {
    StartInv(s);
    ReachableInv(s, ps, t);
    assert InsideInv(t, p);
    Int64Adds(t.total, t.procs[p].inc);
  }
}
