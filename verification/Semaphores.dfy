/**
 One counting semaphore of the kernel: its table entry as a class, and the
 protocol its waiters and posters follow as a state machine.  A system call
 runs with interrupts off, so sem_post is one step, and sem_wait is one step
 up to its only yield and one step for every retry after it.
 */
module Semaphores {
  import opened Common

  type Pid = nat

  /**
   waiting: the queue.  woken: processes taken off the queue that have not
   tested the value again yet.  posts and passed count completed posts and
   waits.  queued and unblocked record, in order, every process that was put
   into the queue, and every one that was handed back to the scheduler.
   */
  datatype SemState = SemState(
    value: int,
    waiting: seq<Pid>,
    woken: set<Pid>,
    initial: int,
    posts: nat,
    passed: nat,
    queued: seq<Pid>,
    unblocked: seq<Pid>
  )

  /** The semaphore as sem_open sets it up. */
  predicate Opened(s: SemState, initial: int) {
    && s.value == s.initial == initial
    && s.waiting == [] && s.woken == {}
    && s.posts == 0 && s.passed == 0
    && s.queued == [] && s.unblocked == []
  }

  /** p tests the value: it passes, or it queues up and blocks. */
  function WaitStep(s: SemState, p: Pid): SemState {
    if s.value <= 0 then s.(waiting := s.waiting + [p], woken := s.woken - {p}, queued := s.queued + [p])
    else s.(value := s.value - 1, woken := s.woken - {p}, passed := s.passed + 1)
  }

  predicate Passes(s: SemState) {
    s.value > 0
  }

  /** The value goes up, and the head of the queue, if any, is unblocked. */
  function PostStep(s: SemState): SemState {
    var t := s.(value := s.value + 1, posts := s.posts + 1);
    if s.waiting == [] then t
    else t.(waiting := s.waiting[1..], woken := s.woken + {s.waiting[0]}, unblocked := s.unblocked + [s.waiting[0]])
  }

  predicate SemInv(s: SemState) {
    && s.value >= 0
    && s.value == s.initial + s.posts - s.passed
    && Distinct(s.waiting)
    && (forall p | p in s.waiting :: p !in s.woken && p < MAX_PROCESSES)
    && (s.waiting != [] ==> s.value <= |s.woken|)
    && s.queued == s.unblocked + s.waiting
  }

  lemma WaitKeepsInv(s: SemState, p: Pid)
    requires SemInv(s) && p !in s.waiting && p < MAX_PROCESSES
    ensures SemInv(WaitStep(s, p))
  {
    var t := WaitStep(s, p);
    assert s.woken - {p} == if p in s.woken then s.woken - {p} else s.woken;
    forall i, j | 0 <= i < j < |t.waiting| ensures t.waiting[i] != t.waiting[j] {
      assert s.waiting[i] in s.waiting;
    }
  }

  lemma PostKeepsInv(s: SemState)
    requires SemInv(s)
    ensures SemInv(PostStep(s))
  {
    if s.waiting != [] {
      assert s.waiting[0] in s.waiting;
      assert |s.woken + {s.waiting[0]}| == |s.woken| + 1;
      forall p | p in s.waiting[1..] ensures p in s.waiting && p != s.waiting[0] {
        var i :| 0 <= i < |s.waiting[1..]| && s.waiting[1..][i] == p;
        assert s.waiting[i + 1] == p;
      }
    }
  }

  // ---- whole runs ----

  /** What the processes that opened the semaphore can do to it. */
  datatype Event = Wait(p: Pid) | Post(p: Pid)

  /** A blocked process does nothing; a woken one is still inside sem_wait and can only retry. */
  predicate Enabled(s: SemState, e: Event) {
    match e
    case Wait(p) => p < MAX_PROCESSES && p !in s.waiting
    case Post(p) => p < MAX_PROCESSES && p !in s.waiting && p !in s.woken
  }

  function Step(s: SemState, e: Event): SemState {
    match e
    case Wait(p) => WaitStep(s, p)
    case Post(_) => PostStep(s)
  }

  function Run(s: SemState, es: seq<Event>): SemState
    decreases |es|
  {
    if es == [] then s else Run(Step(s, es[0]), es[1..])
  }

  predicate Possible(s: SemState, es: seq<Event>)
    decreases |es|
  {
    es == [] || (Enabled(s, es[0]) && Possible(Step(s, es[0]), es[1..]))
  }

  lemma {:induction false} RunKeepsInv(s: SemState, es: seq<Event>)
    requires SemInv(s) && Possible(s, es)
    ensures SemInv(Run(s, es)) && Run(s, es).initial == s.initial
    decreases |es|
  {
    if es != [] {
      match es[0] {
        case Wait(p) => WaitKeepsInv(s, p);
        case Post(p) => PostKeepsInv(s);
      }
      RunKeepsInv(Step(s, es[0]), es[1..]);
    }
  }

  /**
   No lost wakeup, after any run from any initial value: units are never
   created or lost, nobody is queued twice, the queue fits its array, and a
   unit that is available while somebody is queued is matched by a process
   that has been woken and will test the value again.  Whoever was put into
   the queue has been unblocked, in the same order, or is still in it.
   */
  lemma NoLostWakeup(s: SemState, initial: nat, es: seq<Event>)
    requires Opened(s, initial) && Possible(s, es)
    ensures var t := Run(s, es);
            && t.value >= 0
            && t.value == initial + t.posts - t.passed
            && Distinct(t.waiting) && |t.waiting| <= MAX_PROCESSES
            && (t.waiting != [] ==> t.value <= |t.woken|)
            && (t.waiting != [] && t.woken == {} ==> t.value == 0)
            && t.queued == t.unblocked + t.waiting
  {
    RunKeepsInv(s, es);
    QueueFits(Run(s, es));
  }

  lemma {:induction false} RunLast(s: SemState, es: seq<Event>)
    requires es != []
    ensures var n := |es| - 1; Run(s, es) == Step(Run(s, es[..n]), es[n])
    ensures Possible(s, es) ==> Possible(s, es[..|es| - 1])
    decreases |es|
  {
    if |es| > 1 {
      var rest := es[1..];
      RunLast(Step(s, es[0]), rest);
      assert es[..|es| - 1][1..] == rest[..|rest| - 1];
    }
  }

  /** p was unblocked by some post of the run and has not tested the value since. */
  predicate Owes(s: SemState, es: seq<Event>, p: Pid)
    decreases |es|
  {
    if es == [] then false
    else
      var n := |es| - 1;
      var before, after := Run(s, es[..n]).unblocked, Run(s, es).unblocked;
      if es[n] == Wait(p) then false
      else if |after| > |before| && after[|after| - 1] == p then true
      else Owes(s, es[..n], p)
  }

  /** The woken processes are those that the last post to unblock them has left to test the value again. */
  lemma {:induction false} WokenExactlyWhen(s: SemState, initial: int, es: seq<Event>, p: Pid)
    requires Opened(s, initial) && Possible(s, es)
    ensures p in Run(s, es).woken <==> Owes(s, es, p)
    decreases |es|
  {
    if es != [] {
      RunLast(s, es);
      WokenExactlyWhen(s, initial, es[..|es| - 1], p);
    }
  }

  /** A post unblocks the process that has been queued longest, and that one has to test the value again. */
  lemma PostUnblocksTheFirst(s: SemState)
    requires SemInv(s)
    ensures var t := PostStep(s);
            && t.queued == s.queued
            && (|s.unblocked| == |s.queued| ==> t.unblocked == s.unblocked)
            && (|s.unblocked| < |s.queued| ==>
                  var p := s.queued[|s.unblocked|];
                  t.unblocked == s.unblocked + [p] && p in t.woken && p !in t.waiting)
  {
    PostKeepsInv(s);
  }

  /** The process that a post from s to t handed to the scheduler. */
  function Newest(s: SemState, t: SemState): Option<Pid> {
    if |t.unblocked| > |s.unblocked| then Some(t.unblocked[|t.unblocked| - 1]) else None
  }

  function Below(n: nat): (r: set<nat>)
    ensures forall i: nat :: i in r <==> i < n
    ensures |r| == n
  {
    if n == 0 then {} else Below(n - 1) + {n - 1}
  }

  lemma {:induction false} DistinctSize(s: seq<Pid>)
    requires Distinct(s)
    ensures |Elements(s)| == |s|
    decreases |s|
  {
    if s != [] {
      var n := |s| - 1;
      DistinctSize(s[..n]);
      assert s == s[..n] + [s[n]];
      assert Elements(s) == Elements(s[..n]) + {s[n]};
    }
  }

  lemma SubsetSize(a: set<nat>, b: set<nat>)
    requires a <= b
    ensures |a| <= |b|
  {
    assert b == a + (b - a);
  }

  lemma QueueFits(s: SemState)
    requires SemInv(s)
    ensures |s.waiting| <= MAX_PROCESSES
  {
    DistinctSize(s.waiting);
    SubsetSize(Elements(s.waiting), Below(MAX_PROCESSES));
  }

  lemma RoomBelow(a: set<nat>, p: nat, n: nat)
    requires a <= Below(n) && p < n && p !in a
    ensures |a| < n
  {
    SubsetSize(a + {p}, Below(n));
  }

  /** A process about to queue up always finds room in the array. */
  lemma QueueHasRoom(s: SemState, p: Pid)
    requires SemInv(s) && p !in s.waiting && p < MAX_PROCESSES
    ensures |s.waiting| < MAX_PROCESSES
  {
    DistinctSize(s.waiting);
    RoomBelow(Elements(s.waiting), p, MAX_PROCESSES);
  }

  // ---- the table entry ----

  datatype WaitResult = NotInterested | Blocked | Acquired

  class Semaphore {
    var value: int
    const interested: array<Pid>
    var numberInterested: nat
    const waiting: array<Pid>
    var numberWaiting: nat

    ghost predicate Valid()
      reads this
    {
      && interested.Length == waiting.Length == MAX_PROCESSES
      && interested != waiting
      && numberInterested <= MAX_PROCESSES
      && numberWaiting <= MAX_PROCESSES
    }

    ghost function Queue(): seq<Pid>
      reads this, waiting
      requires Valid()
    {
      waiting[..numberWaiting]
    }

    ghost predicate Knows(p: Pid)
      reads this, interested
      requires Valid()
    {
      p in interested[..numberInterested]
    }

    /** The entry agrees with the protocol state s. */
    ghost predicate Shows(s: SemState)
      reads this, waiting
      requires Valid()
    {
      value == s.value && Queue() == s.waiting
    }

    constructor (initial: nat, p: Pid)
      ensures Valid() && Knows(p)
      ensures forall s: SemState :: Opened(s, initial) ==> Shows(s)
      ensures fresh(interested) && fresh(waiting)
    {
      value := initial;
      interested := new Pid[MAX_PROCESSES](_ => p);
      waiting := new Pid[MAX_PROCESSES](_ => 0);
      numberInterested, numberWaiting := 1, 0;
      new;
      assert interested[0] in interested[..1];
    }

    method IsInterested(p: Pid) returns (found: bool)
      requires Valid()
      ensures found <==> Knows(p)
    {
      var i := 0;
      while i < numberInterested
        invariant 0 <= i <= numberInterested
        invariant p !in interested[..i]
      {
        if interested[i] == p {
          return true;
        }
        i := i + 1;
      }
      return false;
    }

    /** sem_wait from its start, or after being woken, up to its yield or its return. */
    method Wait(p: Pid, ghost s: SemState, retry: bool) returns (r: WaitResult)
      requires Valid() && Shows(s) && SemInv(s)
      requires p < MAX_PROCESSES && p !in s.waiting
      modifies this, waiting
      ensures Valid() && numberInterested == old(numberInterested)
      ensures r == NotInterested <==> !retry && !Knows(p)
      ensures r == NotInterested ==> Shows(s)
      ensures r != NotInterested ==> Shows(WaitStep(s, p)) && (r == Acquired <==> Passes(s))
    {
      if !retry {
        var found := IsInterested(p);
        if !found {
          return NotInterested;
        }
      }
      if value <= 0 {
        QueueHasRoom(s, p);
        waiting[numberWaiting] := p;
        numberWaiting := numberWaiting + 1;
        assert Queue() == s.waiting + [p];
        return Blocked;
      }
      value := value - 1;
      return Acquired;
    }

    /** sem_post; `unblocked` is the process handed to the scheduler, if any. */
    method Post(p: Pid, ghost s: SemState) returns (ok: bool, unblocked: Option<Pid>)
      requires Valid() && Shows(s)
      modifies this, waiting
      ensures Valid() && numberInterested == old(numberInterested)
      ensures ok <==> Knows(p)
      ensures !ok ==> Shows(s) && unblocked == None
      ensures ok ==> Shows(PostStep(s))
      ensures ok ==> unblocked == Newest(s, PostStep(s))
    {
      ok := IsInterested(p);
      unblocked := None;
      if !ok {
        return;
      }
      value := value + 1;
      if numberWaiting > 0 {
        ghost var queue := waiting[..numberWaiting];
        unblocked := Some(waiting[0]);
        var i := 0;
        while i < numberWaiting - 1
          invariant 0 <= i <= numberWaiting - 1
          invariant forall k | 0 <= k < i :: waiting[k] == queue[k + 1]
          invariant forall k | i <= k < numberWaiting :: waiting[k] == queue[k]
          invariant interested[..] == old(interested[..])
          modifies waiting
        {
          waiting[i] := waiting[i + 1];
          i := i + 1;
        }
        numberWaiting := numberWaiting - 1;
        assert Queue() == queue[1..];
      }
    }
  }
}
