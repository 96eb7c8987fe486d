/**
 The process family over whole runs, as told by a register of births: who
 created whom, which life of a slot that was, and which ground a process was
 last sent to.
 */
module ProcessHistory {
  import opened Common
  import opened ProcessTree
  import S = Scheduler
  import H = SchedulerHistory

  /** serial tells one life of a slot from the next; maker is the process that ran at the birth. */
  datatype Birth = Birth(serial: nat, maker: Pid, makerSerial: nat, fg: bool)

  /** The births of those still alive, and how many there were in all. */
  datatype Register = Register(born: map<Pid, Birth>, count: nat)

  /** Who created p, as long as it lives; after that the shell. */
  function Guardian(r: Register, p: Pid): Pid
    requires p in r.born
  {
    var b := r.born[p];
    if b.maker in r.born && r.born[b.maker].serial == b.makerSerial then b.maker else 0
  }

  /** The register after a call made while `running` ran; made is the process it created, or -1. */
  function Note(r: Register, call: Call, running: Pid, made: Pid): Register {
    match call
    case Create(fg, _, _) =>
      if made < 0 || running !in r.born then r
      else Register(r.born[made := Birth(r.count, running, r.born[running].serial, fg)], r.count + 1)
    case KillOne(p) => if p == 0 then r else r.(born := r.born - {p})
    case KillFamily(p) =>
      if p == 0 then r
      else r.(born := map q | q in r.born && q != p && (q == 0 || Guardian(r, q) != p) :: r.born[q])
    case ToGround(p, fg) => if p in r.born then r.(born := r.born[p := r.born[p].(fg := fg)]) else r
    case Schedule(_) => r
  }

  /** What create_process returns if it is given its memory. */
  function Made(w: Tree): Pid {
    var p := FirstFree(w, 0);
    if p == MAX_PROCESSES then -1 else p
  }

  predicate Known(r: Register, p: Pid) {
    p in r.born ==> r.born[p].serial < r.count && r.born[p].makerSerial < r.count
  }

  predicate Told(w: Tree, r: Register, p: Pid) {
    p in w.procs && p in r.born ==>
      (p != 0 ==> w.procs[p].parent == Guardian(r, p)) && w.procs[p].fg == r.born[p].fg
  }

  ghost predicate Agrees(w: Tree, r: Register) {
    && w.procs.Keys == r.born.Keys
    && (forall p {:trigger Known(r, p)} :: Known(r, p))
    && (forall p {:trigger Told(w, r, p)} :: Told(w, r, p))
  }

  /** The shell alone. */
  lemma FirstAgrees(w: Tree)
    requires 0 in w.procs && w.procs.Keys == {0}
    ensures Agrees(w, Register(map[0 := Birth(0, 0, 0, w.procs[0].fg)], 1))
  {
  }

  lemma CreateAgrees(w: Tree, r: Register, call: Call)
    requires Inv(w) && w.loose == {} && CanCall(w, call) && call.Create? && Agrees(w, r)
    ensures Agrees(Perform(w, call), Note(r, call, w.sched.current, Made(w)))
  {
    var c, running := Made(w), w.sched.current;
    var v, r' := Perform(w, call), Note(r, call, running, c);
    assert running in w.procs.Keys;
    if c >= 0 {
      assert c !in w.procs.Keys;
      forall p ensures Known(r', p) && Told(v, r', p) {
        assert Known(r, p) && Told(w, r, p) && Known(r, running);
      }
    }
  }

  lemma KillAgrees(w: Tree, r: Register, p: Pid)
    requires Inv(w) && w.loose == {} && Agrees(w, r) && p != 0 && p in w.procs
    ensures Agrees(Kill(w, p), r.(born := r.born - {p}))
  {
    var v, r' := Kill(w, p), r.(born := r.born - {p});
    KillForm(w, p);
    forall q ensures Known(r', q) && Told(v, r', q) {
      assert Known(r, q) && Told(w, r, q);
    }
  }

  lemma KillFamilyAgrees(w: Tree, r: Register, p: Pid)
    requires Inv(w) && w.loose == {} && Agrees(w, r) && p != 0 && p in w.procs
    ensures Agrees(KillTree(w, p), Note(r, KillFamily(p), w.sched.current, -1))
  {
    var v, r' := KillTree(w, p), Note(r, KillFamily(p), w.sched.current, -1);
    KillTreeForm(w, p);
    forall q ensures q in v.procs <==> q in r'.born {
      assert Told(w, r, q);
      assert q in w.procs.Keys <==> q in r.born.Keys;
    }
    forall q ensures Known(r', q) && Told(v, r', q) {
      assert Known(r, q) && Told(w, r, q);
      if q in r'.born && q != 0 {
        assert Told(w, r, w.procs[q].parent);
      }
    }
  }

  lemma StepAgrees(w: Tree, r: Register, call: Call)
    requires Inv(w) && w.loose == {} && CanCall(w, call) && Agrees(w, r)
    ensures Agrees(Perform(w, call), Note(r, call, w.sched.current, Made(w)))
  {
    match call
    case Create(_, _, _) => CreateAgrees(w, r, call);
    case KillOne(p) =>
      if p != 0 && p in w.procs {
        KillAgrees(w, r, p);
      } else if p != 0 {
        assert r.born - {p} == r.born;
      }
    case KillFamily(p) =>
      if p != 0 && p in w.procs {
        KillFamilyAgrees(w, r, p);
      } else if p != 0 {
        NoGuardian(w, r, p);
      }
    case ToGround(p, fg) => GroundAgrees(w, r, p, fg);
    case Schedule(_) =>
      forall q ensures Told(Perform(w, call), r, q) {
        assert Told(w, r, q);
      }
  }

  /** Killing the family of a process that is not there kills nobody. */
  lemma NoGuardian(w: Tree, r: Register, p: Pid)
    requires Inv(w) && Agrees(w, r) && p != 0 && p !in w.procs
    ensures Note(r, KillFamily(p), w.sched.current, Made(w)) == r
  {
    forall q | q in r.born ensures q != p && (q == 0 || Guardian(r, q) != p) {
      assert Told(w, r, q);
    }
    assert Note(r, KillFamily(p), w.sched.current, Made(w)).born == r.born;
  }

  lemma GroundAgrees(w: Tree, r: Register, p: Pid, fg: bool)
    requires Inv(w) && w.loose == {} && Agrees(w, r)
    ensures Agrees(Perform(w, ToGround(p, fg)), Note(r, ToGround(p, fg), w.sched.current, Made(w)))
  {
    var v, r' := Perform(w, ToGround(p, fg)), Note(r, ToGround(p, fg), w.sched.current, Made(w));
    assert p in w.procs.Keys <==> p in r.born.Keys;
    forall q ensures Known(r', q) && Told(v, r', q) {
      assert Known(r, q) && Told(w, r, q);
    }
  }

  ghost function NoteRun(w: Tree, r: Register, calls: seq<Call>): Register
    requires Inv(w) && w.loose == {} && AllCallable(w, calls)
    decreases |calls|
  {
    if calls == [] then r
    else
      PerformKeepsInv(w, calls[0]);
      NoteRun(Perform(w, calls[0]), Note(r, calls[0], w.sched.current, Made(w)), calls[1..])
  }

  /**
   After any calls: the live processes are those that were created and not
   killed since, the parent of each is whoever ran when it was created as long
   as that one lives and the shell afterwards, and it is in the ground it was
   last sent to.
   */
  lemma {:induction false} ParentsAreMakers(w: Tree, r: Register, calls: seq<Call>)
    requires Inv(w) && w.loose == {} && AllCallable(w, calls) && Agrees(w, r)
    ensures Agrees(Run(w, calls), NoteRun(w, r, calls))
    decreases |calls|
  {
    if calls != [] {
      var call := calls[0];
      PerformKeepsInv(w, call);
      StepAgrees(w, r, call);
      ParentsAreMakers(Perform(w, call), Note(r, call, w.sched.current, Made(w)), calls[1..]);
    }
  }

  // ---- a parent that waits ----

  /** The call takes a child away from p and leaves it none in the foreground. */
  predicate EndsWait(w: Tree, call: Call, p: Pid) {
    match call
    case KillOne(c) => c != 0 && IsKid(w, c, p) && !OtherInFront(w, p, c)
    case KillFamily(c) => c != 0 && IsKid(w, c, p) && !OtherInFront(w, p, c)
    case _ => false
  }

  /**
   A process that has blocked itself to wait for its children is woken by
   exactly those calls that take a child away and leave it none in the
   foreground, or that unblock it by name.
   */
  lemma WaiterWakesExactlyWhen(w: Tree, call: Call, p: Pid)
    requires Inv(w) && w.loose == {} && CanCall(w, call)
    requires H.Asleep(w.sched, p) && p in Perform(w, call).procs
    ensures var v := Perform(w, call);
            && |v.sched.table| == |w.sched.table|
            && (v.sched.table[p].status == S.BLOCKED <==> !EndsWait(w, call, p) && call != Schedule(S.OpUnblock(p)))
            && (v.sched.table[p].status != S.BLOCKED ==> S.Ready(v.sched.table, p))
  {
    PerformKeepsInv(w, call);
    match call
    case KillOne(c) =>
      if c != 0 && c in w.procs {
        KillForm(w, c);
        assert SlotWithout(w, Kill(w, c), c, p);
      }
    case KillFamily(c) =>
      if c != 0 && c in w.procs {
        KillTreeForm(w, c);
        assert SlotWithout(w, KillTree(w, c), c, p);
      }
    case Schedule(op) =>
      if op != S.OpUnblock(p) {
        H.StaysAsleep(w.sched, op, p);
      }
    case _ =>
  }
}
