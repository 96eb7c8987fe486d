/**
 The scheduler: the process table, the switch that the timer interrupt and
 yield perform, and the calls that change a process's status.  The C code reads
 the table at the negative values of currentPID and nextPID as well; here those
 reads find no ready process.
 */
module Scheduler {
  import opened Common

  const QUANTUM: nat := 5
  const NO_PROC: int := -2
  const PID_KERNEL: int := -1
  const MIN_PRIORITY: int := 0
  const MAX_PRIORITY: int := 10
  const DEFAULT_PRIORITY: int := 3
  const NULL: nat := 0

  type Pid = int
  type Context = nat        // a saved stack pointer

  datatype Status = READY | RUNNING | BLOCKED | KILLED

  datatype PCB = PCB(priority: int, status: Status, rsp: Context)

  datatype State = State(table: seq<PCB>, quantum: int, current: int, next: int, mainRSP: Context)

  // ---- the table ----

  predicate Live(t: seq<PCB>, p: Pid) {
    0 <= p < |t| && t[p].rsp != NULL
  }

  predicate Ready(t: seq<PCB>, p: Pid) {
    Live(t, p) && t[p].status == READY
  }

  function Quantum(t: seq<PCB>, p: Pid): int
    requires 0 <= p < |t|
  {
    QUANTUM + t[p].priority
  }

  /** The slot d places after `first` on the ring. */
  function Around(first: nat, d: nat): nat
    requires first < MAX_PROCESSES && d <= MAX_PROCESSES
  {
    if first + d < MAX_PROCESSES then first + d else first + d - MAX_PROCESSES
  }

  lemma AroundNext(first: nat, d: nat)
    requires first < MAX_PROCESSES && d < MAX_PROCESSES
    ensures Around(first, d + 1) == (Around(first, d) + 1) % MAX_PROCESSES
  {
  }

  /** How far p is ahead of `first`; first itself is a whole round away. */
  function Ahead(first: nat, p: nat): (d: nat)
    requires first < MAX_PROCESSES && p < MAX_PROCESSES
    ensures 1 <= d <= MAX_PROCESSES && Around(first, d) == p
  {
    if p > first then p - first else p + MAX_PROCESSES - first
  }

  /** The first ready process at distance d or more, or the kernel. */
  function Scan(t: seq<PCB>, first: nat, d: nat): int
    requires |t| == MAX_PROCESSES && first < MAX_PROCESSES && 1 <= d <= MAX_PROCESSES + 1
    decreases MAX_PROCESSES + 1 - d
  {
    if d > MAX_PROCESSES then PID_KERNEL
    else if Ready(t, Around(first, d)) then Around(first, d)
    else Scan(t, first, d + 1)
  }

  lemma {:induction false} ScanIsReady(t: seq<PCB>, first: nat, d: nat)
    requires |t| == MAX_PROCESSES && first < MAX_PROCESSES && 1 <= d <= MAX_PROCESSES + 1
    ensures Scan(t, first, d) == PID_KERNEL || Ready(t, Scan(t, first, d))
    decreases MAX_PROCESSES + 1 - d
  {
    if d <= MAX_PROCESSES && !Ready(t, Around(first, d)) {
      ScanIsReady(t, first, d + 1);
    }
  }

  lemma ScanEnds(t: seq<PCB>, first: nat, d: nat)
    requires |t| == MAX_PROCESSES && first < MAX_PROCESSES && 1 <= d <= MAX_PROCESSES
    requires Around(first, d) == first && !Ready(t, first)
    ensures Scan(t, first, d) == PID_KERNEL
  {
    assert d == MAX_PROCESSES;
    assert Scan(t, first, d + 1) == PID_KERNEL;
  }

  function Start(current: int): nat {
    if current < 0 then 0 else current
  }

  /** get_next_ready */
  function NextReady(t: seq<PCB>, current: int): (r: int)
    requires |t| == MAX_PROCESSES && current < MAX_PROCESSES
    ensures r == PID_KERNEL || Ready(t, r)
  {
    ScanIsReady(t, Start(current), 1);
    Scan(t, Start(current), 1)
  }

  /** The scan finds the nearest ready process, and misses none. */
  lemma {:induction false} ScanIsNearest(t: seq<PCB>, first: nat, d: nat, p: nat)
    requires |t| == MAX_PROCESSES && first < MAX_PROCESSES && 1 <= d <= MAX_PROCESSES + 1
    requires Ready(t, p) && d <= Ahead(first, p)
    ensures 0 <= Scan(t, first, d) < MAX_PROCESSES && Ahead(first, Scan(t, first, d)) <= Ahead(first, p)
    decreases MAX_PROCESSES + 1 - d
  {
    if d <= MAX_PROCESSES && !Ready(t, Around(first, d)) {
      ScanIsNearest(t, first, d + 1, p);
    }
  }

  // ---- the operations ----

  function SetStatus(s: State, p: Pid, status: Status): State
    requires 0 <= p < |s.table|
  {
    s.(table := s.table[p := s.table[p].(status := status)])
  }

  function SetPriority(s: State, p: Pid, priority: int): State
    requires 0 <= p < |s.table|
  {
    s.(table := s.table[p := s.table[p].(priority := priority)])
  }

  function InRange(priority: int): bool {
    MIN_PRIORITY <= priority <= MAX_PRIORITY
  }

  /** process_was_created, on the slot create_process has chosen. */
  function Created(s: State, p: Pid, priority: int, stack: Context): State
    requires 0 <= p < |s.table|
  {
    s.(table := s.table[p := PCB(if InRange(priority) then priority else DEFAULT_PRIORITY, READY, stack)])
  }

  /** process_was_killed */
  function Killed(s: State, p: Pid): State {
    if !Live(s.table, p) || s.table[p].status == KILLED then s
    else s.(table := s.table[p := s.table[p].(status := KILLED, rsp := NULL)],
            current := if s.current == p then NO_PROC else s.current)
  }

  function Block(s: State, p: Pid): State {
    if !Live(s.table, p) then s
    else SetStatus(s, p, BLOCKED).(quantum := if s.current == PID_KERNEL then 0 else s.quantum)
  }

  function Unblock(s: State, p: Pid): State {
    if !Live(s.table, p) || s.table[p].status == READY || s.table[p].status == RUNNING then s
    else SetStatus(s, p, READY).(next := if s.table[p].priority >= MAX_PRIORITY / 2 then p else s.next)
  }

  function Nice(s: State, p: Pid, priority: int): State {
    if !Live(s.table, p) || p == 0 || !InRange(priority) then s
    else SetPriority(s, p, priority).(
      next := if priority >= MAX_PRIORITY / 2 && s.table[p].status == READY then p else s.next)
  }

  function ChangePriority(s: State, p: Pid, priority: int): State {
    if !InRange(priority) || !Live(s.table, p) then s else SetPriority(s, p, priority)
  }

  /** The first part of switch_process: the process being left keeps its context. */
  function Leave(s: State, rsp: Context): State {
    if s.current == PID_KERNEL then s.(mainRSP := rsp)
    else if 0 <= s.current < |s.table| then
      var pcb := s.table[s.current];
      s.(table := s.table[s.current := pcb.(rsp := rsp, status := if pcb.status == RUNNING then READY else pcb.status)])
    else s
  }

  /** Who runs next, and with which quantum. */
  function Choose(s: State): State
    requires |s.table| == MAX_PROCESSES && s.current < MAX_PROCESSES
  {
    if Ready(s.table, s.next) then
      s.(current := s.next, next := NO_PROC, quantum := Quantum(s.table, s.next))
    else if !Ready(s.table, s.current) || s.quantum == 0 then
      var p := NextReady(s.table, s.current);
      if p == PID_KERNEL then s.(current := p, quantum := 0)
      else s.(current := p, quantum := Quantum(s.table, p))
    else s.(quantum := s.quantum - 1)
  }

  /** switch_process: the new state, whose current process the CPU gets. */
  function Switch(s: State, rsp: Context): State
    requires |s.table| == MAX_PROCESSES && s.current < MAX_PROCESSES
  {
    var c := Choose(Leave(s, rsp));
    if c.current < 0 then c else SetStatus(c, c.current, RUNNING)
  }

  /** What switch_process returns. */
  function Resumed(s: State): Context
    requires s.current < |s.table|
  {
    if s.current < 0 then s.mainRSP else s.table[s.current].rsp
  }

  // ---- the invariant ----

  ghost predicate Inv(s: State) {
    && |s.table| == MAX_PROCESSES
    && NO_PROC <= s.current < MAX_PROCESSES
    && NO_PROC <= s.next < MAX_PROCESSES
    && 0 <= s.quantum <= QUANTUM + MAX_PRIORITY
    && (s.current >= 0 ==> Live(s.table, s.current))
    && (forall p {:trigger s.table[p]} | 0 <= p < MAX_PROCESSES ::
          && (s.table[p].status == RUNNING ==> p == s.current)
          && (Live(s.table, p) ==> s.table[p].status != KILLED && InRange(s.table[p].priority)))
  }

  datatype Op =
    | OpCreate(p: Pid, priority: int, stack: Context)
    | OpKill(p: Pid)
    | OpBlock(p: Pid)
    | OpUnblock(p: Pid)
    | OpNice(p: Pid, priority: int)
    | OpSetPriority(p: Pid, priority: int)
    | OpYield(rsp: Context)      // yield: the quantum is given up, then a switch
    | OpTick(rsp: Context)       // the timer interrupt

  /** create_process only picks dead slots, and stack pointers are never NULL. */
  predicate Allowed(s: State, op: Op) {
    match op
    case OpCreate(p, _, stack) => 0 <= p < |s.table| && !Live(s.table, p) && stack != NULL
    case OpYield(rsp) => rsp != NULL
    case OpTick(rsp) => rsp != NULL
    case _ => true
  }

  function Apply(s: State, op: Op): State
    requires |s.table| == MAX_PROCESSES && s.current < MAX_PROCESSES
    requires Allowed(s, op)
  {
    match op
    case OpCreate(p, priority, stack) => Created(s, p, priority, stack)
    case OpKill(p) => Killed(s, p)
    case OpBlock(p) => Block(s, p)
    case OpUnblock(p) => Unblock(s, p)
    case OpNice(p, priority) => Nice(s, p, priority)
    case OpSetPriority(p, priority) => ChangePriority(s, p, priority)
    case OpYield(rsp) => Switch(s.(quantum := 0), rsp)
    case OpTick(rsp) => Switch(s, rsp)
  }

  lemma LeaveKeepsInv(s: State, rsp: Context)
    requires Inv(s) && rsp != NULL
    ensures Inv(Leave(s, rsp))
    ensures forall p | 0 <= p < MAX_PROCESSES :: Leave(s, rsp).table[p].status != RUNNING
  {
  }

  lemma ChooseKeepsInv(s: State)
    requires Inv(s) && forall p | 0 <= p < MAX_PROCESSES :: s.table[p].status != RUNNING
    ensures Inv(Choose(s))
  {
  }

  lemma SwitchKeepsInv(s: State, rsp: Context)
    requires Inv(s) && rsp != NULL
    ensures Inv(Switch(s, rsp))
    ensures var t := Switch(s, rsp);
            forall p | 0 <= p < MAX_PROCESSES :: t.table[p].status == RUNNING <==> p == t.current
  {
    var l := Leave(s, rsp);
    LeaveKeepsInv(s, rsp);
    ChooseKeepsInv(l);
  }

  lemma ApplyKeepsInv(s: State, op: Op)
    requires Inv(s) && Allowed(s, op)
    ensures Inv(Apply(s, op))
  {
    match op
    case OpYield(rsp) => SwitchKeepsInv(s.(quantum := 0), rsp);
    case OpTick(rsp) => SwitchKeepsInv(s, rsp);
    case _ =>
  }

  /** Only creating and killing change which processes are live. */
  lemma ApplyKeepsLive(s: State, op: Op)
    requires Inv(s) && Allowed(s, op) && !op.OpCreate? && !op.OpKill?
    ensures forall p :: Live(Apply(s, op).table, p) <==> Live(s.table, p)
  {
  }

  // ---- who gets the CPU ----

  /** The kernel idles exactly when no process is ready, and otherwise a ready process runs. */
  lemma IdleOnlyWithoutWork(s: State, rsp: Context)
    requires Inv(s) && rsp != NULL
    ensures var l := Leave(s, rsp); var t := Switch(s, rsp);
            && (t.current < 0 <==> forall p :: !Ready(l.table, p))
            && (t.current < 0 ==> t.current == PID_KERNEL)
            && (t.current >= 0 ==> Ready(l.table, t.current))
  {
    var l := Leave(s, rsp);
    var t := Switch(s, rsp);
    LeaveKeepsInv(s, rsp);
    if t.current < 0 {
      forall p ensures !Ready(l.table, p) {
        if Ready(l.table, p) {
          ScanIsNearest(l.table, Start(l.current), 1, p);
        }
      }
    }
  }

  // ---- saved contexts ----

  /**
   Somebody who only sees which process the CPU was last given to, and the
   stack pointers that go in: the initial one of every process created, and
   the one the CPU holds at every switch.
   */
  datatype Observer = Observer(owner: int, saved: map<Pid, Context>, kernel: Context)

  function Watch(o: Observer, op: Op, dispatched: int): Observer {
    match op
    case OpCreate(p, _, stack) => o.(saved := o.saved[p := stack])
    case OpKill(p) => Observer(if o.owner == p && p in o.saved then NO_PROC else o.owner, o.saved - {p}, o.kernel)
    case OpYield(rsp) => WatchSwitch(o, rsp, dispatched)
    case OpTick(rsp) => WatchSwitch(o, rsp, dispatched)
    case _ => o
  }

  function WatchSwitch(o: Observer, rsp: Context, dispatched: int): Observer {
    Observer(dispatched,
             if o.owner in o.saved then o.saved[o.owner := rsp] else o.saved,
             if o.owner == PID_KERNEL then rsp else o.kernel)
  }

  /** What the observer expects a switch to resume with. */
  function Expected(o: Observer): Context {
    if o.owner in o.saved then o.saved[o.owner] else o.kernel
  }

  ghost predicate Agrees(s: State, o: Observer) {
    && o.owner == s.current && o.kernel == s.mainRSP
    && (forall p :: p in o.saved <==> Live(s.table, p))
    && (forall p | p in o.saved && Live(s.table, p) :: o.saved[p] == s.table[p].rsp)
  }

  /** An observer who starts with the scheduler, before any process is created, agrees. */
  lemma FirstAgrees(s: State)
    requires Inv(s) && s.current == PID_KERNEL && forall p :: !Live(s.table, p)
    ensures Agrees(s, Observer(PID_KERNEL, map[], s.mainRSP))
  {
  }

  predicate IsSwitch(op: Op) {
    op.OpYield? || op.OpTick?
  }

  lemma WatchSwitchAgrees(s: State, o: Observer, rsp: Context)
    requires Inv(s) && rsp != NULL && Agrees(s, o)
    ensures var t := Switch(s, rsp);
            && NO_PROC <= t.current < |t.table|
            && Agrees(t, WatchSwitch(o, rsp, t.current))
            && Resumed(t) == Expected(WatchSwitch(o, rsp, t.current))
  {
    LeaveKeepsInv(s, rsp);
    LeaveAgrees(s, o, rsp);
    IdleOnlyWithoutWork(s, rsp);
    SwitchKeepsInv(s, rsp);
    SwitchOnlyDispatches(s, rsp);
    var l, t, w := Leave(s, rsp), Switch(s, rsp), WatchSwitch(o, rsp, Switch(s, rsp).current);
    forall p ensures p in w.saved <==> Live(t.table, p) {
      assert Live(t.table, p) <==> Live(l.table, p);
    }
  }

  lemma LeaveAgrees(s: State, o: Observer, rsp: Context)
    requires Inv(s) && rsp != NULL && Agrees(s, o)
    ensures var l, w := Leave(s, rsp), WatchSwitch(o, rsp, s.current); Agrees(l, w)
  {
  }

  /** Choosing changes no saved context. */
  lemma SwitchOnlyDispatches(s: State, rsp: Context)
    requires Inv(s) && rsp != NULL
    ensures var l, t := Leave(s, rsp), Switch(s, rsp);
            && t.mainRSP == l.mainRSP && |t.table| == |l.table|
            && forall p | 0 <= p < |l.table| :: t.table[p].rsp == l.table[p].rsp
  {
  }

  lemma WatchKeepsAgreement(s: State, o: Observer, op: Op)
    requires Inv(s) && Allowed(s, op) && Agrees(s, o)
    ensures var t := Apply(s, op); Agrees(t, Watch(o, op, t.current))
    ensures IsSwitch(op) ==> var t := Apply(s, op);
              NO_PROC <= t.current < |t.table| && Resumed(t) == Expected(Watch(o, op, t.current))
  {
    match op
    case OpYield(rsp) => WatchSwitchAgrees(s.(quantum := 0), o, rsp);
    case OpTick(rsp) => WatchSwitchAgrees(s, o, rsp);
    case OpCreate(p, _, stack) => CreateAgrees(s, o, op);
    case OpKill(p) => KillAgrees(s, o, p);
    case _ => RestAgrees(s, o, op);
  }

  lemma CreateAgrees(s: State, o: Observer, op: Op)
    requires Inv(s) && Allowed(s, op) && op.OpCreate? && Agrees(s, o)
    ensures Agrees(Apply(s, op), Watch(o, op, Apply(s, op).current))
  {
  }

  lemma KillAgrees(s: State, o: Observer, p: Pid)
    requires Inv(s) && Agrees(s, o)
    ensures Agrees(Killed(s, p), Watch(o, OpKill(p), Killed(s, p).current))
  {
  }

  lemma RestAgrees(s: State, o: Observer, op: Op)
    requires Inv(s) && Allowed(s, op) && !op.OpCreate? && !op.OpKill? && !IsSwitch(op) && Agrees(s, o)
    ensures Agrees(Apply(s, op), Watch(o, op, Apply(s, op).current))
  {
  }

  ghost predicate AllAllowed(s: State, ops: seq<Op>)
    requires Inv(s)
    decreases |ops|
  {
    ops == [] || (Allowed(s, ops[0]) && (ApplyKeepsInv(s, ops[0]); AllAllowed(Apply(s, ops[0]), ops[1..])))
  }

  ghost function Run(s: State, ops: seq<Op>): (t: State)
    requires Inv(s) && AllAllowed(s, ops)
    ensures Inv(t)
    decreases |ops|
  {
    if ops == [] then s else ApplyKeepsInv(s, ops[0]); Run(Apply(s, ops[0]), ops[1..])
  }

  ghost function WatchRun(s: State, o: Observer, ops: seq<Op>): Observer
    requires Inv(s) && AllAllowed(s, ops)
    decreases |ops|
  {
    if ops == [] then o
    else
      ApplyKeepsInv(s, ops[0]);
      var t := Apply(s, ops[0]);
      WatchRun(t, Watch(o, ops[0], t.current), ops[1..])
  }

  /**
   Over every run: at most one process is RUNNING and it is the current one,
   and whatever a switch resumes gets the stack pointer the CPU held when that
   process was last switched out, or its initial one if it never ran.
   */
  lemma {:induction false} RunAgrees(s: State, o: Observer, ops: seq<Op>)
    requires Inv(s) && AllAllowed(s, ops) && Agrees(s, o)
    ensures Agrees(Run(s, ops), WatchRun(s, o, ops))
    decreases |ops|
  {
    if ops != [] {
      ApplyKeepsInv(s, ops[0]);
      WatchKeepsAgreement(s, o, ops[0]);
      var t := Apply(s, ops[0]);
      RunAgrees(t, Watch(o, ops[0], t.current), ops[1..]);
    }
  }

  lemma ContextsAreRestored(s: State, o: Observer, ops: seq<Op>, op: Op)
    requires Inv(s) && AllAllowed(s, ops) && Agrees(s, o)
    requires IsSwitch(op) && Allowed(Run(s, ops), op)
    ensures var r := Run(s, ops); var t := Apply(r, op);
            && NO_PROC <= t.current < |t.table|
            && Resumed(t) == Expected(Watch(WatchRun(s, o, ops), op, t.current))
            && forall p | 0 <= p < MAX_PROCESSES :: t.table[p].status == RUNNING <==> p == t.current
  {
    RunAgrees(s, o, ops);
    var r := Run(s, ops);
    WatchKeepsAgreement(r, WatchRun(s, o, ops), op);
    SwitchKeepsInv(if op.OpYield? then r.(quantum := 0) else r, op.rsp);
  }

  // ---- no starvation ----

  const ROUND: nat := QUANTUM + 10 + 1     // the longest a process keeps the CPU, in ticks: QUANTUM + MAX_PRIORITY + 1

  /** s after the ticks that bring the stack pointers of rsps. */
  function Ticks(s: State, rsps: seq<Context>): State
    requires Inv(s) && NULL !in rsps
    decreases |rsps|
  {
    if rsps == [] then s
    else SwitchKeepsInv(s, rsps[0]); Ticks(Switch(s, rsps[0]), rsps[1..])
  }

  /** Some process runs, and no boost is pending: true after any tick while a process is ready. */
  ghost predicate Settled(s: State) {
    && Inv(s)
    && s.current >= 0 && s.table[s.current].status == RUNNING
    && s.next != s.current && !Ready(s.table, s.next)
  }

  /** An upper bound on the ticks until p gets the CPU. */
  function Distance(s: State, p: Pid): int
    requires |s.table| == MAX_PROCESSES && 0 <= s.current < MAX_PROCESSES && 0 <= p < MAX_PROCESSES
  {
    (Ahead(s.current, p) - 1) * ROUND + s.quantum + 1
  }

  lemma FirstTick(s: State, rsp: Context, p: Pid)
    requires Inv(s) && rsp != NULL && Ready(s.table, p)
    ensures var t := Switch(s, rsp); Settled(t) && (t.current == p || Ready(t.table, p))
  {
    SwitchKeepsInv(s, rsp);
    IdleOnlyWithoutWork(s, rsp);
    assert Ready(Leave(s, rsp).table, p);
  }

  /** The two ways a tick can bring p closer: the ring advances, or the quantum does. */
  predicate Advances(s: State, t: State, p: Pid)
    requires |s.table| == |t.table| == MAX_PROCESSES && 0 <= s.current < MAX_PROCESSES && 0 <= p < MAX_PROCESSES
  {
    && 0 <= t.current < MAX_PROCESSES
    && (|| t.current == p
        || Ahead(t.current, p) + 1 <= Ahead(s.current, p)
        || (t.current == s.current && t.quantum < s.quantum))
  }

  lemma AdvancesIsCloser(s: State, t: State, p: Pid)
    requires Settled(s) && Settled(t) && 0 <= p < MAX_PROCESSES && Advances(s, t, p)
    ensures t.current == p || Distance(t, p) < Distance(s, p)
    ensures Distance(s, p) >= 1
  {
    RoundsDecrease(Ahead(s.current, p), s.quantum, Ahead(t.current, p), t.quantum);
  }

  lemma RoundsDecrease(a: int, q: int, a': int, q': int)
    requires 1 <= a && 1 <= a' && 0 <= q <= QUANTUM + MAX_PRIORITY && 0 <= q' <= QUANTUM + MAX_PRIORITY
    ensures (a - 1) * ROUND + q + 1 >= 1
    ensures a' + 1 <= a || (a' == a && q' < q) ==> (a' - 1) * ROUND + q' + 1 < (a - 1) * ROUND + q + 1
  {
  }

  lemma TickAdvances(s: State, rsp: Context, p: Pid)
    requires Settled(s) && rsp != NULL && Ready(s.table, p)
    ensures var t := Switch(s, rsp); |t.table| == MAX_PROCESSES && Advances(s, t, p)
  {
    if s.quantum == 0 {
      QuantumOver(s, rsp, p);
    } else {
      QuantumLeft(s, rsp);
    }
  }

  lemma TickGetsCloser(s: State, rsp: Context, p: Pid) returns (t: State)
    requires Settled(s) && rsp != NULL && Ready(s.table, p)
    ensures t == Switch(s, rsp) && Settled(t)
    ensures t.current == p || (Ready(t.table, p) && Distance(t, p) < Distance(s, p))
    ensures Distance(s, p) >= 1
  {
    FirstTick(s, rsp, p);
    TickAdvances(s, rsp, p);
    t := Switch(s, rsp);
    AdvancesIsCloser(s, t, p);
  }

  lemma QuantumLeft(s: State, rsp: Context)
    requires Settled(s) && rsp != NULL && s.quantum > 0
    ensures var t := Switch(s, rsp); t.current == s.current && t.quantum == s.quantum - 1
  {
  }

  lemma QuantumOver(s: State, rsp: Context, p: Pid)
    requires Settled(s) && rsp != NULL && s.quantum == 0 && Ready(s.table, p)
    ensures var t := Switch(s, rsp);
            0 <= t.current < MAX_PROCESSES && (t.current == p || Ahead(t.current, p) + 1 <= Ahead(s.current, p))
  {
    var l := Leave(s, rsp);
    LeaveKeepsInv(s, rsp);
    assert Ready(l.table, p) && !Ready(l.table, l.next);
    ScanIsNearest(l.table, s.current, 1, p);
    var q := NextReady(l.table, s.current);
    if q != p {
      RingOrder(s.current, q, p);
    }
  }

  lemma RingOrder(a: nat, b: nat, c: nat)
    requires a < MAX_PROCESSES && b < MAX_PROCESSES && c < MAX_PROCESSES
    requires Ahead(a, b) <= Ahead(a, c) && b != c
    ensures Ahead(b, c) + 1 <= Ahead(a, c)
  {
  }

  lemma TicksStep(s: State, rsps: seq<Context>, k: nat)
    requires Inv(s) && NULL !in rsps && k < |rsps|
    ensures Inv(Switch(s, rsps[0])) && Ticks(s, rsps[..k + 1]) == Ticks(Switch(s, rsps[0]), rsps[1..][..k])
  {
    SwitchKeepsInv(s, rsps[0]);
    assert rsps[..k + 1][0] == rsps[0] && rsps[..k + 1][1..] == rsps[1..][..k];
  }

  lemma {:induction false} GetsCpu(s: State, rsps: seq<Context>, p: Pid) returns (k: nat)
    requires Settled(s) && NULL !in rsps && Ready(s.table, p)
    requires |rsps| >= Distance(s, p)
    ensures 1 <= k <= |rsps| && k <= Distance(s, p) && Ticks(s, rsps[..k]).current == p
    decreases |rsps|
  {
    var t := TickGetsCloser(s, rsps[0], p);
    if t.current == p {
      TicksStep(s, rsps, 0);
      k := 1;
    } else {
      var j := GetsCpu(t, rsps[1..], p);
      TicksStep(s, rsps, j);
      k := j + 1;
    }
  }

  lemma DistanceBound(s: State, p: Pid)
    requires Settled(s) && Ready(s.table, p)
    ensures Distance(s, p) <= MAX_PROCESSES * ROUND
  {
  }

  /**
   No starvation: from any reachable state, if nothing but timer ticks happens,
   every ready process is given the CPU within 1 + MAX_PROCESSES * ROUND ticks.
   */
  lemma NoStarvation(s: State, rsps: seq<Context>, p: Pid) returns (k: nat)
    requires Inv(s) && NULL !in rsps && Ready(s.table, p)
    requires |rsps| >= 1 + MAX_PROCESSES * ROUND
    ensures 1 <= k <= 1 + MAX_PROCESSES * ROUND && Ticks(s, rsps[..k]).current == p
  {
    FirstTick(s, rsps[0], p);
    var t := Switch(s, rsps[0]);
    if t.current == p {
      TicksStep(s, rsps, 0);
      k := 1;
    } else {
      DistanceBound(t, p);
      var j := GetsCpu(t, rsps[1..], p);
      TicksStep(s, rsps, j);
      k := j + 1;
    }
  }

  // ---- the code ----

  class Scheduler {
    const processTable: array<PCB>
    var currentQuantum: int
    var currentPID: int
    var nextPID: int
    var mainRSP: Context

    ghost function Value(): State
      reads this, processTable
    {
      State(processTable[..], currentQuantum, currentPID, nextPID, mainRSP)
    }

    ghost predicate Valid()
      reads this, processTable
    {
      Inv(Value())
    }

    /** init_scheduler, on the zeroed static table. */
    constructor ()
      ensures Valid() && fresh(processTable)
      ensures currentPID == PID_KERNEL && forall p :: !Live(Value().table, p)
    {
      processTable := new PCB[MAX_PROCESSES](_ => PCB(0, READY, NULL));
      nextPID := NO_PROC;
      currentPID := PID_KERNEL;
      currentQuantum := 0;
      mainRSP := NULL;
    }

    predicate IsLive(p: Pid)
      reads this, processTable
    {
      0 <= p < processTable.Length && processTable[p].rsp != NULL
    }

    predicate IsReady(p: Pid)
      reads this, processTable
    {
      IsLive(p) && processTable[p].status == READY
    }

    method ProcessWasCreated(p: Pid, priority: int, stack: Context)
      requires Valid() && 0 <= p < MAX_PROCESSES && !IsLive(p) && stack != NULL
      modifies processTable
      ensures Valid() && Value() == Created(old(Value()), p, priority, stack)
    {
      ghost var s := Value();
      var prio := if priority < MIN_PRIORITY || priority > MAX_PRIORITY then DEFAULT_PRIORITY else priority;
      processTable[p] := processTable[p].(status := READY);
      processTable[p] := processTable[p].(priority := prio);
      processTable[p] := processTable[p].(rsp := stack);
      assert Value() == Created(s, p, priority, stack);
      ApplyKeepsInv(s, OpCreate(p, priority, stack));
    }

    method ProcessWasKilled(p: Pid) returns (r: int)
      requires Valid()
      modifies this, processTable
      ensures Valid() && Value() == Killed(old(Value()), p)
      ensures r == if old(IsLive(p)) then 0 else 1
    {
      ghost var s := Value();
      ApplyKeepsInv(s, OpKill(p));
      if !IsLive(p) {
        return 1;
      }
      if processTable[p].status == KILLED {
        return 0;
      }
      processTable[p] := processTable[p].(status := KILLED, rsp := NULL);
      if currentPID == p {
        currentPID := NO_PROC;
      }
      assert Value() == Killed(s, p);
      return 0;
    }

    method BlockProcess(p: Pid) returns (r: int)
      requires Valid()
      modifies this, processTable
      ensures Valid() && Value() == Block(old(Value()), p)
      ensures r == if old(IsLive(p)) then 0 else -1
    {
      ghost var s := Value();
      ApplyKeepsInv(s, OpBlock(p));
      if !IsLive(p) {
        return -1;
      }
      processTable[p] := processTable[p].(status := BLOCKED);
      if currentPID == PID_KERNEL {
        currentQuantum := 0;
      }
      assert Value() == Block(s, p);
      return 0;
    }

    method UnblockProcess(p: Pid) returns (r: int)
      requires Valid()
      modifies this, processTable
      ensures Valid() && Value() == Unblock(old(Value()), p)
      ensures r == if old(IsLive(p)) then 0 else -1
    {
      ghost var s := Value();
      ApplyKeepsInv(s, OpUnblock(p));
      if !IsLive(p) {
        return -1;
      }
      if processTable[p].status == READY || processTable[p].status == RUNNING {
        return 0;
      }
      processTable[p] := processTable[p].(status := READY);
      if processTable[p].priority >= MAX_PRIORITY / 2 {
        nextPID := p;
      }
      assert Value() == Unblock(s, p);
      return 0;
    }

    method NiceProcess(p: Pid, priority: int) returns (r: int)
      requires Valid()
      modifies this, processTable
      ensures Valid() && Value() == Nice(old(Value()), p, priority)
      ensures r == if old(IsLive(p)) && p != 0 && InRange(priority) then 0 else -1
    {
      ghost var s := Value();
      ApplyKeepsInv(s, OpNice(p, priority));
      if !IsLive(p) {
        return -1;
      }
      if p == 0 || priority < MIN_PRIORITY || priority > MAX_PRIORITY {
        return -1;
      }
      processTable[p] := processTable[p].(priority := priority);
      if priority >= MAX_PRIORITY / 2 && processTable[p].status == READY {
        nextPID := p;
      }
      assert Value() == Nice(s, p, priority);
      return 0;
    }

    method SetPriorityOf(p: Pid, priority: int) returns (r: int)
      requires Valid()
      modifies processTable
      ensures Valid() && Value() == ChangePriority(old(Value()), p, priority)
      ensures r == if InRange(priority) && old(IsLive(p)) then 0 else -1
    {
      ghost var s := Value();
      ApplyKeepsInv(s, OpSetPriority(p, priority));
      if priority < MIN_PRIORITY || priority > MAX_PRIORITY {
        return -1;
      }
      if !IsLive(p) {
        return -1;
      }
      processTable[p] := processTable[p].(priority := priority);
      assert Value() == ChangePriority(s, p, priority);
      return 0;
    }

    method GetNextReady() returns (r: int)
      requires Valid()
      ensures r == NextReady(Value().table, currentPID)
    {
      var first := if currentPID < 0 then 0 else currentPID;
      var next := (first + 1) % MAX_PROCESSES;
      ghost var t := processTable[..];
      ghost var d := 1;
      assert next == Around(first, 1);
      while !IsReady(next) && next != first
        invariant 1 <= d <= MAX_PROCESSES && 0 <= next < MAX_PROCESSES && next == Around(first, d)
        invariant Scan(t, first, d) == Scan(t, first, 1)
        decreases MAX_PROCESSES - d
      {
        assert !Ready(t, next);
        AroundNext(first, d);
        next := (next + 1) % MAX_PROCESSES;
        d := d + 1;
      }
      if IsReady(next) {
        assert Ready(t, next);
        return next;
      }
      ScanEnds(t, first, d);
      return PID_KERNEL;
    }

    /** The first lines of switch_process. */
    method SaveCurrent(cRSP: Context)
      requires Valid() && cRSP != NULL
      modifies `mainRSP, processTable
      ensures Valid() && Value() == Leave(old(Value()), cRSP)
    {
      ghost var s := Value();
      LeaveKeepsInv(s, cRSP);
      if currentPID == PID_KERNEL {
        mainRSP := cRSP;
      } else if currentPID >= 0 {
        processTable[currentPID] := processTable[currentPID].(rsp := cRSP);
        if processTable[currentPID].status == RUNNING {
          processTable[currentPID] := processTable[currentPID].(status := READY);
        }
      }
      assert Value() == Leave(s, cRSP);
    }

    method SwitchProcess(cRSP: Context) returns (rsp: Context)
      requires Valid() && cRSP != NULL
      modifies this, processTable
      ensures Valid() && Value() == Switch(old(Value()), cRSP)
      ensures rsp == Resumed(Value())
    {
      ghost var s := Value();
      SwitchKeepsInv(s, cRSP);
      SaveCurrent(cRSP);
      ghost var l := Value();
      if IsReady(nextPID) {
        currentPID := nextPID;
        nextPID := NO_PROC;
        currentQuantum := QUANTUM + processTable[currentPID].priority;
      } else if !IsReady(currentPID) || currentQuantum == 0 {
        currentPID := GetNextReady();
        if currentPID == PID_KERNEL {
          currentQuantum := 0;
          return mainRSP;
        }
        currentQuantum := QUANTUM + processTable[currentPID].priority;
      } else {
        currentQuantum := currentQuantum - 1;
      }
      assert Value() == Choose(l);
      processTable[currentPID] := processTable[currentPID].(status := RUNNING);
      assert Value() == Switch(s, cRSP);
      return processTable[currentPID].rsp;
    }

    /** yield, up to the return of the interrupt it raises. */
    method Yield(cRSP: Context) returns (rsp: Context)
      requires Valid() && cRSP != NULL
      modifies this, processTable
      ensures Valid() && Value() == Apply(old(Value()), OpYield(cRSP))
      ensures rsp == Resumed(Value())
    {
      ghost var s := Value();
      currentQuantum := 0;
      assert Value() == s.(quantum := 0);
      rsp := SwitchProcess(cRSP);
    }
  }
}
