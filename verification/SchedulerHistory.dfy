/**
 The scheduler over whole runs: what the calls made so far say about a
 process, and what priorities do.
 */
module SchedulerHistory {
  import opened Common
  import opened Scheduler

  // ---- a blocked process ----

  predicate Asleep(s: State, p: Pid) {
    Live(s.table, p) && s.table[p].status == BLOCKED
  }

  lemma StaysAsleep(s: State, op: Op, p: Pid)
    requires Inv(s) && Allowed(s, op) && Asleep(s, p) && op != OpUnblock(p) && op != OpKill(p)
    ensures Asleep(Apply(s, op), p)
    ensures IsSwitch(op) ==> Apply(s, op).current != p
  {
    if IsSwitch(op) {
      var q := if op.OpYield? then s.(quantum := 0) else s;
      IdleOnlyWithoutWork(q, op.rsp);
    }
  }

  lemma {:induction false} SleepsOn(s: State, ops: seq<Op>, p: Pid)
    requires Inv(s) && AllAllowed(s, ops) && Asleep(s, p) && OpUnblock(p) !in ops && OpKill(p) !in ops
    ensures Asleep(Run(s, ops), p)
    decreases |ops|
  {
    if ops != [] {
      ApplyKeepsInv(s, ops[0]);
      StaysAsleep(s, ops[0], p);
      SleepsOn(Apply(s, ops[0]), ops[1..], p);
    }
  }

  /**
   From the moment a live process is blocked, and until it is unblocked or
   killed, whatever else is called, it is not ready and no switch gives it the
   CPU; once it is unblocked it is ready.
   */
  lemma BlockedNeverRuns(s: State, p: Pid, ops: seq<Op>, op: Op)
    requires Inv(s) && Live(s.table, p) && AllAllowed(s, [OpBlock(p)] + ops)
    requires OpUnblock(p) !in ops && OpKill(p) !in ops
    ensures var t := Run(s, [OpBlock(p)] + ops);
            && t.table[p].status == BLOCKED && Live(t.table, p)
            && (IsSwitch(op) && Allowed(t, op) ==> Apply(t, op).current != p)
            && Ready(Apply(t, OpUnblock(p)).table, p)
  {
    var all := [OpBlock(p)] + ops;
    assert all[0] == OpBlock(p) && all[1..] == ops;
    ApplyKeepsInv(s, OpBlock(p));
    SleepsOn(Apply(s, OpBlock(p)), ops, p);
    var t := Run(s, all);
    if IsSwitch(op) && Allowed(t, op) {
      StaysAsleep(t, op, p);
    }
  }

  // ---- what the calls say ----

  /** Of the creations and kills of p, the last one is a creation. */
  predicate CreatedLast(ops: seq<Op>, p: Pid)
    decreases |ops|
  {
    if ops == [] then false
    else
      var n := |ops| - 1;
      match ops[n]
      case OpCreate(q, _, _) => q == p || CreatedLast(ops[..n], p)
      case OpKill(q) => q != p && CreatedLast(ops[..n], p)
      case _ => CreatedLast(ops[..n], p)
  }

  /** Of the calls that create, block or unblock p, the last one blocks it. */
  predicate BlockedLast(ops: seq<Op>, p: Pid)
    decreases |ops|
  {
    if ops == [] then false
    else
      var n := |ops| - 1;
      match ops[n]
      case OpCreate(q, _, _) => q != p && BlockedLast(ops[..n], p)
      case OpBlock(q) => q == p || BlockedLast(ops[..n], p)
      case OpUnblock(q) => q != p && BlockedLast(ops[..n], p)
      case _ => BlockedLast(ops[..n], p)
  }

  /** What the last call that gave p a priority said. */
  function PriorityLast(ops: seq<Op>, p: Pid): int
    decreases |ops|
  {
    if ops == [] then DEFAULT_PRIORITY
    else
      var n := |ops| - 1;
      match ops[n]
      case OpCreate(q, x, _) =>
        if q != p then PriorityLast(ops[..n], p) else if InRange(x) then x else DEFAULT_PRIORITY
      case OpNice(q, x) => if q == p && q != 0 && InRange(x) then x else PriorityLast(ops[..n], p)
      case OpSetPriority(q, x) => if q == p && InRange(x) then x else PriorityLast(ops[..n], p)
      case _ => PriorityLast(ops[..n], p)
  }

  ghost predicate AsTold(s: State, ops: seq<Op>, p: Pid) {
    && (Live(s.table, p) <==> CreatedLast(ops, p))
    && (Live(s.table, p) ==>
          && (s.table[p].status == BLOCKED <==> BlockedLast(ops, p))
          && s.table[p].priority == PriorityLast(ops, p))
  }

  lemma {:induction false} RunLast(s: State, ops: seq<Op>)
    requires Inv(s) && AllAllowed(s, ops) && ops != []
    ensures var n := |ops| - 1;
            && AllAllowed(s, ops[..n]) && Allowed(Run(s, ops[..n]), ops[n])
            && Run(s, ops) == Apply(Run(s, ops[..n]), ops[n])
    decreases |ops|
  {
    if |ops| > 1 {
      var rest := ops[1..];
      ApplyKeepsInv(s, ops[0]);
      RunLast(Apply(s, ops[0]), rest);
      assert ops[..|ops| - 1][1..] == rest[..|rest| - 1];
    }
  }

  lemma SwitchKeepsTold(s: State, rsp: Context, p: Pid)
    requires Inv(s) && rsp != NULL
    ensures var t := Switch(s, rsp);
            && (Live(t.table, p) <==> Live(s.table, p))
            && (Live(s.table, p) ==>
                  && (t.table[p].status == BLOCKED <==> s.table[p].status == BLOCKED)
                  && t.table[p].priority == s.table[p].priority)
  {
    LeaveKeepsInv(s, rsp);
    IdleOnlyWithoutWork(s, rsp);
  }

  lemma ToldStep(s: State, ops: seq<Op>, op: Op, p: Pid)
    requires Inv(s) && Allowed(s, op) && AsTold(s, ops, p)
    ensures AsTold(Apply(s, op), ops + [op], p)
  {
    assert (ops + [op])[..|ops|] == ops;
    match op
    case OpYield(rsp) => SwitchKeepsTold(s.(quantum := 0), rsp, p);
    case OpTick(rsp) => SwitchKeepsTold(s, rsp, p);
    case _ =>
  }

  /**
   After any run from the start: a process is live exactly when it was created
   since it was last killed, BLOCKED exactly when it was blocked since it was
   created or last unblocked, and has the priority it was last given.
   */
  lemma {:induction false} CallsDecide(s: State, ops: seq<Op>, p: Pid)
    requires Inv(s) && AllAllowed(s, ops) && forall q :: !Live(s.table, q)
    ensures AsTold(Run(s, ops), ops, p)
    decreases |ops|
  {
    if ops != [] {
      var n := |ops| - 1;
      RunLast(s, ops);
      CallsDecide(s, ops[..n], p);
      ToldStep(Run(s, ops[..n]), ops[..n], ops[n], p);
      assert ops == ops[..n] + [ops[n]];
    }
  }

  // ---- what a priority buys ----

  lemma Dispatched(s: State, rsp: Context)
    requires Inv(s) && rsp != NULL && 0 <= Switch(s, rsp).current != s.current
    ensures var t := Switch(s, rsp); Settled(t) && t.quantum == QUANTUM + t.table[t.current].priority
  {
    SwitchKeepsInv(s, rsp);
    LeaveKeepsInv(s, rsp);
    IdleOnlyWithoutWork(s, rsp);
  }

  ghost predicate SameReady(s: State, t: State) {
    forall q :: Ready(t.table, q) <==> Ready(s.table, q)
  }

  lemma QuietTick(s: State, rsp: Context)
    requires Settled(s) && rsp != NULL && s.quantum > 0
    ensures var t := Switch(s, rsp);
            Settled(t) && t.current == s.current && t.quantum == s.quantum - 1 && SameReady(s, t)
  {
    SwitchKeepsInv(s, rsp);
  }

  lemma {:induction false} QuietTicks(s: State, rsps: seq<Context>)
    requires Settled(s) && NULL !in rsps && |rsps| <= s.quantum
    ensures var t := Ticks(s, rsps);
            Settled(t) && t.current == s.current && t.quantum == s.quantum - |rsps| && SameReady(s, t)
    decreases |rsps|
  {
    if rsps != [] {
      QuietTick(s, rsps[0]);
      QuietTicks(Switch(s, rsps[0]), rsps[1..]);
    }
  }

  lemma {:induction false} TicksLast(s: State, rsps: seq<Context>)
    requires Inv(s) && NULL !in rsps && rsps != []
    ensures var n := |rsps| - 1;
            Inv(Ticks(s, rsps[..n])) && Ticks(s, rsps) == Switch(Ticks(s, rsps[..n]), rsps[n])
    decreases |rsps|
  {
    SwitchKeepsInv(s, rsps[0]);
    if |rsps| > 1 {
      var rest := rsps[1..];
      TicksLast(Switch(s, rsps[0]), rest);
      assert rsps[..|rsps| - 1][1..] == rest[..|rest| - 1];
    } else {
      assert rsps[..0] == [] && rsps[1..] == [];
    }
  }

  lemma QuantumEnds(s: State, rsp: Context)
    requires Settled(s) && rsp != NULL && s.quantum == 0
    ensures Switch(s, rsp).current == s.current <==> forall q :: !Ready(s.table, q)
  {
    LeaveKeepsInv(s, rsp);
    IdleOnlyWithoutWork(s, rsp);
    var l, t := Leave(s, rsp), Switch(s, rsp);
    assert Ready(l.table, s.current) && !Ready(l.table, l.next);
    assert t.current == NextReady(l.table, s.current);
    if q :| Ready(s.table, q) {
      assert Ready(l.table, q) && q != s.current;
      ScanIsNearest(l.table, s.current, 1, q);
      assert Ahead(s.current, q) < Ahead(s.current, s.current);
    } else {
      assert Ready(s.table, t.current) || t.current == s.current;
    }
  }

  lemma KeepsUntilQuantumEnds(s: State, rsps: seq<Context>)
    requires Settled(s) && NULL !in rsps && |rsps| <= s.quantum + 1
    ensures |rsps| <= s.quantum ==> Ticks(s, rsps).current == s.current
    ensures |rsps| == s.quantum + 1 ==> (Ticks(s, rsps).current == s.current <==> forall q :: !Ready(s.table, q))
  {
    if |rsps| <= s.quantum {
      QuietTicks(s, rsps);
    } else {
      var n := |rsps| - 1;
      QuietTicks(s, rsps[..n]);
      TicksLast(s, rsps);
      QuantumEnds(Ticks(s, rsps[..n]), rsps[n]);
    }
  }

  /**
   A process that is given the CPU keeps it, if nothing but timer ticks happens,
   for QUANTUM and as many more ticks as its priority; with the next one it
   loses it exactly when another process is ready.
   */
  lemma PriorityBuysTicks(s: State, rsp: Context, t: State, p: Pid, rsps: seq<Context>)
    requires Inv(s) && rsp != NULL && t == Switch(s, rsp) && 0 <= t.current == p < |t.table| && s.current != p
    requires NULL !in rsps
    ensures Inv(t)
    ensures |rsps| <= QUANTUM + t.table[p].priority ==> Ticks(t, rsps).current == p
    ensures |rsps| == QUANTUM + t.table[p].priority + 1 ==> (Ticks(t, rsps).current == p <==> forall q :: !Ready(t.table, q))
  {
    Dispatched(s, rsp);
    if |rsps| <= t.quantum + 1 {
      KeepsUntilQuantumEnds(t, rsps);
    }
  }

  /** A process that yields goes on exactly when nobody else is ready or a boost of it is pending. */
  lemma YieldReturnsExactlyWhen(s: State, rsp: Context)
    requires Inv(s) && s.current >= 0 && s.table[s.current].status == RUNNING && rsp != NULL
    ensures Apply(s, OpYield(rsp)).current == s.current <==>
              s.next == s.current || forall q :: !Ready(s.table, q)
  {
    var u := s.(quantum := 0);
    LeaveKeepsInv(u, rsp);
    IdleOnlyWithoutWork(u, rsp);
    var l, t := Leave(u, rsp), Switch(u, rsp);
    assert Ready(l.table, s.current);
    if q :| Ready(s.table, q) {
      assert Ready(l.table, q) && q != s.current;
      ScanIsNearest(l.table, s.current, 1, q);
      assert Ahead(s.current, q) < Ahead(s.current, s.current);
    } else {
      assert Ready(s.table, t.current) || t.current == s.current;
    }
  }

  /** Somebody runs and could go on running. */
  ghost predicate Busy(s: State) {
    && Inv(s) && s.current >= 0 && s.table[s.current].status == RUNNING
    && s.quantum > 0 && !Ready(s.table, s.next)
  }

  /**
   A process that is unblocked takes the CPU from whoever has it exactly when its
   priority is in the upper half, or an earlier boost of it is still pending.
   */
  lemma UnblockPreemptsExactlyWhen(s: State, p: Pid, rsp: Context)
    requires Busy(s) && Asleep(s, p) && rsp != NULL
    ensures var t := Switch(Apply(s, OpUnblock(p)), rsp);
            t.current == if s.table[p].priority >= MAX_PRIORITY / 2 || s.next == p then p else s.current
  {
  }

  /** So does a ready process that is given such a priority. */
  lemma NicePreemptsExactlyWhen(s: State, p: Pid, priority: int, rsp: Context)
    requires Busy(s) && Ready(s.table, p) && rsp != NULL
    ensures var t := Switch(Apply(s, OpNice(p, priority)), rsp);
            t.current == if p != 0 && MAX_PRIORITY / 2 <= priority <= MAX_PRIORITY then p else s.current
  {
  }
}
