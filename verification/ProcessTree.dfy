/**
 The family tree of the processes as one value: who is live, under which
 parent, in the foreground or not, next to the scheduler that runs them.
 The killing and creating calls are functions on it.
 */
module ProcessTree {
  import opened Common
  import S = Scheduler

  type Pid = int

  datatype Proc = Proc(parent: int, fg: bool)

  /**
   procs: the live processes.  loose: those already taken out of their parent's
   children, on the way to being killed.
   */
  datatype Tree = Tree(procs: map<Pid, Proc>, loose: set<Pid>, sched: S.State)

  predicate IsKid(w: Tree, c: Pid, p: Pid) {
    c in w.procs && c != 0 && c !in w.loose && w.procs[c].parent == p
  }

  /** The processes marked as children of p. */
  function Kids(w: Tree, p: Pid): set<Pid> {
    set c | c in w.procs && IsKid(w, c, p)
  }

  // ---- the operations ----

  function Add(w: Tree, c: Pid, parent: Pid, fg: bool, priority: int, stack: S.Context): Tree
    requires 0 <= c < |w.sched.table|
  {
    w.(procs := w.procs[c := Proc(parent, fg)], sched := S.Created(w.sched, c, priority, stack))
  }

  /** Whether a foreground process is still marked under p. */
  predicate Waits(w: Tree, p: Pid) {
    exists c :: c in w.procs && IsKid(w, c, p) && w.procs[c].fg
  }

  /** remove_child: c leaves its parent's children, and the parent wakes up unless it still waits. */
  function Detach(w: Tree, c: Pid): Tree
    requires c in w.procs
  {
    var v := w.(loose := w.loose + {c});
    var p := w.procs[c].parent;
    if Waits(v, p) then v else v.(sched := S.Unblock(v.sched, p))
  }

  function Adopted(w: Tree, q: Pid, p: Pid): Proc
    requires q in w.procs
  {
    if IsKid(w, q, p) then w.procs[q].(parent := 0) else w.procs[q]
  }

  /** shell_adoption of every child of p below `limit`. */
  function Adopt(w: Tree, p: Pid, limit: int): Tree {
    w.(procs := map q | q in w.procs :: if q < limit then Adopted(w, q, p) else w.procs[q])
  }

  /** The end of a kill: the slots of p in both tables are cleared. */
  function Bury(w: Tree, p: Pid): Tree {
    Tree(w.procs - {p}, w.loose - {p}, S.Killed(w.sched, p))
  }

  function Kill(w: Tree, p: Pid): Tree
    requires p in w.procs
  {
    Bury(Adopt(Detach(w, p), p, MAX_PROCESSES), p)
  }

  function KillKids(w: Tree, p: Pid, i: nat): Tree
    requires i <= MAX_PROCESSES
    decreases MAX_PROCESSES - i
  {
    if i == MAX_PROCESSES then w
    else KillKids(if IsKid(w, i, p) then Kill(w, i) else w, p, i + 1)
  }

  function KillTree(w: Tree, p: Pid): Tree
    requires p in w.procs
  {
    Bury(KillKids(Detach(w, p), p, 0), p)
  }

  // ---- the invariant ----

  /** rank goes down along every parent link. */
  ghost predicate Ranked(procs: map<Pid, Proc>, rank: map<Pid, nat>) {
    forall c {:trigger c in procs} | c in procs && c != 0 ::
      procs[c].parent in procs && c in rank && procs[c].parent in rank && rank[procs[c].parent] < rank[c]
  }

  ghost predicate Rooted(procs: map<Pid, Proc>) {
    exists rank :: Ranked(procs, rank)
  }

  ghost predicate Inv(w: Tree) {
    && S.Inv(w.sched)
    && 0 in w.procs
    && w.loose <= w.procs.Keys && 0 !in w.loose
    && (forall p :: p in w.procs <==> S.Live(w.sched.table, p))
    && Rooted(w.procs)
  }

  /** p gets to the shell in at most n parent links. */
  predicate Reaches(procs: map<Pid, Proc>, p: Pid, n: nat)
    decreases n
  {
    p == 0 || (n > 0 && p in procs && Reaches(procs, procs[p].parent, n - 1))
  }

  lemma {:induction false} RankedReaches(procs: map<Pid, Proc>, rank: map<Pid, nat>, p: Pid)
    requires Ranked(procs, rank) && p in procs && p in rank
    ensures Reaches(procs, p, rank[p])
    decreases rank[p]
  {
    if p != 0 {
      RankedReaches(procs, rank, procs[p].parent);
      ReachesMore(procs, procs[p].parent, rank[procs[p].parent], rank[p] - 1);
    }
  }

  lemma {:induction false} ReachesMore(procs: map<Pid, Proc>, p: Pid, m: nat, n: nat)
    requires Reaches(procs, p, m) && m <= n
    ensures Reaches(procs, p, n)
    decreases m
  {
    if p != 0 {
      ReachesMore(procs, procs[p].parent, m - 1, n - 1);
    }
  }

  /** Every live process reaches the shell by finitely many parent links. */
  lemma EveryProcessReachesTheShell(w: Tree, p: Pid) returns (n: nat)
    requires Inv(w) && p in w.procs
    ensures Reaches(w.procs, p, n)
  {
    if p == 0 {
      n := 0;
    } else {
      var rank :| Ranked(w.procs, rank);
      RankedReaches(w.procs, rank, p);
      n := rank[p];
    }
  }

  // ---- each operation keeps it ----

  lemma AddKeepsRoots(procs: map<Pid, Proc>, c: Pid, x: Proc)
    requires Rooted(procs) && c !in procs && c != 0 && x.parent in procs
    ensures Rooted(procs[c := x])
  {
    var rank :| Ranked(procs, rank);
    var base := if x.parent in rank then rank[x.parent] else 0;
    var rank' := if x.parent in rank then rank[c := base + 1] else rank[x.parent := 0][c := base + 1];
    assert Ranked(procs[c := x], rank');
  }

  lemma AddKeepsInv(w: Tree, c: Pid, parent: Pid, fg: bool, priority: int, stack: S.Context)
    requires Inv(w) && 0 <= c < MAX_PROCESSES && c !in w.procs && parent in w.procs && stack != S.NULL
    ensures Inv(Add(w, c, parent, fg, priority, stack))
  {
    S.ApplyKeepsInv(w.sched, S.OpCreate(c, priority, stack));
    AddKeepsRoots(w.procs, c, Proc(parent, fg));
  }

  lemma DetachKeepsInv(w: Tree, c: Pid)
    requires Inv(w) && c in w.procs && c != 0
    ensures Inv(Detach(w, c))
  {
    var p := w.procs[c].parent;
    S.ApplyKeepsInv(w.sched, S.OpUnblock(p));
  }

  /** Handing processes to the shell makes no cycle. */
  lemma ToShellKeepsRoots(procs: map<Pid, Proc>, procs': map<Pid, Proc>)
    requires Rooted(procs) && 0 in procs && procs'.Keys == procs.Keys
    requires forall c {:trigger procs'[c]} | c in procs' && c in procs :: procs'[c].parent == procs[c].parent || procs'[c].parent == 0
    ensures Rooted(procs')
  {
    var rank :| Ranked(procs, rank);
    var rank' := map q | q in procs.Keys :: if q == 0 || q !in rank then 0 else rank[q] + 1;
    assert Ranked(procs', rank');
  }

  lemma AdoptKeepsInv(w: Tree, p: Pid, limit: int)
    requires Inv(w)
    ensures Inv(Adopt(w, p, limit))
  {
    ToShellKeepsRoots(w.procs, Adopt(w, p, limit).procs);
  }

  /** Nobody is left under p. */
  predicate Childless(w: Tree, p: Pid) {
    forall c {:trigger c in w.procs} | c in w.procs && c != 0 :: w.procs[c].parent != p
  }

  lemma BuryKeepsInv(w: Tree, p: Pid)
    requires Inv(w) && p in w.procs && p != 0 && Childless(w, p)
    ensures Inv(Bury(w, p))
  {
    S.ApplyKeepsInv(w.sched, S.OpKill(p));
    var rank :| Ranked(w.procs, rank);
    assert Ranked(w.procs - {p}, rank);
  }

  // ---- kill ----

  /** No process is its own parent, and no two are each other's. */
  lemma NoCycle(w: Tree, p: Pid, q: Pid)
    requires Inv(w) && p in w.procs && p != 0 && q == w.procs[p].parent
    ensures q != p && (q != 0 ==> q in w.procs && w.procs[q].parent != p)
  {
  }

  /** p can be killed: no process on its way out still names it as its parent. */
  predicate CanKill(w: Tree, p: Pid) {
    && p in w.procs && p != 0 && p !in w.loose
    && forall c | c in w.loose && c in w.procs :: w.procs[c].parent != p
  }

  /** A child of q other than p is in the foreground. */
  predicate OtherInFront(w: Tree, q: Pid, p: Pid) {
    exists c :: c in w.procs && c != p && IsKid(w, c, q) && w.procs[c].fg
  }

  /** The status of q once p is dead: a parent that waited for p alone is awake. */
  function StatusWithout(w: Tree, p: Pid, q: Pid): S.Status
    requires p in w.procs && 0 <= q < |w.sched.table|
  {
    var status := w.sched.table[q].status;
    if q == w.procs[p].parent && status == S.BLOCKED && !OtherInFront(w, q, p) then S.READY else status
  }

  /** The slot of q after p is gone: only its status may have changed. */
  predicate SlotWithout(w: Tree, v: Tree, p: Pid, q: Pid) {
    p in w.procs && 0 <= q < |w.sched.table| == |v.sched.table| ==>
      v.sched.table[q] == w.sched.table[q].(status := StatusWithout(w, p, q))
  }

  predicate SameSlot(w: Tree, v: Tree, q: Pid) {
    0 <= q < |w.sched.table| == |v.sched.table| ==> v.sched.table[q] == w.sched.table[q]
  }

  /** kill takes out p alone; its children go to the shell, a parent that waited for it alone wakes up, and nothing else moves. */
  lemma KillForm(w: Tree, p: Pid)
    requires Inv(w) && CanKill(w, p)
    ensures var v := Kill(w, p);
            && v.procs.Keys == w.procs.Keys - {p} && v.loose == w.loose
            && (forall q | q in v.procs :: v.procs[q] == Adopted(w, q, p))
            && |v.sched.table| == |w.sched.table| && !S.Live(v.sched.table, p)
            && (forall q {:trigger SlotWithout(w, v, p, q)} | q != p :: SlotWithout(w, v, p, q))
            && v.sched.current == if w.sched.current == p then S.NO_PROC else w.sched.current
  {
    InRangeKeys(w);
    DetachForm(w, p);
  }

  /** Taking p out of its parent's children wakes the parent unless it waits for another one. */
  lemma DetachForm(w: Tree, p: Pid)
    requires Inv(w) && p in w.procs && p != 0
    ensures var v := Detach(w, p);
            && |v.sched.table| == |w.sched.table| && v.sched.current == w.sched.current
            && forall q {:trigger SlotWithout(w, v, p, q)} :: SlotWithout(w, v, p, q)
  {
    var u := w.(loose := w.loose + {p});
    var parent := w.procs[p].parent;
    NoCycle(w, p, parent);
    assert Waits(u, parent) <==> OtherInFront(w, parent, p) by {
      if Waits(u, parent) {
        var c :| c in u.procs && IsKid(u, c, parent) && u.procs[c].fg;
        assert IsKid(w, c, parent);
      }
      if OtherInFront(w, parent, p) {
        var c :| c in w.procs && c != p && IsKid(w, c, parent) && w.procs[c].fg;
        assert IsKid(u, c, parent);
      }
    }
  }

  lemma InRangeKeys(w: Tree)
    requires Inv(w)
    ensures forall q | q in w.procs :: 0 <= q < MAX_PROCESSES
  {
  }

  lemma AdoptedIsChildless(w: Tree, p: Pid)
    requires Inv(w) && CanKill(w, p)
    ensures p in Detach(w, p).procs && Childless(Adopt(Detach(w, p), p, MAX_PROCESSES), p)
  {
    InRangeKeys(w);
    NoCycle(w, p, w.procs[p].parent);
  }

  lemma KillKeepsInv(w: Tree, p: Pid)
    requires Inv(w) && CanKill(w, p)
    ensures Inv(Kill(w, p))
  {
    var u := Detach(w, p);
    DetachKeepsInv(w, p);
    AdoptKeepsInv(u, p, MAX_PROCESSES);
    AdoptedIsChildless(w, p);
    BuryKeepsInv(Adopt(u, p, MAX_PROCESSES), p);
  }

  // ---- kill_with_children ----

  predicate KidFrom(w: Tree, q: Pid, p: Pid, i: int) {
    IsKid(w, q, p) && q >= i
  }

  predicate Orphan(w: Tree, q: Pid, p: Pid, i: int)
    requires q in w.procs
  {
    q != 0 && q !in w.loose && KidFrom(w, w.procs[q].parent, p, i)
  }

  /** v is w without the children of p from i on, whose own children are the shell's. */
  ghost predicate Beheaded(w: Tree, v: Tree, p: Pid, i: int) {
    && v.loose == w.loose
    && (forall q :: q in v.procs <==> q in w.procs && !KidFrom(w, q, p, i))
    && (forall q | q in v.procs && q in w.procs ::
          v.procs[q] == if Orphan(w, q, p, i) then w.procs[q].(parent := 0) else w.procs[q])
  }

  lemma KidCanBeKilled(w: Tree, p: Pid, i: Pid)
    requires Inv(w) && p in w.procs && w.loose == {p} && IsKid(w, i, p)
    ensures CanKill(w, i)
  {
    NoCycle(w, p, w.procs[p].parent);
  }

  lemma BeheadedStep(w: Tree, u: Tree, v: Tree, p: Pid, i: int)
    requires Inv(w) && w.loose == {p} && p in w.procs && IsKid(w, i, p)
    requires u.procs.Keys == w.procs.Keys - {i} && u.loose == w.loose
    requires forall q | q in u.procs :: u.procs[q] == Adopted(w, q, i)
    requires Beheaded(u, v, p, i + 1)
    ensures Beheaded(w, v, p, i)
  {
    NoCycle(w, i, p);
    forall q | q in u.procs
      ensures KidFrom(u, q, p, i + 1) <==> KidFrom(w, q, p, i)
    {
    }
  }

  lemma NoKidLeft(w: Tree, p: Pid)
    requires Inv(w)
    ensures Beheaded(w, w, p, MAX_PROCESSES)
  {
    InRangeKeys(w);
  }

  lemma BeheadedSkip(w: Tree, v: Tree, p: Pid, i: int)
    requires Beheaded(w, v, p, i + 1) && !IsKid(w, i, p)
    ensures Beheaded(w, v, p, i)
  {
    forall q ensures KidFrom(w, q, p, i + 1) <==> KidFrom(w, q, p, i) {
    }
  }

  lemma KillKid(w: Tree, p: Pid, i: Pid)
    requires Inv(w) && p in w.procs && w.loose == {p} && IsKid(w, i, p)
    ensures i in w.procs && var u := Kill(w, i);
            && Inv(u) && p in u.procs
            && u.procs.Keys == w.procs.Keys - {i} && u.loose == w.loose
            && (forall q | q in u.procs :: u.procs[q] == Adopted(w, q, i))
            && |u.sched.table| == |w.sched.table|
            && (forall q {:trigger SameSlot(w, u, q)} | q != p && q != i :: SameSlot(w, u, q))
            && u.sched.current == if w.sched.current == i then S.NO_PROC else w.sched.current
  {
    KidCanBeKilled(w, p, i);
    KillForm(w, i);
    KillKeepsInv(w, i);
    forall q | q != p && q != i ensures SameSlot(w, Kill(w, i), q) {
      assert SlotWithout(w, Kill(w, i), i, q);
    }
  }

  /** The scheduler keeps the slots of all but p and its children from i on. */
  ghost predicate OthersStay(w: Tree, v: Tree, p: Pid, i: int) {
    && |v.sched.table| == |w.sched.table|
    && (forall q {:trigger SameSlot(w, v, q)} | q != p && !KidFrom(w, q, p, i) :: SameSlot(w, v, q))
    && v.sched.current == if KidFrom(w, w.sched.current, p, i) then S.NO_PROC else w.sched.current
  }

  lemma StayStep(w: Tree, u: Tree, v: Tree, p: Pid, i: Pid)
    requires Inv(w) && w.loose == {p} && p in w.procs && IsKid(w, i, p)
    requires u.procs.Keys == w.procs.Keys - {i} && u.loose == w.loose
    requires forall q | q in u.procs :: u.procs[q] == Adopted(w, q, i)
    requires |u.sched.table| == |w.sched.table|
    requires forall q {:trigger SameSlot(w, u, q)} | q != p && q != i :: SameSlot(w, u, q)
    requires u.sched.current == if w.sched.current == i then S.NO_PROC else w.sched.current
    requires OthersStay(u, v, p, i + 1)
    ensures OthersStay(w, v, p, i)
  {
    InRangeKeys(w);
    NoCycle(w, i, p);
    forall q ensures KidFrom(u, q, p, i + 1) <==> KidFrom(w, q, p, i) && q != i {
    }
    forall q | q != p && !KidFrom(w, q, p, i) ensures SameSlot(w, v, q) {
      assert SameSlot(w, u, q) && SameSlot(u, v, q);
    }
  }

  lemma {:induction false} KillKidsForm(w: Tree, p: Pid, i: nat)
    requires Inv(w) && p in w.procs && p != 0 && w.loose == {p} && i <= MAX_PROCESSES
    ensures var v := KillKids(w, p, i); Inv(v) && p in v.procs && Beheaded(w, v, p, i) && OthersStay(w, v, p, i)
    decreases MAX_PROCESSES - i
  {
    if i == MAX_PROCESSES {
      NoKidLeft(w, p);
    } else if IsKid(w, i, p) {
      KillKid(w, p, i);
      var u := Kill(w, i);
      KillKidsForm(u, p, i + 1);
      BeheadedStep(w, u, KillKids(u, p, i + 1), p, i);
      StayStep(w, u, KillKids(u, p, i + 1), p, i);
    } else {
      KillKidsForm(w, p, i + 1);
      BeheadedSkip(w, KillKids(w, p, i + 1), p, i);
    }
  }

  /** w without p and its children, whose own children are the shell's. */
  ghost predicate Pruned(w: Tree, v: Tree, p: Pid) {
    && v.loose == {}
    && (forall q :: q in v.procs <==> q in w.procs && q != p && !IsKid(w, q, p))
    && forall q | q in v.procs && q in w.procs ::
         v.procs[q] == if q != 0 && IsKid(w, w.procs[q].parent, p) then w.procs[q].(parent := 0) else w.procs[q]
  }

  lemma BeheadedIsPruned(w: Tree, u: Tree, v: Tree, p: Pid)
    requires Inv(w) && w.loose == {} && p in w.procs && p != 0
    requires u.procs == w.procs && u.loose == {p}
    requires Beheaded(u, v, p, 0)
    ensures p in v.procs && Childless(v, p) && Pruned(w, Bury(v, p), p)
  {
    InRangeKeys(w);
    NoCycle(w, p, w.procs[p].parent);
    assert forall q :: KidFrom(u, q, p, 0) <==> IsKid(w, q, p) by {
      forall q ensures KidFrom(u, q, p, 0) <==> IsKid(w, q, p) {
      }
    }
  }

  /** p or one of its children. */
  predicate InFamily(w: Tree, q: Pid, p: Pid) {
    q == p || IsKid(w, q, p)
  }

  /** For the scheduler, p and its children are dead, and a parent of p that waited for it alone is awake. */
  ghost predicate FamilyGone(w: Tree, v: Tree, p: Pid) {
    && |v.sched.table| == |w.sched.table|
    && (forall q {:trigger InFamily(w, q, p)} | InFamily(w, q, p) :: !S.Live(v.sched.table, q))
    && (forall q {:trigger SlotWithout(w, v, p, q)} | !InFamily(w, q, p) :: SlotWithout(w, v, p, q))
    && v.sched.current == if InFamily(w, w.sched.current, p) then S.NO_PROC else w.sched.current
  }

  lemma SchedulerForgets(w: Tree, u: Tree, v: Tree, p: Pid)
    requires Inv(w) && w.loose == {} && p in w.procs && p != 0
    requires u == Detach(w, p) && Inv(v) && p in v.procs && Beheaded(u, v, p, 0) && OthersStay(u, v, p, 0)
    requires Inv(Bury(v, p)) && Pruned(w, Bury(v, p), p)
    ensures FamilyGone(w, Bury(v, p), p)
  {
    var r := Bury(v, p);
    InRangeKeys(w);
    DetachForm(w, p);
    forall q ensures KidFrom(u, q, p, 0) <==> IsKid(w, q, p) && q != p {
      NoCycle(w, p, w.procs[p].parent);
    }
    forall q | !InFamily(w, q, p) ensures SlotWithout(w, r, p, q) {
      assert SlotWithout(w, u, p, q) && SameSlot(u, v, q);
    }
    forall q | InFamily(w, q, p) ensures !S.Live(r.sched.table, q) {
      assert q !in r.procs;
    }
  }

  /**
   kill_with_children takes out p and its children.  The grandchildren survive:
   each kill hands them to the shell.  A parent that waited for p alone wakes up.
   */
  lemma KillTreeForm(w: Tree, p: Pid)
    requires Inv(w) && w.loose == {} && p in w.procs && p != 0
    ensures Inv(KillTree(w, p)) && Pruned(w, KillTree(w, p), p) && FamilyGone(w, KillTree(w, p), p)
  {
    var u := Detach(w, p);
    DetachKeepsInv(w, p);
    KillKidsForm(u, p, 0);
    var v := KillKids(u, p, 0);
    BeheadedIsPruned(w, u, v, p);
    BuryKeepsInv(v, p);
    SchedulerForgets(w, u, v, p);
  }

  // ---- any sequence of calls ----

  datatype Call =
    | Create(fg: bool, priority: int, stack: S.Context)
    | KillOne(p: Pid)
    | KillFamily(p: Pid)
    | ToGround(p: Pid, fg: bool)      // send_to_background, bring_to_foreground
    | Schedule(op: S.Op)              // everything else the scheduler does

  predicate CanCall(w: Tree, call: Call) {
    match call
    case Create(_, _, stack) => w.sched.current >= 0 && stack != S.NULL
    case Schedule(op) => !op.OpCreate? && !op.OpKill? && S.Allowed(w.sched, op)
    case _ => true
  }

  /** The first slot from i on that is not live. */
  function FirstFree(w: Tree, i: nat): (p: nat)
    requires i <= MAX_PROCESSES
    ensures i <= p <= MAX_PROCESSES && (p < MAX_PROCESSES ==> p !in w.procs)
    ensures forall q | i <= q < p :: q in w.procs
    decreases MAX_PROCESSES - i
  {
    if i < MAX_PROCESSES && i in w.procs then FirstFree(w, i + 1) else i
  }

  function Perform(w: Tree, call: Call): Tree
    requires |w.sched.table| == MAX_PROCESSES && w.sched.current < MAX_PROCESSES && CanCall(w, call)
  {
    match call
    case Create(fg, priority, stack) =>
      var p := FirstFree(w, 0);
      if p == MAX_PROCESSES then w else Add(w, p, w.sched.current, fg, priority, stack)
    case KillOne(p) => if p == 0 || p !in w.procs then w else Kill(w, p)
    case KillFamily(p) => if p == 0 || p !in w.procs then w else KillTree(w, p)
    case ToGround(p, fg) => if p in w.procs then w.(procs := w.procs[p := w.procs[p].(fg := fg)]) else w
    case Schedule(op) => w.(sched := S.Apply(w.sched, op))
  }

  lemma ToGroundKeepsInv(w: Tree, p: Pid, fg: bool)
    requires Inv(w) && p in w.procs
    ensures Inv(w.(procs := w.procs[p := w.procs[p].(fg := fg)]))
  {
    ToShellKeepsRoots(w.procs, w.procs[p := w.procs[p].(fg := fg)]);
  }

  lemma ScheduleKeepsInv(w: Tree, op: S.Op)
    requires Inv(w) && !op.OpCreate? && !op.OpKill? && S.Allowed(w.sched, op)
    ensures Inv(w.(sched := S.Apply(w.sched, op)))
  {
    S.ApplyKeepsInv(w.sched, op);
    S.ApplyKeepsLive(w.sched, op);
  }

  lemma PerformKeepsInv(w: Tree, call: Call)
    requires Inv(w) && w.loose == {} && CanCall(w, call)
    ensures Inv(Perform(w, call)) && Perform(w, call).loose == {}
  {
    match call
    case Create(fg, priority, stack) =>
      var p := FirstFree(w, 0);
      if p < MAX_PROCESSES {
        AddKeepsInv(w, p, w.sched.current, fg, priority, stack);
      }
    case KillOne(p) =>
      if p != 0 && p in w.procs {
        KillKeepsInv(w, p);
      }
    case KillFamily(p) =>
      if p != 0 && p in w.procs {
        KillTreeForm(w, p);
      }
    case ToGround(p, fg) =>
      if p in w.procs {
        ToGroundKeepsInv(w, p, fg);
      }
    case Schedule(op) => ScheduleKeepsInv(w, op);
  }

  ghost predicate AllCallable(w: Tree, calls: seq<Call>)
    requires Inv(w) && w.loose == {}
    decreases |calls|
  {
    calls == [] || (CanCall(w, calls[0]) && (PerformKeepsInv(w, calls[0]); AllCallable(Perform(w, calls[0]), calls[1..])))
  }

  ghost function Run(w: Tree, calls: seq<Call>): (v: Tree)
    requires Inv(w) && w.loose == {} && AllCallable(w, calls)
    ensures Inv(v) && v.loose == {}
    decreases |calls|
  {
    if calls == [] then w else PerformKeepsInv(w, calls[0]); Run(Perform(w, calls[0]), calls[1..])
  }

  /**
   After any sequence of calls: a slot is live here exactly when it is live in
   the scheduler's table, every live process but the shell has a live parent
   other than itself, and gets to the shell by finitely many parent links.
   */
  lemma FamilyIsConsistent(w: Tree, calls: seq<Call>, p: Pid) returns (n: nat)
    requires Inv(w) && w.loose == {} && AllCallable(w, calls)
    ensures var v := Run(w, calls);
            && (p in v.procs <==> S.Live(v.sched.table, p))
            && (p in v.procs && p != 0 ==> v.procs[p].parent in v.procs && p in Kids(v, v.procs[p].parent))
            && (p in v.procs ==> Reaches(v.procs, p, n) && p !in Kids(v, p))
  {
    var v := Run(w, calls);
    n := 0;
    if p in v.procs {
      n := EveryProcessReachesTheShell(v, p);
    }
  }
}
