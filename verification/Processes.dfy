/**
 The process and family tables of processes.c, next to the scheduler, and the
 calls that create and kill processes.  Stacks, names and arguments are
 allocated by the caller's leave: one flag says whether malloc succeeded.
 */
module Processes {
  import opened Common
  import S = Scheduler
  import opened ProcessTree

  const NULL: nat := S.NULL
  const MAX_NAME_LENGTH: nat := 20

  datatype ProcessS = ProcessS(stackEnd: nat, parent: int, fg: bool)

  datatype FamilyUnit = FamilyUnit(childrenArr: seq<bool>, numberOfChildren: int)

  // ---- the tables represent a tree ----

  function Marked(f: FamilyUnit): set<Pid> {
    set c | 0 <= c < |f.childrenArr| && f.childrenArr[c]
  }

  ghost predicate Matches(f: FamilyUnit, kids: set<Pid>) {
    |f.childrenArr| == MAX_PROCESSES && Marked(f) == kids && f.numberOfChildren == |kids|
  }

  ghost predicate SlotMatches(x: ProcessS, w: Tree, p: Pid) {
    && (p in w.procs <==> x.stackEnd != NULL)
    && (p in w.procs ==> x.parent == w.procs[p].parent && x.fg == w.procs[p].fg)
  }

  ghost predicate Represents(A: seq<ProcessS>, F: seq<FamilyUnit>, n: int, w: Tree) {
    && |A| == |F| == MAX_PROCESSES
    && (forall p {:trigger A[p]} | 0 <= p < |A| :: SlotMatches(A[p], w, p))
    && (forall p {:trigger F[p]} | 0 <= p < |F| :: Matches(F[p], Kids(w, p)))
    && n == |w.procs|
  }

  function Mark(f: FamilyUnit, c: Pid): FamilyUnit
    requires 0 <= c < |f.childrenArr|
  {
    FamilyUnit(f.childrenArr[c := true], f.numberOfChildren + 1)
  }

  function Unmark(f: FamilyUnit, c: Pid): FamilyUnit
    requires 0 <= c < |f.childrenArr|
  {
    FamilyUnit(f.childrenArr[c := false], f.numberOfChildren - 1)
  }

  lemma MarkMatches(f: FamilyUnit, kids: set<Pid>, c: Pid)
    requires Matches(f, kids) && 0 <= c < MAX_PROCESSES && c !in kids
    ensures Matches(Mark(f, c), kids + {c})
  {
    assert Marked(Mark(f, c)) == kids + {c};
  }

  lemma UnmarkMatches(f: FamilyUnit, kids: set<Pid>, c: Pid)
    requires Matches(f, kids) && 0 <= c < MAX_PROCESSES && c in kids
    ensures Matches(Unmark(f, c), kids - {c})
  {
    assert Marked(Unmark(f, c)) == kids - {c};
  }

  lemma RepAdd(A: seq<ProcessS>, F: seq<FamilyUnit>, n: int, w: Tree, v: Tree, c: Pid, x: ProcessS)
    requires Represents(A, F, n, w) && w.loose <= w.procs.Keys
    requires 0 < c < MAX_PROCESSES && c !in w.procs && x.stackEnd != NULL && 0 <= x.parent < MAX_PROCESSES
    requires v.procs == w.procs[c := Proc(x.parent, x.fg)] && v.loose == w.loose
    ensures Represents(A[c := x], F[x.parent := Mark(F[x.parent], c)], n + 1, v)
  {
    forall p ensures Kids(v, p) == if p == x.parent then Kids(w, p) + {c} else Kids(w, p) {
    }
    MarkMatches(F[x.parent], Kids(w, x.parent), c);
    assert v.procs.Keys == w.procs.Keys + {c};
  }

  lemma RepDetach(A: seq<ProcessS>, F: seq<FamilyUnit>, n: int, w: Tree, v: Tree, c: Pid)
    requires Represents(A, F, n, w)
    requires 0 < c < MAX_PROCESSES && c in w.procs && c !in w.loose && 0 <= w.procs[c].parent < MAX_PROCESSES
    requires v.procs == w.procs && v.loose == w.loose + {c}
    ensures Represents(A, var p := w.procs[c].parent; F[p := Unmark(F[p], c)], n, v)
  {
    var parent := w.procs[c].parent;
    forall p ensures Kids(v, p) == if p == parent then Kids(w, p) - {c} else Kids(w, p) {
    }
    UnmarkMatches(F[parent], Kids(w, parent), c);
  }

  lemma RepAdoptOne(A: seq<ProcessS>, F: seq<FamilyUnit>, n: int, w: Tree, v: Tree, c: Pid, p: Pid)
    requires Represents(A, F, n, w)
    requires 0 < p < MAX_PROCESSES && 0 < c < MAX_PROCESSES && IsKid(w, c, p)
    requires v.procs == w.procs[c := w.procs[c].(parent := 0)] && v.loose == w.loose
    ensures var F1 := F[p := Unmark(F[p], c)];
            Represents(A[c := A[c].(parent := 0)], F1[0 := Mark(F1[0], c)], n, v)
  {
    forall q ensures Kids(v, q) == if q == p then Kids(w, q) - {c} else if q == 0 then Kids(w, q) + {c} else Kids(w, q) {
    }
    UnmarkMatches(F[p], Kids(w, p), c);
    MarkMatches(F[0], Kids(w, 0), c);
    assert v.procs.Keys == w.procs.Keys;
  }

  lemma RepBury(A: seq<ProcessS>, F: seq<FamilyUnit>, n: int, w: Tree, v: Tree, p: Pid, x: ProcessS)
    requires Represents(A, F, n, w) && p in w.loose && p in w.procs && 0 <= p < MAX_PROCESSES
    requires v.procs == w.procs - {p} && v.loose == w.loose - {p} && x.stackEnd == NULL
    ensures Represents(A[p := x], F, n - 1, v)
  {
    forall q ensures Kids(v, q) == Kids(w, q) {
    }
    assert v.procs.Keys == w.procs.Keys - {p};
  }

  lemma SameRep(A: seq<ProcessS>, F: seq<FamilyUnit>, n: int, w: Tree, v: Tree)
    requires Represents(A, F, n, w) && v.procs == w.procs && v.loose == w.loose
    ensures Represents(A, F, n, v)
  {
    forall q ensures Kids(v, q) == Kids(w, q) {
    }
  }

  lemma RepToGround(A: seq<ProcessS>, F: seq<FamilyUnit>, n: int, w: Tree, p: Pid, fg: bool)
    requires Represents(A, F, n, w) && p in w.procs && 0 <= p < MAX_PROCESSES
    ensures Represents(A[p := A[p].(fg := fg)], F, n, w.(procs := w.procs[p := w.procs[p].(fg := fg)]))
  {
    var v := w.(procs := w.procs[p := w.procs[p].(fg := fg)]);
    forall q ensures Kids(v, q) == Kids(w, q) {
    }
    assert v.procs.Keys == w.procs.Keys;
  }

  /** One more turn of the adoption loop. */
  lemma AdoptStep(w: Tree, p: Pid, i: Pid)
    requires p != 0
    ensures var u, v := Adopt(w, p, i), Adopt(w, p, i + 1);
            && (IsKid(w, i, p) <==> IsKid(u, i, p))
            && v == if IsKid(w, i, p) then u.(procs := u.procs[i := u.procs[i].(parent := 0)]) else u
  {
    var u, v := Adopt(w, p, i), Adopt(w, p, i + 1);
    assert IsKid(w, i, p) ==> v.procs == u.procs[i := u.procs[i].(parent := 0)];
    assert !IsKid(w, i, p) ==> v.procs == u.procs;
  }

  lemma AdoptNone(w: Tree, p: Pid)
    ensures Adopt(w, p, 0).procs.Keys == w.procs.Keys
    ensures (forall q | q in w.procs :: q >= 0) ==> Adopt(w, p, 0) == w
  {
    assert (forall q | q in w.procs :: q >= 0) ==> Adopt(w, p, 0).procs == w.procs;
  }

  /** Leaving the adoption loop early changes nothing once no child is left. */
  lemma AdoptDone(w: Tree, p: Pid, i: int)
    requires p != 0 && i <= MAX_PROCESSES && Kids(Adopt(w, p, i), p) == {}
    ensures Adopt(w, p, i) == Adopt(w, p, MAX_PROCESSES)
  {
    var u, v := Adopt(w, p, i), Adopt(w, p, MAX_PROCESSES);
    forall q | q in w.procs ensures u.procs[q] == v.procs[q] {
      assert q !in Kids(u, p);
    }
    assert u.procs == v.procs;
  }

  lemma AdoptEnds(w: Tree, p: Pid, i: int)
    requires p != 0 && i <= MAX_PROCESSES && (i == MAX_PROCESSES || Kids(Adopt(w, p, i), p) == {})
    ensures Adopt(w, p, i) == Adopt(w, p, MAX_PROCESSES)
  {
    if i < MAX_PROCESSES {
      AdoptDone(w, p, i);
    }
  }

  lemma BeheadedIsChildless(w: Tree, v: Tree, p: Pid)
    requires Inv(w) && w.loose == {p} && p in w.procs && p != 0 && Beheaded(w, v, p, 0)
    ensures Childless(v, p)
  {
    InRangeKeys(w);
    NoCycle(w, p, w.procs[p].parent);
  }

  lemma {:induction false} KillNoKids(w: Tree, p: Pid, i: nat)
    requires Kids(w, p) == {} && i <= MAX_PROCESSES
    ensures KillKids(w, p, i) == w
    decreases MAX_PROCESSES - i
  {
    if i < MAX_PROCESSES {
      assert i !in Kids(w, p);
      KillNoKids(w, p, i + 1);
    }
  }

  predicate ValidName(name: Option<string>) {
    name.Some? && |name.value| <= MAX_NAME_LENGTH
  }

  lemma FirstTree(w: Tree)
    requires S.Inv(w.sched) && 0 in w.procs && w.procs.Keys == {0} && w.loose == {}
    requires forall p :: S.Live(w.sched.table, p) <==> p == 0
    ensures Inv(w)
  {
    assert Ranked(w.procs, map[]);
  }

  lemma FirstRep(A: seq<ProcessS>, F: seq<FamilyUnit>, w: Tree)
    requires |A| == |F| == MAX_PROCESSES && 0 in w.procs && w.procs.Keys == {0}
    requires forall p {:trigger A[p]} | 0 <= p < |A| :: SlotMatches(A[p], w, p)
    requires forall p {:trigger F[p]} | 0 <= p < |F| ::
               |F[p].childrenArr| == MAX_PROCESSES && F[p].numberOfChildren == 0 && Marked(F[p]) == {}
    ensures Represents(A, F, 1, w)
  {
    forall p ensures Kids(w, p) == {} {
    }
    assert |w.procs.Keys| == 1;
  }

  // ---- the code ----

  class ProcessTable {
    const processArr: array<ProcessS>
    const families: array<FamilyUnit>
    const scheduler: S.Scheduler
    var lastPID: int
    ghost var tree: Tree

    ghost predicate Valid()
      reads this, processArr, families, scheduler, scheduler.processTable
    {
      && Represents(processArr[..], families[..], lastPID, tree)
      && scheduler.Valid() && scheduler.Value() == tree.sched
      && Inv(tree)
    }

    /** The tables once the shell is up in slot 0. */
    constructor (shell: ProcessS, priority: int, stack: S.Context)
      requires shell.stackEnd != NULL && stack != S.NULL
      ensures Valid() && fresh(processArr) && fresh(families) && fresh(scheduler) && fresh(scheduler.processTable)
      ensures tree.procs == map[0 := Proc(shell.parent, shell.fg)] && tree.loose == {}
    {
      processArr := new ProcessS[MAX_PROCESSES](_ => ProcessS(NULL, 0, false));
      families := new FamilyUnit[MAX_PROCESSES](_ => FamilyUnit(seq(MAX_PROCESSES, _ => false), 0));
      scheduler := new S.Scheduler();
      lastPID := 1;
      new;
      ghost var s := scheduler.Value();
      scheduler.ProcessWasCreated(0, priority, stack);
      processArr[0] := shell;
      tree := Tree(map[0 := Proc(shell.parent, shell.fg)], {}, S.Created(s, 0, priority, stack));
      forall p ensures S.Live(tree.sched.table, p) <==> p == 0 {
        assert !S.Live(s.table, p);
      }
      FirstTree(tree);
      FirstRep(processArr[..], families[..], tree);
    }

    predicate IsLive(p: Pid)
      reads processArr
    {
      0 <= p < processArr.Length && processArr[p].stackEnd != NULL
    }

    /**
     Between two calls c is marked under p exactly when c is live with parent p,
     and each count is the number of marks.
     */
    lemma MarksAreChildren(p: Pid, c: Pid)
      requires Valid() && tree.loose == {} && 0 <= p < MAX_PROCESSES && 0 <= c < MAX_PROCESSES
      ensures processArr.Length == families.Length == MAX_PROCESSES && |families[p].childrenArr| == MAX_PROCESSES
      ensures families[p].childrenArr[c] <==> c != 0 && IsLive(c) && processArr[c].parent == p
      ensures families[p].numberOfChildren == |Marked(families[p])|
    {
      assert SlotMatches(processArr[..][c], tree, c);
      assert Matches(families[..][p], Kids(tree, p));
      assert families[p].childrenArr[c] <==> c in Marked(families[p]);
    }

    method AddChild(parent: Pid, child: Pid)
      requires 0 <= parent < families.Length && 0 <= child < |families[parent].childrenArr|
      modifies families
      ensures families[..] == old(families[..])[parent := Mark(old(families[parent]), child)]
    {
      var f := families[parent];
      families[parent] := f.(childrenArr := f.childrenArr[child := true], numberOfChildren := f.numberOfChildren + 1);
    }

    method DropChild(parent: Pid, child: Pid)
      requires 0 <= parent < families.Length && 0 <= child < |families[parent].childrenArr|
      modifies families
      ensures families[..] == old(families[..])[parent := Unmark(old(families[parent]), child)]
    {
      var f := families[parent];
      families[parent] := f.(childrenArr := f.childrenArr[child := false], numberOfChildren := f.numberOfChildren - 1);
    }

    /** The loop of remove_child over the marked children. */
    method HasForegroundChild(parent: Pid) returns (b: bool)
      requires Valid() && 0 <= parent < MAX_PROCESSES
      ensures b == Waits(tree, parent)
    {
      var i := 0;
      assert Matches(families[..][parent], Kids(tree, parent));
      assert families[parent].numberOfChildren <= 0 ==> Kids(tree, parent) == {};
      while i < MAX_PROCESSES && families[parent].numberOfChildren > 0
        invariant 0 <= i <= MAX_PROCESSES
        invariant forall c | 0 <= c < i && IsKid(tree, c, parent) :: !tree.procs[c].fg
      {
        assert SlotMatches(processArr[..][i], tree, i);
        assert families[parent].childrenArr[i] <==> i in Marked(families[parent]);
        if families[parent].childrenArr[i] && processArr[i].fg {
          return true;
        }
        i := i + 1;
      }
      InRangeKeys(tree);
      forall c | c in tree.procs && IsKid(tree, c, parent) ensures !tree.procs[c].fg {
        assert c in Kids(tree, parent);
      }
      return false;
    }

    /** child is taken out of its parent's children. */
    method Unhook(child: Pid)
      requires Valid() && child in tree.procs && child != 0 && child !in tree.loose
      modifies this`tree, families
      ensures Valid() && tree == old(tree).(loose := old(tree).loose + {child})
    {
      ghost var w := tree;
      InRangeKeys(w);
      assert SlotMatches(processArr[..][child], w, child);
      var parent := processArr[child].parent;
      NoCycle(w, child, parent);
      assert Matches(families[..][parent], Kids(w, parent));
      DropChild(parent, child);
      tree := w.(loose := w.loose + {child});
      RepDetach(processArr[..], old(families[..]), lastPID, w, tree, child);
    }

    /** p is unblocked unless it still has a foreground child. */
    method WakeUnlessWaiting(p: Pid)
      requires Valid() && 0 <= p < MAX_PROCESSES
      modifies this`tree, scheduler, scheduler.processTable
      ensures Valid()
      ensures var w := old(tree); tree == if Waits(w, p) then w else w.(sched := S.Unblock(w.sched, p))
    {
      ghost var w := tree;
      var waits := HasForegroundChild(p);
      if !waits {
        var _ := scheduler.UnblockProcess(p);
        tree := w.(sched := S.Unblock(w.sched, p));
        SameRep(processArr[..], families[..], lastPID, w, tree);
      }
    }

    method RemoveChild(child: Pid)
      requires Valid() && child in tree.procs && child != 0 && child !in tree.loose
      modifies this`tree, families, scheduler, scheduler.processTable
      ensures Valid() && tree == Detach(old(tree), child)
    {
      InRangeKeys(tree);
      assert SlotMatches(processArr[..][child], tree, child);
      var parent := processArr[child].parent;
      NoCycle(tree, child, parent);
      if parent != S.NO_PROC {
        Unhook(child);
        WakeUnlessWaiting(parent);
      }
    }

    method ShellAdoption(child: Pid, lastParent: Pid)
      requires Valid() && IsKid(tree, child, lastParent) && lastParent != 0
      modifies this`tree, families, processArr
      ensures Valid() && tree == old(tree).(procs := old(tree).procs[child := old(tree).procs[child].(parent := 0)])
    {
      ghost var w := tree;
      InRangeKeys(w);
      assert Matches(families[..][lastParent], Kids(w, lastParent)) && Matches(families[..][0], Kids(w, 0));
      DropChild(lastParent, child);
      processArr[child] := processArr[child].(parent := 0);
      AddChild(0, child);
      tree := w.(procs := w.procs[child := w.procs[child].(parent := 0)]);
      RepAdoptOne(old(processArr[..]), old(families[..]), lastPID, w, tree, child, lastParent);
      ToShellKeepsRoots(w.procs, tree.procs);
    }

    /** The search for a free slot at the head of create_process. */
    method FirstFree() returns (p: Pid)
      requires Valid()
      ensures 0 <= p <= MAX_PROCESSES && (p < MAX_PROCESSES ==> p !in tree.procs)
      ensures forall q | 0 <= q < p :: q in tree.procs
    {
      p := 0;
      while p < MAX_PROCESSES && IsLive(p)
        invariant 0 <= p <= MAX_PROCESSES
        invariant forall q | 0 <= q < p :: q in tree.procs
      {
        assert SlotMatches(processArr[..][p], tree, p);
        p := p + 1;
      }
      assert p < MAX_PROCESSES ==> SlotMatches(processArr[..][p], tree, p);
    }

    /** Both tables get the new process. */
    method Enter(p: Pid, stackEnd: nat, fg: bool, priority: int, stack: S.Context)
      requires Valid() && 0 <= p < MAX_PROCESSES && p !in tree.procs && stackEnd != NULL && stack != S.NULL
      requires scheduler.currentPID >= 0
      modifies this, processArr, families, scheduler, scheduler.processTable
      ensures Valid() && tree == Add(old(tree), p, old(scheduler.currentPID), fg, priority, stack)
    {
      ghost var w := tree;
      InRangeKeys(w);
      var parent := scheduler.currentPID;
      AddKeepsInv(w, p, parent, fg, priority, stack);
      assert Matches(families[..][parent], Kids(w, parent));
      processArr[p] := ProcessS(stackEnd, parent, fg);
      AddChild(parent, p);
      scheduler.ProcessWasCreated(p, priority, stack);
      lastPID := lastPID + 1;
      tree := Add(w, p, parent, fg, priority, stack);
      RepAdd(old(processArr[..]), old(families[..]), old(lastPID), w, tree, p, ProcessS(stackEnd, parent, fg));
    }

    /**
     create_process, called by a live process.  malloc tells whether all its
     allocations succeed; stackEnd and stack are what they lead to.
     */
    method CreateProcess(name: Option<string>, argc: int, fg: bool, priority: int,
                         malloc: bool, stackEnd: nat, stack: S.Context) returns (r: Pid)
      requires Valid() && scheduler.currentPID >= 0 && stackEnd != NULL && stack != S.NULL
      modifies this, processArr, families, scheduler, scheduler.processTable
      ensures Valid()
      ensures var w := old(tree);
              && (r == -1 <==> (forall q | 0 <= q < MAX_PROCESSES :: q in w.procs) || argc < 0 || !ValidName(name) || !malloc)
              && (r == -1 ==> tree == w)
              && (r != -1 ==>
                    && 0 <= r < MAX_PROCESSES && r !in w.procs && (forall q | 0 <= q < r :: q in w.procs)
                    && tree == Add(w, r, old(scheduler.currentPID), fg, priority, stack))
    {
      var p := FirstFree();
      if p >= MAX_PROCESSES || argc < 0 || !ValidName(name) {
        return -1;
      }
      if !malloc {
        return -1;
      }
      Enter(p, stackEnd, fg, priority, stack);
      return p;
    }

    method IsMarked(p: Pid, c: Pid) returns (b: bool)
      requires Valid() && 0 <= p < MAX_PROCESSES && 0 <= c < MAX_PROCESSES
      ensures b == IsKid(tree, c, p)
    {
      assert Matches(families[..][p], Kids(tree, p));
      assert IsKid(tree, c, p) <==> c in Marked(families[p]);
      return families[p].childrenArr[c];
    }

    method HasChildren(p: Pid) returns (b: bool)
      requires Valid() && 0 <= p < MAX_PROCESSES
      ensures b == (Kids(tree, p) != {})
    {
      assert Matches(families[..][p], Kids(tree, p));
      return families[p].numberOfChildren != 0;
    }

    /** One turn of the adoption loop; done tells that no child is left. */
    method AdoptMarked(ghost w: Tree, p: Pid, i: Pid) returns (done: bool)
      requires Valid() && tree == Adopt(w, p, i) && 0 < p < MAX_PROCESSES && 0 <= i < MAX_PROCESSES
      modifies this`tree, families, processArr
      ensures Valid() && tree == Adopt(w, p, i + 1)
      ensures done ==> Kids(tree, p) == {}
    {
      AdoptStep(w, p, i);
      var marked := IsMarked(p, i);
      if marked {
        ShellAdoption(i, p);
        var more := HasChildren(p);
        return !more;
      }
      return false;
    }

    /** send_to_background and bring_to_foreground; the flag, or -1. */
    method MoveToGround(p: Pid, fg: bool) returns (r: int)
      requires Valid()
      modifies this`tree, processArr
      ensures Valid()
      ensures r == -1 <==> p !in old(tree).procs
      ensures tree == if p !in old(tree).procs then old(tree)
                      else old(tree).(procs := old(tree).procs[p := old(tree).procs[p].(fg := fg)])
    {
      ghost var w := tree;
      InRangeKeys(w);
      assert 0 <= p < MAX_PROCESSES ==> SlotMatches(processArr[..][p], w, p);
      if !IsLive(p) {
        return -1;
      }
      RepToGround(processArr[..], families[..], lastPID, w, p, fg);
      ToGroundKeepsInv(w, p, fg);
      processArr[p] := processArr[p].(fg := fg);
      tree := w.(procs := w.procs[p := w.procs[p].(fg := fg)]);
      assert processArr[..] == old(processArr[..])[p := old(processArr[..])[p].(fg := fg)];
      return if fg then 1 else 0;
    }

    /** The adoption loop of kill; it ends early once no child is left. */
    method GiveToShell(p: Pid)
      requires Valid() && p in tree.procs && p != 0
      modifies this`tree, families, processArr
      ensures Valid() && tree == Adopt(old(tree), p, MAX_PROCESSES)
    {
      ghost var w := tree;
      InRangeKeys(w);
      AdoptNone(w, p);
      var more := HasChildren(p);
      var i := 0;
      while i < MAX_PROCESSES && more
        invariant 0 <= i <= MAX_PROCESSES
        invariant Valid() && tree == Adopt(w, p, i)
        invariant more || Kids(tree, p) == {}
      {
        var done := AdoptMarked(w, p, i);
        more := !done;
        i := i + 1;
      }
      AdoptEnds(w, p, i);
    }

    /** The scheduler forgets p and its slot is cleared. */
    method Clear(p: Pid)
      requires Valid() && p in tree.loose && p != 0 && Childless(tree, p)
      modifies this, processArr, scheduler, scheduler.processTable
      ensures Valid() && tree == Bury(old(tree), p)
    {
      ghost var w := tree;
      InRangeKeys(w);
      BuryKeepsInv(w, p);
      var _ := scheduler.ProcessWasKilled(p);
      processArr[p] := ProcessS(NULL, 0, false);
      lastPID := lastPID - 1;
      tree := Bury(w, p);
      RepBury(old(processArr[..]), families[..], old(lastPID), w, tree, p, ProcessS(NULL, 0, false));
    }

    /** kill */
    method Kill(p: Pid) returns (r: int)
      requires Valid() && (p in tree.procs && p != 0 ==> CanKill(tree, p))
      modifies this, processArr, families, scheduler, scheduler.processTable
      ensures Valid()
      ensures r == (if p == 0 || p !in old(tree).procs then -1 else 0)
      ensures tree == if p == 0 || p !in old(tree).procs then old(tree) else ProcessTree.Kill(old(tree), p)
    {
      ghost var w := tree;
      InRangeKeys(w);
      assert 0 <= p < MAX_PROCESSES ==> SlotMatches(processArr[..][p], w, p);
      if p == 0 || !IsLive(p) {
        return -1;
      }
      AdoptedIsChildless(w, p);
      RemoveChild(p);
      GiveToShell(p);
      Clear(p);
      return 0;
    }

    /** kill_with_children */
    method KillWithChildren(p: Pid) returns (r: int)
      requires Valid() && tree.loose == {}
      modifies this, processArr, families, scheduler, scheduler.processTable
      ensures Valid() && tree.loose == {}
      ensures r == (if p == 0 || p !in old(tree).procs then -1 else 0)
      ensures tree == if p == 0 || p !in old(tree).procs then old(tree) else KillTree(old(tree), p)
    {
      ghost var w := tree;
      InRangeKeys(w);
      assert 0 <= p < MAX_PROCESSES ==> SlotMatches(processArr[..][p], w, p);
      if p == 0 || !IsLive(p) {
        return -1;
      }
      RemoveChild(p);
      KillMarked(p);
      Clear(p);
      return 0;
    }

    /** One turn of the loop of kill_with_children. */
    method KillIfMarked(p: Pid, i: Pid)
      requires Valid() && tree.loose == {p} && p != 0 && 0 <= i < MAX_PROCESSES
      modifies this, processArr, families, scheduler, scheduler.processTable
      ensures Valid() && tree.loose == {p}
      ensures tree == if IsKid(old(tree), i, p) then ProcessTree.Kill(old(tree), i) else old(tree)
    {
      InRangeKeys(tree);
      var marked := IsMarked(p, i);
      if marked {
        KillKid(tree, p, i);
        KidCanBeKilled(tree, p, i);
        var _ := Kill(i);
      }
    }

    /** The loop of kill_with_children. */
    method KillMarked(p: Pid)
      requires Valid() && tree.loose == {p} && p != 0
      modifies this, processArr, families, scheduler, scheduler.processTable
      ensures Valid() && tree == KillKids(old(tree), p, 0)
      ensures tree.loose == {p} && Childless(tree, p)
    {
      ghost var w := tree;
      InRangeKeys(w);
      KillKidsForm(w, p, 0);
      BeheadedIsChildless(w, KillKids(w, p, 0), p);
      var any := HasChildren(p);
      if !any {
        KillNoKids(w, p, 0);
        return;
      }
      var i := 0;
      while i < MAX_PROCESSES
        invariant 0 <= i <= MAX_PROCESSES
        invariant Valid() && tree.loose == {p}
        invariant KillKids(tree, p, i) == KillKids(w, p, 0)
      {
        KillIfMarked(p, i);
        i := i + 1;
      }
    }
  }
}
