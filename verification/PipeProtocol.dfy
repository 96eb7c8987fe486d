/**
 read_from_pipe and write_to_pipe run by any number of processes over one
 pipe, with a possible switch before and after every semaphore call and every
 copied byte.
 */
module PipeProtocol {
  import opened Common
  import opened Semaphores
  import opened Pipes

  // ---- readers and writers ----

  /** Where a process is within one iteration of its loop. */
  datatype Stage = AtTest | AtWait | AtCopy | AtPost

  datatype Call =
    | Reading(want: nat, dest: seq<Byte>, stage: Stage)
    | Writing(src: seq<Byte>, done: nat, stage: Stage)

  /** A byte and the process that put it in, or took it out. */
  datatype Entry = Entry(p: Pid, b: Byte)

  /**
   ring, eof and the two semaphores are the pipe; calls holds the processes
   inside read_from_pipe or write_to_pipe; put and got record every byte
   copied in and out, in order.
   */
  datatype State = State(
    ring: Ring,
    eof: bool,
    readSem: SemState,
    writeSem: SemState,
    calls: map<Pid, Call>,
    put: seq<Entry>,
    got: seq<Entry>
  )

  /** The pipe as open_pipe sets it up: nobody uses it yet. */
  ghost predicate Opens(s: State) {
    && |s.ring.bytes| == PIPE_SIZE && s.ring.readPos == s.ring.writePos == s.ring.amount == 0
    && !s.eof
    && Opened(s.readSem, 0) && Opened(s.writeSem, PIPE_SIZE)
    && s.calls == map[] && s.put == [] && s.got == []
  }

  datatype Event =
    | BeginRead(p: Pid, want: nat)
    | BeginWrite(p: Pid, src: seq<Byte>)
    | Advance(p: Pid)              // the process does its next stage
    | SignalEof

  predicate Enabled(s: State, e: Event) {
    match e
    case BeginRead(p, _) => p < MAX_PROCESSES && p !in s.calls
    case BeginWrite(p, _) => p < MAX_PROCESSES && p !in s.calls
    case Advance(p) => p in s.calls && p !in s.readSem.waiting && p !in s.writeSem.waiting
    case SignalEof => true
  }

  predicate AtEnd(s: State) {
    s.eof && s.ring.amount == 0
  }

  predicate WellFormed(s: State) {
    forall p | p in s.calls && s.calls[p].Writing? && s.calls[p].stage != AtTest :: s.calls[p].done < |s.calls[p].src|
  }

  function Step(s: State, e: Event): State
    requires |s.ring.bytes| == PIPE_SIZE && s.ring.readPos < PIPE_SIZE && s.ring.writePos < PIPE_SIZE
    requires Enabled(s, e)
    requires WellFormed(s)
  {
    match e
    case BeginRead(p, want) => if AtEnd(s) then s else s.(calls := s.calls[p := Reading(want, [], AtTest)])
    case BeginWrite(p, src) => s.(calls := s.calls[p := Writing(src, 0, AtTest)])
    case SignalEof => s.(eof := true)
    case Advance(p) =>
      match s.calls[p]
      case Reading(want, dest, AtTest) =>
        if |dest| < want && !AtEnd(s) then s.(calls := s.calls[p := Reading(want, dest, AtWait)])
        else s.(calls := s.calls - {p})
      case Reading(want, dest, AtWait) =>
        s.(readSem := WaitStep(s.readSem, p),
           calls := s.calls[p := Reading(want, dest, if Passes(s.readSem) then AtCopy else AtWait)])
      case Reading(want, dest, AtCopy) =>
        var b := s.ring.bytes[s.ring.readPos];
        s.(ring := Taken(s.ring), got := s.got + [Entry(p, b)],
           calls := s.calls[p := Reading(want, dest + [b], AtPost)])
      case Reading(want, dest, AtPost) =>
        s.(writeSem := PostStep(s.writeSem), calls := s.calls[p := Reading(want, dest, AtTest)])
      case Writing(src, done, AtTest) =>
        if done < |src| then s.(calls := s.calls[p := Writing(src, done, AtWait)])
        else s.(calls := s.calls - {p})
      case Writing(src, done, AtWait) =>
        s.(writeSem := WaitStep(s.writeSem, p),
           calls := s.calls[p := Writing(src, done, if Passes(s.writeSem) then AtCopy else AtWait)])
      case Writing(src, done, AtCopy) =>
        s.(ring := Put(s.ring, src[done]), put := s.put + [Entry(p, src[done])],
           calls := s.calls[p := Writing(src, done, AtPost)])
      case Writing(src, done, AtPost) =>
        s.(readSem := PostStep(s.readSem), calls := s.calls[p := Writing(src, done + 1, AtTest)])
  }

  // ---- the invariant ----

  function Readers(s: State, stage: Stage): set<Pid> {
    set p | p in s.calls && s.calls[p].Reading? && s.calls[p].stage == stage
  }

  function Writers(s: State, stage: Stage): set<Pid> {
    set p | p in s.calls && s.calls[p].Writing? && s.calls[p].stage == stage
  }

  /** Every unit of either semaphore, every byte and every process between two semaphore calls is accounted for. */
  ghost predicate Balanced(s: State) {
    && s.readSem.value + |Readers(s, AtCopy)| + |Writers(s, AtPost)| == s.ring.amount
    && s.writeSem.value + |Writers(s, AtCopy)| + |Readers(s, AtPost)| == PIPE_SIZE - s.ring.amount
  }

  /** Only a process at its sem_wait is known to the semaphore. */
  ghost predicate QueuesMatch(s: State) {
    && (forall p | p in s.readSem.waiting || p in s.readSem.woken :: p in Readers(s, AtWait))
    && (forall p | p in s.writeSem.waiting || p in s.writeSem.woken :: p in Writers(s, AtWait))
  }

  function Bytes(es: seq<Entry>): seq<Byte> {
    seq(|es|, i requires 0 <= i < |es| => es[i].b)
  }

  /** The bytes taken out, followed by the unread ones, are the bytes put in. */
  ghost predicate InOrder(s: State)
    requires RingInv(s.ring)
  {
    Bytes(s.put) == Bytes(s.got) + Unread(s.ring)
  }

  /** The bytes process p moved, in order. */
  function Of(es: seq<Entry>, p: Pid): seq<Byte> {
    if es == [] then []
    else
      var n := |es| - 1;
      Of(es[..n], p) + (if es[n].p == p then [es[n].b] else [])
  }

  predicate Suffix(a: seq<Byte>, b: seq<Byte>) {
    |a| <= |b| && b[|b| - |a|..] == a
  }

  function Written(c: Call): seq<Byte>
    requires c.Writing? && c.done <= |c.src|
    requires c.stage == AtPost ==> c.done < |c.src|
  {
    if c.stage == AtPost then c.src[..c.done + 1] else c.src[..c.done]
  }

  ghost predicate CallInv(s: State, p: Pid)
    requires p in s.calls
  {
    p < MAX_PROCESSES &&
    match s.calls[p]
    case Reading(want, dest, stage) =>
      && |dest| <= want && (stage in {AtWait, AtCopy} ==> |dest| < want)
      && Suffix(dest, Of(s.got, p))
    case Writing(src, done, stage) =>
      && done <= |src| && (stage != AtTest ==> done < |src|)
      && Suffix(Written(s.calls[p]), Of(s.put, p))
  }

  ghost predicate CallsInv(s: State) {
    forall p {:trigger CallInv(s, p)} | p in s.calls :: CallInv(s, p)
  }

  ghost predicate Inv(s: State) {
    && RingInv(s.ring)
    && SemInv(s.readSem) && SemInv(s.writeSem)
    && Balanced(s)
    && QueuesMatch(s)
    && InOrder(s)
    && CallsInv(s)
  }

  // ---- counting processes ----

  ghost predicate OnlyMoves(s: State, t: State, p: Pid) {
    forall q | q != p :: (q in t.calls <==> q in s.calls) && (q in s.calls ==> t.calls[q] == s.calls[q])
  }

  function One(b: bool): nat {
    if b then 1 else 0
  }

  lemma Recount(a: set<Pid>, b: set<Pid>, p: Pid)
    requires a - {p} == b - {p}
    ensures |b| == |a| - One(p in a) + One(p in b)
  {
    Minus(a, p);
    Minus(b, p);
  }

  lemma Minus(a: set<Pid>, p: Pid)
    ensures |a - {p}| == |a| - One(p in a)
  {
    if p !in a {
      assert a - {p} == a;
    }
  }

  lemma OthersStay(s: State, t: State, p: Pid, stage: Stage)
    requires OnlyMoves(s, t, p)
    ensures Readers(s, stage) - {p} == Readers(t, stage) - {p}
    ensures Writers(s, stage) - {p} == Writers(t, stage) - {p}
  {
  }

  function IsReader(s: State, p: Pid, stage: Stage): bool {
    p in s.calls && s.calls[p].Reading? && s.calls[p].stage == stage
  }

  function IsWriter(s: State, p: Pid, stage: Stage): bool {
    p in s.calls && s.calls[p].Writing? && s.calls[p].stage == stage
  }

  /** If only p moves, the counts change by p's own stages. */
  lemma CountsMove(s: State, t: State, p: Pid, stage: Stage)
    requires OnlyMoves(s, t, p)
    ensures |Readers(t, stage)| == |Readers(s, stage)| - One(IsReader(s, p, stage)) + One(IsReader(t, p, stage))
    ensures |Writers(t, stage)| == |Writers(s, stage)| - One(IsWriter(s, p, stage)) + One(IsWriter(t, p, stage))
  {
    OthersStay(s, t, p, stage);
    Recount(Readers(s, stage), Readers(t, stage), p);
    Recount(Writers(s, stage), Writers(t, stage), p);
  }

  /** How the two sums of Balanced change, in terms of p's stages before and after. */
  lemma BalanceMoves(s: State, t: State, p: Pid)
    requires OnlyMoves(s, t, p) && Balanced(s)
    requires t.readSem.value - s.readSem.value + One(IsReader(t, p, AtCopy)) - One(IsReader(s, p, AtCopy))
               + One(IsWriter(t, p, AtPost)) - One(IsWriter(s, p, AtPost)) == t.ring.amount - s.ring.amount
    requires t.writeSem.value - s.writeSem.value + One(IsWriter(t, p, AtCopy)) - One(IsWriter(s, p, AtCopy))
               + One(IsReader(t, p, AtPost)) - One(IsReader(s, p, AtPost)) == s.ring.amount - t.ring.amount
    ensures Balanced(t)
  {
    CountsMove(s, t, p, AtCopy);
    CountsMove(s, t, p, AtPost);
  }

  lemma OfAppend(es: seq<Entry>, e: Entry, p: Pid)
    ensures Of(es + [e], p) == Of(es, p) + (if e.p == p then [e.b] else [])
  {
    assert (es + [e])[..|es|] == es;
  }

  lemma BytesAppend(es: seq<Entry>, e: Entry)
    ensures Bytes(es + [e]) == Bytes(es) + [e.b]
  {
  }

  /** A unit of the semaphore in front of it is proof that a copy may happen. */
  lemma CopyIsSafe(s: State, p: Pid)
    requires SemInv(s.readSem) && SemInv(s.writeSem) && Balanced(s)
    ensures IsReader(s, p, AtCopy) ==> s.ring.amount > 0
    ensures IsWriter(s, p, AtCopy) ==> s.ring.amount < PIPE_SIZE
  {
    Minus(Readers(s, AtCopy), p);
    Minus(Writers(s, AtCopy), p);
  }

  // ---- one step, part by part ----

  lemma SemsKeep(s: State, e: Event)
    requires RingInv(s.ring) && CallsInv(s) && Enabled(s, e)
    requires SemInv(s.readSem) && SemInv(s.writeSem)
    ensures WellFormed(s)
    ensures SemInv(Step(s, e).readSem) && SemInv(Step(s, e).writeSem)
  {
    CallsWellFormed(s);
    if e.Advance? {
      assert CallInv(s, e.p);
      var c := s.calls[e.p];
      if c.stage == AtWait {
        if c.Reading? {
          WaitKeepsInv(s.readSem, e.p);
        } else {
          WaitKeepsInv(s.writeSem, e.p);
        }
      } else if c.stage == AtPost {
        if c.Reading? {
          PostKeepsInv(s.writeSem);
        } else {
          PostKeepsInv(s.readSem);
        }
      }
    }
  }

  lemma ReadCopyKeepsOrder(s: State, p: Pid)
    requires RingInv(s.ring) && InOrder(s) && WellFormed(s) && Enabled(s, Advance(p))
    requires IsReader(s, p, AtCopy) && s.ring.amount > 0
    ensures RingInv(Step(s, Advance(p)).ring) && InOrder(Step(s, Advance(p)))
  {
    TakenUnread(s.ring);
    BytesAppend(s.got, Entry(p, s.ring.bytes[s.ring.readPos]));
  }

  lemma WriteCopyKeepsOrder(s: State, p: Pid)
    requires RingInv(s.ring) && InOrder(s) && WellFormed(s) && Enabled(s, Advance(p))
    requires IsWriter(s, p, AtCopy) && s.ring.amount < PIPE_SIZE
    ensures RingInv(Step(s, Advance(p)).ring) && InOrder(Step(s, Advance(p)))
  {
    var b := s.calls[p].src[s.calls[p].done];
    PutUnread(s.ring, b);
    BytesAppend(s.put, Entry(p, b));
  }

  lemma RingKeeps(s: State, e: Event)
    requires RingInv(s.ring) && InOrder(s) && WellFormed(s) && Enabled(s, e)
    requires SemInv(s.readSem) && SemInv(s.writeSem) && Balanced(s)
    ensures RingInv(Step(s, e).ring) && InOrder(Step(s, e))
  {
    if e.Advance? && s.calls[e.p].stage == AtCopy {
      CopyIsSafe(s, e.p);
      if s.calls[e.p].Reading? {
        ReadCopyKeepsOrder(s, e.p);
      } else {
        WriteCopyKeepsOrder(s, e.p);
      }
    }
  }

  lemma SameCounts(s: State, t: State)
    requires t.calls == s.calls && t.ring == s.ring && t.readSem == s.readSem && t.writeSem == s.writeSem && Balanced(s)
    ensures Balanced(t)
  {
    forall stage ensures Readers(t, stage) == Readers(s, stage) && Writers(t, stage) == Writers(s, stage) {
    }
  }

  lemma ReaderBalance(s: State, p: Pid)
    requires RingInv(s.ring) && WellFormed(s) && Balanced(s) && Enabled(s, Advance(p)) && s.calls[p].Reading?
    ensures Balanced(Step(s, Advance(p)))
  {
    BalanceMoves(s, Step(s, Advance(p)), p);
  }

  lemma WriterBalance(s: State, p: Pid)
    requires RingInv(s.ring) && WellFormed(s) && Balanced(s) && Enabled(s, Advance(p)) && s.calls[p].Writing?
    ensures Balanced(Step(s, Advance(p)))
  {
    BalanceMoves(s, Step(s, Advance(p)), p);
  }

  lemma BalanceKeeps(s: State, e: Event)
    requires RingInv(s.ring) && WellFormed(s) && Balanced(s) && Enabled(s, e)
    ensures Balanced(Step(s, e))
  {
    match e
    case Advance(p) =>
      if s.calls[p].Reading? {
        ReaderBalance(s, p);
      } else {
        WriterBalance(s, p);
      }
    case BeginRead(p, _) =>
      if AtEnd(s) {
      } else {
        BalanceMoves(s, Step(s, e), p);
      }
    case BeginWrite(p, _) => BalanceMoves(s, Step(s, e), p);
    case SignalEof => SameCounts(s, Step(s, e));
  }

  lemma ReaderKeepsQueues(s: State, p: Pid)
    requires RingInv(s.ring) && WellFormed(s) && QueuesMatch(s) && Enabled(s, Advance(p)) && s.calls[p].Reading?
    ensures QueuesMatch(Step(s, Advance(p)))
  {
    var t := Step(s, Advance(p));
    WokenWereWaiting(s.writeSem);
    forall q | q in t.readSem.waiting || q in t.readSem.woken ensures IsReader(t, q, AtWait) {
      assert q in s.readSem.waiting || q in s.readSem.woken ==> q in Readers(s, AtWait);
    }
    forall q | q in t.writeSem.waiting || q in t.writeSem.woken ensures IsWriter(t, q, AtWait) {
      assert q in Writers(s, AtWait);
    }
  }

  lemma WriterKeepsQueues(s: State, p: Pid)
    requires RingInv(s.ring) && WellFormed(s) && QueuesMatch(s) && Enabled(s, Advance(p)) && s.calls[p].Writing?
    ensures QueuesMatch(Step(s, Advance(p)))
  {
    var t := Step(s, Advance(p));
    WokenWereWaiting(s.readSem);
    forall q | q in t.readSem.waiting || q in t.readSem.woken ensures IsReader(t, q, AtWait) {
      assert q in Readers(s, AtWait);
    }
    forall q | q in t.writeSem.waiting || q in t.writeSem.woken ensures IsWriter(t, q, AtWait) {
      assert q in s.writeSem.waiting || q in s.writeSem.woken ==> q in Writers(s, AtWait);
    }
  }

  lemma QueuesKeep(s: State, e: Event)
    requires RingInv(s.ring) && WellFormed(s) && QueuesMatch(s) && Enabled(s, e)
    ensures QueuesMatch(Step(s, e))
  {
    if e.Advance? {
      if s.calls[e.p].Reading? {
        ReaderKeepsQueues(s, e.p);
      } else {
        WriterKeepsQueues(s, e.p);
      }
    } else {
      BeginKeepsQueues(s, e);
    }
  }

  lemma BeginKeepsQueues(s: State, e: Event)
    requires RingInv(s.ring) && WellFormed(s) && QueuesMatch(s) && Enabled(s, e) && !e.Advance?
    ensures QueuesMatch(Step(s, e))
  {
  }

  lemma WokenWereWaiting(s: SemState)
    ensures forall p | p in PostStep(s).waiting || p in PostStep(s).woken :: p in s.waiting || p in s.woken
  {
    if s.waiting != [] {
      assert s.waiting[0] in s.waiting;
      assert s.waiting == [s.waiting[0]] + s.waiting[1..];
    }
  }

  lemma CallsWellFormed(s: State)
    requires CallsInv(s)
    ensures WellFormed(s)
  {
    forall p | p in s.calls && s.calls[p].Writing? && s.calls[p].stage != AtTest
      ensures s.calls[p].done < |s.calls[p].src|
    {
      assert CallInv(s, p);
    }
  }

  lemma CallsKeep(s: State, e: Event)
    requires RingInv(s.ring) && CallsInv(s) && Enabled(s, e)
    ensures WellFormed(s) && CallsInv(Step(s, e))
  {
    CallsWellFormed(s);
    var t := Step(s, e);
    forall p | p in t.calls ensures CallInv(t, p) {
      if e.Advance? && p == e.p {
        OwnCallKeeps(s, p);
      } else if p in s.calls {
        OtherCallKeeps(s, e, p);
      }
    }
  }

  /** Only a copy is recorded. */
  lemma RecordsMove(s: State, e: Event)
    requires RingInv(s.ring) && WellFormed(s) && Enabled(s, e)
    ensures var t := Step(s, e); var copies := e.Advance? && s.calls[e.p].stage == AtCopy;
            && t.got == (if copies && s.calls[e.p].Reading? then s.got + [Entry(e.p, s.ring.bytes[s.ring.readPos])] else s.got)
            && t.put == (if copies && s.calls[e.p].Writing? then s.put + [Entry(e.p, s.calls[e.p].src[s.calls[e.p].done])] else s.put)
  {
  }

  lemma OtherCallStays(s: State, e: Event, p: Pid)
    requires RingInv(s.ring) && WellFormed(s) && Enabled(s, e) && p in s.calls
    requires e.Advance? ==> e.p != p
    ensures p in Step(s, e).calls && Step(s, e).calls[p] == s.calls[p]
  {
  }

  lemma CallInvFrame(s: State, t: State, p: Pid)
    requires p in s.calls && p in t.calls && CallInv(s, p) && t.calls[p] == s.calls[p]
    requires Of(t.got, p) == Of(s.got, p) && Of(t.put, p) == Of(s.put, p)
    ensures CallInv(t, p)
  {
  }

  lemma OtherCallKeeps(s: State, e: Event, p: Pid)
    requires RingInv(s.ring) && CallsInv(s) && WellFormed(s) && Enabled(s, e) && p in s.calls
    requires e.Advance? ==> e.p != p
    ensures p in Step(s, e).calls && CallInv(Step(s, e), p)
  {
    assert CallInv(s, p);
    OtherCallStays(s, e, p);
    RecordsMove(s, e);
    if e.Advance? && s.calls[e.p].stage == AtCopy {
      var c := s.calls[e.p];
      if c.Reading? {
        OfAppend(s.got, Entry(e.p, s.ring.bytes[s.ring.readPos]), p);
      } else {
        OfAppend(s.put, Entry(e.p, c.src[c.done]), p);
      }
    }
    CallInvFrame(s, Step(s, e), p);
  }

  lemma OwnCallKeeps(s: State, p: Pid)
    requires RingInv(s.ring) && CallsInv(s) && WellFormed(s) && Enabled(s, Advance(p))
    requires p in Step(s, Advance(p)).calls
    ensures CallInv(Step(s, Advance(p)), p)
  {
    assert CallInv(s, p);
    var c := s.calls[p];
    if c.stage == AtCopy {
      if c.Reading? {
        ReadCopyKeeps(s, p);
      } else {
        WriteCopyKeeps(s, p);
      }
    } else if c.Reading? {
      assert Suffix(c.dest, Of(s.got, p));
    } else {
      assert Suffix(Written(c), Of(s.put, p));
      if c.stage == AtPost {
        assert Written(Step(s, Advance(p)).calls[p]) == Written(c);
      }
    }
  }

  lemma ReadCopyKeeps(s: State, p: Pid)
    requires RingInv(s.ring) && WellFormed(s) && Enabled(s, Advance(p))
    requires CallInv(s, p) && s.calls[p].Reading? && s.calls[p].stage == AtCopy
    ensures CallInv(Step(s, Advance(p)), p)
  {
    var b := s.ring.bytes[s.ring.readPos];
    OfAppend(s.got, Entry(p, b), p);
    SuffixAppend(s.calls[p].dest, Of(s.got, p), b);
  }

  lemma WriteCopyKeeps(s: State, p: Pid)
    requires RingInv(s.ring) && WellFormed(s) && Enabled(s, Advance(p))
    requires CallInv(s, p) && s.calls[p].Writing? && s.calls[p].stage == AtCopy
    ensures CallInv(Step(s, Advance(p)), p)
  {
    var c := s.calls[p];
    var b := c.src[c.done];
    OfAppend(s.put, Entry(p, b), p);
    SuffixAppend(c.src[..c.done], Of(s.put, p), b);
    OneMore(c.src, c.done);
  }

  lemma OneMore(src: seq<Byte>, n: nat)
    requires n < |src|
    ensures src[..n + 1] == src[..n] + [src[n]]
  {
  }

  lemma SuffixAppend(a: seq<Byte>, b: seq<Byte>, x: Byte)
    requires Suffix(a, b)
    ensures Suffix(a + [x], b + [x])
  {
  }

  lemma StepKeepsInv(s: State, e: Event)
    requires Inv(s) && Enabled(s, e)
    ensures WellFormed(s) && Inv(Step(s, e))
  {
    SemsKeep(s, e);
    RingKeeps(s, e);
    BalanceKeeps(s, e);
    QueuesKeep(s, e);
    CallsKeep(s, e);
  }

  // ---- whole runs ----

  /** t is reached from s by the events es, in some interleaving of the processes. */
  ghost predicate Reaches(s: State, es: seq<Event>, t: State)
    requires Inv(s)
    decreases |es|
  {
    if es == [] then t == s
    else Enabled(s, es[0]) && (StepKeepsInv(s, es[0]); Reaches(Step(s, es[0]), es[1..], t))
  }

  lemma {:induction false} ReachableInv(s: State, es: seq<Event>, t: State)
    requires Inv(s) && Reaches(s, es, t)
    ensures Inv(t)
    decreases |es|
  {
    if es != [] {
      StepKeepsInv(s, es[0]);
      ReachableInv(Step(s, es[0]), es[1..], t);
    }
  }

  lemma OpensInv(s: State)
    requires Opens(s)
    ensures Inv(s)
  {
    forall stage ensures Readers(s, stage) == {} && Writers(s, stage) == {} {
    }
  }

  lemma TakenIsPrefix(t: State)
    requires RingInv(t.ring) && InOrder(t)
    ensures Bytes(t.got) <= Bytes(t.put) && |t.put| - |t.got| == t.ring.amount
    ensures t.ring.amount > 0 ==> |t.got| < |t.put| && t.ring.bytes[t.ring.readPos] == t.put[|t.got|].b
  {
    assert |Bytes(t.put)| == |t.put| && |Bytes(t.got)| == |t.got| && |Unread(t.ring)| == t.ring.amount;
    if t.ring.amount > 0 {
      assert Unread(t.ring)[0] == Bytes(t.put)[|t.got|];
    }
  }

  lemma FreeSlot(r: Ring)
    requires RingInv(r) && r.amount < PIPE_SIZE
    ensures forall i | 0 <= i < r.amount :: Slot(r.readPos, i) != r.writePos
  {
  }

  /**
   Under every interleaving of any readers and writers, the bytes taken out are
   a prefix of the bytes put in, and the units of the two semaphores and the
   processes in flight balance to PIPE_SIZE.
   */
  lemma PipeIsFifo(s: State, es: seq<Event>, t: State)
    requires Opens(s) && (OpensInv(s); Reaches(s, es, t))
    ensures Bytes(t.got) <= Bytes(t.put)
    ensures |t.put| - |t.got| == t.ring.amount
    ensures t.readSem.value + t.writeSem.value + |Readers(t, AtCopy)| + |Readers(t, AtPost)|
              + |Writers(t, AtCopy)| + |Writers(t, AtPost)| == PIPE_SIZE
  {
    OpensInv(s);
    ReachableInv(s, es, t);
    TakenIsPrefix(t);
  }

  /**
   A reader about to copy finds the oldest byte not taken out yet, and a
   writer about to copy finds a slot that holds no unread byte.
   */
  lemma CopiesHitTheRightSlot(s: State, es: seq<Event>, t: State, p: Pid)
    requires Opens(s) && (OpensInv(s); Reaches(s, es, t))
    ensures RingInv(t.ring)
    ensures IsReader(t, p, AtCopy) ==> |t.got| < |t.put| && t.ring.bytes[t.ring.readPos] == t.put[|t.got|].b
    ensures IsWriter(t, p, AtCopy) ==> forall i | 0 <= i < t.ring.amount :: Slot(t.ring.readPos, i) != t.ring.writePos
  {
    OpensInv(s);
    ReachableInv(s, es, t);
    CopyIsSafe(t, p);
    TakenIsPrefix(t);
    if t.ring.amount < PIPE_SIZE {
      FreeSlot(t.ring);
    }
  }

  /**
   What a call moves: the buffer a reader has filled is what it itself took
   out, and the part of its buffer a writer is done with is what it itself put
   in, in order and without gaps.
   */
  lemma CallsMoveTheirBytes(s: State, es: seq<Event>, t: State, p: Pid)
    requires Opens(s) && (OpensInv(s); Reaches(s, es, t)) && p in t.calls
    ensures t.calls[p].Reading? ==> |t.calls[p].dest| <= t.calls[p].want && Suffix(t.calls[p].dest, Of(t.got, p))
    ensures t.calls[p].Writing? ==> t.calls[p].done <= |t.calls[p].src|
    ensures t.calls[p].Writing? && t.calls[p].stage != AtPost ==>
              Suffix(t.calls[p].src[..t.calls[p].done], Of(t.put, p))
  {
    OpensInv(s);
    ReachableInv(s, es, t);
    assert CallInv(t, p);
  }

  // ---- a call from its begin to its end ----

  /** p stays inside one call all along the run. */
  ghost predicate StaysIn(s: State, es: seq<Event>, p: Pid)
    requires Inv(s)
    decreases |es|
  {
    && p in s.calls
    && (es != [] && Enabled(s, es[0]) ==> (StepKeepsInv(s, es[0]); StaysIn(Step(s, es[0]), es[1..], p)))
  }

  /** What p had moved before its call, and what the call has moved so far, make what p has moved. */
  ghost predicate Moved(s: State, p: Pid, before: seq<Byte>)
    requires p in s.calls && CallInv(s, p)
  {
    match s.calls[p]
    case Reading(_, dest, _) => Of(s.got, p) == before + dest
    case Writing(_, _, _) => Of(s.put, p) == before + Written(s.calls[p])
  }

  /** Two states of the same call. */
  predicate SameCall(c: Call, d: Call) {
    && (c.Reading? <==> d.Reading?)
    && (c.Reading? ==> c.want == d.want)
    && (c.Writing? ==> c.src == d.src)
  }

  lemma CopyMoves(s: State, p: Pid, before: seq<Byte>)
    requires Inv(s) && WellFormed(s) && Enabled(s, Advance(p)) && s.calls[p].stage == AtCopy
    requires CallInv(s, p) && Moved(s, p, before)
    ensures var t := Step(s, Advance(p));
            p in t.calls && SameCall(s.calls[p], t.calls[p]) && CallInv(t, p) && Moved(t, p, before)
  {
    OwnCallKeeps(s, p);
    var c := s.calls[p];
    if c.Reading? {
      OfAppend(s.got, Entry(p, s.ring.bytes[s.ring.readPos]), p);
    } else {
      OfAppend(s.put, Entry(p, c.src[c.done]), p);
      OneMore(c.src, c.done);
    }
  }

  lemma OwnMoves(s: State, p: Pid, before: seq<Byte>)
    requires Inv(s) && WellFormed(s) && Enabled(s, Advance(p)) && s.calls[p].stage != AtCopy
    requires CallInv(s, p) && Moved(s, p, before)
    ensures var t := Step(s, Advance(p));
            p in t.calls ==> SameCall(s.calls[p], t.calls[p]) && CallInv(t, p) && Moved(t, p, before)
  {
    if p in Step(s, Advance(p)).calls {
      OwnCallKeeps(s, p);
    }
  }

  lemma OthersMove(s: State, e: Event, p: Pid, before: seq<Byte>)
    requires Inv(s) && WellFormed(s) && Enabled(s, e) && p in s.calls && (e.Advance? ==> e.p != p)
    requires CallInv(s, p) && Moved(s, p, before)
    ensures var t := Step(s, e);
            p in t.calls && t.calls[p] == s.calls[p] && CallInv(t, p) && Moved(t, p, before)
  {
    OtherCallStays(s, e, p);
    OtherCallKeeps(s, e, p);
    RecordsMove(s, e);
    if e.Advance? && s.calls[e.p].stage == AtCopy {
      var c := s.calls[e.p];
      if c.Reading? {
        OfAppend(s.got, Entry(e.p, s.ring.bytes[s.ring.readPos]), p);
      } else {
        OfAppend(s.put, Entry(e.p, c.src[c.done]), p);
      }
    }
  }

  lemma StepMoves(s: State, e: Event, p: Pid, before: seq<Byte>)
    requires Inv(s) && WellFormed(s) && Enabled(s, e) && p in s.calls
    requires CallInv(s, p) && Moved(s, p, before)
    ensures var t := Step(s, e);
            p in t.calls ==> SameCall(s.calls[p], t.calls[p]) && CallInv(t, p) && Moved(t, p, before)
  {
    if e.Advance? && e.p == p {
      if s.calls[p].stage == AtCopy {
        CopyMoves(s, p, before);
      } else {
        OwnMoves(s, p, before);
      }
    } else {
      OthersMove(s, e, p, before);
    }
  }

  lemma {:induction false} RunMoves(s: State, es: seq<Event>, t: State, p: Pid, before: seq<Byte>)
    requires Inv(s) && Reaches(s, es, t) && StaysIn(s, es, p)
    requires CallInv(s, p) && Moved(s, p, before)
    ensures p in t.calls && SameCall(s.calls[p], t.calls[p]) && CallInv(t, p) && Moved(t, p, before)
    decreases |es|
  {
    if es != [] {
      StepKeepsInv(s, es[0]);
      StepMoves(s, es[0], p, before);
      RunMoves(Step(s, es[0]), es[1..], t, p, before);
    }
  }

  /** p is about to return from its call. */
  predicate Returns(s: State, p: Pid)
    requires |s.ring.bytes| == PIPE_SIZE && s.ring.readPos < PIPE_SIZE && s.ring.writePos < PIPE_SIZE
    requires WellFormed(s)
  {
    Enabled(s, Advance(p)) && p !in Step(s, Advance(p)).calls
  }

  lemma ReturnsAtTest(t: State, p: Pid)
    requires Inv(t) && WellFormed(t) && p in t.calls && CallInv(t, p)
    ensures Returns(t, p) <==> match t.calls[p]
              case Reading(want, dest, stage) => stage == AtTest && (|dest| == want || AtEnd(t))
              case Writing(src, done, stage) => stage == AtTest && done == |src|
  {
    if t.calls[p].stage == AtTest {
      assert p !in Readers(t, AtWait) && p !in Writers(t, AtWait);
    }
  }

  lemma WholeBuffer(before: seq<Byte>, src: seq<Byte>, n: nat)
    requires n <= |src|
    ensures before <= before + src[..n] <= before + src
    ensures before + src[..n] == before + src <==> n == |src|
  {
    assert |before + src[..n]| == |before| + n;
    assert before + src == before + src[..n] + src[n..];
  }

  lemma WriterReturns(t: State, p: Pid, before: seq<Byte>)
    requires Inv(t) && WellFormed(t) && p in t.calls && CallInv(t, p) && t.calls[p].Writing? && Moved(t, p, before)
    ensures before <= Of(t.put, p) <= before + t.calls[p].src
    ensures Returns(t, p) <==> t.calls[p].stage == AtTest && Of(t.put, p) == before + t.calls[p].src
  {
    var c := t.calls[p];
    ReturnsAtTest(t, p);
    WholeBuffer(before, c.src, if c.stage == AtPost then c.done + 1 else c.done);
  }

  lemma ReaderReturns(t: State, p: Pid, before: seq<Byte>)
    requires Inv(t) && WellFormed(t) && p in t.calls && CallInv(t, p) && t.calls[p].Reading? && Moved(t, p, before)
    ensures Returns(t, p) <==>
              && t.calls[p].stage == AtTest
              && (|Of(t.got, p)| == |before| + t.calls[p].want || (t.eof && |t.put| == |t.got|))
  {
    ReturnsAtTest(t, p);
    TakenIsPrefix(t);
  }

  /** p, in no call in state a, begins one by e, and after `more` events it is still inside, in state t. */
  ghost predicate Inside(a: State, e: Event, more: seq<Event>, t: State, p: Pid)
    requires Inv(a)
  {
    && Enabled(a, e)
    && (StepKeepsInv(a, e); Reaches(Step(a, e), more, t) && StaysIn(Step(a, e), more, p))
  }

  /**
   A write puts bytes of its buffer only, in order, and returns exactly when it
   tests its count with the whole buffer put.
   */
  lemma WritePutsItsBuffer(a: State, p: Pid, src: seq<Byte>, more: seq<Event>, t: State)
    requires Inv(a) && Inside(a, BeginWrite(p, src), more, t, p)
    ensures Inv(t) && WellFormed(t) && p in t.calls
    ensures Of(a.put, p) <= Of(t.put, p) <= Of(a.put, p) + src
    ensures Returns(t, p) <==> t.calls[p].stage == AtTest && Of(t.put, p) == Of(a.put, p) + src
  {
    var e := BeginWrite(p, src);
    StepKeepsInv(a, e);
    var b := Step(a, e);
    assert CallInv(b, p) && Moved(b, p, Of(a.put, p));
    ReachableInv(b, more, t);
    RunMoves(b, more, t, p, Of(a.put, p));
    CallsWellFormed(t);
    WriterReturns(t, p, Of(a.put, p));
  }

  /**
   A read fills its buffer with what it takes, and returns exactly when it
   tests its count with `want` bytes taken, or with the pipe at its end.
   */
  lemma ReadFillsItsBuffer(a: State, p: Pid, want: nat, more: seq<Event>, t: State)
    requires Inv(a) && Inside(a, BeginRead(p, want), more, t, p)
    ensures Inv(t) && WellFormed(t) && p in t.calls && t.calls[p].Reading?
    ensures Of(t.got, p) == Of(a.got, p) + t.calls[p].dest && |t.calls[p].dest| <= want
    ensures Returns(t, p) <==>
              && t.calls[p].stage == AtTest
              && (|Of(t.got, p)| == |Of(a.got, p)| + want || (t.eof && |t.put| == |t.got|))
  {
    var e := BeginRead(p, want);
    StepKeepsInv(a, e);
    var b := Step(a, e);
    assert CallInv(b, p) && Moved(b, p, Of(a.got, p));
    ReachableInv(b, more, t);
    RunMoves(b, more, t, p, Of(a.got, p));
    CallsWellFormed(t);
    ReaderReturns(t, p, Of(a.got, p));
  }

  /** A read is turned away exactly at the end of the pipe; a write never is. */
  lemma BeginsExactlyWhen(s: State, p: Pid, want: nat, src: seq<Byte>)
    requires Inv(s) && WellFormed(s) && Enabled(s, BeginRead(p, want))
    ensures p in Step(s, BeginRead(p, want)).calls <==> !(s.eof && |s.put| == |s.got|)
    ensures p in Step(s, BeginWrite(p, src)).calls
  {
    TakenIsPrefix(s);
  }

  ghost predicate Parked(s: State, p: Pid) {
    p in s.readSem.waiting || p in s.writeSem.waiting
  }

  /**
   A pipe cannot deadlock by itself: when every process inside it is blocked,
   either all are readers of an empty pipe or all are writers of a full one.
   */
  lemma StuckOnOneSideOnly(s: State, es: seq<Event>, t: State, p: Pid)
    requires Opens(s) && (OpensInv(s); Reaches(s, es, t))
    requires p in t.calls && forall q {:trigger Parked(t, q)} | q in t.calls :: Parked(t, q)
    ensures t.calls[p].Reading? ==> t.ring.amount == 0 && forall q | q in t.calls :: t.calls[q].Reading?
    ensures t.calls[p].Writing? ==> t.ring.amount == PIPE_SIZE && forall q | q in t.calls :: t.calls[q].Writing?
  {
    OpensInv(s);
    ReachableInv(s, es, t);
    NobodyBetween(t);
    NobodyWoken(t);
    forall q | q in t.calls
      ensures t.calls[q].Reading? ==> t.ring.amount == 0
      ensures t.calls[q].Writing? ==> t.ring.amount == PIPE_SIZE
    {
      assert Parked(t, q);
      assert q in t.readSem.waiting ==> q in Readers(t, AtWait);
      assert q in t.writeSem.waiting ==> q in Writers(t, AtWait);
    }
  }

  lemma NobodyBetween(t: State)
    requires QueuesMatch(t) && forall q {:trigger Parked(t, q)} | q in t.calls :: Parked(t, q)
    ensures forall stage | stage != AtWait :: Readers(t, stage) == {} && Writers(t, stage) == {}
  {
    forall stage | stage != AtWait ensures Readers(t, stage) == {} && Writers(t, stage) == {} {
      forall q | q in t.calls ensures t.calls[q].stage == AtWait {
        assert Parked(t, q);
        assert q in t.readSem.waiting ==> q in Readers(t, AtWait);
        assert q in t.writeSem.waiting ==> q in Writers(t, AtWait);
      }
    }
  }

  lemma NobodyWoken(t: State)
    requires QueuesMatch(t) && SemInv(t.readSem) && SemInv(t.writeSem)
    requires forall q {:trigger Parked(t, q)} | q in t.calls :: Parked(t, q)
    ensures t.readSem.woken == {} && t.writeSem.woken == {}
  {
    if t.readSem.woken != {} {
      var q :| q in t.readSem.woken;
      WokenNotParked(t, q);
      assert false;
    }
    if t.writeSem.woken != {} {
      var q :| q in t.writeSem.woken;
      WokenNotParked(t, q);
      assert false;
    }
  }

  lemma WokenNotParked(t: State, q: Pid)
    requires QueuesMatch(t) && SemInv(t.readSem) && SemInv(t.writeSem)
    requires q in t.readSem.woken || q in t.writeSem.woken
    ensures q in t.calls && !Parked(t, q)
  {
    assert q in t.readSem.woken || q in t.readSem.waiting ==> q in Readers(t, AtWait);
    assert q in t.writeSem.woken || q in t.writeSem.waiting ==> q in Writers(t, AtWait);
  }
}
