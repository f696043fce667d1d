/**
 One scheduler queue shared by any number of cores, step by step: a spin lock taken by test-and-set,
 the statements of the tail-queue macros one at a time, and a look at the element count outside the
 lock. Memory is sequentially consistent. Every interleaving of these steps behaves like a queue
 whose operations are atomic.
 */
module SchedProtocol {
  import opened Sequences
  import opened TailQueue

  /** What a finished call returns. */
  datatype Result = Scheduled | Got(process: nat) | Empty

  /** Where a core is in `keScheduleProc` or `keDequeueProc`; each value names the next step. */
  datatype Pc =
    | Idle
    | EnqLock(p: nat) | EnqNext(p: nat) | EnqPrev(p: nat) | EnqStore(p: nat) | EnqLast(p: nat) | EnqCount(p: nat) | EnqUnlock
    | DeqCheck | DeqLock | DeqFirst | DeqNone | DeqPass(p: nat) | DeqStore(p: nat) | DeqCount(p: nat) | DeqUnlock(p: nat)
    | Done(result: Result)

  /**
   The queue's words, its lock and the cores. The last three are history: the queue as it would be
   with atomic operations, and everything ever put in and taken out.
   */
  datatype State = State(q: Links, nelem: nat, lock: bool, pcs: seq<Pc>, content: seq<nat>, entered: seq<nat>, left: seq<nat>)

  datatype Move = StartEnqueue(core: nat, p: nat) | StartDequeue(core: nat) | Run(core: nat)

  function Goto(s: State, core: nat, pc: Pc): State
    requires core < |s.pcs|
  {
    s.(pcs := s.pcs[core := pc])
  }

  /** The next step of a core. */
  function StepOf(s: State, core: nat): State
    requires core < |s.pcs|
  {
    match s.pcs[core]
    case Idle => s
    case EnqLock(p) => if s.lock then s else Goto(s, core, EnqNext(p)).(lock := true)
    case EnqNext(p) => Goto(s, core, EnqPrev(p)).(q := s.q.(next := s.q.next[p := 0]))
    case EnqPrev(p) => Goto(s, core, EnqStore(p)).(q := s.q.(prev := s.q.prev[p := s.q.last]))
    case EnqStore(p) => Goto(s, core, EnqLast(p)).(q := Store(s.q, s.q.last, p))
    case EnqLast(p) => Goto(s, core, EnqCount(p)).(q := s.q.(last := NextOf(p)))
    case EnqCount(p) =>
      Goto(s, core, EnqUnlock).(nelem := s.nelem + 1, content := s.content + [p], entered := s.entered + [p])
    case EnqUnlock => Goto(s, core, Done(Scheduled)).(lock := false)
    case DeqCheck => Goto(s, core, if s.nelem == 0 then Done(Empty) else DeqLock)
    case DeqLock => if s.lock then s else Goto(s, core, DeqFirst).(lock := true)
    case DeqFirst => Goto(s, core, if s.q.first == 0 then DeqNone else DeqPass(s.q.first))
    case DeqNone => Goto(s, core, Done(Empty)).(lock := false)
    case DeqPass(p) => Goto(s, core, DeqStore(p)).(q := PassBack(s.q, p))
    case DeqStore(p) => Goto(s, core, DeqCount(p)).(q := Store(s.q, Prev(s.q, p), Next(s.q, p)))
    case DeqCount(p) =>
      Goto(s, core, DeqUnlock(p)).(nelem := if s.nelem > 0 then s.nelem - 1 else 0,
                                 content := if s.content == [] then [] else s.content[1..], left := s.left + [p])
    case DeqUnlock(p) => Goto(s, core, Done(Got(p))).(lock := false)
    case Done(_) => Goto(s, core, Idle)
  }

  /** The core holds the lock. */
  predicate Inside(pc: Pc) {
    pc.EnqNext? || pc.EnqPrev? || pc.EnqStore? || pc.EnqLast? || pc.EnqCount? || pc.EnqUnlock?
    || pc.DeqFirst? || pc.DeqNone? || pc.DeqPass? || pc.DeqStore? || pc.DeqCount? || pc.DeqUnlock?
  }

  /** The core is putting in a process that is not in the queue yet. */
  predicate Bringing(pc: Pc) {
    pc.EnqLock? || pc.EnqNext? || pc.EnqPrev? || pc.EnqStore? || pc.EnqLast? || pc.EnqCount?
  }

  /** Callers put in a process only when it is in no queue and nobody else is putting it in. */
  predicate MayEnqueue(s: State, p: nat) {
    p != 0 && p !in s.content && forall c :: 0 <= c < |s.pcs| && Bringing(s.pcs[c]) ==> s.pcs[c].p != p
  }

  predicate Allowed(s: State, m: Move) {
    match m
    case StartEnqueue(core, p) => core < |s.pcs| && s.pcs[core] == Idle && MayEnqueue(s, p)
    case StartDequeue(core) => core < |s.pcs| && s.pcs[core] == Idle
    case Run(core) => core < |s.pcs|
  }

  function Apply(s: State, m: Move): State
    requires Allowed(s, m)
  {
    match m
    case StartEnqueue(core, p) => Goto(s, core, EnqLock(p))
    case StartDequeue(core) => Goto(s, core, DeqCheck)
    case Run(core) => StepOf(s, core)
  }

  // ----- The invariant

  /** What the pointers look like while a core is at `pc`, relative to the atomic queue. */
  ghost predicate Stage(q: Links, content: seq<nat>, pc: Pc) {
    match pc
    case EnqNext(p) => Rep(q, content)
    case EnqPrev(p) => Rep(q, content) && Next(q, p) == 0
    case EnqStore(p) => Prepared(q, content, p)
    case EnqLast(p) => TailStored(q, content, p)
    case EnqCount(p) => Rep(q, content + [p])
    case DeqNone => Rep(q, content) && content == []
    case DeqPass(p) => Rep(q, content) && content != [] && content[0] == p
    case DeqStore(p) => content != [] && content[0] == p && PassedBack(q, content, 0)
    case DeqCount(p) => content != [] && content[0] == p && Rep(q, Without(content, 0))
    case _ => Rep(q, content)
  }

  /** The lock is held by exactly one core when it is held, and by none otherwise. */
  predicate Exclusive(lock: bool, pcs: seq<Pc>) {
    && (forall c, d :: 0 <= c < |pcs| && 0 <= d < |pcs| && Inside(pcs[c]) && Inside(pcs[d]) ==> c == d)
    && (lock <==> exists c :: 0 <= c < |pcs| && Inside(pcs[c]))
  }

  /** The processes being put in are all different and not in the queue. */
  predicate Distinct(pcs: seq<Pc>, content: seq<nat>) {
    && (forall c :: 0 <= c < |pcs| && Bringing(pcs[c]) ==> pcs[c].p != 0 && pcs[c].p !in content)
    && (forall c, d :: 0 <= c < |pcs| && 0 <= d < |pcs| && c != d && Bringing(pcs[c]) && Bringing(pcs[d]) ==> pcs[c].p != pcs[d].p)
  }

  ghost predicate Inv(s: State) {
    && Exclusive(s.lock, s.pcs) && Distinct(s.pcs, s.content)
    && s.nelem == |s.content| && IsList(s.content)
    && s.entered == s.left + s.content
    && (forall c :: 0 <= c < |s.pcs| && Inside(s.pcs[c]) ==> Stage(s.q, s.content, s.pcs[c]))
    && (!s.lock ==> Rep(s.q, s.content))
  }

  /** A core moves on without taking or giving up the lock, and brings nothing new. */
  lemma SameSide(pcs: seq<Pc>, lock: bool, content: seq<nat>, c: nat, pc: Pc)
    requires c < |pcs| && Exclusive(lock, pcs) && Distinct(pcs, content)
    requires Inside(pc) == Inside(pcs[c]) && (Bringing(pc) ==> Bringing(pcs[c]) && pc.p == pcs[c].p)
    ensures Exclusive(lock, pcs[c := pc]) && Distinct(pcs[c := pc], content)
  {
    var pcs' := pcs[c := pc];
    if lock {
      var d :| 0 <= d < |pcs| && Inside(pcs[d]);
      assert Inside(pcs'[d]);
    }
  }

  /** A core takes the free lock. */
  lemma TakeLock(pcs: seq<Pc>, content: seq<nat>, c: nat, pc: Pc)
    requires c < |pcs| && Exclusive(false, pcs) && Distinct(pcs, content)
    requires Inside(pc) && (Bringing(pc) ==> Bringing(pcs[c]) && pc.p == pcs[c].p)
    ensures Exclusive(true, pcs[c := pc]) && Distinct(pcs[c := pc], content)
  {
    var pcs' := pcs[c := pc];
    assert Inside(pcs'[c]);
    assert forall d :: 0 <= d < |pcs| && d != c ==> pcs'[d] == pcs[d] && !Inside(pcs[d]);
  }

  /** The core that holds the lock gives it up. */
  lemma GiveLock(pcs: seq<Pc>, content: seq<nat>, c: nat, pc: Pc)
    requires c < |pcs| && Exclusive(true, pcs) && Distinct(pcs, content) && Inside(pcs[c]) && !Inside(pc) && !Bringing(pc)
    ensures Exclusive(false, pcs[c := pc]) && Distinct(pcs[c := pc], content)
  {
    var pcs' := pcs[c := pc];
    assert forall d :: 0 <= d < |pcs| && d != c ==> pcs'[d] == pcs[d] && !Inside(pcs[d]);
  }

  /** While a core holds the lock no other core's stage depends on the pointers. */
  lemma OnlyStage(pcs: seq<Pc>, q: Links, content: seq<nat>, c: nat)
    requires c < |pcs| && Exclusive(true, pcs) && Inside(pcs[c]) && Stage(q, content, pcs[c])
    ensures forall d :: 0 <= d < |pcs| && Inside(pcs[d]) ==> Stage(q, content, pcs[d])
  {}

  lemma HolderLocks(s: State, c: nat)
    requires Inv(s) && c < |s.pcs| && Inside(s.pcs[c])
    ensures s.lock && Stage(s.q, s.content, s.pcs[c])
  {}

  /** Steps inside the critical section that only write pointers. */
  lemma PointerStep(s: State, c: nat, q: Links, pc: Pc)
    requires Inv(s) && c < |s.pcs| && Inside(s.pcs[c]) && Inside(pc) && (Bringing(pc) ==> Bringing(s.pcs[c]) && pc.p == s.pcs[c].p)
    requires Stage(q, s.content, pc)
    ensures Inv(Goto(s, c, pc).(q := q))
  {
    HolderLocks(s, c);
    hide Stage;
    hide Rep;
    SameSide(s.pcs, s.lock, s.content, c, pc);
    OnlyStage(s.pcs[c := pc], q, s.content, c);
    hide Exclusive;
    hide Distinct;
  }

  /** A step of a core outside the lock that touches nothing. */
  lemma OutsideStep(s: State, c: nat, pc: Pc)
    requires Inv(s) && c < |s.pcs| && !Inside(s.pcs[c]) && !Inside(pc) && (Bringing(pc) ==> Bringing(s.pcs[c]) && pc.p == s.pcs[c].p)
    ensures Inv(Goto(s, c, pc))
  {
    SameSide(s.pcs, s.lock, s.content, c, pc);
    hide Stage;
    hide Rep;
    hide Exclusive;
    hide Distinct;
  }

  lemma LockStep(s: State, c: nat, pc: Pc)
    requires Inv(s) && c < |s.pcs| && !s.lock && (pc.DeqFirst? || (pc.EnqNext? && s.pcs[c] == EnqLock(pc.p)))
    ensures Inv(Goto(s, c, pc).(lock := true))
  {
    TakeLock(s.pcs, s.content, c, pc);
    hide Rep;
    assert Stage(s.q, s.content, pc);
    OnlyStage(s.pcs[c := pc], s.q, s.content, c);
    hide Stage;
    hide Exclusive;
    hide Distinct;
  }

  lemma UnlockStep(s: State, c: nat, r: Result)
    requires Inv(s) && c < |s.pcs| && (s.pcs[c].EnqUnlock? || s.pcs[c].DeqNone? || s.pcs[c].DeqUnlock?)
    ensures Inv(Goto(s, c, Done(r)).(lock := false))
  {
    HolderLocks(s, c);
    hide Rep;
    assert Rep(s.q, s.content);
    GiveLock(s.pcs, s.content, c, Done(r));
    hide Stage;
    hide Distinct;
  }

  /** `++nelem`, the moment at which the process is in the queue. */
  lemma EnterStep(s: State, c: nat, p: nat)
    requires Inv(s) && c < |s.pcs| && s.pcs[c] == EnqCount(p)
    ensures Inv(StepOf(s, c))
  {
    HolderLocks(s, c);
    hide Rep;
    var more := s.content + [p];
    EnteredDistinct(s.pcs, s.lock, s.content, c, p);
    OnlyStage(s.pcs[c := EnqUnlock], s.q, more, c);
    MoreIsList(s.q, more);
    hide Stage;
    hide Exclusive;
    hide Distinct;
  }

  lemma MoreIsList(q: Links, s: seq<nat>)
    requires Rep(q, s)
    ensures IsList(s)
  {}

  lemma EnteredDistinct(pcs: seq<Pc>, lock: bool, content: seq<nat>, c: nat, p: nat)
    requires c < |pcs| && Exclusive(lock, pcs) && Distinct(pcs, content) && pcs[c] == EnqCount(p)
    ensures Exclusive(lock, pcs[c := EnqUnlock]) && Distinct(pcs[c := EnqUnlock], content + [p])
  {
    SameSide(pcs, lock, content, c, EnqUnlock);
  }

  lemma LeaveStage(q: Links, content: seq<nat>, p: nat)
    requires Stage(q, content, DeqCount(p))
    ensures content != [] && content == [p] + content[1..] && Rep(q, content[1..]) && IsList(content[1..])
    ensures Stage(q, content[1..], DeqUnlock(p))
  {
    hide Rep;
    hide Without;
    hide PassedBack;
    WithoutFirst(content);
    MoreIsList(q, content[1..]);
  }

  lemma WithoutFirst(s: seq<nat>)
    requires s != []
    ensures Without(s, 0) == s[1..]
  {}

  /** `--nelem`, the moment at which the process has left the queue. */
  lemma LeaveStep(s: State, c: nat, p: nat)
    requires Inv(s) && c < |s.pcs| && s.pcs[c] == DeqCount(p)
    ensures Inv(StepOf(s, c))
  {
    hide Rep;
    hide Stage;
    hide Exclusive;
    hide Distinct;
    HolderLocks(s, c);
    LeaveStage(s.q, s.content, p);
    LeftDistinct(s.pcs, s.lock, s.content, c, DeqUnlock(p));
    OnlyStage(s.pcs[c := DeqUnlock(p)], s.q, s.content[1..], c);
    assert s.left + s.content == s.left + [p] + s.content[1..];
  }

  lemma LeftDistinct(pcs: seq<Pc>, lock: bool, content: seq<nat>, c: nat, pc: Pc)
    requires c < |pcs| && Exclusive(lock, pcs) && Distinct(pcs, content) && pcs[c].DeqCount? && pc.DeqUnlock? && content != []
    ensures Exclusive(lock, pcs[c := pc]) && Distinct(pcs[c := pc], content[1..])
  {
    SameSide(pcs, lock, content, c, pc);
    assert forall x :: x in content[1..] ==> x in content;
  }

  /** Every step of every core keeps the invariant. */
  lemma RunKeeps(s: State, c: nat)
    requires Inv(s) && c < |s.pcs|
    ensures Inv(StepOf(s, c))
  {
    hide Inv;
    hide Rep;
    hide Prepared;
    hide TailStored;
    hide PassedBack;
    if Inside(s.pcs[c]) {
      HolderLocks(s, c);
    }
    match s.pcs[c]
    case Idle =>
    case EnqLock(p) => if !s.lock { LockStep(s, c, EnqNext(p)); }
    case EnqNext(p) =>
      BroughtNew(s, c);
      PrepareStep(s.q, s.content, p);
      PointerStep(s, c, s.q.(next := s.q.next[p := 0]), EnqPrev(p));
    case EnqPrev(p) =>
      BroughtNew(s, c);
      PrevStep(s.q, s.content, p);
      PointerStep(s, c, s.q.(prev := s.q.prev[p := s.q.last]), EnqStore(p));
    case EnqStore(p) =>
      StoreStep(s.q, s.content, p);
      PointerStep(s, c, Store(s.q, s.q.last, p), EnqLast(p));
    case EnqLast(p) =>
      LastStep(s.q, s.content, p);
      PointerStep(s, c, s.q.(last := NextOf(p)), EnqCount(p));
    case EnqCount(p) => EnterStep(s, c, p);
    case EnqUnlock => UnlockStep(s, c, Scheduled);
    case DeqCheck => OutsideStep(s, c, if s.nelem == 0 then Done(Empty) else DeqLock);
    case DeqLock => if !s.lock { LockStep(s, c, DeqFirst); }
    case DeqFirst =>
      FirstIs(s.q, s.content);
      PointerStep(s, c, s.q, if s.q.first == 0 then DeqNone else DeqPass(s.q.first));
    case DeqNone => UnlockStep(s, c, Empty);
    case DeqPass(p) =>
      PassBackStep(s.q, s.content, 0);
      PointerStep(s, c, PassBack(s.q, p), DeqStore(p));
    case DeqStore(p) =>
      UnlinkStep(s.q, s.content, 0);
      PointerStep(s, c, Store(s.q, Prev(s.q, p), Next(s.q, p)), DeqCount(p));
    case DeqCount(p) => LeaveStep(s, c, p);
    case DeqUnlock(p) => UnlockStep(s, c, Got(p));
    case Done(_) => OutsideStep(s, c, Idle);
  }

  lemma BroughtNew(s: State, c: nat)
    requires Inv(s) && c < |s.pcs| && Bringing(s.pcs[c])
    ensures s.pcs[c].p != 0 && s.pcs[c].p !in s.content
  {}

  lemma PrevStep(q: Links, s: seq<nat>, p: nat)
    requires Rep(q, s) && p != 0 && p !in s && Next(q, p) == 0
    ensures Prepared(q.(prev := q.prev[p := q.last]), s, p)
  {
    var q1 := q.(prev := q.prev[p := q.last]);
    forall i | 0 <= i < |s| ensures Next(q1, s[i]) == Next(q, s[i]) && Prev(q1, s[i]) == Prev(q, s[i]) {}
  }

  lemma FirstIs(q: Links, s: seq<nat>)
    requires Rep(q, s)
    ensures if q.first == 0 then s == [] else s != [] && s[0] == q.first
  {}

  lemma StartKeeps(s: State, m: Move)
    requires Inv(s) && Allowed(s, m) && !m.Run?
    ensures Inv(Apply(s, m))
  {
    match m
    case StartDequeue(c) => OutsideStep(s, c, DeqCheck);
    case StartEnqueue(c, p) =>
      StartDistinct(s.pcs, s.lock, s.content, c, p);
      hide Stage;
      hide Rep;
      hide Exclusive;
      hide Distinct;
  }

  lemma StartDistinct(pcs: seq<Pc>, lock: bool, content: seq<nat>, c: nat, p: nat)
    requires c < |pcs| && Exclusive(lock, pcs) && Distinct(pcs, content) && pcs[c] == Idle && p != 0 && p !in content
    requires forall d :: 0 <= d < |pcs| && Bringing(pcs[d]) ==> pcs[d].p != p
    ensures Exclusive(lock, pcs[c := EnqLock(p)]) && Distinct(pcs[c := EnqLock(p)], content)
  {
    var pcs' := pcs[c := EnqLock(p)];
    if lock {
      var d :| 0 <= d < |pcs| && Inside(pcs[d]);
      assert Inside(pcs'[d]);
    }
  }

  // ----- Calls and the moment at which each takes effect

  datatype Op = Enqueue(process: nat) | Dequeue

  /** How far a core's call has come: its answer is fixed from the moment it takes effect. */
  datatype Phase = NoCall | Pending(op: Op) | Answered(result: Result)

  function PhaseOf(pc: Pc): Phase {
    match pc
    case Idle => NoCall
    case EnqLock(p) => Pending(Enqueue(p))
    case EnqNext(p) => Pending(Enqueue(p))
    case EnqPrev(p) => Pending(Enqueue(p))
    case EnqStore(p) => Pending(Enqueue(p))
    case EnqLast(p) => Pending(Enqueue(p))
    case EnqCount(p) => Pending(Enqueue(p))
    case EnqUnlock => Answered(Scheduled)
    case DeqNone => Answered(Empty)
    case DeqUnlock(p) => Answered(Got(p))
    case Done(r) => Answered(r)
    case _ => Pending(Dequeue)
  }

  function OpOf(m: Move): Op {
    match m
    case StartEnqueue(_, p) => Enqueue(p)
    case _ => Dequeue
  }

  /** What an atomic queue does for an operation and answers to it. */
  predicate QueueStep(content: seq<nat>, content': seq<nat>, op: Op, r: Result) {
    match op
    case Enqueue(p) => r == Scheduled && content' == content + [p]
    case Dequeue =>
      if content == [] then r == Empty && content' == [] else r == Got(content[0]) && content' == content[1..]
  }

  /** This move is the one at which the call of core `c` takes effect. */
  predicate Acts(s: State, m: Move, c: nat) {
    && m == Run(c) && c < |s.pcs| && PhaseOf(s.pcs[c]).Pending?
    && c < |StepOf(s, c).pcs| && PhaseOf(StepOf(s, c).pcs[c]).Answered?
  }

  /** A move of any core, seen from core `c`: its call starts, goes on, takes effect or keeps its answer. */
  lemma PhaseStep(s: State, m: Move, c: nat)
    requires Allowed(s, m) && c < |s.pcs|
    ensures var t := Apply(s, m);
            && |t.pcs| == |s.pcs|
            && (PhaseOf(s.pcs[c]).Pending? && !Acts(s, m, c) ==> PhaseOf(t.pcs[c]) == PhaseOf(s.pcs[c]))
            && (Acts(s, m, c) ==> PhaseOf(s.pcs[c]).Pending? && PhaseOf(t.pcs[c]).Answered?)
            && (PhaseOf(s.pcs[c]).Answered? && PhaseOf(t.pcs[c]) != NoCall ==> PhaseOf(t.pcs[c]) == PhaseOf(s.pcs[c]))
            && (PhaseOf(s.pcs[c]).Answered? ==> !Acts(s, m, c))
            && (m.core == c && !m.Run? ==> PhaseOf(t.pcs[c]) == Pending(OpOf(m)))
  {
    hide StepOf;
    hide MayEnqueue;
    hide PhaseOf;
    if m.Run? && m.core == c {
      OwnStep(s, c);
    } else if m.Run? {
      OtherStep(s, m.core, c);
    } else {
      StartPhases(m);
    }
  }

  lemma StartPhases(m: Move)
    ensures PhaseOf(Idle) == NoCall
    ensures m.StartEnqueue? ==> PhaseOf(EnqLock(m.p)) == Pending(OpOf(m))
    ensures m.StartDequeue? ==> PhaseOf(DeqCheck) == Pending(OpOf(m))
  {}

  /** The phase goes from pending to answered to none and never changes what is pending or answered. */
  ghost predicate Onward(a: Phase, b: Phase) {
    match a
    case NoCall => b == NoCall
    case Pending(_) => b == a || b.Answered?
    case Answered(_) => b == a || b == NoCall
  }

  lemma OwnStep(s: State, c: nat)
    requires c < |s.pcs|
    ensures |StepOf(s, c).pcs| == |s.pcs|
    ensures Onward(PhaseOf(s.pcs[c]), PhaseOf(StepOf(s, c).pcs[c]))
  {
    if PhaseOf(s.pcs[c]) == Pending(Dequeue) {
      DequeueStep(s, c);
    } else {
      EnqueueStep(s, c);
    }
    hide StepOf;
    hide PhaseOf;
  }

  lemma EnqueueStep(s: State, c: nat)
    requires c < |s.pcs| && PhaseOf(s.pcs[c]) != Pending(Dequeue)
    ensures |StepOf(s, c).pcs| == |s.pcs|
    ensures Onward(PhaseOf(s.pcs[c]), PhaseOf(StepOf(s, c).pcs[c]))
  {
    hide PassBack;
    hide Store;
    hide Prev;
    hide Next;
  }

  lemma DequeueStep(s: State, c: nat)
    requires c < |s.pcs| && PhaseOf(s.pcs[c]) == Pending(Dequeue)
    ensures |StepOf(s, c).pcs| == |s.pcs|
    ensures Onward(PhaseOf(s.pcs[c]), PhaseOf(StepOf(s, c).pcs[c]))
  {
    hide PassBack;
    hide Store;
    hide Prev;
    hide Next;
  }

  lemma OtherStep(s: State, d: nat, c: nat)
    requires c < |s.pcs| && d < |s.pcs| && c != d
    ensures |StepOf(s, d).pcs| == |s.pcs| && StepOf(s, d).pcs[c] == s.pcs[c]
  {
    hide PassBack;
    hide Store;
    hide Prev;
    hide Next;
  }

  /** A call that takes effect does to the queue, and answers, what an atomic queue would. */
  lemma EffectIsAtomic(s: State, m: Move, c: nat)
    requires Inv(s) && Allowed(s, m) && Acts(s, m, c)
    ensures var t := Apply(s, m);
            && c < |s.pcs| == |t.pcs| && PhaseOf(s.pcs[c]).Pending? && PhaseOf(t.pcs[c]).Answered?
            && QueueStep(s.content, t.content, PhaseOf(s.pcs[c]).op, PhaseOf(t.pcs[c]).result)
  {
    hide Rep;
    hide Exclusive;
    hide Distinct;
    hide PassBack;
    hide Store;
    hide Prev;
    hide Next;
    if Inside(s.pcs[c]) {
      HolderLocks(s, c);
      if s.pcs[c].DeqFirst? {
        FirstIs(s.q, s.content);
      }
    }
  }

  // ----- All interleavings

  /** The states of a run of any number of cores from an empty queue on. */
  ghost predicate IsRun(states: seq<State>, moves: seq<Move>) {
    && |states| == |moves| + 1
    && states[0] == State(Links(0, First, map[], map[]), 0, false, seq(|states[0].pcs|, _ => Idle), [], [], [])
    && forall i :: 0 <= i < |moves| ==> Allowed(states[i], moves[i]) && states[i + 1] == Apply(states[i], moves[i])
  }

  lemma InitialInv(cores: nat)
    ensures Inv(State(Links(0, First, map[], map[]), 0, false, seq(cores, _ => Idle), [], [], []))
  {}

  lemma {:induction false} RunsKeepInv(states: seq<State>, moves: seq<Move>, i: nat)
    requires IsRun(states, moves) && i < |states|
    ensures Inv(states[i])
    decreases i
  {
    hide Inv;
    hide StepOf;
    if i == 0 {
      InitialInv(|states[0].pcs|);
    } else {
      RunsKeepInv(states, moves, i - 1);
      match moves[i - 1]
      case Run(c) => RunKeeps(states[i - 1], c);
      case _ => StartKeeps(states[i - 1], moves[i - 1]);
    }
  }

  /** What one move does to the atomic queue: nothing, put one process at its end, or take the one at its front. */
  ghost predicate Atomic(s: State, m: Move, t: State) {
    || (t.content == s.content && t.entered == s.entered && t.left == s.left)
    || (m.Run? && m.core < |s.pcs| && s.pcs[m.core].EnqCount?
        && t.content == s.content + [s.pcs[m.core].p] && t.entered == s.entered + [s.pcs[m.core].p] && t.left == s.left)
    || (m.Run? && m.core < |s.pcs| && s.pcs[m.core].DeqCount?
        && s.content == [s.pcs[m.core].p] + t.content && t.left == s.left + [s.pcs[m.core].p] && t.entered == s.entered)
  }

  /** An answer that the queue is empty comes straight from a moment at which it is, lock or no lock. */
  ghost predicate EmptyIsTrue(s: State, t: State, c: nat) {
    c < |s.pcs| == |t.pcs| && (t.pcs[c] == DeqNone || (t.pcs[c] == Done(Empty) && s.pcs[c] == DeqCheck)) && t.pcs[c] != s.pcs[c] ==>
      s.content == []
  }

  lemma MoveIsAtomic(s: State, m: Move)
    requires Inv(s) && Allowed(s, m)
    ensures Atomic(s, m, Apply(s, m)) && EmptyIsTrue(s, Apply(s, m), m.core)
    ensures !Acts(s, m, m.core) ==> Apply(s, m).content == s.content
  {
    hide Rep;
    hide Exclusive;
    hide Distinct;
    hide PassBack;
    hide Store;
    hide Prev;
    hide Next;
    if m.Run? && Inside(s.pcs[m.core]) {
      HolderLocks(s, m.core);
      if s.pcs[m.core].DeqFirst? {
        FirstIs(s.q, s.content);
      }
      assert s.pcs[m.core].DeqCount? ==> s.content == [s.content[0]] + s.content[1..];
    }
  }

  /** Core `c` starts a call at move `i` and has not finished it in state `j`. */
  ghost predicate InCall(states: seq<State>, moves: seq<Move>, c: nat, i: nat, j: nat) {
    && i < j < |states| && i < |moves| && !moves[i].Run? && moves[i].core == c
    && (forall k :: i < k <= j ==> c < |states[k].pcs| && PhaseOf(states[k].pcs[c]) != NoCall)
  }

  /** Core `c` takes effect at move `k` and at no other between `i` and `j`. */
  ghost predicate EffectAt(states: seq<State>, moves: seq<Move>, c: nat, i: nat, j: nat, k: nat) {
    && i < k < j < |states| && j <= |moves| && Acts(states[k], moves[k], c)
    && forall l :: i < l < j && Acts(states[l], moves[l], c) ==> l == k
  }

  /**
   Between `i` and `j` the call of core `c` took effect in exactly one move, as an operation `op` of an
   atomic queue answered with `r`.
   */
  ghost predicate TookEffect(states: seq<State>, moves: seq<Move>, c: nat, i: nat, j: nat, op: Op, r: Result) {
    exists k: nat :: EffectAt(states, moves, c, i, j, k) && QueueStep(states[k].content, states[k + 1].content, op, r)
  }

  lemma EffectNow(states: seq<State>, moves: seq<Move>, c: nat, i: nat, j: nat, op: Op, r: Result)
    requires i < j < |states| && j + 1 < |states| && j < |moves| && Acts(states[j], moves[j], c)
    requires forall l :: i < l < j ==> !Acts(states[l], moves[l], c)
    requires QueueStep(states[j].content, states[j + 1].content, op, r)
    ensures TookEffect(states, moves, c, i, j + 1, op, r)
  {
    hide Acts;
    hide QueueStep;
    assert EffectAt(states, moves, c, i, j + 1, j);
  }

  lemma EffectBefore(states: seq<State>, moves: seq<Move>, c: nat, i: nat, j: nat, op: Op, r: Result)
    requires TookEffect(states, moves, c, i, j, op, r) && j + 1 < |states| && j < |moves| && !Acts(states[j], moves[j], c)
    ensures TookEffect(states, moves, c, i, j + 1, op, r)
  {
    hide Acts;
    hide QueueStep;
    var k: nat :| EffectAt(states, moves, c, i, j, k) && QueueStep(states[k].content, states[k + 1].content, op, r);
    assert EffectAt(states, moves, c, i, j + 1, k);
  }

  /**
   Every call takes effect in exactly one move, between its start and its answer, and both what that
   move does to the queue and the answer are those of an atomic queue.
   */
  lemma {:induction false} OneEffectPerCall(states: seq<State>, moves: seq<Move>, c: nat, i: nat, j: nat)
    requires IsRun(states, moves) && InCall(states, moves, c, i, j)
    ensures match PhaseOf(states[j].pcs[c])
            case NoCall => false
            case Pending(op) => op == OpOf(moves[i]) && forall l :: i < l < j ==> !Acts(states[l], moves[l], c)
            case Answered(r) => TookEffect(states, moves, c, i, j, OpOf(moves[i]), r)
    decreases j
  {
    hide Inv;
    hide Acts;
    hide Apply;
    hide PhaseOf;
    hide OpOf;
    hide QueueStep;
    hide TookEffect;
    var s, m := states[j - 1], moves[j - 1];
    RunsKeepInv(states, moves, j - 1);
    assert Allowed(s, m) && states[j] == Apply(s, m);
    CoresStay(s, m);
    PhaseStep(s, m, c);
    if j > i + 1 {
      OneEffectPerCall(states, moves, c, i, j - 1);
      if Acts(s, m, c) {
        EffectIsAtomic(s, m, c);
        EffectNow(states, moves, c, i, j - 1, OpOf(moves[i]), PhaseOf(states[j].pcs[c]).result);
      } else if PhaseOf(s.pcs[c]).Answered? {
        EffectBefore(states, moves, c, i, j - 1, OpOf(moves[i]), PhaseOf(s.pcs[c]).result);
      }
    }
  }

  lemma CoresStay(s: State, m: Move)
    requires Allowed(s, m)
    ensures m.core < |s.pcs| == |Apply(s, m).pcs|
  {}

  /** Every call answered in state `i` took effect in exactly one move. */
  ghost predicate AnsweredAtomically(states: seq<State>, moves: seq<Move>, i: nat) {
    forall c: nat, j: nat :: InCall(states, moves, c, j, i) && PhaseOf(states[i].pcs[c]).Answered? ==>
      TookEffect(states, moves, c, j, i, OpOf(moves[j]), PhaseOf(states[i].pcs[c]).result)
  }

  lemma AllAnsweredAtomically(states: seq<State>, moves: seq<Move>, i: nat)
    requires IsRun(states, moves)
    ensures AnsweredAtomically(states, moves, i)
  {
    hide TookEffect;
    hide IsRun;
    forall c: nat, j: nat | InCall(states, moves, c, j, i) && PhaseOf(states[i].pcs[c]).Answered?
      ensures TookEffect(states, moves, c, j, i, OpOf(moves[j]), PhaseOf(states[i].pcs[c]).result)
    {
      OneEffectPerCall(states, moves, c, j, i);
    }
  }

  /**
   In every state of every interleaving: at most one core is inside the critical section; whenever
   the lock is free the pointers and the count represent the queue; what went in is what came out,
   in the same order, followed by what is still there; every move is atomic; "empty" is never answered
   wrongly; and every answered call took effect in exactly one move, as an operation of an atomic queue.
   */
  lemma Linearizable(states: seq<State>, moves: seq<Move>, i: nat)
    requires IsRun(states, moves) && i < |states|
    ensures var s := states[i];
            && (forall c, d :: 0 <= c < |s.pcs| && 0 <= d < |s.pcs| && Inside(s.pcs[c]) && Inside(s.pcs[d]) ==> c == d)
            && (!s.lock ==> Rep(s.q, s.content)) && s.nelem == |s.content|
            && s.entered == s.left + s.content && NoDuplicates(s.content)
    ensures i < |moves| ==> Atomic(states[i], moves[i], states[i + 1]) && EmptyIsTrue(states[i], states[i + 1], moves[i].core)
    ensures i < |moves| && !Acts(states[i], moves[i], moves[i].core) ==> states[i + 1].content == states[i].content
    ensures AnsweredAtomically(states, moves, i)
  {
    RunsKeepInv(states, moves, i);
    if i < |moves| {
      MoveIsAtomic(states[i], moves[i]);
    }
    AllAnsweredAtomically(states, moves, i);
    hide AnsweredAtomically;
    hide Acts;
    hide StepOf;
    hide Atomic;
    hide EmptyIsTrue;
    hide Stage;
    hide Rep;
  }
}
