/**
 The timer switch of one core and the arbiter that spreads processes over cores.
 */
module Scheduler {
  import Digits
  import opened TailQueue

  /** What a trap saves and restores. */
  type Frame = seq<nat>

  class Core {
    /** The running process, 0 for none. */
    var curProc: nat
    const queue: Queue
    /** The frame saved in each process control block. */
    var saved: map<nat, Frame>

    constructor ()
      ensures Valid() && Order() == [] && fresh(queue)
    {
      curProc := 0;
      queue := new Queue();
      saved := map[];
    }

    ghost predicate Valid()
      reads this, queue
    {
      queue.Valid() && curProc !in queue.elems && forall p :: p in queue.elems ==> p in saved
    }

    /** The processes of this core in the order in which they run. */
    ghost function Order(): seq<nat>
      reads this, queue
    {
      (if curProc == 0 then [] else [curProc]) + queue.elems
    }

    /**
     `halSchedSwitch`: the interrupted process goes to the back with its frame saved, and the process
     then at the front goes on with the frame it was saved with.
     */
    method SchedSwitch(frame: Frame) returns (live: Frame)
      requires Valid()
      modifies this, queue
      ensures Valid()
      ensures var t := Tick(State(old(curProc), old(queue.elems), old(saved)), frame);
              State(curProc, queue.elems, saved) == t.state && live == t.live
    {
      live := frame;
      var self := curProc;
      if self != 0 {
        var status := queue.ScheduleProc(self);
        if status != Success {
          return;
        }
        saved := saved[self := frame];
      }
      var status, next := queue.DequeueProc();
      if status != Success {
        return;
      }
      live := saved[next];
      curProc := next;
    }
  }

  // ----- The switch as a function, and what a run of ticks does

  datatype State = State(cur: nat, waiting: seq<nat>, saved: map<nat, Frame>)
  datatype Switched = Switched(state: State, live: Frame)

  /** Every process that waits has a frame to go on with, and no process is there twice. */
  ghost predicate Sound(s: State) {
    IsList(Row(s)) && forall p :: p in s.waiting ==> p in s.saved
  }

  /** The processes in the order in which they run. */
  ghost function Row(s: State): seq<nat> {
    (if s.cur == 0 then [] else [s.cur]) + s.waiting
  }

  /** One timer interrupt that finds the frame `frame`. */
  ghost function Tick(s: State, frame: Frame): Switched {
    var waiting := if s.cur == 0 then s.waiting else s.waiting + [s.cur];
    var saved := if s.cur == 0 then s.saved else s.saved[s.cur := frame];
    if waiting == [] then Switched(s, frame)
    else
      Switched(State(waiting[0], waiting[1..], saved), if waiting[0] in saved then saved[waiting[0]] else frame)
  }

  /** The state after the ticks that found `frames`. */
  ghost function Ticks(s: State, frames: seq<Frame>): State
    decreases |frames|
  {
    if frames == [] then s else Tick(Ticks(s, frames[..|frames| - 1]), frames[|frames| - 1]).state
  }

  /** A row of processes after `k` of them have gone to the back. */
  ghost function Rotated(row: seq<nat>, k: nat): seq<nat>
    requires k <= |row|
  {
    row[k..] + row[..k]
  }

  lemma TickRotates(s: State, frame: Frame)
    requires Sound(s) && s.cur != 0
    ensures var t := Tick(s, frame).state;
            && Sound(t) && t.cur != 0 && Row(t) == Row(s)[1..] + [Row(s)[0]]
            && (forall p :: p in s.waiting ==> t.saved[p] == s.saved[p]) && s.cur in t.saved && t.saved[s.cur] == frame
    ensures Tick(s, frame).live == Tick(s, frame).state.saved[Row(Tick(s, frame).state)[0]]
  {
    var row := Row(s);
    var t := Tick(s, frame).state;
    assert Row(t) == row[1..] + [row[0]];
    assert s.waiting == row[1..];
    RotatedIsList(row, 1);
    assert Rotated(row, 1) == row[1..] + [row[0]];
  }

  lemma RotatedIsList(row: seq<nat>, k: nat)
    requires IsList(row) && k <= |row|
    ensures IsList(Rotated(row, k)) && forall p :: p in Rotated(row, k) <==> p in row
  {
    var r := Rotated(row, k);
    forall i | 0 <= i < |r| ensures r[i] == row[if i < |row| - k then i + k else i - (|row| - k)] {}
    forall p | p in row ensures p in r {
      var i :| 0 <= i < |row| && row[i] == p;
      assert r[if i >= k then i - k else i + |row| - k] == p;
    }
  }

  lemma RotatedNone(row: seq<nat>)
    ensures Rotated(row, 0) == row
  {}

  lemma RotateOnce(row: seq<nat>, k: nat)
    requires k < |row|
    ensures var r := Rotated(row, k); r[1..] + [r[0]] == Rotated(row, k + 1)
  {}

  /** The first `n` of `row` have the frames they were interrupted with; the others, the first aside, still theirs. */
  ghost predicate Interrupted(row: seq<nat>, n: nat, frames: seq<Frame>, was: map<nat, Frame>, now: map<nat, Frame>) {
    forall i {:trigger row[i]} :: 0 <= i < |row| ==>
      if i < n && i < |frames| then row[i] in now && now[row[i]] == frames[i]
      else i > 0 ==> row[i] in was && row[i] in now && now[row[i]] == was[row[i]]
  }

  lemma NobodyInterrupted(s: State)
    requires Sound(s)
    ensures Interrupted(Row(s), 0, [], s.saved, s.saved)
  {}

  lemma OneInterrupted(row: seq<nat>, frames: seq<Frame>, was: map<nat, Frame>, now: map<nat, Frame>)
    requires 0 < |frames| <= |row| && IsList(row)
    requires var k := |frames| - 1; Interrupted(row, k, frames[..k], was, now)
    ensures var k := |frames| - 1; Interrupted(row, k + 1, frames, was, now[row[k] := frames[k]])
  {}

  /**
   After `k` ticks, up to one round, the row has been rotated by `k`, so that the k-th process is
   running; whoever has been interrupted has its frame saved, whoever has not still has the old one.
   */
  lemma {:induction false} WithinRound(s: State, frames: seq<Frame>)
    requires Sound(s) && s.cur != 0 && |frames| <= |Row(s)|
    ensures var t := Ticks(s, frames);
            && Sound(t) && t.cur != 0 && Row(t) == Rotated(Row(s), |frames|)
            && Interrupted(Row(s), |frames|, frames, s.saved, t.saved)
    decreases |frames|
  {
    hide *;
    var row := Row(s);
    if frames == [] {
      RotatedNone(row);
      NobodyInterrupted(s);
      NoTicks(s);
    } else {
      var k := |frames| - 1;
      var u := Ticks(s, frames[..k]);
      WithinRound(s, frames[..k]);
      LastTick(s, frames);
      TickRotates(u, frames[k]);
      RotateOnce(row, k);
      RotatedFirst(row, k);
      CurIsFirst(u);
      RowIsList(s);
      OneInterrupted(row, frames, s.saved, u.saved);
      TickSaves(u, frames[k]);
    }
  }

  lemma RowIsList(s: State)
    requires Sound(s)
    ensures IsList(Row(s))
  {}

  lemma NoTicks(s: State)
    ensures Ticks(s, []) == s
  {}

  lemma LastTick(s: State, frames: seq<Frame>)
    requires frames != []
    ensures var k := |frames| - 1; Ticks(s, frames) == Tick(Ticks(s, frames[..k]), frames[k]).state
  {}

  lemma RotatedFirst(row: seq<nat>, k: nat)
    requires k < |row|
    ensures |Rotated(row, k)| == |row| && Rotated(row, k)[0] == row[k]
  {}

  lemma TickSaves(s: State, frame: Frame)
    requires s.cur != 0
    ensures Tick(s, frame).state.saved == s.saved[s.cur := frame]
  {}

  /** While the round is on, somebody else is running. */
  lemma InBetween(s: State, frames: seq<Frame>, k: nat)
    requires Sound(s) && s.cur != 0 && 0 < k < |Row(s)| && k <= |frames|
    ensures Ticks(s, frames[..k]).cur == Row(s)[k] != s.cur
  {
    WithinRound(s, frames[..k]);
    hide Ticks;
    assert Row(Ticks(s, frames[..k]))[0] == Row(s)[k];
    assert Row(s)[0] == s.cur;
  }

  /**
   After exactly one round, and not before, every process of the core runs again where it was
   interrupted: the process running at the start is back with the frame the first tick found, and
   the row is as it was.
   */
  lemma BackAfterOneRound(s: State, frames: seq<Frame>)
    requires Sound(s) && s.cur != 0 && |frames| == |Row(s)|
    ensures var t := Ticks(s, frames);
            var last := Tick(Ticks(s, frames[..|frames| - 1]), frames[|frames| - 1]);
            && Row(t) == Row(s) && t.cur == s.cur && last.state == t && last.live == frames[0]
    ensures forall k :: 0 < k < |frames| ==> Ticks(s, frames[..k]).cur == Row(s)[k] != s.cur
  {
    hide Tick;
    hide Sound;
    var n := |frames|;
    WithinRound(s, frames);
    assert Rotated(Row(s), n) == Row(s);
    WithinRound(s, frames[..n - 1]);
    TickRotates(Ticks(s, frames[..n - 1]), frames[n - 1]);
    assert Row(s)[0] == s.cur;
    forall k | 0 < k < n ensures Ticks(s, frames[..k]).cur == Row(s)[k] != s.cur {
      InBetween(s, frames, k);
    }
  }

  lemma {:induction false} TicksInTwo(s: State, a: seq<Frame>, b: seq<Frame>)
    ensures Ticks(s, a + b) == Ticks(Ticks(s, a), b)
    decreases |b|
  {
    hide Tick;
    if b == [] {
      assert a + b == a;
    } else {
      var n := |b| - 1;
      TicksInTwo(s, a, b[..n]);
      assert (a + b)[..|a + b| - 1] == a + b[..n];
    }
  }

  /** One step further round a ring of `n`. */
  lemma NextTurn(k: nat, n: nat)
    requires n > 0
    ensures (k + 1) % n == if k % n + 1 == n then 0 else k % n + 1
  {
    var q, r := k / n, k % n;
    if r + 1 == n {
      assert k + 1 == (q + 1) * n + 0;
      Digits.DivModUnique(n, q + 1, 0);
    } else {
      assert k + 1 == q * n + (r + 1);
      Digits.DivModUnique(n, q, r + 1);
    }
  }

  lemma RotateOn(row: seq<nat>, k: nat)
    requires row != []
    ensures var r := Rotated(row, k % |row|); r[1..] + [r[0]] == Rotated(row, (k + 1) % |row|)
  {
    NextTurn(k, |row|);
    RotateOnce(row, k % |row|);
    RotatedNone(row);
    assert Rotated(row, |row|) == row;
  }

  lemma {:induction false} RowRotates(s: State, frames: seq<Frame>)
    requires Sound(s) && s.cur != 0
    ensures var t := Ticks(s, frames);
            Sound(t) && t.cur != 0 && Row(t) == Rotated(Row(s), |frames| % |Row(s)|)
    decreases |frames|
  {
    hide Tick;
    hide Sound;
    hide Rotated;
    if frames == [] {
      RotatedNone(Row(s));
    } else {
      var k := |frames| - 1;
      RowRotates(s, frames[..k]);
      TickRotates(Ticks(s, frames[..k]), frames[k]);
      RotateOn(Row(s), k);
    }
  }

  /** What `n` ticks find is what their processes are left with, and what the last of them puts back. */
  ghost predicate FullRound(u: State, last: seq<Frame>, t: State) {
    && |Row(u)| == |last| > 0 && Row(t) == Row(u)
    && Tick(Ticks(u, last[..|last| - 1]), last[|last| - 1]).live == last[0]
    && forall i :: 0 <= i < |last| ==> Row(u)[i] in t.saved && t.saved[Row(u)[i]] == last[i]
  }

  lemma LastRound(u: State, last: seq<Frame>)
    requires Sound(u) && u.cur != 0 && |last| == |Row(u)|
    ensures FullRound(u, last, Ticks(u, last))
  {
    WithinRound(u, last);
    BackAfterOneRound(u, last);
    hide Tick;
    hide Ticks;
    hide Sound;
  }

  /** The last `n` of a run of ticks, on their own. */
  lemma SplitTicks(s: State, frames: seq<Frame>, n: nat)
    requires 0 < n <= |frames|
    ensures var m, u := |frames| - n, Ticks(s, frames[..|frames| - n]);
            var last := frames[m..];
            && |last| == n && Ticks(s, frames) == Ticks(u, last)
            && Ticks(s, frames[..|frames| - 1]) == Ticks(u, last[..n - 1]) && last[n - 1] == frames[|frames| - 1]
  {
    hide *;
    var first, last := frames[..|frames| - n], frames[|frames| - n..];
    assert first + last == frames && first + last[..n - 1] == frames[..|frames| - 1];
    TicksInTwo(s, first, last);
    TicksInTwo(s, first, last[..n - 1]);
  }

  lemma RotatedSize(row: seq<nat>, k: nat)
    requires row != []
    ensures k % |row| < |row| && |Rotated(row, k % |row|)| == |row| && Rotated(row, k % |row|)[0] == row[k % |row|]
  {}

  lemma CurIsFirst(s: State)
    requires s.cur != 0
    ensures Row(s) != [] && Row(s)[0] == s.cur
  {}

  /**
   Round robin: after any number `k` of ticks the row of the `n` processes has been rotated by `k % n`.
   From the n-th tick on, every process has the frame it was last interrupted with, and each tick puts
   back the frame found `n` ticks ago, that of the process that goes on.
   */
  lemma RoundRobin(s: State, frames: seq<Frame>)
    requires Sound(s) && s.cur != 0
    ensures var t, k, n := Ticks(s, frames), |frames|, |Row(s)|;
            && n > 0 && Sound(t) && t.cur == Row(s)[k % n] && Row(t) == Rotated(Row(s), k % n)
            && (k >= n ==>
                  FullRound(Ticks(s, frames[..k - n]), frames[k - n..], t)
                  && Tick(Ticks(s, frames[..k - 1]), frames[k - 1]).live == frames[k - n])
  {
    hide *;
    var t, k, n := Ticks(s, frames), |frames|, |Row(s)|;
    CurIsFirst(s);
    RowRotates(s, frames);
    RotatedSize(Row(s), k);
    CurIsFirst(t);
    if k >= n {
      RowRotates(s, frames[..k - n]);
      RotatedSize(Row(s), k - n);
      SplitTicks(s, frames, n);
      LastRound(Ticks(s, frames[..k - n]), frames[k - n..]);
      FullRoundLive(Ticks(s, frames[..k - n]), frames[k - n..], t);
    }
  }

  lemma FullRoundLive(u: State, last: seq<Frame>, t: State)
    requires FullRound(u, last, t)
    ensures Tick(Ticks(u, last[..|last| - 1]), last[|last| - 1]).live == last[0]
  {}

  /** On an idle core the first tick starts the process at the front, if any, and drops nobody. */
  lemma FirstTick(s: State, frame: Frame)
    requires Sound(s) && s.cur == 0
    ensures var t := Tick(s, frame);
            && Sound(t.state) && Row(t.state) == Row(s)
            && (if s.waiting == [] then t.state == s && t.live == frame else t.state.cur == s.waiting[0] && t.live == s.saved[s.waiting[0]])
  {
    if s.waiting != [] {
      assert Row(Tick(s, frame).state) == s.waiting == Row(s);
    }
  }

  // ----- The arbiter

  /** The core after `core`, going round. */
  function Following(core: nat, count: nat): nat {
    if core + 1 >= count then 0 else core + 1
  }

  class Arbiter {
    var semaphore: nat

    /** `keParbReset` */
    constructor ()
      ensures semaphore == 0
    {
      semaphore := 0;
    }

    /** `keParbCycle` with `count` cores: the number of the core picked. */
    method Cycle(count: nat) returns (core: nat)
      requires semaphore < count
      modifies this
      ensures core == old(semaphore) < count && semaphore == Following(core, count) < count
    {
      core := semaphore;
      semaphore := semaphore + 1;
      if semaphore >= count {
        semaphore := 0;
      }
    }
  }

  /** The core picked by the k-th cycle from `start` on. */
  ghost function Pick(start: nat, count: nat, k: nat): (core: nat)
    requires start < count
    ensures core < count
  {
    if k == 0 then start else Following(Pick(start, count, k - 1), count)
  }

  /** How often `core` is picked in the first `k` cycles. */
  ghost function Picks(start: nat, count: nat, core: nat, k: nat): nat
    requires start < count
  {
    if k == 0 then 0 else Picks(start, count, core, k - 1) + if Pick(start, count, k - 1) == core then 1 else 0
  }

  /** The number `k` of cycles as `q` full rounds and `r` more. */
  ghost predicate Rounds(k: nat, count: nat, q: nat, r: nat) {
    k == q * count + r && r < count
  }

  lemma RoundsOf(k: nat, count: nat)
    requires count > 0
    ensures Rounds(k, count, k / count, k % count)
  {}

  /** One cycle less: earlier in the same round, or at the end of the one before. */
  lemma OneLess(k: nat, count: nat, q: nat, r: nat)
    requires k > 0 && Rounds(k, count, q, r)
    ensures if r > 0 then Rounds(k - 1, count, q, r - 1) else q > 0 && Rounds(k - 1, count, q - 1, count - 1)
  {
    if r == 0 {
      assert (q - 1) * count + count == q * count;
    }
  }

  lemma RoundsZero(count: nat, q: nat, r: nat)
    requires Rounds(0, count, q, r)
    ensures q == 0 && r == 0
  {
    assert q > 0 ==> q * count >= count;
  }

  lemma {:induction false} PickInRound(start: nat, count: nat, k: nat, q: nat, r: nat)
    requires start < count && Rounds(k, count, q, r)
    ensures Pick(start, count, k) == if start + r < count then start + r else start + r - count
    decreases k
  {
    hide Rounds;
    if k == 0 {
      RoundsZero(count, q, r);
    } else {
      OneLess(k, count, q, r);
      InRange(k, count, q, r);
      if r > 0 {
        PickInRound(start, count, k - 1, q, r - 1);
      } else {
        PickInRound(start, count, k - 1, q - 1, count - 1);
      }
    }
  }

  lemma InRange(k: nat, count: nat, q: nat, r: nat)
    requires Rounds(k, count, q, r)
    ensures r < count
  {}

  /** The distance from the first pick to `core`, going round. */
  ghost function Ahead(start: nat, count: nat, core: nat): nat
    requires start < count && core < count
  {
    if core >= start then core - start else core + count - start
  }

  /** After `k` cycles a core has been picked once for every full round, and once more if this round has passed it. */
  lemma {:induction false} PicksAre(start: nat, count: nat, core: nat, k: nat, q: nat, r: nat)
    requires start < count && core < count && Rounds(k, count, q, r)
    ensures Picks(start, count, core, k) == q + if Ahead(start, count, core) < r then 1 else 0
    decreases k
  {
    hide Rounds;
    hide Pick;
    if k == 0 {
      RoundsZero(count, q, r);
    } else {
      OneLess(k, count, q, r);
      InRange(k, count, q, r);
      if r > 0 {
        PicksAre(start, count, core, k - 1, q, r - 1);
        PickInRound(start, count, k - 1, q, r - 1);
      } else {
        PicksAre(start, count, core, k - 1, q - 1, count - 1);
        PickInRound(start, count, k - 1, q - 1, count - 1);
      }
    }
  }

  /** Every window of as many cycles as there are cores picks each core exactly once. */
  lemma OncePerWindow(start: nat, count: nat, core: nat, k: nat)
    requires start < count && core < count
    ensures Picks(start, count, core, k + count) == Picks(start, count, core, k) + 1
  {
    var q, r := k / count, k % count;
    RoundsOf(k, count);
    NextRound(k, count, q, r);
    hide Rounds;
    PicksAre(start, count, core, k, q, r);
    PicksAre(start, count, core, k + count, q + 1, r);
  }

  lemma NextRound(k: nat, count: nat, q: nat, r: nat)
    requires Rounds(k, count, q, r)
    ensures Rounds(k + count, count, q + 1, r)
  {
    assert (q + 1) * count == q * count + count;
  }

  /** After any number of cycles no two cores' pick counts differ by more than one. */
  lemma Balanced(start: nat, count: nat, a: nat, b: nat, k: nat)
    requires start < count && a < count && b < count
    ensures -1 <= Picks(start, count, a, k) - Picks(start, count, b, k) <= 1
  {
    RoundsOf(k, count);
    hide Rounds;
    PicksAre(start, count, a, k, k / count, k % count);
    PicksAre(start, count, b, k, k / count, k % count);
  }
}
