/**
 The tail queue of processes. A process is a number and 0 is null; `next` and `prev` are the link
 fields of all processes. A back link names the field that points at the element: the head's
 first-element field, or the next field of the element before.
 */
module TailQueue {
  import opened Sequences

  datatype Loc = First | NextOf(process: nat)

  datatype Links = Links(first: nat, last: Loc, next: map<nat, nat>, prev: map<nat, Loc>)

  datatype Status = Success | InvalidHandle | ProcNotFound

  /** A list of processes: none of them null and none of them twice. */
  predicate IsList(s: seq<nat>) {
    NoDuplicates(s) && 0 !in s
  }

  function Next(q: Links, p: nat): nat {
    if p in q.next then q.next[p] else 0
  }

  function Prev(q: Links, p: nat): Loc {
    if p in q.prev then q.prev[p] else First
  }

  /** Element `i` of `s`, null past its end. */
  function At(s: seq<nat>, i: int): nat {
    if 0 <= i < |s| then s[i] else 0
  }

  /** The field that points at element `i` of `s`. */
  function From(s: seq<nat>, i: int): Loc {
    if 0 < i <= |s| then NextOf(s[i - 1]) else First
  }

  /** The links of the elements of `s` in order. */
  ghost predicate Linked(q: Links, s: seq<nat>) {
    forall i {:trigger Next(q, s[i])} {:trigger Prev(q, s[i])} :: 0 <= i < |s| ==>
      Next(q, s[i]) == At(s, i + 1) && Prev(q, s[i]) == From(s, i)
  }

  /** The queue represents `s`. */
  ghost predicate Rep(q: Links, s: seq<nat>) {
    IsList(s) && q.first == At(s, 0) && q.last == From(s, |s|) && Linked(q, s)
  }

  /** `*loc = p` */
  function Store(q: Links, loc: Loc, p: nat): Links {
    match loc
    case First => q.(first := p)
    case NextOf(e) => q.(next := q.next[e := p])
  }

  /** All of `s` with `p` behind it is linked, but the head still thinks the old last element is the last. */
  ghost predicate TailStored(q: Links, s: seq<nat>, p: nat) {
    IsList(s + [p]) && q.first == At(s + [p], 0) && q.last == From(s, |s|) && Linked(q, s + [p])
  }

  /** `p` has been prepared as the new last element. */
  ghost predicate Prepared(q: Links, s: seq<nat>, p: nat) {
    Rep(q, s) && p != 0 && p !in s && Next(q, p) == 0 && Prev(q, p) == q.last
  }

  lemma PrepareStep(q: Links, s: seq<nat>, p: nat)
    requires Rep(q, s) && p != 0 && p !in s
    ensures Rep(q.(next := q.next[p := 0]), s) && Prepared(q.(next := q.next[p := 0], prev := q.prev[p := q.last]), s, p)
  {
    var q1 := q.(next := q.next[p := 0]);
    var q2 := q1.(prev := q.prev[p := q.last]);
    forall i | 0 <= i < |s|
      ensures Next(q1, s[i]) == Next(q, s[i]) && Prev(q1, s[i]) == Prev(q, s[i])
      ensures Next(q2, s[i]) == Next(q, s[i]) && Prev(q2, s[i]) == Prev(q, s[i])
    {}
  }

  lemma StoreStep(q: Links, s: seq<nat>, p: nat)
    requires Prepared(q, s, p)
    ensures TailStored(Store(q, q.last, p), s, p)
  {
    var q1 := Store(q, q.last, p);
    var t := s + [p];
    forall i | 0 <= i < |t| ensures Next(q1, t[i]) == At(t, i + 1) && Prev(q1, t[i]) == From(t, i) {
      if i < |s| {
        assert Next(q, s[i]) == At(s, i + 1) && Prev(q, s[i]) == From(s, i);
      }
    }
  }

  lemma LastStep(q: Links, s: seq<nat>, p: nat)
    requires TailStored(q, s, p)
    ensures Rep(q.(last := NextOf(p)), s + [p])
  {
    var q1 := q.(last := NextOf(p));
    forall i | 0 <= i < |s + [p]| ensures Next(q1, (s + [p])[i]) == Next(q, (s + [p])[i]) && Prev(q1, (s + [p])[i]) == Prev(q, (s + [p])[i]) {}
  }

  /** The first half of `TAILQ_REMOVE`: the element after `p`, or the head, is linked past it. */
  function PassBack(q: Links, p: nat): Links {
    if Next(q, p) != 0 then q.(prev := q.prev[Next(q, p) := Prev(q, p)]) else q.(last := Prev(q, p))
  }

  function Without(s: seq<nat>, k: nat): seq<nat>
    requires k < |s|
  {
    s[..k] + s[k + 1..]
  }

  /** Element `k` of `s` is out of the way except that the element before it still points at it. */
  ghost predicate PassedBack(q: Links, s: seq<nat>, k: nat) {
    && k < |s| && IsList(s) && q.first == At(s, 0)
    && q.last == (if k + 1 == |s| then From(s, k) else From(s, |s|))
    && Next(q, s[k]) == At(s, k + 1) && Prev(q, s[k]) == From(s, k)
    && forall i {:trigger Next(q, s[i])} {:trigger Prev(q, s[i])} :: 0 <= i < |s| ==>
         Next(q, s[i]) == At(s, i + 1) && (i != k ==> Prev(q, s[i]) == From(s, if i == k + 1 then k else i))
  }

  lemma PassBackStep(q: Links, s: seq<nat>, k: nat)
    requires Rep(q, s) && k < |s|
    ensures PassedBack(PassBack(q, s[k]), s, k)
  {
    var p := s[k];
    assert Next(q, s[k]) == At(s, k + 1) && Prev(q, s[k]) == From(s, k);
    var q1 := PassBack(q, p);
    forall i | 0 <= i < |s|
      ensures Next(q1, s[i]) == At(s, i + 1) && (i != k ==> Prev(q1, s[i]) == From(s, if i == k + 1 then k else i))
      ensures i == k ==> Prev(q1, s[i]) == From(s, i)
    {
      assert Next(q, s[i]) == At(s, i + 1) && Prev(q, s[i]) == From(s, i);
    }
  }

  lemma WithoutAt(s: seq<nat>, k: nat, i: nat)
    requires k < |s| && i < |s| - 1
    ensures var t := Without(s, k);
            var j := if i < k then i else i + 1;
            && t[i] == s[j]
            && At(t, i + 1) == At(s, if j + 1 == k then k + 1 else j + 1)
            && From(t, i) == From(s, if j == k + 1 then k else j)
  {}

  lemma UnlinkStep(q: Links, s: seq<nat>, k: nat)
    requires PassedBack(q, s, k)
    ensures Rep(Store(q, Prev(q, s[k]), Next(q, s[k])), Without(s, k))
  {
    var q1 := Store(q, Prev(q, s[k]), Next(q, s[k]));
    var t := Without(s, k);
    forall i | 0 <= i < |t| ensures Next(q1, t[i]) == At(t, i + 1) && Prev(q1, t[i]) == From(t, i) {
      var j := if i < k then i else i + 1;
      WithoutAt(s, k, i);
      assert Next(q, s[j]) == At(s, j + 1) && Prev(q, s[j]) == From(s, if j == k + 1 then k else j);
    }
    WithoutIsList(s, k);
    WithoutEnds(s, k);
  }

  lemma WithoutIsList(s: seq<nat>, k: nat)
    requires k < |s| && IsList(s)
    ensures IsList(Without(s, k))
  {}

  lemma WithoutEnds(s: seq<nat>, k: nat)
    requires k < |s|
    ensures var t := Without(s, k);
            && At(t, 0) == (if k == 0 then At(s, 1) else At(s, 0))
            && From(t, |t|) == (if k + 1 == |s| then From(s, k) else From(s, |s|))
  {}

  class Queue {
    var first: nat
    var last: Loc
    var nelem: nat
    var next: map<nat, nat>
    var prev: map<nat, Loc>
    ghost var elems: seq<nat>

    function Now(): Links
      reads this
    {
      Links(first, last, next, prev)
    }

    /** The pointers and the counter represent `elems`. */
    ghost predicate Valid()
      reads this
    {
      nelem == |elems| && Rep(Now(), elems)
    }

    /** `TAILQ_INIT` */
    constructor ()
      ensures Valid() && elems == []
    {
      first := 0;
      last := First;
      nelem := 0;
      next := map[];
      prev := map[];
      elems := [];
    }

    /** `*loc = p` */
    method Assign(loc: Loc, p: nat)
      modifies this`first, this`next
      ensures Now() == Store(old(Now()), loc, p)
    {
      match loc
      case First => first := p;
      case NextOf(e) => next := next[e := p];
    }

    /** `TAILQ_INSERT_TAIL` */
    method InsertTail(elm: nat)
      requires Valid() && elm != 0 && elm !in elems
      modifies this
      ensures Valid() && elems == old(elems) + [elm]
    {
      hide Rep;
      hide Prepared;
      hide TailStored;
      ghost var q := Now();
      PrepareStep(q, elems, elm);
      next := next[elm := 0];
      prev := prev[elm := last];
      StoreStep(Now(), elems, elm);
      Assign(last, elm);
      LastStep(Now(), elems, elm);
      last := NextOf(elm);
      nelem := nelem + 1;
      elems := elems + [elm];
    }

    /** `TAILQ_REMOVE` of the element at position `k`. */
    method Remove(elm: nat, ghost k: nat)
      requires Valid() && k < |elems| && elems[k] == elm
      modifies this
      ensures Valid() && elems == Without(old(elems), k)
    {
      hide Rep;
      hide PassedBack;
      PassBackStep(Now(), elems, k);
      if Next(Now(), elm) != 0 {
        prev := prev[Next(Now(), elm) := Prev(Now(), elm)];
      } else {
        last := Prev(Now(), elm);
      }
      UnlinkStep(Now(), elems, k);
      Assign(Prev(Now(), elm), Next(Now(), elm));
      nelem := nelem - 1;
      elems := Without(elems, k);
    }

    /** `keScheduleProc` on this queue, for a process or null. */
    method ScheduleProc(process: nat) returns (status: Status)
      requires Valid() && process !in elems
      modifies this
      ensures Valid() && status == if process == 0 then InvalidHandle else Success
      ensures elems == if process == 0 then old(elems) else old(elems) + [process]
    {
      if process == 0 {
        return InvalidHandle;
      }
      InsertTail(process);
      status := Success;
    }

    /** `keDequeueProc` on this queue. */
    method DequeueProc() returns (status: Status, result: nat)
      requires Valid()
      modifies this
      ensures Valid()
      ensures status == if old(elems) == [] then ProcNotFound else Success
      ensures old(elems) == [] ==> elems == [] && result == 0
      ensures old(elems) != [] ==> result == old(elems)[0] && elems == old(elems)[1..]
    {
      status, result := ProcNotFound, 0;
      if nelem == 0 {
        return;
      }
      var process := first;
      if process == 0 {
        return;
      }
      Remove(process, 0);
      return Success, process;
    }
  }
}
