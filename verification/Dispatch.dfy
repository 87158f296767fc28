/** The dispatch loop on its own thread: a ring queue served in order, steps feeding it back. */
module Dispatch {
  import opened Util
  import opened SpscQueue

  /** What a step enqueues, given everything that ran before it. */
  type Program = (seq<Entry>, Entry) -> seq<Entry>

  /** `n` turns of the loop over queue `q`: the entries run so far and the queue left. */
  function Serve(q: seq<Entry>, prog: Program, n: nat, ran: seq<Entry>): (seq<Entry>, seq<Entry>)
    decreases n
  {
    if n == 0 || q == [] then (ran, q)
    else Serve(q[1..] + prog(ran, q[0]), prog, n - 1, ran + [q[0]])
  }

  lemma {:induction false} ServeKeepsRan(q: seq<Entry>, prog: Program, n: nat, ran: seq<Entry>)
    ensures ran <= Serve(q, prog, n, ran).0
    decreases n
  {
    if n > 0 && q != [] {
      ServeKeepsRan(q[1..] + prog(ran, q[0]), prog, n - 1, ran + [q[0]]);
    }
  }

  /** An entry with `k` entries ahead of it is the next one run after exactly `k` others, whatever the steps enqueue. */
  lemma {:induction false} Fair(q: seq<Entry>, prog: Program, n: nat, ran: seq<Entry>, k: nat)
    requires k < |q| && k < n
    ensures var r := Serve(q, prog, n, ran).0;
            |r| > |ran| + k && r[|ran| + k] == q[k]
    decreases n
  {
    var q', ran' := q[1..] + prog(ran, q[0]), ran + [q[0]];
    if k == 0 {
      ServeKeepsRan(q', prog, n - 1, ran');
      assert ran'[|ran|] == q[0];
    } else {
      Fair(q', prog, n - 1, ran', k - 1);
      assert q'[k - 1] == q[k];
    }
  }

  ghost predicate AtMostOne(prog: Program) {
    forall h, e :: |prog(h, e)| <= 1
  }

  /** Steps that enqueue at most one entry never make the queue longer. */
  lemma {:induction false} NeverGrows(q: seq<Entry>, prog: Program, n: nat, ran: seq<Entry>)
    requires AtMostOne(prog)
    ensures |Serve(q, prog, n, ran).1| <= |q|
    decreases n
  {
    if n > 0 && q != [] {
      NeverGrows(q[1..] + prog(ran, q[0]), prog, n - 1, ran + [q[0]]);
    }
  }

  /** Everything the steps enqueued during `n` turns, in order. */
  function Fed(q: seq<Entry>, prog: Program, n: nat, ran: seq<Entry>): seq<Entry>
    decreases n
  {
    if n == 0 || q == [] then []
    else
      var more := prog(ran, q[0]);
      more + Fed(q[1..] + more, prog, n - 1, ran + [q[0]])
  }

  /** Nothing is lost or invented: what ran and what waits is what was there and what the steps enqueued. */
  lemma {:induction false} Conserves(q: seq<Entry>, prog: Program, n: nat, ran: seq<Entry>)
    ensures Serve(q, prog, n, ran).0 + Serve(q, prog, n, ran).1 == ran + q + Fed(q, prog, n, ran)
    decreases n
  {
    if n == 0 || q == [] {
      assert ran + q + [] == ran + q;
    } else {
      var more := prog(ran, q[0]);
      var q', ran' := q[1..] + more, ran + [q[0]];
      Conserves(q', prog, n - 1, ran');
      var fed := Fed(q', prog, n - 1, ran');
      assert ran' + q' + fed == ran + q + (more + fed);
    }
  }

  // ----- the ring -----

  function Slot(head: nat, i: nat): nat {
    (head + i) % SIZE
  }

  /** The `n` entries from `head` on. */
  function Window(b: seq<Entry>, head: nat, n: nat): (s: seq<Entry>)
    requires |b| == SIZE
    ensures |s| == n && forall i | 0 <= i < n :: s[i] == b[Slot(head, i)]
  {
    seq(n, i requires 0 <= i < n => b[Slot(head, i)])
  }

  lemma WindowPush(b: seq<Entry>, head: nat, n: nat, e: Entry)
    requires |b| == SIZE && n < SIZE
    ensures Window(b[Slot(head, n) := e], head, n + 1) == Window(b, head, n) + [e]
  {
    forall i | 0 <= i < n
      ensures Slot(head, i) != Slot(head, n)
    {
      SlotsDistinct(head, head + i, head + n);
    }
  }

  lemma SlotShift(head: nat, i: nat)
    requires i > 0
    ensures Slot((head + 1) % SIZE, i - 1) == Slot(head, i)
  {
  }

  lemma WindowPop(b: seq<Entry>, head: nat, n: nat)
    requires |b| == SIZE && 0 < n && head < SIZE
    ensures Window(b, head, n) == [b[head]] + Window(b, (head + 1) % SIZE, n - 1)
  {
    var s, t := Window(b, head, n), [b[head]] + Window(b, (head + 1) % SIZE, n - 1);
    assert s[0] == b[Slot(head, 0)] == b[head];
    forall i | 1 <= i < n
      ensures s[i] == t[i]
    {
      SlotShift(head, i);
      assert t[i] == b[Slot((head + 1) % SIZE, i - 1)];
    }
  }

  /** The ring of 256 slots, of which one always stays free. */
  class PauseQueue {
    const buffer: array<Entry>
    var head: nat
    var tail: nat
    var size: int

    ghost predicate Valid()
      reads this
    {
      buffer.Length == SIZE && head < SIZE && tail < SIZE && size == (tail - head) % SIZE
    }

    ghost function Contents(): (s: seq<Entry>)
      requires Valid()
      reads this, buffer
    {
      Window(buffer[..], head, size)
    }

    constructor ()
      ensures Valid() && fresh(buffer) && Contents() == []
    {
      buffer := new Entry[SIZE](i => Entry(0, 0));
      head, tail, size := 0, 0, 0;
    }

    /**
     The call returns exactly when the ring is not full. On the dispatching thread nothing
     else can make room, so `!done` is the spin that never ends.
     */
    method Enqueue(e: Entry) returns (done: bool)
      requires Valid()
      modifies this, buffer
      ensures Valid() && (done <==> |old(Contents())| < SIZE - 1)
      ensures Contents() == if done then old(Contents()) + [e] else old(Contents())
    {
      FullRing(head, tail, size);
      if (tail + 1) % SIZE == head {
        return false;
      }
      SlotOfTail(head, tail, size);
      WindowPush(buffer[..], head, size, e);
      var t := tail;
      buffer[t] := e;
      assert buffer[..] == old(buffer[..])[t := e];
      tail := (t + 1) % SIZE;
      size := size + 1;
      SlotOfNext(head, t, size);
      done := true;
    }

    method Dequeue() returns (r: Option<Entry>)
      requires Valid()
      modifies this
      ensures Valid() && (r.None? <==> old(Contents()) == [])
      ensures r.None? ==> Contents() == old(Contents())
      ensures r.Some? ==> old(Contents()) == [r.value] + Contents()
    {
      SlotOfTail(head, tail, size);
      if head == tail {
        return None;
      }
      WindowPop(buffer[..], head, size);
      TakeSize(head, tail, size);
      r := Some(buffer[head]);
      head := (head + 1) % SIZE;
      size := size - 1;
    }

    /** Steps that enqueue at most one entry: the loop serves the queue in order and the full-queue
        spin is never entered. */
    method Dispatch(prog: Program, n: nat) returns (ran: seq<Entry>)
      requires Valid() && AtMostOne(prog)
      modifies this, buffer
      ensures Valid() && (ran, Contents()) == Serve(old(Contents()), prog, n, [])
    {
      ran := [];
      ghost var all := Serve(Contents(), prog, n, []);
      for i := 0 to n
        invariant Valid() && all == Serve(Contents(), prog, n - i, ran)
      {
        ghost var was := Contents();
        var e := Dequeue();
        if e.Some? {
          ghost var left := Contents();
          assert was[0] == e.value && was[1..] == left;
          var more := prog(ran, e.value);
          if |more| == 1 {
            var done := Enqueue(more[0]);
            assert done;
            assert more == [more[0]];
          } else {
            assert left + more == left;
          }
          ran := ran + [e.value];
        }
      }
    }
  }

  lemma FullRing(head: nat, tail: nat, size: int)
    requires head < SIZE && tail < SIZE && size == (tail - head) % SIZE
    ensures (tail + 1) % SIZE == head <==> size == SIZE - 1
  {
  }

  lemma SlotOfTail(head: nat, tail: nat, size: int)
    requires head < SIZE && tail < SIZE && size == (tail - head) % SIZE
    ensures 0 <= size < SIZE && Slot(head, size) == tail && (head == tail <==> size == 0)
  {
  }

  lemma TakeSize(head: nat, tail: nat, size: int)
    requires head < SIZE && tail < SIZE && size == (tail - head) % SIZE && head != tail
    ensures size - 1 == (tail - (head + 1) % SIZE) % SIZE
  {
  }

  lemma SlotOfNext(head: nat, tail: nat, size: int)
    requires head < SIZE && tail < SIZE && size - 1 == (tail - head) % SIZE && 0 < size < SIZE
    ensures size == ((tail + 1) % SIZE - head) % SIZE
  {
  }
}
