/**
 The pause queue with one producer and one consumer, interleaved at every atomic load and
 store and at every slot access. An entry is a step function and a state, written and read
 as two separate words.
 */
module SpscQueue {
  const SIZE: nat := 256

  datatype Entry = Entry(fn: int, state: int)

  /** Where `scheduler_enqueue` stands; `tail` is its local copy. */
  datatype Producer =
    | PIdle
    | PLoadTail
    | PLoadHead(tail: nat)      // the full check, repeated while the queue is full
    | PWriteFn(tail: nat)
    | PWriteState(tail: nat)
    | PStoreTail(tail: nat)
    | PAddSize

  /** Where `scheduler_dequeue` stands; `head`, `fn` and `state` are its locals. */
  datatype Consumer =
    | CIdle
    | CLoadHead
    | CLoadTail(head: nat)
    | CReadFn(head: nat)
    | CReadState(head: nat, fn: int)
    | CStoreHead(head: nat, fn: int, state: int)
    | CSubSize(fn: int, state: int)

  /** The shared queue, both threads, and the logs of enqueue calls made and entries handed out. */
  datatype Queue = Queue(
    fns: seq<int>, states: seq<int>, head: nat, tail: nat, size: int,
    prod: Producer, cons: Consumer, sent: seq<Entry>, got: seq<Entry>)

  predicate Init(q: Queue) {
    && |q.fns| == SIZE && |q.states| == SIZE && q.head == 0 && q.tail == 0 && q.size == 0
    && q.prod == PIdle && q.cons == CIdle && q.sent == [] && q.got == []
  }

  datatype Action = Enqueue(e: Entry) | Dequeue | Produce | Consume

  /** One transition of one thread; an idle thread starts a call only on request. */
  function Step(q: Queue, a: Action): Queue
    requires |q.fns| == SIZE && |q.states| == SIZE
  {
    match a
    case Enqueue(e) => if q.prod.PIdle? then q.(prod := PLoadTail, sent := q.sent + [e]) else q
    case Dequeue => if q.cons.CIdle? then q.(cons := CLoadHead) else q
    case Produce => ProducerStep(q)
    case Consume => ConsumerStep(q)
  }

  function ProducerStep(q: Queue): Queue
    requires |q.fns| == SIZE && |q.states| == SIZE
  {
    match q.prod
    case PIdle => q
    case PLoadTail => q.(prod := PLoadHead(q.tail))
    case PLoadHead(t) => if (t + 1) % SIZE == q.head then q else q.(prod := PWriteFn(t))
    case PWriteFn(t) =>
      if q.sent == [] || t >= SIZE then q
      else q.(fns := q.fns[t := q.sent[|q.sent| - 1].fn], prod := PWriteState(t))
    case PWriteState(t) =>
      if q.sent == [] || t >= SIZE then q
      else q.(states := q.states[t := q.sent[|q.sent| - 1].state], prod := PStoreTail(t))
    case PStoreTail(t) => q.(tail := (t + 1) % SIZE, prod := PAddSize)
    case PAddSize => q.(size := q.size + 1, prod := PIdle)
  }

  function ConsumerStep(q: Queue): Queue
    requires |q.fns| == SIZE && |q.states| == SIZE
  {
    match q.cons
    case CIdle => q
    case CLoadHead => q.(cons := CLoadTail(q.head))
    case CLoadTail(h) => if h == q.tail then q.(cons := CIdle) else q.(cons := CReadFn(h))
    case CReadFn(h) => if h >= SIZE then q else q.(cons := CReadState(h, q.fns[h]))
    case CReadState(h, f) => if h >= SIZE then q else q.(cons := CStoreHead(h, f, q.states[h]))
    case CStoreHead(h, f, s) => q.(head := (h + 1) % SIZE, cons := CSubSize(f, s))
    case CSubSize(f, s) => q.(size := q.size - 1, cons := CIdle, got := q.got + [Entry(f, s)])
  }

  /** Enqueues whose tail store has happened, and dequeues whose head store has happened. */
  function Published(q: Queue): int {
    if q.prod.PIdle? || q.prod.PAddSize? then |q.sent| else |q.sent| - 1
  }

  function Taken(q: Queue): int {
    if q.cons.CSubSize? then |q.got| + 1 else |q.got|
  }

  function SizeLag(q: Queue): int {
    (if q.cons.CSubSize? then 1 else 0) - (if q.prod.PAddSize? then 1 else 0)
  }

  predicate GotOk(q: Queue) {
    |q.got| <= |q.sent| && q.got == q.sent[..|q.got|]
  }

  /** The published, untaken entries lie in their slots, whole. */
  predicate SlotsOk(q: Queue, j: nat, k: nat)
    requires |q.fns| == SIZE && |q.states| == SIZE && k <= |q.sent|
  {
    forall i | j <= i < k :: q.fns[i % SIZE] == q.sent[i].fn && q.states[i % SIZE] == q.sent[i].state
  }

  predicate ProducerOk(q: Queue, j: nat, k: nat)
    requires |q.fns| == SIZE && |q.states| == SIZE
  {
    match q.prod
    case PIdle => k == |q.sent|
    case PAddSize => k == |q.sent| && k > 0
    case PLoadTail => k == |q.sent| - 1
    case PLoadHead(t) => k == |q.sent| - 1 && t == q.tail
    case PWriteFn(t) => k == |q.sent| - 1 && t == q.tail && k - j < 255
    case PWriteState(t) => k == |q.sent| - 1 && t == q.tail < SIZE && k - j < 255 && q.fns[t] == q.sent[k].fn
    case PStoreTail(t) => k == |q.sent| - 1 && t == q.tail < SIZE && k - j < 255 && q.fns[t] == q.sent[k].fn && q.states[t] == q.sent[k].state
  }

  predicate ConsumerOk(q: Queue, j: nat, k: nat)
    requires j <= k <= |q.sent|
  {
    match q.cons
    case CIdle => true
    case CLoadHead => true
    case CLoadTail(h) => h == q.head
    case CReadFn(h) => h == q.head && j < k
    case CReadState(h, f) => h == q.head && j < k && f == q.sent[j].fn
    case CStoreHead(h, f, s) => h == q.head && j < k && f == q.sent[j].fn && s == q.sent[j].state
    case CSubSize(f, s) => 0 < j && f == q.sent[j - 1].fn && s == q.sent[j - 1].state
  }

  /** The invariant of every interleaving. */
  predicate Inv(q: Queue) {
    && |q.fns| == SIZE && |q.states| == SIZE
    && (var j, k := Taken(q), Published(q);
        && 0 <= j <= k <= |q.sent| && k <= j + 255
        && q.head < SIZE && q.tail < SIZE && q.head == j % SIZE && q.tail == k % SIZE
        && SlotsOk(q, j, k) && ProducerOk(q, j, k) && ConsumerOk(q, j, k)
        && q.size == k - j + SizeLag(q))
    && GotOk(q)
  }

  /** Slots of a window shorter than the ring are distinct. */
  lemma SlotsDistinct(j: nat, i: nat, k: nat)
    requires j <= i < k < j + SIZE
    ensures i % SIZE != k % SIZE
  {
  }

  lemma NextSlot(k: nat)
    ensures (k % SIZE + 1) % SIZE == (k + 1) % SIZE
  {
  }

  /** A full ring is exactly one whose next tail is its head. */
  lemma FullCheck(j: nat, k: nat)
    requires j <= k <= j + 255
    ensures (k % SIZE + 1) % SIZE == j % SIZE <==> k - j == 255
  {
  }

  /** An empty ring is exactly one whose tail is its head. */
  lemma EmptyCheck(j: nat, k: nat)
    requires j <= k <= j + 255
    ensures k % SIZE == j % SIZE <==> k == j
  {
  }

  /** Writing the free slot disturbs no held entry. */
  lemma WriteKeepsSlots(q: Queue, q': Queue, j: nat, k: nat, x: int)
    requires |q.fns| == SIZE && |q.states| == SIZE && j <= k <= |q.sent| && k - j < SIZE && SlotsOk(q, j, k)
    requires q'.sent == q.sent
    requires (q'.fns == q.fns[k % SIZE := x] && q'.states == q.states) ||
             (q'.fns == q.fns && q'.states == q.states[k % SIZE := x])
    ensures |q'.fns| == SIZE && |q'.states| == SIZE && SlotsOk(q', j, k)
  {
    forall i | j <= i < k
      ensures i % SIZE != k % SIZE
    {
      SlotsDistinct(j, i, k);
    }
  }

  lemma WritesKeep(q: Queue)
    requires Inv(q) && (q.prod.PWriteFn? || q.prod.PWriteState?)
    ensures Inv(ProducerStep(q))
  {
    var j, k := Taken(q), Published(q);
    hide SlotsOk;
    var e := q.sent[|q.sent| - 1];
    WriteKeepsSlots(q, ProducerStep(q), j, k, if q.prod.PWriteFn? then e.fn else e.state);
  }

  lemma PublishKeeps(q: Queue)
    requires Inv(q) && q.prod.PStoreTail?
    ensures Inv(ProducerStep(q))
  {
    var k := Published(q);
    NextSlot(k);
  }

  lemma ProducerKeeps(q: Queue)
    requires Inv(q)
    ensures Inv(ProducerStep(q))
  {
    match q.prod {
      case PLoadHead(t) => FullCheck(Taken(q), Published(q));
      case PWriteFn(t) => hide Inv; WritesKeep(q);
      case PWriteState(t) => hide Inv; WritesKeep(q);
      case PStoreTail(t) => hide Inv; PublishKeeps(q);
      case _ =>
    }
  }

  lemma HandOutKeeps(q: Queue)
    requires Inv(q) && q.cons.CSubSize?
    ensures Inv(ConsumerStep(q))
  {
    var j := Taken(q);
    assert q.sent[..j] == q.sent[..j - 1] + [q.sent[j - 1]];
  }

  lemma TakeKeeps(q: Queue)
    requires Inv(q) && q.cons.CStoreHead?
    ensures Inv(ConsumerStep(q))
  {
    var j := Taken(q);
    NextSlot(j);
  }

  lemma ConsumerKeeps(q: Queue)
    requires Inv(q)
    ensures Inv(ConsumerStep(q))
  {
    match q.cons {
      case CLoadTail(h) => EmptyCheck(Taken(q), Published(q));
      case CStoreHead(h, f, s) => hide Inv; TakeKeeps(q);
      case CSubSize(f, s) => hide Inv; HandOutKeeps(q);
      case _ =>
    }
  }

  lemma StartsKeep(q: Queue, a: Action)
    requires Inv(q) && (a.Enqueue? || a.Dequeue?)
    ensures Inv(Step(q, a))
  {
    if a.Enqueue? && q.prod.PIdle? {
      var q' := Step(q, a);
      assert q'.sent[..|q.sent|] == q.sent;
      assert q'.sent[..|q.got|] == q.sent[..|q.got|];
    }
  }

  /** Every transition of either thread keeps the invariant. */
  lemma StepKeeps(q: Queue, a: Action)
    requires Inv(q)
    ensures Inv(Step(q, a))
  {
    hide Inv;
    match a {
      case Produce => InvSizes(q); ProducerKeeps(q);
      case Consume => InvSizes(q); ConsumerKeeps(q);
      case _ => InvSizes(q); StartsKeep(q, a);
    }
  }

  lemma InvSizes(q: Queue)
    requires Inv(q)
    ensures |q.fns| == SIZE && |q.states| == SIZE
  {
  }

  /** A run: any interleaving of any number of calls. */
  ghost function Run(q: Queue, acts: seq<Action>): Queue
    requires Inv(q)
    decreases |acts|
  {
    if acts == [] then q
    else
      StepKeeps(q, acts[0]);
      Run(Step(q, acts[0]), acts[1..])
  }

  lemma {:induction false} RunKeeps(q: Queue, acts: seq<Action>)
    requires Inv(q)
    ensures Inv(Run(q, acts))
    decreases |acts|
  {
    hide Inv;
    if acts != [] {
      InvSizes(q);
      StepKeeps(q, acts[0]);
      RunKeeps(Step(q, acts[0]), acts[1..]);
    }
  }

  lemma InitInv(q: Queue)
    requires Init(q)
    ensures Inv(q)
  {
  }

  /**
   Over every run from the empty queue: what was handed out is a prefix, in order and untorn,
   of what was enqueued; at most 255 entries are held; `size` stays between -1 and 256 and
   tells the occupancy whenever both threads are idle; nothing is lost then.
   */
  lemma QueueRefines(q: Queue, acts: seq<Action>)
    requires Init(q)
    ensures Inv(q)
    ensures var r := Run(q, acts);
            && |r.got| <= |r.sent| && r.got == r.sent[..|r.got|]
            && 0 <= Published(r) - Taken(r) <= 255
            && -1 <= r.size <= 256
            && (r.prod.PIdle? && r.cons.CIdle? ==>
                  && r.size == (r.tail - r.head) % 256
                  && r.size == |r.sent| - |r.got|)
  {
    InitInv(q);
    RunKeeps(q, acts);
    var r := Run(q, acts);
    var j, k := Taken(r), Published(r);
    OccupancyMod(j, k);
  }

  lemma OccupancyMod(j: nat, k: nat)
    requires j <= k <= j + 255
    ensures (k % SIZE - j % SIZE) % SIZE == k - j
  {
  }

  /** A dequeue bound to succeed, `n` accesses from its end. */
  predicate Committed(q: Queue, n: nat) {
    match q.cons
    case CLoadTail(_) => n == 5 && Taken(q) < Published(q)
    case CReadFn(_) => n == 4
    case CReadState(_, _) => n == 3
    case CStoreHead(_, _, _) => n == 2
    case CSubSize(_, _) => n == 1
    case _ => false
  }

  lemma CommittedStep(q: Queue, a: Action, n: nat)
    requires Inv(q) && Committed(q, n)
    ensures var r := Step(q, a);
            if a != Consume then Committed(r, n) && r.got == q.got
            else if n == 1 then |r.got| == |q.got| + 1
            else n > 1 && Committed(r, n - 1) && r.got == q.got
  {
    EmptyCheck(Taken(q), Published(q));
  }

  function Consumes(acts: seq<Action>): nat {
    if acts == [] then 0 else (if acts[0] == Consume then 1 else 0) + Consumes(acts[1..])
  }

  lemma {:induction false} LogsGrow(q: Queue, acts: seq<Action>)
    requires Inv(q)
    ensures |q.got| <= |Run(q, acts).got| && q.sent <= Run(q, acts).sent
    decreases |acts|
  {
    if acts != [] {
      StepKeeps(q, acts[0]);
      LogsGrow(Step(q, acts[0]), acts[1..]);
    }
  }

  lemma {:induction false} CommittedRuns(q: Queue, acts: seq<Action>, n: nat)
    requires Inv(q) && Committed(q, n) && Consumes(acts) >= n
    ensures |q.got| < |Run(q, acts).got|
    decreases |acts|
  {
    hide Inv, Committed;
    CommittedStep(q, Consume, n);
    if acts != [] {
      InvSizes(q);
      StepKeeps(q, acts[0]);
      CommittedStep(q, acts[0], n);
      var r := Step(q, acts[0]);
      if acts[0] == Consume && n == 1 {
        LogsGrow(r, acts[1..]);
      } else {
        CommittedRuns(r, acts[1..], if acts[0] == Consume then n - 1 else n);
      }
    }
  }

  /**
   A dequeue that stands before its tail load with an entry published hands out the oldest
   entry within five of its own steps, however the producer's steps fall between them.
   */
  lemma DequeueCompletes(q: Queue, acts: seq<Action>)
    requires Inv(q) && q.cons.CLoadTail? && Taken(q) < Published(q) && Consumes(acts) >= 5
    ensures var r := Run(q, acts);
            |q.got| < |r.got| && |q.got| < |q.sent| && r.got[|q.got|] == q.sent[|q.got|]
  {
    CommittedRuns(q, acts, 5);
    LogsGrow(q, acts);
    RunKeeps(q, acts);
  }

  /** An enqueue under way that finds room, `n` accesses from its end. */
  predicate Enqueuing(q: Queue, n: nat) {
    match q.prod
    case PIdle => false
    case PLoadTail => n == 6 && Published(q) - Taken(q) < 255
    case PLoadHead(_) => n == 5 && Published(q) - Taken(q) < 255
    case PWriteFn(_) => n == 4
    case PWriteState(_) => n == 3
    case PStoreTail(_) => n == 2
    case PAddSize => n == 1
  }

  lemma EnqueuingStep(q: Queue, a: Action, n: nat)
    requires Inv(q) && Enqueuing(q, n)
    ensures var r := Step(q, a);
            && r.sent == q.sent
            && (if a != Produce then Enqueuing(r, n) else if n == 1 then r.prod.PIdle? else n > 1 && Enqueuing(r, n - 1))
  {
    FullCheck(Taken(q), Published(q));
  }

  function Produces(acts: seq<Action>): nat {
    if acts == [] then 0 else (if acts[0] == Produce then 1 else 0) + Produces(acts[1..])
  }

  /**
   An enqueue under way with a slot free returns, its entry published, at the latest with the
   sixth of its own steps, however the consumer's steps fall between them.
   */
  lemma {:induction false} EnqueueCompletes(q: Queue, acts: seq<Action>, n: nat) returns (k: nat)
    requires Inv(q) && Enqueuing(q, n) && Produces(acts) >= n
    ensures n <= 6 && k <= |acts| && Produces(acts[..k]) == n
    ensures var r := Run(q, acts[..k]); r.prod.PIdle? && r.sent == q.sent && Published(r) == |q.sent|
    decreases |acts|
  {
    hide Inv;
    EnqueuingStep(q, Produce, n);
    if acts == [] {
      assert false;
    }
    var a, rest := acts[0], acts[1..];
    InvSizes(q);
    StepKeeps(q, a);
    EnqueuingStep(q, a, n);
    var r := Step(q, a);
    if a == Produce && n == 1 {
      k := 1;
      assert acts[..1] == [a] && [a][1..] == [];
    } else {
      var j := EnqueueCompletes(r, rest, if a == Produce then n - 1 else n);
      k := j + 1;
      assert acts[..k][0] == a && acts[..k][1..] == rest[..j];
    }
  }

  function Times(q: Queue, a: Action, n: nat): (r: Queue)
    requires |q.fns| == SIZE && |q.states| == SIZE
    ensures |r.fns| == SIZE && |r.states| == SIZE
    decreases n
  {
    if n == 0 then q else Step(Times(q, a, n - 1), a)
  }

  /** `size` does go negative: a dequeue may be counted before the enqueue it answers. */
  lemma SizeGoesNegative(e: Entry, q: Queue)
    requires Init(q)
    ensures var published := Times(Step(q, Enqueue(e)), Produce, 5);
            var r := Times(Step(published, Dequeue), Consume, 6);
            r.got == [e] && r.size == -1
  {
    var q0 := Step(q, Enqueue(e));
    assert Times(q0, Produce, 2).prod == PWriteFn(0);
    var q1 := Times(q0, Produce, 5);
    assert Times(q0, Produce, 4).prod == PStoreTail(0);
    var q2 := Step(q1, Dequeue);
    assert Times(q2, Consume, 2).cons == CReadFn(0);
    assert Times(q2, Consume, 4).cons == CStoreHead(0, e.fn, e.state);
    assert Times(q2, Consume, 5).cons == CSubSize(e.fn, e.state);
  }
}
