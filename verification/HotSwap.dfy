/** Hot swap of a running cell: descriptors, the cell table, and the two counter cells. */
module HotSwap {
  import opened Util
  import opened Bytes
  import opened Serialize

  /** A cell's heap state: its 64-bit fields in order. */
  type CellState = seq<Word>

  /**
   A cell descriptor. Function pointers may be absent. `save` yields the bytes written to the
   serializer; `migrate` gets the old state and those bytes, or none when there is no save, and
   yields nothing when a read past the end stops the program.
   */
  datatype Desc = Desc(
    typeHash: string, caps: bv64,
    alloc: Option<() -> CellState>,
    step: Option<CellState -> CellState>,
    save: Option<CellState -> seq<Byte>>,
    migrate: Option<(CellState, Option<seq<Byte>>) -> Option<CellState>>)

  datatype Cell = Cell(desc: Desc, state: Option<CellState>)

  const BUFFER: nat := 4096

  /** Every capability in `a` is in `b`. */
  predicate Within(a: bv64, b: bv64) {
    a & b == a
  }

  lemma WithinReflexive(a: bv64)
    ensures Within(a, a)
  {
  }

  lemma WithinTransitive(a: bv64, b: bv64, c: bv64)
    requires Within(c, b) && Within(b, a)
    ensures Within(c, a)
  {
  }

  /** Same type hash, and the new cell needs no capability the old one did not. */
  predicate CanReplace(old_: Desc, new_: Desc) {
    old_.typeHash == new_.typeHash && Within(new_.caps, old_.caps)
  }

  datatype SwapResult = Crashed | Done(ok: bool, cell: Cell)

  /** The new cell's state: migrated through the save bytes, or raw, or absent. */
  function Migrated(c: Cell, d: Desc): Option<Option<CellState>> {
    if c.state.Some? && c.desc.save.Some? && d.migrate.Some? then
      var bytes := c.desc.save.value(c.state.value);
      if |bytes| > BUFFER then None
      else
        var s :- d.migrate.value(c.state.value, Some(bytes));
        Some(Some(s))
    else if c.state.Some? && d.migrate.Some? then
      var s :- d.migrate.value(c.state.value, None);
      Some(Some(s))
    else Some(None)
  }

  function SwapSpec(c: Cell, d: Desc): SwapResult {
    if !CanReplace(c.desc, d) then Done(false, c)
    else
      match Migrated(c, d)
      case None => Crashed
      case Some(s) => Done(true, Cell(d, s))
  }

  /** A run on one cell: steps and swap attempts; a crash ends it. */
  datatype Event = Step | Swap(d: Desc)

  function StepSpec(c: Cell): Cell {
    if c.desc.step.Some? && c.state.Some? then c.(state := Some(c.desc.step.value(c.state.value))) else c
  }

  function Run(c: Cell, es: seq<Event>): Option<Cell>
    decreases |es|
  {
    if es == [] then Some(c)
    else
      match es[0]
      case Step => Run(StepSpec(c), es[1..])
      case Swap(d) =>
        match SwapSpec(c, d)
        case Crashed => None
        case Done(_, c') => Run(c', es[1..])
  }

  /** For any descriptors: a refused swap changes nothing, an accepted one keeps the type hash
      and needs no new capability. */
  lemma SwapKeeps(c: Cell, d: Desc)
    ensures SwapSpec(c, d) == Done(false, c) <==> !CanReplace(c.desc, d)
    ensures SwapSpec(c, d).Done? ==>
              var c' := SwapSpec(c, d).cell;
              && c'.desc.typeHash == c.desc.typeHash && Within(c'.desc.caps, c.desc.caps)
              && (SwapSpec(c, d).ok <==> CanReplace(c.desc, d)) && (SwapSpec(c, d).ok ==> c'.desc == d)
  {
    hide Migrated, Within;
    WithinReflexive(c.desc.caps);
  }

  /** A replacement with another type hash or a capability the old cell did not require is
      refused and changes nothing; every other one is tried. */
  lemma SwapRefused(c: Cell, d: Desc)
    ensures SwapSpec(c, d) == Done(false, c) <==> c.desc.typeHash != d.typeHash || d.caps & c.desc.caps != d.caps
  {
    hide Migrated, Within;
    WithinMeans(d.caps, c.desc.caps);
  }

  /**
   What an accepted swap leaves: the new descriptor, with the state that its migration makes of
   the old cell's save, or of the raw state when there is no save, and no state when there was
   none or nothing migrates it. A save over 4096 bytes, or a migration that reads past its end,
   stops the program.
   */
  lemma SwapAccepted(c: Cell, d: Desc)
    requires c.desc.typeHash == d.typeHash && d.caps & c.desc.caps == d.caps
    ensures c.state.None? || d.migrate.None? ==> SwapSpec(c, d) == Done(true, Cell(d, None))
    ensures c.state.Some? && d.migrate.Some? && c.desc.save.None? ==>
              var s := d.migrate.value(c.state.value, None);
              SwapSpec(c, d) == if s.None? then Crashed else Done(true, Cell(d, s))
    ensures c.state.Some? && d.migrate.Some? && c.desc.save.Some? ==>
              var bytes := c.desc.save.value(c.state.value);
              var s := d.migrate.value(c.state.value, Some(bytes));
              SwapSpec(c, d) == if |bytes| > 4096 || s.None? then Crashed else Done(true, Cell(d, s))
  {
    hide Within;
    WithinMeans(d.caps, c.desc.caps);
  }

  lemma WithinMeans(a: bv64, b: bv64)
    ensures Within(a, b) <==> a & b == a
  {
  }

  /** Over any run of steps and swap attempts with any descriptors, the type hash never changes and the required capabilities only shrink. */
  lemma {:induction false} RunKeeps(c: Cell, es: seq<Event>)
    requires Run(c, es).Some?
    ensures Run(c, es).value.desc.typeHash == c.desc.typeHash
    ensures Within(Run(c, es).value.desc.caps, c.desc.caps)
    decreases |es|
  {
    hide SwapSpec, StepSpec, Within, CanReplace;
    if es == [] {
      WithinReflexive(c.desc.caps);
    } else if es[0].Step? {
      StepKeepsDesc(c);
      RunKeeps(StepSpec(c), es[1..]);
    } else {
      SwapKeeps(c, es[0].d);
      var c' := SwapSpec(c, es[0].d).cell;
      RunKeeps(c', es[1..]);
      WithinTransitive(c.desc.caps, c'.desc.caps, Run(c, es).value.desc.caps);
    }
  }

  lemma StepKeepsDesc(c: Cell)
    ensures StepSpec(c).desc == c.desc
  {
  }

  // ----- the counter cells -----

  const CAP_ENV: bv64 := 1

  function WordAt(s: CellState, i: nat): Word {
    if i < |s| then s[i] else 0
  }

  function V1Save(s: CellState): seq<Byte> {
    ToLe(WordAt(s, 0), 8)
  }

  function V2Save(s: CellState): seq<Byte> {
    ToLe(WordAt(s, 0), 8) + ToLe(WordAt(s, 1), 8)
  }

  /** `v1_migrate`: the first word of the bytes. */
  function V1Migrate(old_: CellState, d: Option<seq<Byte>>): Option<CellState> {
    var bytes :- d;
    var (n, _) :- DecodeU64(bytes, 0);
    Some([n])
  }

  /** `v2_migrate`: the first word of the bytes, and a bonus of 100. */
  function V2Migrate(old_: CellState, d: Option<seq<Byte>>): Option<CellState> {
    var bytes :- d;
    var (n, _) :- DecodeU64(bytes, 0);
    Some([n, 100])
  }

  const V1: Desc := Desc("counter_cell", CAP_ENV,
                         Some(() => [0]),
                         Some((s: CellState) => [Wrap64(WordAt(s, 0) + 1)]),
                         Some(V1Save), Some(V1Migrate))

  const V2: Desc := Desc("counter_cell", 0,
                         Some(() => [0, 100]),
                         Some((s: CellState) => [Wrap64(WordAt(s, 0) + 10), WordAt(s, 1)]),
                         Some(V2Save), Some(V2Migrate))

  datatype Op = Tick | Upgrade | Downgrade

  function EventOf(op: Op): Event {
    match op
    case Tick => Step
    case Upgrade => Swap(V2)
    case Downgrade => Swap(V1)
  }

  /** The cell runs version 1 or 2 with its state allocated. */
  ghost predicate Counting(c: Cell, n: Word) {
    (c.desc == V1 && c.state == Some([n])) || (c.desc == V2 && c.state == Some([n, 100]))
  }

  lemma FirstWord(n: Word, rest: seq<Byte>)
    ensures DecodeU64(ToLe(n, 8) + rest, 0) == Some((n, 8))
  {
    assert (ToLe(n, 8) + rest)[0..8] == ToLe(n, 8);
    Le8RoundTrip(n);
  }

  /** What one operation does to a counting cell, and that version 2 never goes back to 1. */
  lemma CounterStep(c: Cell, n: Word, op: Op)
    requires Counting(c, n)
    ensures match op
            case Tick => Counting(StepSpec(c), Wrap64(n + if c.desc == V1 then 1 else 10)) && StepSpec(c).desc == c.desc
            case Upgrade => SwapSpec(c, V2) == Done(true, Cell(V2, Some([n, 100])))
            case Downgrade => SwapSpec(c, V1) == if c.desc == V1 then Done(true, Cell(V1, Some([n]))) else Done(false, c)
  {
    FirstWord(n, []);
    assert ToLe(n, 8) + [] == ToLe(n, 8);
    FirstWord(n, ToLe(100, 8));
    assert V1.caps == 1 && V2.caps == 0;
    VersionsDiffer();
    hide ToLe, DecodeU64;
    match op
    case Tick =>
    case Upgrade => CapsOf();
    case Downgrade => CapsOf();
  }

  lemma VersionsDiffer()
    ensures V1 != V2
  {
    assert V1.caps != V2.caps;
  }

  lemma CapsOf()
    ensures CanReplace(V1, V1) && CanReplace(V1, V2) && CanReplace(V2, V2) && !CanReplace(V2, V1)
  {
  }

  /** Steps taken under each version, given whether version 2 runs already. */
  function Ticks(two: bool, ops: seq<Op>): (r: (nat, nat))
    decreases |ops|
  {
    if ops == [] then (0, 0)
    else
      match ops[0]
      case Tick =>
        var (a, b) := Ticks(two, ops[1..]);
        if two then (a, b + 1) else (a + 1, b)
      case Upgrade => Ticks(true, ops[1..])
      case Downgrade => Ticks(two, ops[1..])
  }

  function Events(ops: seq<Op>): (r: seq<Event>)
    ensures |r| == |ops|
  {
    if ops == [] then [] else [EventOf(ops[0])] + Events(ops[1..])
  }

  lemma WrapAdd(n: int, k: int)
    ensures Wrap64(Wrap64(n) + k) == Wrap64(n + k)
  {
  }

  /** Over any run of steps and swap attempts in either direction, a counting cell never crashes, its counter is the steps under V1 plus ten
      times those under V2, modulo 2^64, and under V2 the bonus is 100. */
  lemma {:induction false} CounterRuns(c: Cell, n: Word, ops: seq<Op>)
    requires Counting(c, n)
    ensures Run(c, Events(ops)).Some?
    ensures var (a, b) := Ticks(c.desc == V2, ops);
            Counting(Run(c, Events(ops)).value, Wrap64(n + a + 10 * b))
    ensures c.desc == V2 || Upgrade in ops <==> Run(c, Events(ops)).value.desc == V2
    decreases |ops|
  {
    hide StepSpec, SwapSpec;
    VersionsDiffer();
    if ops != [] {
      CounterStep(c, n, ops[0]);
      assert Events(ops)[1..] == Events(ops[1..]);
      assert ops == [ops[0]] + ops[1..];
      var rest := ops[1..];
      match ops[0] {
        case Tick =>
          var d := if c.desc == V1 then 1 else 10;
          CounterRuns(StepSpec(c), Wrap64(n + d), rest);
          var (a, b) := Ticks(c.desc == V2, rest);
          WrapAdd(n + d, a + 10 * b);
        case Upgrade => CounterRuns(Cell(V2, Some([n, 100])), n, rest);
        case Downgrade => CounterRuns(if c.desc == V1 then Cell(V1, Some([n])) else c, n, rest);
      }
    }
  }

  // ----- the table -----

  const MAX_CELLS: nat := 64

  /** The loaded cells, addressed by ids from 1. */
  class CellTable {
    var cells: seq<Cell>

    ghost predicate Valid()
      reads this
    {
      |cells| <= MAX_CELLS
    }

    constructor ()
      ensures Valid() && cells == []
    {
      cells := [];
    }

    /** Registers a loaded descriptor, without state; the id is its position. */
    method Load(d: Desc) returns (id: Option<nat>)
      requires Valid()
      modifies this
      ensures Valid() && (id.None? <==> |old(cells)| == 64)
      ensures id.None? ==> cells == old(cells)
      ensures id.Some? ==> id.value == |cells| && cells == old(cells) + [Cell(d, None)]
    {
      if |cells| >= MAX_CELLS {
        return None;
      }
      cells := cells + [Cell(d, None)];
      id := Some(|cells|);
    }

    /** Allocates once; a second call finds the state already there. */
    method AllocState(id: nat) returns (s: Option<CellState>)
      requires Valid()
      modifies this
      ensures Valid() && |cells| == |old(cells)|
      ensures (id < 1 || id > |cells|) ==> s.None? && cells == old(cells)
      ensures 1 <= id <= |cells| ==>
                var c := old(cells)[id - 1];
                var c' := if c.state.None? && c.desc.alloc.Some? then c.(state := Some(c.desc.alloc.value())) else c;
                cells == old(cells)[id - 1 := c'] && s == (if c.desc.alloc.Some? then c'.state else None)
    {
      if id < 1 || id > |cells| {
        return None;
      }
      var c := cells[id - 1];
      if c.desc.alloc.None? {
        return None;
      }
      if c.state.None? {
        c := c.(state := Some(c.desc.alloc.value()));
        cells := cells[id - 1 := c];
      }
      s := c.state;
    }

    method RunStep(id: nat)
      requires Valid()
      modifies this
      ensures Valid()
      ensures cells == if 1 <= id <= |old(cells)| then old(cells)[id - 1 := StepSpec(old(cells)[id - 1])] else old(cells)
    {
      if id < 1 || id > |cells| {
        return;
      }
      var c := cells[id - 1];
      if c.desc.step.None? || c.state.None? {
        return;
      }
      cells := cells[id - 1 := c.(state := Some(c.desc.step.value(c.state.value)))];
    }

    /** `cell_swap`: refuse, or save, migrate and replace; none when the serializer's or the
        deserializer's assertion stops the program. */
    method Swap(id: nat, d: Desc) returns (ok: Option<bool>)
      requires Valid()
      modifies this
      ensures Valid() && |cells| == |old(cells)|
      ensures (id < 1 || id > |cells|) ==> ok == Some(false) && cells == old(cells)
      ensures 1 <= id <= |cells| ==>
                match SwapSpec(old(cells)[id - 1], d)
                case Crashed => ok.None?
                case Done(b, c) => ok == Some(b) && cells == old(cells)[id - 1 := c]
    {
      if id < 1 || id > |cells| {
        return Some(false);
      }
      var c := cells[id - 1];
      if !CanReplace(c.desc, d) {
        return Some(false);
      }
      var state: Option<CellState> := None;
      if c.state.Some? && c.desc.save.Some? && d.migrate.Some? {
        var bytes := c.desc.save.value(c.state.value);
        if |bytes| > BUFFER {
          return None;
        }
        state := d.migrate.value(c.state.value, Some(bytes));
        if state.None? {
          return None;
        }
      } else if c.state.Some? && d.migrate.Some? {
        state := d.migrate.value(c.state.value, None);
        if state.None? {
          return None;
        }
      }
      cells := cells[id - 1 := Cell(d, state)];
      ok := Some(true);
    }
  }
}
