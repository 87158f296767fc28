/**
 The block machine the CPS compiler targets: 64-bit wrapping words, a byte heap, SSA
 registers that must be written before they are read, mutable variables that start at zero,
 and blocks of instructions ended by jump, brif or return. Calls are answered by an
 oracle and logged.
 */
module CpsMachine {
  import opened Util
  import opened Bytes
  import opened CpsFormat

  // ----- memory -----

  type Heap = map<Word, Byte>

  function PeekByte(h: Heap, a: Word): Byte {
    if a in h then h[a] else 0
  }

  function Peek(h: Heap, a: Word, n: nat): (s: seq<Byte>)
    ensures |s| == n
    decreases n
  {
    if n == 0 then [] else [PeekByte(h, a)] + Peek(h, Wrap64(a + 1), n - 1)
  }

  function Poke(h: Heap, a: Word, s: seq<Byte>): Heap
    decreases |s|
  {
    if s == [] then h else Poke(h[a := s[0]], Wrap64(a + 1), s[1..])
  }

  function Load64(h: Heap, a: Word): Word {
    Le8(Peek(h, a, 8))
  }

  function Store64(h: Heap, a: Word, w: Word): Heap {
    Poke(h, a, ToLe(w, 8))
  }

  /** The sign-extended value of `n as i32`. */
  function Off32(n: int): int {
    (n + 0x8000_0000) % 0x1_0000_0000 - 0x8000_0000
  }

  function Offset(p: Word, off: int): Word {
    Wrap64(p + off)
  }

  // ----- calls -----

  datatype Event = Event(callee: string, args: seq<Word>, result: Word)

  datatype World = World(heap: Heap, trace: seq<Event>)

  /** Any behaviour of the code outside the function: it sees the whole history and may change the heap. */
  type Oracle = (World, string, seq<Word>) -> (Word, Heap)

  function CallOut(o: Oracle, w: World, f: string, args: seq<Word>): (Word, World) {
    var (r, h) := o(w, f, args);
    (r, World(h, w.trace + [Event(f, args, r)]))
  }

  // ----- arithmetic -----

  function Signed(w: Word): int {
    if w < 0x8000_0000_0000_0000 then w else w - 0x1_0000_0000_0000_0000
  }

  function Flag(b: bool): Word {
    if b then 1 else 0
  }

  function WordOp(op: BinOp, a: Word, b: Word): Word {
    match op
    case Add => Wrap64(a + b)
    case Sub => Wrap64(a - b)
    case Mul => Wrap64(a * b)
    case Lt => Flag(Signed(a) < Signed(b))
    case Gt => Flag(Signed(a) > Signed(b))
    case Le => Flag(Signed(a) <= Signed(b))
    case Ge => Flag(Signed(a) >= Signed(b))
    case Eq => Flag(a == b)
    case Ne => Flag(a != b)
  }

  function WordNot(a: Word): Word {
    0xFFFF_FFFF_FFFF_FFFF - a
  }

  /** A number the word stands for when it is read as signed. */
  predicate Signed64(x: int) {
    -0x8000_0000_0000_0000 <= x < 0x8000_0000_0000_0000
  }

  lemma WrapSigned(x: int)
    requires Signed64(x)
    ensures Wrap64(x) == (if x >= 0 then x else x + 0x1_0000_0000_0000_0000) && Signed(Wrap64(x)) == x
  {
  }

  /** Comparisons are those of signed numbers. */
  lemma ComparisonsSigned(x: int, y: int)
    requires Signed64(x) && Signed64(y)
    ensures var a, b := Wrap64(x), Wrap64(y);
            && WordOp(Lt, a, b) == (if x < y then 1 else 0) && WordOp(Gt, a, b) == (if x > y then 1 else 0)
            && WordOp(Le, a, b) == (if x <= y then 1 else 0) && WordOp(Ge, a, b) == (if x >= y then 1 else 0)
            && WordOp(Eq, a, b) == (if x == y then 1 else 0) && WordOp(Ne, a, b) == (if x != y then 1 else 0)
  {
    WrapSigned(x);
    WrapSigned(y);
    hide Wrap64, Signed;
  }

  /** Sums, differences, products and complements are those of numbers modulo 2^64. */
  lemma ArithmeticWraps(x: int, y: int)
    requires Signed64(x) && Signed64(y)
    ensures var a, b := Wrap64(x), Wrap64(y);
            && WordOp(Add, a, b) == Wrap64(x + y) && WordOp(Sub, a, b) == Wrap64(x - y)
            && WordOp(Mul, a, b) == Wrap64(x * y) && WordNot(a) == Wrap64(-x - 1)
  {
    SumsWrap(x, y);
    ProductsMean(x, y);
    hide Wrap64;
  }

  lemma SumsWrap(x: int, y: int)
    requires Signed64(x) && Signed64(y)
    ensures var a, b := Wrap64(x), Wrap64(y);
            Wrap64(a + b) == Wrap64(x + y) && Wrap64(a - b) == Wrap64(x - y) && WordNot(a) == Wrap64(-x - 1)
  {
    WrapSigned(x);
    WrapSigned(y);
  }

  lemma ProductsMean(x: int, y: int)
    requires Signed64(x) && Signed64(y)
    ensures WordOp(Mul, Wrap64(x), Wrap64(y)) == Wrap64(x * y)
  {
    var m := 0x1_0000_0000_0000_0000;
    var p, q := (if x >= 0 then 0 else 1), (if y >= 0 then 0 else 1);
    assert Wrap64(x) == x + m * p && Wrap64(y) == y + m * q;
    assert (x + m * p) * (y + m * q) == x * y + m * (x * q + p * y + m * p * q);
    WrapMultiple(x * y, x * q + p * y + m * p * q);
  }

  lemma WrapMultiple(n: int, k: int)
    ensures Wrap64(n + 0x1_0000_0000_0000_0000 * k) == Wrap64(n)
  {
  }

  /** Words lie in memory least significant byte first. */
  lemma WordBytes(h: Heap, a: Word, w: Word)
    requires a + 8 <= TWO64
    ensures PeekByte(Store64(h, a, w), a) == w % 256
  {
    var s := ToLe(w, 8);
    assert s[0] == w % 256;
    PokeFirst(h, a, s);
  }

  lemma {:induction false} PokeKeeps(h: Heap, a: Word, s: seq<Byte>, x: Word)
    requires x < a && a + |s| <= TWO64
    ensures PeekByte(Poke(h, a, s), x) == PeekByte(h, x)
    decreases |s|
  {
    if |s| > 1 {
      PokeKeeps(h[a := s[0]], a + 1, s[1..], x);
    }
  }

  lemma PokeFirst(h: Heap, a: Word, s: seq<Byte>)
    requires s != [] && a + |s| <= TWO64
    ensures PeekByte(Poke(h, a, s), a) == s[0]
  {
    if |s| > 1 {
      PokeKeeps(h[a := s[0]], a + 1, s[1..], a);
    }
  }

  // ----- instructions -----

  datatype Instr =
    | Iconst(d: nat, w: Word)
    | UseVar(d: nat, x: nat)
    | DefVar(x: nat, v: nat)
    | Arith(d: nat, op: BinOp, a: nat, b: nat)   // iadd, isub, imul
    | Icmp(d: nat, op: BinOp, a: nat, b: nat)
    | Uextend(d: nat, v: nat)
    | Bnot(d: nat, v: nat)
    | LoadI(d: nat, p: nat)
    | StoreI(v: nat, p: nat, off: int)
    | Store8(v: nat, p: nat, off: int)
    | CallI(d: nat, f: string, args: seq<nat>)
    | Jump(target: nat)
    | Brif(c: nat, yes: nat, no: nat)
    | Ret(v: nat)
  {
    predicate Terminator() {
      Jump? || Brif? || Ret?
    }
  }

  type Regs = map<nat, Word>

  datatype MState = MState(regs: Regs, vars: map<nat, Word>, world: World)

  function GetVar(vars: map<nat, Word>, x: nat): Word {
    if x in vars then vars[x] else 0
  }

  predicate AllIn(rs: Regs, vs: seq<nat>) {
    forall i | 0 <= i < |vs| :: vs[i] in rs
  }

  function Values(rs: Regs, vs: seq<nat>): (ws: seq<Word>)
    requires AllIn(rs, vs)
    ensures |ws| == |vs| && forall i | 0 <= i < |vs| :: ws[i] == rs[vs[i]]
  {
    seq(|vs|, i requires 0 <= i < |vs| => rs[vs[i]])
  }

  /** One straight-line instruction; reading an unwritten register has no meaning. */
  function Exec(o: Oracle, i: Instr, m: MState): Option<MState> {
    match i
    case Iconst(d, w) => Some(m.(regs := m.regs[d := w]))
    case UseVar(d, x) => Some(m.(regs := m.regs[d := GetVar(m.vars, x)]))
    case DefVar(x, v) =>
      if v in m.regs then Some(m.(vars := m.vars[x := m.regs[v]])) else None
    case Arith(d, op, a, b) =>
      if a in m.regs && b in m.regs then Some(m.(regs := m.regs[d := WordOp(op, m.regs[a], m.regs[b])])) else None
    case Icmp(d, op, a, b) =>
      if a in m.regs && b in m.regs then Some(m.(regs := m.regs[d := WordOp(op, m.regs[a], m.regs[b])])) else None
    case Uextend(d, v) =>
      if v in m.regs then Some(m.(regs := m.regs[d := m.regs[v]])) else None
    case Bnot(d, v) =>
      if v in m.regs then Some(m.(regs := m.regs[d := WordNot(m.regs[v])])) else None
    case LoadI(d, p) =>
      if p in m.regs then Some(m.(regs := m.regs[d := Load64(m.world.heap, m.regs[p])])) else None
    case StoreI(v, p, off) =>
      if v in m.regs && p in m.regs
      then Some(m.(world := m.world.(heap := Store64(m.world.heap, Offset(m.regs[p], off), m.regs[v])))) else None
    case Store8(v, p, off) =>
      if v in m.regs && p in m.regs
      then Some(m.(world := m.world.(heap := Poke(m.world.heap, Offset(m.regs[p], off), [m.regs[v] % 256])))) else None
    case CallI(d, f, args) =>
      if AllIn(m.regs, args) then
        var (r, w) := CallOut(o, m.world, f, Values(m.regs, args));
        Some(m.(regs := m.regs[d := r], world := w))
      else None
    case _ => None
  }

  /** Straight-line code run from its first instruction to its last. */
  function RunCode(o: Oracle, ins: seq<Instr>, m: MState): Option<MState>
    decreases |ins|
  {
    if ins == [] then Some(m)
    else
      var m1 :- Exec(o, ins[0], m);
      RunCode(o, ins[1..], m1)
  }

  // ----- the machine -----

  datatype Conf = Conf(block: nat, pc: nat, m: MState)

  datatype Run = Running(conf: Conf) | Halted(result: Word, world: World) | Stuck

  type Graph = seq<seq<Instr>>

  function Step(o: Oracle, g: Graph, c: Conf): Run {
    if c.block >= |g| || c.pc >= |g[c.block]| then Stuck
    else
      match g[c.block][c.pc]
      case Jump(t) => Running(Conf(t, 0, c.m))
      case Brif(v, yes, no) =>
        if v in c.m.regs then Running(Conf(if c.m.regs[v] != 0 then yes else no, 0, c.m)) else Stuck
      case Ret(v) =>
        if v in c.m.regs then Halted(c.m.regs[v], c.m.world) else Stuck
      case i =>
        match Exec(o, i, c.m)
        case None => Stuck
        case Some(m) => Running(Conf(c.block, c.pc + 1, m))
  }

  function Steps(o: Oracle, g: Graph, n: nat, r: Run): Run
    decreases n
  {
    if n == 0 || !r.Running? then r else Steps(o, g, n - 1, Step(o, g, r.conf))
  }

  lemma {:induction false} StepsAdd(o: Oracle, g: Graph, a: nat, b: nat, r: Run)
    ensures Steps(o, g, a + b, r) == Steps(o, g, b, Steps(o, g, a, r))
    decreases a
  {
    if a > 0 && r.Running? {
      StepsAdd(o, g, a - 1, b, Step(o, g, r.conf));
    }
  }

  lemma {:induction false} RunConcat(o: Oracle, a: seq<Instr>, b: seq<Instr>, m: MState)
    ensures RunCode(o, a + b, m) ==
            if RunCode(o, a, m).Some? then RunCode(o, b, RunCode(o, a, m).value) else None
    decreases |a|
  {
    hide Exec;
    if a == [] {
      assert a + b == b;
    } else {
      assert (a + b)[0] == a[0] && (a + b)[1..] == a[1..] + b;
      var m1 := Exec(o, a[0], m);
      if m1.Some? {
        RunConcat(o, a[1..], b, m1.value);
      }
    }
  }

  /** Straight-line code lying in a block runs there, instruction by instruction. */
  lemma {:induction false} RunInGraph(o: Oracle, g: Graph, b: nat, pre: seq<Instr>, ins: seq<Instr>, m: MState)
    requires b < |g| && pre + ins <= g[b] && RunCode(o, ins, m).Some?
    ensures Steps(o, g, |ins|, Running(Conf(b, |pre|, m))) ==
            Running(Conf(b, |pre| + |ins|, RunCode(o, ins, m).value))
    decreases |ins|
  {
    if ins != [] {
      var m1 := Exec(o, ins[0], m).value;
      assert g[b][|pre|] == (pre + ins)[|pre|] == ins[0];
      assert (pre + [ins[0]]) + ins[1..] == pre + ins;
      RunInGraph(o, g, b, pre + [ins[0]], ins[1..], m1);
    }
  }
}
