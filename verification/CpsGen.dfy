/** What the CPS compiler emits for a tree: code for expressions, blocks for statements. */
module CpsGen {
  import opened Util
  import opened Bytes
  import opened CpsFormat
  import opened CpsMachine
  import opened CpsSemantics
  import opened CpsGate

  // ----- expressions: straight-line code over fresh registers -----

  datatype Code = Code(ins: seq<Instr>, val: nat, next: nat)
  datatype Codes = Codes(ins: seq<Instr>, vals: seq<nat>, next: nat)

  type Vars = map<string, nat>

  function FieldStores(vals: seq<nat>, p: nat, i: nat): seq<Instr>
    requires i >= 1
    decreases |vals| - i
  {
    if i >= |vals| then []
    else [StoreI(vals[i], p, Off32((i - 1) * 8))] + FieldStores(vals, p, i + 1)
  }

  function TextStores(s: seq<Byte>, p: nat, i: nat, n: nat): seq<Instr>
    decreases |s| - i
  {
    if i >= |s| then []
    else [Iconst(n, s[i]), Store8(n, p, Off32(i))] + TextStores(s, p, i + 1, n + 1)
  }

  function GenText(s: seq<Byte>, n: nat): Code {
    var p, m := n + 1, n + 2 + |s|;
    Code([Iconst(n, Wrap64(if |s| > 1 then |s| else 1)), CallI(p, ALLOC, [n])] +
         TextStores(s, p, 0, n + 2) +
         [Iconst(m, 16), CallI(m + 1, ALLOC, [m]), Iconst(m + 2, Wrap64(|s|)),
          StoreI(p, m + 1, 0), StoreI(m + 2, m + 1, 8)],
         m + 1, m + 3)
  }

  function GenCall(f: string, a: Codes): Code {
    Code(a.ins + [CallI(a.next, f, a.vals)], a.next, a.next + 1)
  }

  function GenSlotGet(a: Codes): Option<Code> {
    if |a.vals| < 2 then None
    else Some(Code(a.ins + [Arith(a.next, Add, a.vals[0], a.vals[1]), LoadI(a.next + 1, a.next)],
                   a.next + 1, a.next + 2))
  }

  function GenRecord(a: Codes): Option<Code> {
    if |a.vals| < 1 then None
    else Some(Code(a.ins + [CallI(a.next, ALLOC, [a.vals[0]])] + FieldStores(a.vals, a.next, 1),
                   a.next, a.next + 1))
  }

  function GenUnion(a: Codes): Option<Code> {
    if |a.vals| < 2 then None
    else Some(Code(a.ins + [CallI(a.next, ALLOC, [a.vals[0]]), StoreI(a.vals[1], a.next, 0)] +
                   FieldStores(a.vals, a.next, 2),
                   a.next, a.next + 1))
  }

  /** A call in expression position. Too few arguments for a builtin is an index panic. */
  function GenApp(f: string, a: Codes): Option<Code> {
    if IsSlotGet(f) then GenSlotGet(a)
    else if f == RECORD_NEW then GenRecord(a)
    else if f == UNION_NEW then GenUnion(a)
    else Some(GenCall(f, a))
  }

  /** A call in tail position, which has no inline union constructor. */
  function GenTailApp(f: string, a: Codes): Option<Code> {
    if IsSlotGet(f) then GenSlotGet(a)
    else if f == RECORD_NEW then GenRecord(a)
    else Some(GenCall(f, a))
  }

  function GenBin(op: BinOp, x: Code, y: Code): Code {
    if op in {Add, Sub, Mul} then
      Code(x.ins + y.ins + [Arith(y.next, op, x.val, y.val)], y.next, y.next + 1)
    else
      Code(x.ins + y.ins + [Icmp(y.next, op, x.val, y.val), Uextend(y.next + 1, y.next)], y.next + 1, y.next + 2)
  }

  function GenExpr(c: Ctx, vars: Vars, e: Expr, n: nat): Option<Code> {
    match e
    case Const(w) => Some(Code([Iconst(n, w)], n, n + 1))
    case Var(x) => if x in vars then Some(Code([UseVar(n, vars[x])], n, n + 1)) else None
    case App(f, args) =>
      var a :- GenArgs(c, vars, args, n);
      if Permitted(c, f) then GenApp(f, a) else None
    case Bin(op, a, b) =>
      var x :- GenExpr(c, vars, a, n);
      var y :- GenExpr(c, vars, b, x.next);
      Some(GenBin(op, x, y))
    case Not(a) =>
      var x :- GenExpr(c, vars, a, n);
      Some(Code(x.ins + [Bnot(x.next, x.val)], x.next, x.next + 1))
    case Load(a) =>
      var x :- GenExpr(c, vars, a, n);
      Some(Code(x.ins + [LoadI(x.next, x.val)], x.next, x.next + 1))
    case Text(s) => Some(GenText(s, n))
  }

  function GenArgs(c: Ctx, vars: Vars, es: List<Expr>, n: nat): Option<Codes> {
    match es
    case Nil => Some(Codes([], [], n))
    case Cons(e, rest) =>
      var x :- GenExpr(c, vars, e, n);
      var xs :- GenArgs(c, vars, rest, x.next);
      Some(Codes(x.ins + xs.ins, [x.val] + xs.vals, xs.next))
  }

  function GenResult(c: Ctx, vars: Vars, e: Expr, n: nat): Option<Code> {
    if e.App? then
      var a :- GenArgs(c, vars, e.args, n);
      if Permitted(c, e.callee) then GenTailApp(e.callee, a) else None
    else GenExpr(c, vars, e, n)
  }

  /** A branch condition: the value compared with zero. */
  function GenTest(c: Ctx, vars: Vars, e: Expr, n: nat): Option<Code> {
    var x :- GenExpr(c, vars, e, n);
    Some(Code(x.ins + [Iconst(x.next, 0), Icmp(x.next + 1, Ne, x.val, x.next)], x.next + 1, x.next + 2))
  }

  // ----- statements: blocks -----

  function Empties(n: nat): (s: seq<seq<Instr>>)
    ensures |s| == n && forall i | 0 <= i < n :: s[i] == []
  {
    seq(n, i => [])
  }

  /** The block manager and builder: created blocks, the current one, the terminated flag, the
      register and variable counters, the flat variable map and the log of entered blocks. */
  datatype GenState = GenState(
    blocks: seq<seq<Instr>>, cur: nat, terminated: bool,
    next: nat, vars: Vars, nvars: nat, entered: seq<nat>)
  {
    function Emit(ins: seq<Instr>, next': nat): GenState
      requires cur < |blocks|
    {
      this.(blocks := blocks[cur := blocks[cur] + ins], next := next')
    }

    function Create(n: nat): GenState {
      this.(blocks := blocks + Empties(n))
    }

    function Switch(b: nat): GenState
      requires b < |blocks|
    {
      this.(cur := b, terminated := false, entered := entered + [b])
    }

    /** Emits `ins`, a terminator last, and raises the flag. */
    function Close(ins: seq<Instr>, next': nat): GenState
      requires cur < |blocks|
    {
      Emit(ins, next').(terminated := true)
    }

    /** `emit_jump`, and `ensure_terminated` with a merge block. */
    function EndWith(target: nat): GenState
      requires cur < |blocks|
    {
      if terminated then this else Close([Jump(target)], next)
    }

    /** `def_var`, declaring the variable on first use. */
    function Assign(x: string, v: nat): GenState
      requires cur < |blocks|
    {
      if x in vars then Emit([DefVar(vars[x], v)], next)
      else Emit([DefVar(nvars, v)], next).(vars := vars[x := nvars], nvars := nvars + 1)
    }
  }

  type Gen = g: GenState | g.cur < |g.blocks| witness GenState([[]], 0, false, 0, map[], 0, [])

  function GenIf(c: Ctx, s: Stmt, g: Gen): (r: Option<Gen>)
    requires s.If?
    ensures r.Some? ==> |g.blocks| <= |r.value.blocks|
    decreases s, 0
  {
    var n := |g.blocks|;
    var k :- GenTest(c, g.vars, s.test, g.next);
    var g1: Gen := g.Create(3).Close(k.ins + [Brif(k.val, n, n + 1)], k.next).Switch(n);
    var g2 :- GenStmts(c, s.thn, g1);
    var g3: Gen := g2.EndWith(n + 2).Switch(n + 1);
    var g4 :- GenStmts(c, s.els, g3);
    Some(g4.EndWith(n + 2).Switch(n + 2))
  }

  function GenWhile(c: Ctx, s: Stmt, g: Gen): (r: Option<Gen>)
    requires s.While?
    ensures r.Some? ==> |g.blocks| <= |r.value.blocks|
    decreases s, 0
  {
    var n := |g.blocks|;
    var g1: Gen := g.Create(3).EndWith(n).Switch(n);
    var k :- GenTest(c, g1.vars, s.test, g1.next);
    var g2: Gen := g1.Close(k.ins + [Brif(k.val, n + 1, n + 2)], k.next).Switch(n + 1);
    var g3 :- GenStmts(c, s.body, g2);
    Some(g3.EndWith(n).Switch(n + 2))
  }

  function GenCase(c: Ctx, s: Stmt, g: Gen): (r: Option<Gen>)
    requires s.Case?
    ensures r.Some? ==> |g.blocks| <= |r.value.blocks|
    decreases s, 0
  {
    var n := |g.blocks|;
    var k :- GenExpr(c, g.vars, s.subject, g.next);
    var g1: Gen := g.Emit(k.ins, k.next).Create(1);
    var g2 :- GenArms(c, s.arms, k.val, n, g1);
    var g3 :- GenStmts(c, s.dflt, g2);
    Some(g3.EndWith(n).Switch(n))
  }

  /** The compare chain of a case: register `v` holds the subject, block `merge` follows. */
  function GenArms(c: Ctx, arms: List<Arm>, v: nat, merge: nat, g: Gen): (r: Option<Gen>)
    ensures r.Some? ==> |g.blocks| <= |r.value.blocks|
    decreases arms, 2
  {
    match arms
    case Nil => Some(g)
    case Cons(a, rest) =>
      var n, z := |g.blocks|, g.next;
      var g1: Gen := g.Create(2).Close([Iconst(z, a.val), Icmp(z + 1, Eq, v, z), Brif(z + 1, n, n + 1)], z + 2).Switch(n);
      var g2 :- GenStmts(c, a.body, g1);
      GenArms(c, rest, v, merge, g2.EndWith(merge).Switch(n + 1))
  }

  function GenStmt(c: Ctx, s: Stmt, g: Gen): (r: Option<Gen>)
    ensures r.Some? ==> |g.blocks| <= |r.value.blocks|
    decreases s, 1
  {
    match s
    case Return(e) =>
      var k :- GenResult(c, g.vars, e, g.next);
      Some(g.Close(k.ins + [Ret(k.val)], k.next))
    case If(_, _, _) => GenIf(c, s, g)
    case While(_, _) => GenWhile(c, s, g)
    case Case(_, _, _) => GenCase(c, s, g)
    case Let(x, e) =>
      var k :- GenExpr(c, g.vars, e, g.next);
      Some(g.Emit(k.ins, k.next).Assign(x, k.val))
    case Store(p, e) =>
      var k :- GenExpr(c, g.vars, p, g.next);
      var l :- GenExpr(c, g.vars, e, k.next);
      Some(g.Emit(k.ins + l.ins + [StoreI(l.val, k.val, 0)], l.next))
    case Discard(e) =>
      var k :- GenExpr(c, g.vars, e, g.next);
      Some(g.Emit(k.ins, k.next))
  }

  /** A list stops as soon as the current block is terminated. */
  function GenStmts(c: Ctx, ss: List<Stmt>, g: Gen): (r: Option<Gen>)
    ensures r.Some? ==> |g.blocks| <= |r.value.blocks|
    decreases ss, 1
  {
    if ss.Nil? || g.terminated then Some(g)
    else
      var g1 :- GenStmt(c, ss.head, g);
      GenStmts(c, ss.tail, g1)
  }

  // ----- functions -----

  function ParamVars(ps: seq<string>, n: nat): Vars
    requires n <= |ps|
  {
    if n == 0 then map[] else ParamVars(ps, n - 1)[ps[n - 1] := n - 1]
  }

  function ParamCode(n: nat): (s: seq<Instr>)
    ensures |s| == n
  {
    seq(n, i requires 0 <= i < n => DefVar(i, i))
  }

  /** The entry block: parameters arrive in registers 0, 1, ... and become variables. */
  function Entry(ps: seq<string>): Gen {
    GenState([ParamCode(|ps|)], 0, false, |ps|, ParamVars(ps, |ps|), |ps|, [0])
  }

  /** `ensure_terminated(None)`: falling off the end returns zero. */
  function Finish(g: Gen): Gen {
    if g.terminated then g else g.Close([Iconst(g.next, 0), Ret(g.next)], g.next + 1)
  }

  function GenFun(c: Ctx, ps: seq<string>, body: List<Stmt>): Option<Gen> {
    var g :- GenStmts(c, body, Entry(ps));
    Some(Finish(g))
  }
}
