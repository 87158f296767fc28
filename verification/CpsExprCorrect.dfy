/** Emitted expression code computes what the interpreter computes. */
module CpsExprCorrect {
  import opened Util
  import opened Bytes
  import opened CpsFormat
  import opened CpsMachine
  import opened CpsSemantics
  import opened CpsGate
  import opened CpsGen
  import opened CpsWellFormed

  /** The machine's variables hold the environment, by the final variable map. */
  ghost predicate Rel(vs: Vars, env: Env, mv: map<nat, Word>) {
    forall x | x in vs :: Lookup(env, x) == GetVar(mv, vs[x])
  }

  /** Registers below `n` keep their values. */
  ghost predicate Keeps(r: Regs, r': Regs, n: nat) {
    forall k | k in r && k < n :: k in r' && r'[k] == r[k]
  }

  /** Running `ins` from `m` reaches `m'`, which holds `x` in register `v` and `w` outside. */
  ghost predicate Yields(o: Oracle, ins: seq<Instr>, m: MState, n: nat, v: nat, x: Word, w: World, m': MState) {
    && RunCode(o, ins, m) == Some(m')
    && m'.vars == m.vars && m'.world == w
    && v in m'.regs && m'.regs[v] == x
    && Keeps(m.regs, m'.regs, n)
  }

  lemma RunOne(o: Oracle, i: Instr, m: MState)
    ensures RunCode(o, [i], m) == Exec(o, i, m)
  {
    hide Exec;
    if Exec(o, i, m).Some? {
      assert [i][1..] == [];
    }
  }

  lemma RunTwo(o: Oracle, i: Instr, j: Instr, m: MState)
    ensures RunCode(o, [i, j], m) == if Exec(o, i, m).Some? then Exec(o, j, Exec(o, i, m).value) else None
  {
    hide Exec;
    if Exec(o, i, m).Some? {
      assert [i, j][1..] == [j];
      RunOne(o, j, Exec(o, i, m).value);
    }
  }

  lemma RunSnoc(o: Oracle, ins: seq<Instr>, i: Instr, m: MState, m1: MState)
    requires RunCode(o, ins, m) == Some(m1)
    ensures RunCode(o, ins + [i], m) == Exec(o, i, m1)
  {
    hide Exec;
    RunConcat(o, ins, [i], m);
    RunOne(o, i, m1);
  }

  lemma {:induction false} FieldStoresRun(o: Oracle, vals: seq<nat>, p: nat, i: nat, m: MState)
    requires i >= 1 && AllIn(m.regs, vals) && p in m.regs
    ensures RunCode(o, FieldStores(vals, p, i), m) ==
            Some(m.(world := m.world.(heap := StoreFields(m.world.heap, m.regs[p], Values(m.regs, vals), i))))
    decreases |vals| - i
  {
    hide Store64;
    if i < |vals| {
      var st := StoreI(vals[i], p, Off32((i - 1) * 8));
      var m1 := Exec(o, st, m).value;
      assert FieldStores(vals, p, i)[1..] == FieldStores(vals, p, i + 1);
      FieldStoresRun(o, vals, p, i + 1, m1);
    }
  }

  lemma ByteStoreRun(o: Oracle, b: Byte, p: nat, off: int, n: nat, m: MState) returns (m': MState)
    requires p in m.regs && p < n
    ensures RunCode(o, [Iconst(n, b), Store8(n, p, off)], m) == Some(m')
    ensures m'.vars == m.vars && m'.regs == m.regs[n := b]
    ensures m'.world == m.world.(heap := Poke(m.world.heap, Offset(m.regs[p], off), [b]))
  {
    hide Poke, Offset, RunCode;
    RunTwo(o, Iconst(n, b), Store8(n, p, off), m);
    assert b % 256 == b;
    m' := MState(m.regs[n := b], m.vars, m.world.(heap := Poke(m.world.heap, Offset(m.regs[p], off), [b])));
  }

  lemma {:induction false} TextStoresRun(o: Oracle, s: seq<Byte>, p: nat, i: nat, n: nat, m: MState) returns (m': MState)
    requires p in m.regs && p < n
    ensures RunCode(o, TextStores(s, p, i, n), m) == Some(m')
    ensures m'.vars == m.vars && Keeps(m.regs, m'.regs, n)
    ensures m'.world == m.world.(heap := StoreText(m.world.heap, m.regs[p], s, i))
    decreases |s| - i
  {
    hide Poke, Offset, Off32, Exec;
    if i >= |s| {
      m' := m;
    } else {
      var m2 := ByteStoreRun(o, s[i], p, Off32(i), n, m);
      hide RunCode;
      RunConcat(o, [Iconst(n, s[i]), Store8(n, p, Off32(i))], TextStores(s, p, i + 1, n + 1), m);
      m' := TextStoresRun(o, s, p, i + 1, n + 1, m2);
    }
  }

  /** An allocation call, which leaves its pointer in a fresh register. */
  lemma AllocRun(o: Oracle, d: nat, v: nat, m: MState)
    requires v in m.regs
    ensures var (r, w) := CallOut(o, m.world, ALLOC, [m.regs[v]]);
            Exec(o, CallI(d, ALLOC, [v]), m) == Some(m.(regs := m.regs[d := r], world := w))
  {
    assert Values(m.regs, [v]) == [m.regs[v]];
  }

  lemma TextSim(o: Oracle, s: seq<Byte>, n: nat, m: MState) returns (m': MState)
    ensures var k := GenText(s, n);
            var (x, w) := NewSpan(o, m.world, s);
            n <= k.val < k.next && Yields(o, k.ins, m, n, k.val, x, w, m')
  {
    hide TextStores, StoreText, Store64, Poke, Exec, RunCode;
    var size := Wrap64(if |s| > 1 then |s| else 1);
    var p, q := n + 1, n + 2 + |s|;
    var i0, i1 := [Iconst(n, size), CallI(p, ALLOC, [n])], TextStores(s, p, 0, n + 2);
    var b := DataRun(o, n, size, m);
    var d := TextStoresRun(o, s, p, 0, n + 2, b);
    RunConcat(o, i0, i1, m);
    m' := SpanRun(o, p, q, Wrap64(|s|), d);
    RunConcat(o, i0 + i1, SpanCode(p, q, Wrap64(|s|)), m);
  }

  lemma DataRun(o: Oracle, n: nat, size: Word, m: MState) returns (b: MState)
    ensures var (x, w) := CallOut(o, m.world, ALLOC, [size]);
            Yields(o, [Iconst(n, size), CallI(n + 1, ALLOC, [n])], m, n, n + 1, x, w, b)
  {
    var a := m.(regs := m.regs[n := size]);
    AllocRun(o, n + 1, n, a);
    RunTwo(o, Iconst(n, size), CallI(n + 1, ALLOC, [n]), m);
    b := Exec(o, CallI(n + 1, ALLOC, [n]), a).value;
  }

  function SpanCode(p: nat, q: nat, len: Word): seq<Instr> {
    [Iconst(q, 16), CallI(q + 1, ALLOC, [q]), Iconst(q + 2, len), StoreI(p, q + 1, 0), StoreI(q + 2, q + 1, 8)]
  }

  lemma SpanRun(o: Oracle, p: nat, q: nat, len: Word, d: MState) returns (m': MState)
    requires p in d.regs && p < q
    ensures var (x, w) := CallOut(o, d.world, ALLOC, [16]);
            Yields(o, SpanCode(p, q, len), d, q, q + 1, x,
                   w.(heap := Store64(Store64(w.heap, Offset(x, 0), d.regs[p]), Offset(x, 8), len)), m')
  {
    hide Store64, Offset, RunCode;
    var b := DataRun(o, q, 16, d);
    var e := b.(regs := b.regs[q + 2 := len]);
    var i2, i3, i4 := Iconst(q + 2, len), StoreI(p, q + 1, 0), StoreI(q + 2, q + 1, 8);
    var ins := [Iconst(q, 16), CallI(q + 1, ALLOC, [q])];
    RunSnoc(o, ins, i2, d, b);
    m' := StoresRun(o, i3, i4, e);
    RunConcat(o, ins + [i2], [i3, i4], d);
    assert ins + [i2] + [i3, i4] == SpanCode(p, q, len);
  }

  lemma StoresRun(o: Oracle, i: Instr, j: Instr, e: MState) returns (m': MState)
    requires i.StoreI? && j.StoreI? && i.v in e.regs && i.p in e.regs && j.v in e.regs && j.p in e.regs
    ensures RunCode(o, [i, j], e) == Some(m') && m'.regs == e.regs && m'.vars == e.vars
    ensures m'.world == e.world.(heap := Store64(Store64(e.world.heap, Offset(e.regs[i.p], i.off), e.regs[i.v]),
                                                 Offset(e.regs[j.p], j.off), e.regs[j.v]))
  {
    hide Store64, Offset;
    RunTwo(o, i, j, e);
    m' := Exec(o, j, Exec(o, i, e).value).value;
  }

  ghost predicate Below(vals: seq<nat>, n: nat) {
    forall i | 0 <= i < |vals| :: vals[i] < n
  }

  function ObjectCode(a: Codes): seq<Instr>
    requires a.vals != []
  {
    [CallI(a.next, ALLOC, [a.vals[0]])] + FieldStores(a.vals, a.next, 1)
  }

  /** Allocating and storing every slot, on arguments already in registers. */
  lemma ObjectSim(o: Oracle, a: Codes, m1: MState) returns (m': MState)
    requires AllIn(m1.regs, a.vals) && a.vals != [] && Below(a.vals, a.next)
    ensures var (x, w) := NewObject(o, m1.world, Values(m1.regs, a.vals));
            Yields(o, ObjectCode(a), m1, a.next, a.next, x, w, m')
  {
    hide StoreFields, FieldStores, Store64;
    var d, call := a.next, CallI(a.next, ALLOC, [a.vals[0]]);
    AllocRun(o, d, a.vals[0], m1);
    var m2 := Exec(o, call, m1).value;
    var ws := Values(m1.regs, a.vals);
    assert Values(m2.regs, a.vals) == ws;
    RunOne(o, call, m1);
    hide Exec;
    FieldStoresRun(o, a.vals, d, 1, m2);
    RunConcat(o, [call], FieldStores(a.vals, d, 1), m1);
    m' := m2.(world := m2.world.(heap := StoreFields(m2.world.heap, m2.regs[d], ws, 1)));
  }

  lemma ObjectCodeSplit(a: Codes)
    ensures GenRecord(a).Some? ==>
              GenRecord(a) == Some(Code(a.ins + ObjectCode(a), a.next, a.next + 1))
    ensures GenUnion(a).Some? ==>
              GenUnion(a) == Some(Code(a.ins + ObjectCode(a), a.next, a.next + 1))
  {
    hide FieldStores;
    if |a.vals| >= 1 {
      assert GenRecord(a).value.ins == a.ins + ObjectCode(a);
    }
    if |a.vals| >= 2 {
      UnionStores(a.vals, a.next);
      assert GenUnion(a).value.ins == a.ins + ObjectCode(a);
    }
  }

  /** Storing the tag and then the fields is storing every slot in order. */
  lemma UnionStores(vals: seq<nat>, p: nat)
    requires |vals| >= 2
    ensures FieldStores(vals, p, 1) == [StoreI(vals[1], p, 0)] + FieldStores(vals, p, 2)
  {
    assert Off32(0) == 0;
  }

  lemma SlotGetSim(o: Oracle, a: Codes, m1: MState) returns (m': MState)
    requires AllIn(m1.regs, a.vals) && |a.vals| >= 2 && Below(a.vals, a.next)
    ensures var ws := Values(m1.regs, a.vals);
            Yields(o, [Arith(a.next, Add, a.vals[0], a.vals[1]), LoadI(a.next + 1, a.next)], m1, a.next, a.next + 1,
                   Load64(m1.world.heap, WordOp(Add, ws[0], ws[1])), m1.world, m')
  {
    hide Load64, WordOp;
    RunTwo(o, Arith(a.next, Add, a.vals[0], a.vals[1]), LoadI(a.next + 1, a.next), m1);
    var m2 := Exec(o, Arith(a.next, Add, a.vals[0], a.vals[1]), m1).value;
    m' := Exec(o, LoadI(a.next + 1, a.next), m2).value;
  }

  lemma CallSim(o: Oracle, f: string, a: Codes, m1: MState) returns (m': MState)
    requires AllIn(m1.regs, a.vals)
    ensures var (x, w) := CallOut(o, m1.world, f, Values(m1.regs, a.vals));
            Yields(o, [CallI(a.next, f, a.vals)], m1, a.next, a.next, x, w, m')
  {
    RunOne(o, CallI(a.next, f, a.vals), m1);
    m' := Exec(o, CallI(a.next, f, a.vals), m1).value;
  }

  /** Sequencing: code that yields the arguments, then code that uses them. */
  lemma Then(o: Oracle, a: seq<Instr>, b: seq<Instr>, m: MState, m1: MState, m2: MState, n: nat, n1: nat, v: nat, x: Word, w: World)
    requires RunCode(o, a, m) == Some(m1) && m1.vars == m.vars && Keeps(m.regs, m1.regs, n)
    requires Yields(o, b, m1, n1, v, x, w, m2) && n <= n1
    ensures Yields(o, a + b, m, n, v, x, w, m2)
  {
    RunConcat(o, a, b, m);
  }

  /** The code of a call, by kind of callee. */
  lemma AppSim(o: Oracle, f: string, a: Codes, tail: bool, n: nat, m: MState, m1: MState) returns (m': MState)
    requires (if tail then GenTailApp(f, a) else GenApp(f, a)).Some?
    requires RunCode(o, a.ins, m) == Some(m1) && m1.vars == m.vars && Keeps(m.regs, m1.regs, n)
    requires AllIn(m1.regs, a.vals) && n <= a.next && Below(a.vals, a.next)
    ensures var k := (if tail then GenTailApp(f, a) else GenApp(f, a)).value;
            var ws := Values(m1.regs, a.vals);
            var (x, w) := if tail && f == UNION_NEW then CallOut(o, m1.world, f, ws) else Apply(o, m1.world, f, ws);
            n <= k.val < k.next && Yields(o, k.ins, m, n, k.val, x, w, m')
  {
    hide Yields, Keeps, RunCode, Load64, WordOp, NewObject, CallOut, ObjectCode, GenRecord, GenUnion;
    var ws := Values(m1.regs, a.vals);
    if IsSlotGet(f) {
      m' := SlotGetSim(o, a, m1);
      Then(o, a.ins, [Arith(a.next, Add, a.vals[0], a.vals[1]), LoadI(a.next + 1, a.next)], m, m1, m', n, a.next, a.next + 1,
           Load64(m1.world.heap, WordOp(Add, ws[0], ws[1])), m1.world);
    } else if f == RECORD_NEW || (f == UNION_NEW && !tail) {
      RecordArity(a);
      ObjectCodeSplit(a);
      m' := ObjectSim(o, a, m1);
      var (x, w) := NewObject(o, m1.world, ws);
      Then(o, a.ins, ObjectCode(a), m, m1, m', n, a.next, a.next, x, w);
    } else {
      m' := CallSim(o, f, a, m1);
      var (x, w) := CallOut(o, m1.world, f, ws);
      Then(o, a.ins, [CallI(a.next, f, a.vals)], m, m1, m', n, a.next, a.next, x, w);
    }
  }

  lemma RecordArity(a: Codes)
    ensures GenRecord(a).Some? <==> |a.vals| >= 1
    ensures GenUnion(a).Some? <==> |a.vals| >= 2
  {
  }

  lemma BinSim(o: Oracle, op: BinOp, k: Code, l: Code, n: nat, m: MState, m1: MState, m2: MState, x: Word, y: Word)
    returns (m': MState)
    requires Yields(o, k.ins, m, n, k.val, x, m1.world, m1) && Yields(o, l.ins, m1, k.next, l.val, y, m2.world, m2)
    requires n <= k.val < k.next <= l.val < l.next
    ensures var c := GenBin(op, k, l);
            n <= c.val < c.next && Yields(o, c.ins, m, n, c.val, WordOp(op, x, y), m2.world, m')
  {
    hide WordOp;
    RunConcat(o, k.ins, l.ins, m);
    hide RunCode;
    assert m2.regs[k.val] == x;
    if op in {Add, Sub, Mul} {
      var i := Arith(l.next, op, k.val, l.val);
      m' := Exec(o, i, m2).value;
      RunSnoc(o, k.ins + l.ins, i, m, m2);
    } else {
      var i, j := Icmp(l.next, op, k.val, l.val), Uextend(l.next + 1, l.next);
      RunTwo(o, i, j, m2);
      m' := Exec(o, j, Exec(o, i, m2).value).value;
      RunConcat(o, k.ins + l.ins, [i, j], m);
    }
  }

  /** Code for an expression yields its value, heap effects and calls, in fresh registers. */
  lemma {:induction false} ExprSim(o: Oracle, c: Ctx, vars: Vars, vs: Vars, e: Expr, n: nat, env: Env, m: MState) returns (m': MState)
    requires GenExpr(c, vars, e, n).Some? && SubVars(vars, vs) && Rel(vs, env, m.vars)
    ensures var k := GenExpr(c, vars, e, n).value;
            var (x, w) := Eval(o, env, e, m.world);
            n <= k.val < k.next && Yields(o, k.ins, m, n, k.val, x, w, m')
    decreases e
  {
    hide Yields, GenText, NewSpan, GenBin, WordOp, Load64, Permitted, GenApp, Apply, RunCode;
    match e {
      case Const(w) =>
        m' := LeafSim(o, Iconst(n, w), n, w, m);
      case Var(x) =>
        m' := LeafSim(o, UseVar(n, vars[x]), n, Lookup(env, x), m);
      case App(f, args) =>
        var a := GenArgs(c, vars, args, n).value;
        var m1 := ArgsSim(o, c, vars, vs, args, n, env, m);
        m' := AppSim(o, f, a, false, n, m, m1);
      case Bin(op, a, b) =>
        var k := GenExpr(c, vars, a, n).value;
        var l := GenExpr(c, vars, b, k.next).value;
        var m1 := ExprSim(o, c, vars, vs, a, n, env, m);
        YieldsFacts(o, k.ins, m, n, k.val, Eval(o, env, a, m.world).0, Eval(o, env, a, m.world).1, m1);
        var m2 := ExprSim(o, c, vars, vs, b, k.next, env, m1);
        YieldsFacts(o, l.ins, m1, k.next, l.val, Eval(o, env, b, m1.world).0, Eval(o, env, b, m1.world).1, m2);
        m' := BinSim(o, op, k, l, n, m, m1, m2, Eval(o, env, a, m.world).0, Eval(o, env, b, m1.world).0);
      case Not(a) =>
        var k := GenExpr(c, vars, a, n).value;
        var m1 := ExprSim(o, c, vars, vs, a, n, env, m);
        m' := UnarySim(o, Bnot(k.next, k.val), k, n, m, m1, Eval(o, env, a, m.world).0, Eval(o, env, a, m.world).1);
      case Load(a) =>
        var k := GenExpr(c, vars, a, n).value;
        var m1 := ExprSim(o, c, vars, vs, a, n, env, m);
        m' := UnarySim(o, LoadI(k.next, k.val), k, n, m, m1, Eval(o, env, a, m.world).0, Eval(o, env, a, m.world).1);
      case Text(s) =>
        m' := TextSim(o, s, n, m);
    }
  }

  lemma YieldsFacts(o: Oracle, ins: seq<Instr>, m: MState, n: nat, v: nat, x: Word, w: World, m': MState)
    requires Yields(o, ins, m, n, v, x, w, m')
    ensures m'.vars == m.vars && m'.world == w && v in m'.regs && m'.regs[v] == x && RunCode(o, ins, m) == Some(m')
  {
  }

  lemma LeafSim(o: Oracle, i: Instr, n: nat, x: Word, m: MState) returns (m': MState)
    requires i == Iconst(n, x) || (i.UseVar? && i.d == n && GetVar(m.vars, i.x) == x)
    ensures Yields(o, [i], m, n, n, x, m.world, m')
  {
    RunOne(o, i, m);
    m' := m.(regs := m.regs[n := x]);
  }

  lemma UnarySim(o: Oracle, i: Instr, k: Code, n: nat, m: MState, m1: MState, x: Word, w: World) returns (m': MState)
    requires Yields(o, k.ins, m, n, k.val, x, w, m1) && n <= k.val < k.next
    requires i == Bnot(k.next, k.val) || i == LoadI(k.next, k.val)
    ensures Yields(o, k.ins + [i], m, n, k.next, if i.Bnot? then WordNot(x) else Load64(w.heap, x), w, m')
  {
    hide Load64;
    m' := Exec(o, i, m1).value;
    RunSnoc(o, k.ins, i, m, m1);
  }

  ghost predicate YieldsAll(o: Oracle, a: Codes, m: MState, n: nat, m': MState) {
    && RunCode(o, a.ins, m) == Some(m') && m'.vars == m.vars && Keeps(m.regs, m'.regs, n)
    && AllIn(m'.regs, a.vals) && n <= a.next && Below(a.vals, a.next)
  }

  lemma ConsSim(o: Oracle, k: Code, a: Codes, m: MState, n: nat, m1: MState, m2: MState, x: Word)
    requires Yields(o, k.ins, m, n, k.val, x, m1.world, m1) && n <= k.val < k.next
    requires YieldsAll(o, a, m1, k.next, m2)
    ensures var b := Codes(k.ins + a.ins, [k.val] + a.vals, a.next);
            YieldsAll(o, b, m, n, m2) && Values(m2.regs, b.vals) == [x] + Values(m2.regs, a.vals)
  {
    RunConcat(o, k.ins, a.ins, m);
    hide RunCode;
    assert m2.regs[k.val] == x;
  }

  lemma {:induction false} ArgsSim(o: Oracle, c: Ctx, vars: Vars, vs: Vars, es: List<Expr>, n: nat, env: Env, m: MState) returns (m': MState)
    requires GenArgs(c, vars, es, n).Some? && SubVars(vars, vs) && Rel(vs, env, m.vars)
    ensures var a := GenArgs(c, vars, es, n).value;
            YieldsAll(o, a, m, n, m') && EvalArgs(o, env, es, m.world) == (Values(m'.regs, a.vals), m'.world)
    decreases es
  {
    match es
    case Nil =>
      m' := m;
    case Cons(e, rest) =>
      hide GenExpr, Eval, RunCode, Yields, Keeps;
      var k := GenExpr(c, vars, e, n).value;
      var m1 := ExprSim(o, c, vars, vs, e, n, env, m);
      YieldsFacts(o, k.ins, m, n, k.val, Eval(o, env, e, m.world).0, Eval(o, env, e, m.world).1, m1);
      var a := GenArgs(c, vars, rest, k.next).value;
      m' := ArgsSim(o, c, vars, vs, rest, k.next, env, m1);
      ConsSim(o, k, a, m, n, m1, m', Eval(o, env, e, m.world).0);
  }

  /** Code for a returned expression, tail calls included. */
  lemma ResultSim(o: Oracle, c: Ctx, vars: Vars, vs: Vars, e: Expr, n: nat, env: Env, m: MState) returns (m': MState)
    requires GenResult(c, vars, e, n).Some? && SubVars(vars, vs) && Rel(vs, env, m.vars)
    ensures var k := GenResult(c, vars, e, n).value;
            var (x, w) := EvalResult(o, false, env, e, m.world);
            Yields(o, k.ins, m, n, k.val, x, w, m')
  {
    hide Yields, RunCode, GenExpr, GenTailApp, Apply, CallOut;
    if e.App? {
      var a := GenArgs(c, vars, e.args, n).value;
      var m1 := ArgsSim(o, c, vars, vs, e.args, n, env, m);
      m' := AppSim(o, e.callee, a, true, n, m, m1);
    } else {
      m' := ExprSim(o, c, vars, vs, e, n, env, m);
    }
  }

  /** A branch condition is non-zero exactly when the tested value is. */
  lemma TestSim(o: Oracle, c: Ctx, vars: Vars, vs: Vars, e: Expr, n: nat, env: Env, m: MState) returns (m': MState)
    requires GenTest(c, vars, e, n).Some? && SubVars(vars, vs) && Rel(vs, env, m.vars)
    ensures var k := GenTest(c, vars, e, n).value;
            var (x, w) := Eval(o, env, e, m.world);
            Yields(o, k.ins, m, n, k.val, Flag(x != 0), w, m')
  {
    hide GenExpr, Eval;
    var k := GenExpr(c, vars, e, n).value;
    var m1 := ExprSim(o, c, vars, vs, e, n, env, m);
    var i, j := Iconst(k.next, 0), Icmp(k.next + 1, Ne, k.val, k.next);
    RunTwo(o, i, j, m1);
    m' := Exec(o, j, Exec(o, i, m1).value).value;
    RunConcat(o, k.ins, [i, j], m);
  }
}
