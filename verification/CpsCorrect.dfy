/** Emitted blocks run as the interpreter does: a step-indexed simulation of statements. */
module CpsCorrect {
  import opened Util
  import opened Bytes
  import opened CpsFormat
  import opened CpsMachine
  import opened CpsSemantics
  import opened CpsGate
  import opened CpsGen
  import opened CpsWellFormed
  import opened CpsExprCorrect

  // ----- sizes, for the induction -----

  ghost function StmtSize(s: Stmt): nat {
    match s
    case If(_, t, e) => 1 + StmtsSize(t) + StmtsSize(e)
    case While(_, b) => 1 + StmtsSize(b)
    case Case(_, arms, dflt) => 1 + ArmsSize(arms) + StmtsSize(dflt)
    case _ => 0
  }

  ghost function StmtsSize(ss: List<Stmt>): nat {
    match ss
    case Nil => 0
    case Cons(s, rest) => 1 + StmtSize(s) + StmtsSize(rest)
  }

  ghost function ArmsSize(arms: List<Arm>): nat {
    match arms
    case Nil => 0
    case Cons(a, rest) => 1 + StmtsSize(a.body) + ArmsSize(rest)
  }

  // ----- the simulation relation -----

  /** The finished graph and variable map extend what has been emitted so far. */
  ghost predicate InGraph(g: GenState, b: Graph, vs: Vars) {
    && |g.blocks| <= |b|
    && (forall i | 0 <= i < |g.blocks| :: g.blocks[i] <= b[i])
    && SubVars(g.vars, vs)
  }

  ghost predicate Injective(vs: Vars) {
    forall x, y | x in vs && y in vs && vs[x] == vs[y] :: x == y
  }

  /** The machine stands where emission stands, holding the interpreter's state. */
  ghost predicate Here(g: Gen, vs: Vars, st: State, cf: Conf) {
    && cf.block == g.cur && cf.pc == |g.blocks[g.cur]|
    && cf.m.world == st.world && Rel(vs, st.env, cf.m.vars)
  }

  /** After `n` steps from `cf` the machine agrees with the outcome `r`; a timeout at `fuel`
      iterations means the machine is still running after at least `fuel` steps. */
  ghost predicate Agrees(o: Oracle, b: Graph, vs: Vars, g: Gen, r: Outcome, fuel: nat, cf: Conf, n: nat) {
    var e := Steps(o, b, n, Running(cf));
    match r
    case Normal(st) => e.Running? && !g.terminated && Here(g, vs, st, e.conf)
    case Returned(x, w) => e == Halted(x, w)
    case Timeout => e.Running? && n >= fuel
  }

  lemma InGraphBack(g: GenState, h: GenState, b: Graph, vs: Vars)
    requires Ext(g, h) && InGraph(h, b, vs)
    ensures InGraph(g, b, vs)
  {
    forall i | 0 <= i < |g.blocks|
      ensures g.blocks[i] <= b[i]
    {
      assert g.blocks[i] <= h.blocks[i] <= b[i];
    }
  }

  /** Steps taken first are added in front. */
  lemma Before(o: Oracle, b: Graph, vs: Vars, g: Gen, r: Outcome, fuel: nat, fuel': nat, cf: Conf, k: nat, cf1: Conf, n: nat)
    requires Steps(o, b, k, Running(cf)) == Running(cf1)
    requires Agrees(o, b, vs, g, r, fuel, cf1, n) && fuel' <= fuel + k
    ensures Agrees(o, b, vs, g, r, fuel', cf, k + n)
  {
    StepsAdd(o, b, k, n, Running(cf));
  }

  lemma OneStep(o: Oracle, b: Graph, cf: Conf)
    ensures Steps(o, b, 1, Running(cf)) == Step(o, b, cf)
  {
    hide Step;
    assert Steps(o, b, 0, Step(o, b, cf)) == Step(o, b, cf);
  }

  lemma SplitPrefix(pre: seq<Instr>, ins: seq<Instr>, t: Instr, blk: seq<Instr>)
    requires pre + (ins + [t]) <= blk
    ensures pre + ins <= blk && |blk| > |pre| + |ins| && blk[|pre| + |ins|] == t
  {
    var whole := pre + (ins + [t]);
    assert whole == (pre + ins) + [t];
    assert blk[|pre| + |ins|] == whole[|pre| + |ins|];
  }

  /** Straight-line code and then a terminator. */
  lemma RunToEnd(o: Oracle, b: Graph, blk: nat, pre: seq<Instr>, ins: seq<Instr>, t: Instr, m: MState, m1: MState)
    requires blk < |b| && pre + (ins + [t]) <= b[blk] && RunCode(o, ins, m) == Some(m1)
    ensures Steps(o, b, |ins| + 1, Running(Conf(blk, |pre|, m))) == Step(o, b, Conf(blk, |pre| + |ins|, m1))
    ensures |b[blk]| > |pre| + |ins| && b[blk][|pre| + |ins|] == t
  {
    hide Exec, RunCode, Step, Steps;
    SplitPrefix(pre, ins, t, b[blk]);
    RunInGraph(o, b, blk, pre, ins, m);
    StepsAdd(o, b, |ins|, 1, Running(Conf(blk, |pre|, m)));
    OneStep(o, b, Conf(blk, |pre| + |ins|, m1));
  }

  /** A branch reaches the block its condition selects. */
  lemma BranchRun(o: Oracle, b: Graph, blk: nat, pre: seq<Instr>, k: Code, yes: nat, no: nat, m: MState, n: nat, x: Word, w: World, m1: MState)
    requires blk < |b| && pre + (k.ins + [Brif(k.val, yes, no)]) <= b[blk] && Yields(o, k.ins, m, n, k.val, x, w, m1)
    ensures Steps(o, b, |k.ins| + 1, Running(Conf(blk, |pre|, m))) == Running(Conf(if x != 0 then yes else no, 0, m1))
  {
    hide Exec, RunCode, Steps;
    RunToEnd(o, b, blk, pre, k.ins, Brif(k.val, yes, no), m, m1);
  }

  /** Evaluating a test and branching on it. */
  lemma TestBranch(o: Oracle, c: Ctx, b: Graph, vs: Vars, g: Gen, e: Expr, yes: nat, no: nat, st: State, cf: Conf) returns (m1: MState)
    requires GenTest(c, g.vars, e, g.next).Some? && Here(g, vs, st, cf) && SubVars(g.vars, vs) && g.cur < |b|
    requires var k := GenTest(c, g.vars, e, g.next).value;
             g.blocks[g.cur] + (k.ins + [Brif(k.val, yes, no)]) <= b[g.cur]
    ensures var d := |GenTest(c, g.vars, e, g.next).value.ins| + 1;
            var (x, w) := Eval(o, st.env, e, st.world);
            && Steps(o, b, d, Running(cf)) == Running(Conf(if x != 0 then yes else no, 0, m1))
            && m1.world == w && Rel(vs, st.env, m1.vars)
  {
    hide Steps, Eval, GenTest, RunCode;
    var k := GenTest(c, g.vars, e, g.next).value;
    m1 := TestSim(o, c, g.vars, vs, e, g.next, st.env, cf.m);
    var (x, w) := Eval(o, st.env, e, st.world);
    BranchRun(o, b, g.cur, g.blocks[g.cur], k, yes, no, cf.m, g.next, Flag(x != 0), w, m1);
  }

  /** An arm that ends normally jumps to `target`; `h` is emission standing at that empty block. */
  lemma Join(o: Oracle, b: Graph, vs: Vars, g: Gen, target: nat, h: Gen, r: Outcome, fuel: nat, cf: Conf, n: nat) returns (n': nat)
    requires Agrees(o, b, vs, g, r, fuel, cf, n) && InGraph(g.EndWith(target), b, vs)
    requires h.cur == target && h.blocks[target] == [] && !h.terminated
    ensures Agrees(o, b, vs, h, r, fuel, cf, n')
  {
    n' := n;
    if r.Normal? {
      var cf1 := Steps(o, b, n, Running(cf)).conf;
      JumpRun(o, b, vs, g, target, cf1);
      StepsAdd(o, b, n, 1, Running(cf));
      n' := n + 1;
    }
  }

  lemma JumpRun(o: Oracle, b: Graph, vs: Vars, g: Gen, target: nat, cf: Conf)
    requires !g.terminated && InGraph(g.EndWith(target), b, vs) && cf.block == g.cur && cf.pc == |g.blocks[g.cur]|
    ensures Steps(o, b, 1, Running(cf)) == Running(Conf(target, 0, cf.m))
  {
    var pre := g.blocks[g.cur];
    assert g.EndWith(target).blocks[g.cur] == pre + [Jump(target)] <= b[g.cur];
    assert (pre + [Jump(target)])[|pre|] == Jump(target);
    assert Step(o, b, cf) == Running(Conf(target, 0, cf.m));
    assert Steps(o, b, 0, Running(Conf(target, 0, cf.m))) == Running(Conf(target, 0, cf.m));
  }

  // ----- statements -----

  lemma LinearSim(o: Oracle, b: Graph, vs: Vars, g: Gen, ins: seq<Instr>, cf: Conf, m1: MState)
    requires cf.block == g.cur && cf.pc == |g.blocks[g.cur]| && g.cur < |b|
    requires g.blocks[g.cur] + ins <= b[g.cur] && RunCode(o, ins, cf.m) == Some(m1)
    ensures Steps(o, b, |ins|, Running(cf)) == Running(Conf(g.cur, |g.blocks[g.cur]| + |ins|, m1))
  {
    RunInGraph(o, b, g.cur, g.blocks[g.cur], ins, cf.m);
  }

  lemma ReturnSim(o: Oracle, c: Ctx, b: Graph, vs: Vars, g: Gen, e: Expr, fuel: nat, st: State, cf: Conf) returns (n: nat)
    requires GenStmt(c, Return(e), g).Some? && InGraph(GenStmt(c, Return(e), g).value, b, vs)
    requires Here(g, vs, st, cf) && SubVars(g.vars, vs)
    ensures Agrees(o, b, vs, GenStmt(c, Return(e), g).value, Perform(o, false, fuel, Return(e), st), fuel, cf, n)
  {
    hide GenResult, EvalResult, RunCode, Steps;
    var k := GenResult(c, g.vars, e, g.next).value;
    var m1 := ResultSim(o, c, g.vars, vs, e, g.next, st.env, cf.m);
    var h := GenStmt(c, Return(e), g).value;
    assert h.blocks[g.cur] == g.blocks[g.cur] + (k.ins + [Ret(k.val)]);
    RunToEnd(o, b, g.cur, g.blocks[g.cur], k.ins, Ret(k.val), cf.m, m1);
    n := |k.ins| + 1;
  }

  lemma LetSim(o: Oracle, c: Ctx, b: Graph, vs: Vars, g: Gen, x: string, e: Expr, fuel: nat, st: State, cf: Conf) returns (n: nat)
    requires GenStmt(c, Let(x, e), g).Some? && InGraph(GenStmt(c, Let(x, e), g).value, b, vs)
    requires Here(g, vs, st, cf) && SubVars(g.vars, vs) && Injective(vs) && !g.terminated
    ensures Agrees(o, b, vs, GenStmt(c, Let(x, e), g).value, Perform(o, false, fuel, Let(x, e), st), fuel, cf, n)
  {
    hide GenExpr, Eval, RunCode, Steps, Rel, Injective;
    var k := GenExpr(c, g.vars, e, g.next).value;
    var m1 := ExprSim(o, c, g.vars, vs, e, g.next, st.env, cf.m);
    var h := GenStmt(c, Let(x, e), g).value;
    var i := DefVar(h.vars[x], k.val);
    RunSnoc(o, k.ins, i, cf.m, m1);
    var m2 := m1.(vars := m1.vars[h.vars[x] := m1.regs[k.val]]);
    assert h.blocks[g.cur] == g.blocks[g.cur] + (k.ins + [i]);
    LinearSim(o, b, vs, g, k.ins + [i], cf, m2);
    RelAssign(vs, st.env, m1.vars, x, m1.regs[k.val]);
    n := |k.ins| + 1;
  }

  lemma RelAssign(vs: Vars, env: Env, mv: map<nat, Word>, x: string, w: Word)
    requires Rel(vs, env, mv) && Injective(vs) && x in vs
    ensures Rel(vs, env[x := w], mv[vs[x] := w])
  {
  }

  lemma StoreSim(o: Oracle, c: Ctx, b: Graph, vs: Vars, g: Gen, p: Expr, e: Expr, fuel: nat, st: State, cf: Conf) returns (n: nat)
    requires GenStmt(c, Store(p, e), g).Some? && InGraph(GenStmt(c, Store(p, e), g).value, b, vs)
    requires Here(g, vs, st, cf) && SubVars(g.vars, vs) && !g.terminated
    ensures Agrees(o, b, vs, GenStmt(c, Store(p, e), g).value, Perform(o, false, fuel, Store(p, e), st), fuel, cf, n)
  {
    hide GenExpr, Eval, RunCode, Steps, Store64;
    var k := GenExpr(c, g.vars, p, g.next).value;
    var l := GenExpr(c, g.vars, e, k.next).value;
    var m1 := ExprSim(o, c, g.vars, vs, p, g.next, st.env, cf.m);
    var m2 := ExprSim(o, c, g.vars, vs, e, k.next, st.env, m1);
    var i := StoreI(l.val, k.val, 0);
    RunConcat(o, k.ins, l.ins, cf.m);
    RunSnoc(o, k.ins + l.ins, i, cf.m, m2);
    assert m2.regs[k.val] == m1.regs[k.val];
    var m3 := Exec(o, i, m2).value;
    LinearSim(o, b, vs, g, k.ins + l.ins + [i], cf, m3);
    n := |k.ins + l.ins| + 1;
  }

  lemma DiscardSim(o: Oracle, c: Ctx, b: Graph, vs: Vars, g: Gen, e: Expr, fuel: nat, st: State, cf: Conf) returns (n: nat)
    requires GenStmt(c, Discard(e), g).Some? && InGraph(GenStmt(c, Discard(e), g).value, b, vs)
    requires Here(g, vs, st, cf) && SubVars(g.vars, vs) && !g.terminated
    ensures Agrees(o, b, vs, GenStmt(c, Discard(e), g).value, Perform(o, false, fuel, Discard(e), st), fuel, cf, n)
  {
    hide GenExpr, Eval, RunCode, Steps;
    var k := GenExpr(c, g.vars, e, g.next).value;
    var m1 := ExprSim(o, c, g.vars, vs, e, g.next, st.env, cf.m);
    LinearSim(o, b, vs, g, k.ins, cf, m1);
    n := |k.ins|;
  }

  /** The stages of an if inside the finished graph. */
  lemma IfShape(c: Ctx, b: Graph, vs: Vars, g: Gen, pend: set<nat>, s: Stmt) returns (g1: Gen, g2: Gen, g3: Gen, g4: Gen)
    requires s.If? && GenIf(c, s, g).Some? && InGraph(GenIf(c, s, g).value, b, vs) && Wf(c, g, pend) && !g.terminated
    ensures GenTest(c, g.vars, s.test, g.next).Some?
    ensures var nb, h, k := |g.blocks|, GenIf(c, s, g).value, GenTest(c, g.vars, s.test, g.next).value;
            && g.cur < |b| && g.blocks[g.cur] + (k.ins + [Brif(k.val, nb, nb + 1)]) <= b[g.cur] && SubVars(g.vars, vs)
            && GenStmts(c, s.thn, g1) == Some(g2) && GenStmts(c, s.els, g3) == Some(g4)
            && InGraph(g2, b, vs) && InGraph(g2.EndWith(nb + 2), b, vs)
            && InGraph(g4, b, vs) && InGraph(g4.EndWith(nb + 2), b, vs)
            && Wf(c, g1, pend + {nb + 1, nb + 2}) && Wf(c, g3, pend + {nb + 2})
            && g1.cur == nb && g1.blocks[nb] == [] && !g1.terminated
            && g3.cur == nb + 1 && g3.blocks[nb + 1] == [] && !g3.terminated
            && h.cur == nb + 2 && h.blocks[nb + 2] == [] && !h.terminated
  {
    hide Wf, Ext, InGraph, GenStmts, GenTest, GenIf;
    g1, g2, g3, g4 := GenIfWf(c, s, g, pend);
    var h, nb := GenIf(c, s, g).value, |g.blocks|;
    InGraphBack(g1, h, b, vs);
    InGraphBack(g2, h, b, vs);
    InGraphBack(g3, h, b, vs);
    InGraphBack(g4, h, b, vs);
    InGraphBack(g, h, b, vs);
    Same(g2.EndWith(nb + 2), g3, b, vs);
    Same(g4.EndWith(nb + 2), h, b, vs);
    InGraphVars(g, b, vs);
    InGraphBlock(g1, b, vs, g.cur);
  }

  lemma {:induction false} IfSim(o: Oracle, c: Ctx, b: Graph, vs: Vars, g: Gen, pend: set<nat>, s: Stmt, fuel: nat, st: State, cf: Conf)
    returns (n: nat)
    requires s.If? && GenIf(c, s, g).Some? && InGraph(GenIf(c, s, g).value, b, vs)
    requires Wf(c, g, pend) && Here(g, vs, st, cf) && Injective(vs) && !g.terminated
    ensures Agrees(o, b, vs, GenIf(c, s, g).value, Perform(o, false, fuel, s, st), fuel, cf, n)
    decreases fuel, StmtSize(s), 0
  {
    hide Wf, InGraph, Agrees, GenStmts, GenTest, Eval, Steps, PerformAll, GenIf, Rel, Injective;
    var g1, g2, g3, g4 := IfShape(c, b, vs, g, pend, s);
    var h, nb, d := GenIf(c, s, g).value, |g.blocks|, |GenTest(c, g.vars, s.test, g.next).value.ins| + 1;
    var m1 := TestBranch(o, c, b, vs, g, s.test, nb, nb + 1, st, cf);
    var (x, w) := Eval(o, st.env, s.test, st.world);
    var st1 := st.(world := w);
    if x != 0 {
      var cf1, r := Conf(nb, 0, m1), PerformAll(o, false, fuel, s.thn, st1);
      var n1 := StmtsSim(o, c, b, vs, g1, pend + {nb + 1, nb + 2}, s.thn, fuel, st1, cf1);
      var n2 := Join(o, b, vs, g2, nb + 2, h, r, fuel, cf1, n1);
      Before(o, b, vs, h, r, fuel, fuel, cf, d, cf1, n2);
      n := d + n2;
    } else {
      var cf1, r := Conf(nb + 1, 0, m1), PerformAll(o, false, fuel, s.els, st1);
      var n1 := StmtsSim(o, c, b, vs, g3, pend + {nb + 2}, s.els, fuel, st1, cf1);
      var n2 := Join(o, b, vs, g4, nb + 2, h, r, fuel, cf1, n1);
      Before(o, b, vs, h, r, fuel, fuel, cf, d, cf1, n2);
      n := d + n2;
    }
  }

  lemma Same(g: GenState, h: GenState, b: Graph, vs: Vars)
    requires InGraph(h, b, vs) && g.blocks == h.blocks && g.vars == h.vars
    ensures InGraph(g, b, vs)
  {
  }

  lemma InGraphVars(g: GenState, b: Graph, vs: Vars)
    requires InGraph(g, b, vs)
    ensures SubVars(g.vars, vs) && |g.blocks| <= |b|
  {
  }

  lemma InGraphBlock(g: GenState, b: Graph, vs: Vars, i: nat)
    requires InGraph(g, b, vs) && i < |g.blocks|
    ensures i < |b| && g.blocks[i] <= b[i]
  {
  }

  lemma {:induction false} WhileSim(o: Oracle, c: Ctx, b: Graph, vs: Vars, g: Gen, pend: set<nat>, s: Stmt, fuel: nat, st: State, cf: Conf)
    returns (n: nat)
    requires s.While? && GenWhile(c, s, g).Some? && InGraph(GenWhile(c, s, g).value, b, vs)
    requires Wf(c, g, pend) && Here(g, vs, st, cf) && Injective(vs) && !g.terminated
    ensures Agrees(o, b, vs, GenWhile(c, s, g).value, Perform(o, false, fuel, s, st), fuel, cf, n)
    decreases fuel, StmtSize(s), 1
  {
    hide Wf, Ext, InGraph, Agrees, GenStmts, GenTest, Steps, Perform, GenWhile;
    var g1, g2, g3 := GenWhileWf(c, s, g, pend);
    var h, nb := GenWhile(c, s, g).value, |g.blocks|;
    InGraphBack(g1, h, b, vs);
    InGraphBack(g2, h, b, vs);
    InGraphBack(g3, h, b, vs);
    Same(g3.EndWith(nb), h, b, vs);
    Same(g.Create(3).EndWith(nb), g1, b, vs);
    var cf1 := Conf(nb, 0, cf.m);
    assert g.Create(3).blocks[g.cur] == g.blocks[g.cur];
    JumpRun(o, b, vs, g.Create(3), nb, cf);
    var n1 := LoopSim(o, c, b, vs, g1, g2, g3, h, pend + {nb + 2}, s, fuel, st, cf1);
    Before(o, b, vs, h, Perform(o, false, fuel, s, st), fuel, fuel, cf, 1, cf1, n1);
    n := 1 + n1;
  }

  /** The blocks of a loop: `g1` enters the header, `g2` the body, `g3` ends it, `h` enters the exit. */
  ghost predicate LoopShape(c: Ctx, b: Graph, vs: Vars, g1: Gen, g2: Gen, g3: Gen, h: Gen, pend: set<nat>, s: Stmt)
    requires s.While?
  {
    && InGraph(g1, b, vs) && InGraph(g2, b, vs) && InGraph(g3, b, vs) && InGraph(g3.EndWith(g1.cur), b, vs)
    && g1.blocks[g1.cur] == [] && g2.blocks[g2.cur] == [] && h.blocks[h.cur] == []
    && !h.terminated && !g2.terminated && g1.cur < |g2.blocks|
    && GenTest(c, g1.vars, s.test, g1.next).Some?
    && (var k := GenTest(c, g1.vars, s.test, g1.next).value;
        g2.blocks[g1.cur] == k.ins + [Brif(k.val, g2.cur, h.cur)])
    && GenStmts(c, s.body, g2) == Some(g3) && Wf(c, g2, pend) && Injective(vs)
  }

  ghost predicate AtHeader(g1: Gen, vs: Vars, st: State, cf: Conf) {
    cf.block == g1.cur && cf.pc == 0 && cf.m.world == st.world && Rel(vs, st.env, cf.m.vars)
  }

  lemma HeaderRun(o: Oracle, c: Ctx, b: Graph, vs: Vars, g1: Gen, g2: Gen, g3: Gen, h: Gen, pend: set<nat>, s: Stmt, st: State, cf: Conf)
    returns (d: nat, m1: MState)
    requires s.While? && LoopShape(c, b, vs, g1, g2, g3, h, pend, s) && AtHeader(g1, vs, st, cf)
    ensures var (x, w) := Eval(o, st.env, s.test, st.world);
            && d >= 1 && Steps(o, b, d, Running(cf)) == Running(Conf(if x != 0 then g2.cur else h.cur, 0, m1))
            && m1.world == w && Rel(vs, st.env, m1.vars)
  {
    hide Wf, GenStmts, GenTest, Eval, Steps, Rel;
    var k := GenTest(c, g1.vars, s.test, g1.next).value;
    assert g1.blocks[g1.cur] + (k.ins + [Brif(k.val, g2.cur, h.cur)]) == g2.blocks[g1.cur];
    m1 := TestBranch(o, c, b, vs, g1, s.test, g2.cur, h.cur, st, cf);
    d := |k.ins| + 1;
  }

  /** From the header block, by iterations: each one costs at least a machine step. */
  lemma {:induction false} LoopSim(o: Oracle, c: Ctx, b: Graph, vs: Vars, g1: Gen, g2: Gen, g3: Gen, h: Gen, pend: set<nat>,
                                   s: Stmt, fuel: nat, st: State, cf: Conf)
    returns (n: nat)
    requires s.While? && LoopShape(c, b, vs, g1, g2, g3, h, pend, s) && AtHeader(g1, vs, st, cf)
    ensures Agrees(o, b, vs, h, Perform(o, false, fuel, s, st), fuel, cf, n)
    decreases fuel, StmtSize(s), 0
  {
    hide LoopShape, Agrees, Eval, Steps, PerformAll, Rel;
    if fuel == 0 {
      OutOfFuel(o, b, vs, h, cf);
      n := 0;
    } else {
      var d, m1 := HeaderRun(o, c, b, vs, g1, g2, g3, h, pend, s, st, cf);
      var (x, w) := Eval(o, st.env, s.test, st.world);
      var st1 := st.(world := w);
      if x == 0 {
        var cf1 := Conf(h.cur, 0, m1);
        LoopExit(o, c, b, vs, g1, g2, g3, h, pend, s, fuel, st1, cf1);
        Before(o, b, vs, h, Normal(st1), fuel, fuel, cf, d, cf1, 0);
        n := d;
      } else {
        var cf1, r := Conf(g2.cur, 0, m1), PerformAll(o, false, fuel - 1, s.body, st1);
        var n1, cf3 := LoopBody(o, c, b, vs, g1, g2, g3, h, pend, s, fuel - 1, st1, cf1);
        if r.Normal? {
          var n2 := LoopSim(o, c, b, vs, g1, g2, g3, h, pend, s, fuel - 1, r.st, cf3);
          var r2 := Perform(o, false, fuel - 1, s, r.st);
          Before(o, b, vs, h, r2, fuel - 1, fuel, cf1, n1, cf3, n2);
          Before(o, b, vs, h, r2, fuel, fuel, cf, d, cf1, n1 + n2);
          n := d + (n1 + n2);
        } else {
          Before(o, b, vs, h, r, fuel - 1, fuel, cf, d, cf1, n1);
          n := d + n1;
        }
      }
    }
  }

  lemma LoopExit(o: Oracle, c: Ctx, b: Graph, vs: Vars, g1: Gen, g2: Gen, g3: Gen, h: Gen, pend: set<nat>, s: Stmt, fuel: nat, st: State, cf: Conf)
    requires s.While? && LoopShape(c, b, vs, g1, g2, g3, h, pend, s)
    requires cf.block == h.cur && cf.pc == 0 && cf.m.world == st.world && Rel(vs, st.env, cf.m.vars)
    ensures Agrees(o, b, vs, h, Normal(st), fuel, cf, 0)
  {
    hide Wf, InGraph, GenStmts, GenTest;
    Arrived(o, b, vs, h, st, fuel, cf);
  }

  /** One run of the body, and the jump back to the header when it ends normally. */
  lemma {:induction false} LoopBody(o: Oracle, c: Ctx, b: Graph, vs: Vars, g1: Gen, g2: Gen, g3: Gen, h: Gen, pend: set<nat>,
                                    s: Stmt, fuel: nat, st: State, cf: Conf)
    returns (n: nat, cf': Conf)
    requires s.While? && LoopShape(c, b, vs, g1, g2, g3, h, pend, s)
    requires cf.block == g2.cur && cf.pc == 0 && cf.m.world == st.world && Rel(vs, st.env, cf.m.vars)
    ensures var r := PerformAll(o, false, fuel, s.body, st);
            if r.Normal? then n >= 1 && Steps(o, b, n, Running(cf)) == Running(cf') && AtHeader(g1, vs, r.st, cf')
            else Agrees(o, b, vs, h, r, fuel, cf, n)
    decreases fuel, StmtSize(s), 0
  {
    hide Wf, InGraph, GenTest, GenStmts, Agrees, Steps, PerformAll, Rel;
    var r := PerformAll(o, false, fuel, s.body, st);
    n := StmtsSim(o, c, b, vs, g2, pend, s.body, fuel, st, cf);
    cf' := cf;
    if r.Normal? {
      cf' := BackEdge(o, b, vs, g3, g1.cur, r.st, fuel, cf, n);
      n := n + 1;
    } else {
      Elsewhere(o, b, vs, g3, h, r, fuel, cf, n);
    }
  }

  /** A body that ends normally jumps back to the header. */
  lemma BackEdge(o: Oracle, b: Graph, vs: Vars, g: Gen, header: nat, st: State, fuel: nat, cf: Conf, n: nat) returns (cf': Conf)
    requires Agrees(o, b, vs, g, Normal(st), fuel, cf, n) && InGraph(g.EndWith(header), b, vs)
    ensures Steps(o, b, n + 1, Running(cf)) == Running(cf')
    ensures cf'.block == header && cf'.pc == 0 && cf'.m.world == st.world && Rel(vs, st.env, cf'.m.vars)
  {
    hide Steps;
    var cf1 := Steps(o, b, n, Running(cf)).conf;
    JumpRun(o, b, vs, g, header, cf1);
    StepsAdd(o, b, n, 1, Running(cf));
    cf' := Conf(header, 0, cf1.m);
  }

  lemma OutOfFuel(o: Oracle, b: Graph, vs: Vars, h: Gen, cf: Conf)
    ensures Agrees(o, b, vs, h, Timeout, 0, cf, 0)
  {
  }

  lemma Arrived(o: Oracle, b: Graph, vs: Vars, h: Gen, st: State, fuel: nat, cf: Conf)
    requires Here(h, vs, st, cf) && !h.terminated
    ensures Agrees(o, b, vs, h, Normal(st), fuel, cf, 0)
  {
  }

  lemma NormalFacts(o: Oracle, b: Graph, vs: Vars, g: Gen, st: State, fuel: nat, cf: Conf, n: nat)
    requires Agrees(o, b, vs, g, Normal(st), fuel, cf, n)
    ensures Steps(o, b, n, Running(cf)).Running? && !g.terminated && Here(g, vs, st, Steps(o, b, n, Running(cf)).conf)
  {
  }

  lemma Elsewhere(o: Oracle, b: Graph, vs: Vars, g: Gen, h: Gen, r: Outcome, fuel: nat, cf: Conf, n: nat)
    requires Agrees(o, b, vs, g, r, fuel, cf, n) && !r.Normal?
    ensures Agrees(o, b, vs, h, r, fuel, cf, n)
  {
  }

  lemma {:induction false} CaseSim(o: Oracle, c: Ctx, b: Graph, vs: Vars, g: Gen, pend: set<nat>, s: Stmt, fuel: nat, st: State, cf: Conf)
    returns (n: nat)
    requires s.Case? && GenCase(c, s, g).Some? && InGraph(GenCase(c, s, g).value, b, vs)
    requires Wf(c, g, pend) && Here(g, vs, st, cf) && Injective(vs) && !g.terminated
    ensures Agrees(o, b, vs, GenCase(c, s, g).value, Perform(o, false, fuel, s, st), fuel, cf, n)
    decreases fuel, StmtSize(s), 0
  {
    hide Wf, Ext, InGraph, Agrees, GenStmts, GenArms, GenExpr, Eval, Steps, PerformAll, Yields, GenCase, ChooseArm;
    var g1, g2, g3 := GenCaseWf(c, s, g, pend);
    var h, nb := GenCase(c, s, g).value, |g.blocks|;
    InGraphBack(g1, h, b, vs);
    InGraphBack(g, h, b, vs);
    InGraphVars(g, b, vs);
    var k := GenExpr(c, g.vars, s.subject, g.next).value;
    var m1 := ExprSim(o, c, g.vars, vs, s.subject, g.next, st.env, cf.m);
    var (x, w) := Eval(o, st.env, s.subject, st.world);
    YieldsFacts(o, k.ins, cf.m, g.next, k.val, x, w, m1);
    InGraphBlock(g1, b, vs, g.cur);
    LinearSim(o, b, vs, g, k.ins, cf, m1);
    var cf1, st1 := Conf(g.cur, |g.blocks[g.cur]| + |k.ins|, m1), st.(world := w);
    var n1 := ArmsSim(o, c, b, vs, g1, g2, g3, h, pend + {nb}, s.arms, s.dflt, k.val, x, nb, fuel, st1, cf1);
    Before(o, b, vs, h, PerformAll(o, false, fuel, ChooseArm(s.arms, s.dflt, x), st1), fuel, fuel, cf, |k.ins|, cf1, n1);
    n := |k.ins| + n1;
  }

  ghost predicate CaseShape(c: Ctx, b: Graph, vs: Vars, g: Gen, g2: Gen, g3: Gen, h: Gen, pend: set<nat>,
                            arms: List<Arm>, dflt: List<Stmt>, v: nat, merge: nat)
  {
    && GenArms(c, arms, v, merge, g) == Some(g2) && GenStmts(c, dflt, g2) == Some(g3)
    && merge < |g.blocks| && merge < |g3.blocks| && h == g3.EndWith(merge).Switch(merge) && h.blocks[merge] == []
    && Ext(g2, h) && Ext(g3, h) && InGraph(h, b, vs) && v < g.next
    && Wf(c, g, pend) && Injective(vs) && !g.terminated
  }

  /** One arm of the chain and what remains of it, all inside the finished graph. */
  lemma ArmShape(c: Ctx, b: Graph, vs: Vars, g: Gen, g2: Gen, g3: Gen, h: Gen, pend: set<nat>,
                 arms: List<Arm>, dflt: List<Stmt>, v: nat, merge: nat)
    returns (f1: Gen, f2: Gen, f3: Gen)
    requires arms.Cons? && CaseShape(c, b, vs, g, g2, g3, h, pend, arms, dflt, v, merge)
    ensures var nb := |g.blocks|;
            && GenStmts(c, arms.head.body, f1) == Some(f2) && Wf(c, f1, pend + {nb + 1})
            && InGraph(f1, b, vs) && InGraph(f2, b, vs) && InGraph(f2.EndWith(merge), b, vs)
            && f1.cur == nb && f1.blocks[nb] == [] && !f1.terminated
            && h.cur == merge && h.blocks[merge] == [] && !h.terminated && v < g.next && Injective(vs)
            && f3.cur == nb + 1 && f3.blocks[nb + 1] == []
            && g.cur < |b| && g.blocks[g.cur] + (ArmTest(g.next, arms.head.val, v) + [Brif(g.next + 1, nb, nb + 1)]) <= b[g.cur]
            && CaseShape(c, b, vs, f3, g2, g3, h, pend, arms.tail, dflt, v, merge)
  {
    hide Wf, Ext, InGraph, GenStmts, ArmTest;
    f1, f2, f3 := GenArmWf(c, arms, v, merge, g, pend);
    GenArmsWf(c, arms.tail, v, merge, f3, pend);
    ExtTrans(f3, g2, h);
    ExtTrans(f1, f3, h);
    ExtTrans(f2, f3, h);
    InGraphBack(f1, h, b, vs);
    InGraphBack(f2, h, b, vs);
    InGraphBack(f3, h, b, vs);
    ExtNext(g, f3);
    InGraphBlock(f1, b, vs, g.cur);
    assert f1.blocks[g.cur] == g.blocks[g.cur] + (ArmTest(g.next, arms.head.val, v) + [Brif(g.next + 1, |g.blocks|, |g.blocks| + 1)]);
    Same(f2.EndWith(merge), f3, b, vs);
  }

  lemma {:induction false} DefaultSim(o: Oracle, c: Ctx, b: Graph, vs: Vars, g: Gen, g2: Gen, g3: Gen, h: Gen, pend: set<nat>,
                                      dflt: List<Stmt>, v: nat, merge: nat, fuel: nat, st: State, cf: Conf)
    returns (n: nat)
    requires CaseShape(c, b, vs, g, g2, g3, h, pend, Nil, dflt, v, merge) && Here(g, vs, st, cf)
    ensures Agrees(o, b, vs, h, PerformAll(o, false, fuel, dflt, st), fuel, cf, n)
    decreases fuel, StmtsSize(dflt), 4
  {
    hide Wf, Ext, InGraph, Agrees, GenStmts, PerformAll;
    InGraphBack(g3, h, b, vs);
    n := StmtsSim(o, c, b, vs, g, pend, dflt, fuel, st, cf);
    Same(g3.EndWith(merge), h, b, vs);
    n := Join(o, b, vs, g3, merge, h, PerformAll(o, false, fuel, dflt, st), fuel, cf, n);
  }

  /** The compare chain runs the first matching arm, or the default after the last. */
  lemma {:induction false} ArmsSim(o: Oracle, c: Ctx, b: Graph, vs: Vars, g: Gen, g2: Gen, g3: Gen, h: Gen, pend: set<nat>,
                                   arms: List<Arm>, dflt: List<Stmt>, v: nat, x: Word, merge: nat, fuel: nat, st: State, cf: Conf)
    returns (n: nat)
    requires CaseShape(c, b, vs, g, g2, g3, h, pend, arms, dflt, v, merge) && Here(g, vs, st, cf)
    requires v in cf.m.regs && cf.m.regs[v] == x
    ensures Agrees(o, b, vs, h, PerformAll(o, false, fuel, ChooseArm(arms, dflt, x), st), fuel, cf, n)
    decreases fuel, ArmsSize(arms) + StmtsSize(dflt), 5
  {
    hide CaseShape, Wf, InGraph, Agrees, GenStmts, Steps, PerformAll, Rel, ArmTest, Injective;
    if arms.Nil? {
      n := DefaultSim(o, c, b, vs, g, g2, g3, h, pend, dflt, v, merge, fuel, st, cf);
    } else {
      var nb, d, a := |g.blocks|, 3, arms.head;
      var f1, f2, f3 := ArmShape(c, b, vs, g, g2, g3, h, pend, arms, dflt, v, merge);
      var m1 := ArmBranch(o, b, vs, g, a.val, v, nb, nb + 1, st, cf);
      if x == a.val {
        var cf1, r := Conf(nb, 0, m1), PerformAll(o, false, fuel, a.body, st);
        var n1 := StmtsSim(o, c, b, vs, f1, pend + {nb + 1}, a.body, fuel, st, cf1);
        var n2 := Join(o, b, vs, f2, merge, h, r, fuel, cf1, n1);
        Before(o, b, vs, h, r, fuel, fuel, cf, d, cf1, n2);
        n := d + n2;
      } else {
        var cf1, r := Conf(nb + 1, 0, m1), PerformAll(o, false, fuel, ChooseArm(arms.tail, dflt, x), st);
        var n1 := ArmsSim(o, c, b, vs, f3, g2, g3, h, pend, arms.tail, dflt, v, x, merge, fuel, st, cf1);
        Before(o, b, vs, h, r, fuel, fuel, cf, d, cf1, n1);
        n := d + n1;
      }
    }
  }

  lemma ExtNext(g: GenState, h: GenState)
    requires Ext(g, h)
    ensures g.next <= h.next
  {
  }

  lemma ArmBranch(o: Oracle, b: Graph, vs: Vars, g: Gen, w: Word, v: nat, yes: nat, no: nat, st: State, cf: Conf) returns (m1: MState)
    requires Here(g, vs, st, cf) && v in cf.m.regs && v < g.next && g.cur < |b|
    requires g.blocks[g.cur] + (ArmTest(g.next, w, v) + [Brif(g.next + 1, yes, no)]) <= b[g.cur]
    ensures Steps(o, b, 3, Running(cf)) == Running(Conf(if cf.m.regs[v] == w then yes else no, 0, m1))
    ensures m1.world == st.world && Rel(vs, st.env, m1.vars) && v in m1.regs && m1.regs[v] == cf.m.regs[v]
  {
    hide Steps, RunCode;
    var z := g.next;
    var k := Code(ArmTest(z, w, v), z + 1, z + 2);
    m1 := ArmTestRun(o, z, w, v, cf.m);
    BranchRun(o, b, g.cur, g.blocks[g.cur], k, yes, no, cf.m, z, Flag(cf.m.regs[v] == w), st.world, m1);
  }

  lemma ArmTestRun(o: Oracle, z: nat, w: Word, v: nat, m: MState) returns (m1: MState)
    requires v in m.regs && v < z
    ensures Yields(o, ArmTest(z, w, v), m, z, z + 1, Flag(m.regs[v] == w), m.world, m1)
    ensures v in m1.regs && m1.regs[v] == m.regs[v]
  {
    RunTwo(o, Iconst(z, w), Icmp(z + 1, Eq, v, z), m);
    m1 := m.(regs := m.regs[z := w][z + 1 := Flag(m.regs[v] == w)]);
  }

  lemma {:induction false} StmtSim(o: Oracle, c: Ctx, b: Graph, vs: Vars, g: Gen, pend: set<nat>, s: Stmt, fuel: nat, st: State, cf: Conf)
    returns (n: nat)
    requires GenStmt(c, s, g).Some? && InGraph(GenStmt(c, s, g).value, b, vs)
    requires Wf(c, g, pend) && Here(g, vs, st, cf) && Injective(vs) && !g.terminated
    ensures Agrees(o, b, vs, GenStmt(c, s, g).value, Perform(o, false, fuel, s, st), fuel, cf, n)
    decreases fuel, StmtSize(s), 2
  {
    hide Wf, Ext, InGraph, Agrees, Perform;
    GenStmtWf(c, s, g, pend);
    InGraphBack(g, GenStmt(c, s, g).value, b, vs);
    InGraphVars(g, b, vs);
    match s {
      case Return(e) => n := ReturnSim(o, c, b, vs, g, e, fuel, st, cf);
      case If(_, _, _) => n := IfSim(o, c, b, vs, g, pend, s, fuel, st, cf);
      case While(_, _) => n := WhileSim(o, c, b, vs, g, pend, s, fuel, st, cf);
      case Case(_, _, _) => n := CaseSim(o, c, b, vs, g, pend, s, fuel, st, cf);
      case Let(x, e) => n := LetSim(o, c, b, vs, g, x, e, fuel, st, cf);
      case Store(p, e) => n := StoreSim(o, c, b, vs, g, p, e, fuel, st, cf);
      case Discard(e) => n := DiscardSim(o, c, b, vs, g, e, fuel, st, cf);
    }
  }

  lemma {:induction false} StmtsSim(o: Oracle, c: Ctx, b: Graph, vs: Vars, g: Gen, pend: set<nat>, ss: List<Stmt>, fuel: nat, st: State, cf: Conf)
    returns (n: nat)
    requires GenStmts(c, ss, g).Some? && InGraph(GenStmts(c, ss, g).value, b, vs)
    requires Wf(c, g, pend) && Here(g, vs, st, cf) && Injective(vs) && !g.terminated
    ensures Agrees(o, b, vs, GenStmts(c, ss, g).value, PerformAll(o, false, fuel, ss, st), fuel, cf, n)
    decreases fuel, StmtsSize(ss), 3
  {
    hide Wf, Ext, InGraph, Agrees, Perform, GenStmt, Steps;
    match ss
    case Nil =>
      Arrived(o, b, vs, g, st, fuel, cf);
      n := 0;
    case Cons(s, rest) =>
      var g1 := GenStmt(c, s, g).value;
      var h := GenStmts(c, ss, g).value;
      GenStmtWf(c, s, g, pend);
      GenStmtsWf(c, rest, g1, pend);
      InGraphBack(g1, h, b, vs);
      var r := Perform(o, false, fuel, s, st);
      n := StmtSim(o, c, b, vs, g, pend, s, fuel, st, cf);
      if r.Normal? {
        NormalFacts(o, b, vs, g1, r.st, fuel, cf, n);
        var cf1 := Steps(o, b, n, Running(cf)).conf;
        var n1 := StmtsSim(o, c, b, vs, g1, pend, rest, fuel, r.st, cf1);
        Before(o, b, vs, h, PerformAll(o, false, fuel, rest, r.st), fuel, fuel, cf, n, cf1, n1);
        n := n + n1;
      } else {
        Elsewhere(o, b, vs, g1, h, r, fuel, cf, n);
      }
  }
}
