/** The compiler's main results, for whole functions and whole modules. */
module CpsTheorems {
  import opened Util
  import opened Bytes
  import opened CpsFormat
  import opened CpsMachine
  import opened CpsSemantics
  import opened CpsGate
  import opened CpsGen
  import opened CpsWellFormed
  import opened CpsExprCorrect
  import opened CpsCorrect

  // ----- calling a compiled function -----

  function ArgRegs(args: seq<Word>): Regs {
    map i | 0 <= i < |args| :: args[i]
  }

  /** A call: arguments in the first registers, variables all zero. */
  function Start(args: seq<Word>, w: World): Run {
    Running(Conf(0, 0, MState(ArgRegs(args), map[], w)))
  }

  function ParamVals(args: seq<Word>, n: nat): map<nat, Word>
    requires n <= |args|
  {
    map i | 0 <= i < n :: args[i]
  }

  lemma {:induction false} ParamRun(o: Oracle, args: seq<Word>, n: nat, w: World)
    requires n <= |args|
    ensures RunCode(o, ParamCode(n), MState(ArgRegs(args), map[], w)) == Some(MState(ArgRegs(args), ParamVals(args, n), w))
  {
    if n == 0 {
      assert ParamVals(args, 0) == map[];
    } else {
      ParamRun(o, args, n - 1, w);
      assert ParamCode(n) == ParamCode(n - 1) + [DefVar(n - 1, n - 1)];
      RunSnoc(o, ParamCode(n - 1), DefVar(n - 1, n - 1), MState(ArgRegs(args), map[], w),
              MState(ArgRegs(args), ParamVals(args, n - 1), w));
      assert ParamVals(args, n) == ParamVals(args, n - 1)[n - 1 := args[n - 1]];
    }
  }

  lemma {:induction false} ParamsBound(ps: seq<string>, args: seq<Word>, n: nat, x: string)
    requires n <= |ps| && |ps| == |args|
    ensures x in ParamVars(ps, n) <==> x in BindParams(ps, args, n)
    ensures x in ParamVars(ps, n) ==>
              ParamVars(ps, n)[x] < n && BindParams(ps, args, n)[x] == args[ParamVars(ps, n)[x]]
  {
    if n > 0 {
      ParamsBound(ps, args, n - 1, x);
    }
  }

  /** On entry the machine's variables hold the bound parameters, under any final variable map. */
  lemma EntryRel(ps: seq<string>, args: seq<Word>, g: GenState)
    requires |ps| == |args| && Ext(Entry(ps), g)
    ensures Rel(g.vars, BindParams(ps, args, |ps|), ParamVals(args, |ps|))
  {
    forall x | x in g.vars
      ensures Lookup(BindParams(ps, args, |ps|), x) == GetVar(ParamVals(args, |ps|), g.vars[x])
    {
      ParamsBound(ps, args, |ps|, x);
    }
  }

  lemma FinishSim(o: Oracle, vs: Vars, g: Gen, b: Graph, st: State, cf: Conf) returns (n: nat)
    requires !g.terminated && b == Finish(g).blocks && Here(g, vs, st, cf)
    ensures Steps(o, b, n, Running(cf)) == Halted(0, st.world)
  {
    hide RunCode;
    var ins, t := [Iconst(g.next, 0)], Ret(g.next);
    assert Finish(g).blocks[g.cur] == g.blocks[g.cur] + (ins + [t]);
    var m1 := cf.m.(regs := cf.m.regs[g.next := 0]);
    RunOne(o, ins[0], cf.m);
    RunToEnd(o, b, g.cur, g.blocks[g.cur], ins, t, cf.m, m1);
    n := |ins| + 1;
  }

  lemma ExtIsInGraph(g: GenState, h: GenState)
    requires Ext(g, h)
    ensures InGraph(g, h.blocks, h.vars)
  {
  }

  /** Step-indexed agreement for a whole call. */
  lemma FunSim(o: Oracle, c: Ctx, ps: seq<string>, body: List<Stmt>, args: seq<Word>, w: World, fuel: nat) returns (n: nat)
    requires GenFun(c, ps, body).Some? && |ps| == |args|
    ensures var e, r := Steps(o, GenFun(c, ps, body).value.blocks, n, Start(args, w)), Interpret(o, false, fuel, ps, body, args, w);
            if r.Timeout? then e.Running? && n >= fuel else r.Returned? && e == Halted(r.result, r.world)
  {
    hide Wf, Ext, InGraph, Agrees, GenStmts, Steps, PerformAll, Finish, Rel, BindParams, Injective;
    var g0, g1 := Entry(ps), GenStmts(c, body, Entry(ps)).value;
    var g := Finish(g1);
    EntryWf(c, ps);
    GenStmtsWf(c, body, g0, {});
    FinishWf(c, g1);
    ExtTrans(g0, g1, g);
    EntryRel(ps, args, g);
    ExtIsInGraph(g0, g);
    ExtIsInGraph(g1, g);
    InjectiveOf(c, g);
    var m0, m1 := MState(ArgRegs(args), map[], w), MState(ArgRegs(args), ParamVals(args, |ps|), w);
    ParamRun(o, args, |ps|, w);
    InGraphBlock(g0, g.blocks, g.vars, 0);
    assert [] + ParamCode(|ps|) == g0.blocks[0];
    RunInGraph(o, g.blocks, 0, [], ParamCode(|ps|), m0);
    var cf, st := Conf(0, |ps|, m1), State(BindParams(ps, args, |ps|), w);
    var n1 := StmtsSim(o, c, g.blocks, g.vars, g0, {}, body, fuel, st, cf);
    StepsAdd(o, g.blocks, |ps|, n1, Start(args, w));
    n := |ps| + n1;
    var r := PerformAll(o, false, fuel, body, st);
    AgreesFacts(o, g.blocks, g.vars, g1, r, fuel, cf, n1);
    if r.Normal? {
      var cf1 := Steps(o, g.blocks, n1, Running(cf)).conf;
      var n2 := FinishSim(o, g.vars, g1, g.blocks, r.st, cf1);
      StepsAdd(o, g.blocks, n, n2, Start(args, w));
      n := n + n2;
    }
  }

  lemma InjectiveOf(c: Ctx, g: Gen)
    requires Wf(c, g, {})
    ensures Injective(g.vars)
  {
  }

  lemma AgreesFacts(o: Oracle, b: Graph, vs: Vars, g: Gen, r: Outcome, fuel: nat, cf: Conf, n: nat)
    requires Agrees(o, b, vs, g, r, fuel, cf, n)
    ensures var e := Steps(o, b, n, Running(cf));
            && (r.Normal? ==> e.Running? && !g.terminated && Here(g, vs, r.st, e.conf))
            && (r.Returned? ==> e == Halted(r.result, r.world))
            && (r.Timeout? ==> e.Running? && n >= fuel)
  {
  }

  // ----- the uniform reading of `return` -----

  /** Some `return` in the list is a direct `__union_new` call with a size and a tag. */
  predicate TailUnion(ss: List<Stmt>) {
    ss.Cons? && (TailUnionStmt(ss.head) || TailUnion(ss.tail))
  }

  predicate TailUnionStmt(s: Stmt) {
    match s
    case Return(e) => e.App? && e.callee == UNION_NEW && Length(e.args) >= 2
    case If(_, t, e) => TailUnion(t) || TailUnion(e)
    case While(_, b) => TailUnion(b)
    case Case(_, arms, dflt) => TailUnionArms(arms) || TailUnion(dflt)
    case _ => false
  }

  predicate TailUnionArms(arms: List<Arm>) {
    arms.Cons? && (TailUnion(arms.head.body) || TailUnionArms(arms.tail))
  }

  lemma {:induction false} NoUnionChosen(arms: List<Arm>, dflt: List<Stmt>, x: Word)
    requires !TailUnionArms(arms) && !TailUnion(dflt)
    ensures !TailUnion(ChooseArm(arms, dflt, x))
    decreases arms
  {
    if arms.Cons? {
      NoUnionChosen(arms.tail, dflt, x);
    }
  }

  lemma {:induction false} UniformStmt(o: Oracle, fuel: nat, s: Stmt, st: State)
    requires !TailUnionStmt(s)
    ensures Perform(o, true, fuel, s, st) == Perform(o, false, fuel, s, st)
    decreases fuel, s, 0
  {
    hide Eval;
    match s {
      case Return(e) => TailFormExact(o, st.env, e, st.world);
      case If(c, t, e) =>
        var (x, w) := Eval(o, st.env, c, st.world);
        if x != 0 {
          UniformStmts(o, fuel, t, st.(world := w));
        } else {
          UniformStmts(o, fuel, e, st.(world := w));
        }
      case While(c, b) =>
        if fuel > 0 {
          var (x, w) := Eval(o, st.env, c, st.world);
          UniformStmts(o, fuel - 1, b, st.(world := w));
          var r := PerformAll(o, false, fuel - 1, b, st.(world := w));
          if r.Normal? {
            UniformStmt(o, fuel - 1, s, r.st);
          }
        }
      case Case(c, arms, dflt) =>
        var (x, w) := Eval(o, st.env, c, st.world);
        NoUnionChosen(arms, dflt, x);
        ChosenIsSmaller(arms, dflt, x);
        UniformStmts(o, fuel, ChooseArm(arms, dflt, x), st.(world := w));
      case _ =>
    }
  }

  lemma {:induction false} UniformStmts(o: Oracle, fuel: nat, ss: List<Stmt>, st: State)
    requires !TailUnion(ss)
    ensures PerformAll(o, true, fuel, ss, st) == PerformAll(o, false, fuel, ss, st)
    decreases fuel, ss, 1
  {
    if ss.Cons? {
      UniformStmt(o, fuel, ss.head, st);
      var r := Perform(o, false, fuel, ss.head, st);
      if r.Normal? {
        UniformStmts(o, fuel, ss.tail, r.st);
      }
    }
  }

  /** `return e` as emitted agrees with evaluate-then-return exactly when `e` is not a union
      constructor; for a constructor the call logs differ under every oracle. */
  lemma TailFormExact(o: Oracle, env: Env, e: Expr, w: World)
    ensures EvalResult(o, false, env, e, w) == EvalResult(o, true, env, e, w) <==>
            !(e.App? && e.callee == UNION_NEW && Length(e.args) >= 2)
  {
    if e.App? && e.callee == UNION_NEW {
      var (ws, w1) := EvalArgs(o, env, e.args, w);
      if Length(e.args) >= 2 {
        var (p, w2) := CallOut(o, w1, ALLOC, [ws[0]]);
        assert w2.trace[|w1.trace|].callee == ALLOC;
        var (q, w3) := CallOut(o, w1, UNION_NEW, ws);
        assert w3.trace[|w1.trace|].callee == UNION_NEW;
        assert |ALLOC| != |UNION_NEW|;
      }
    }
  }

  // ----- the theorem -----

  /** The compiled function, called on `args` in world `w`, returns `x` and leaves `w'`. */
  ghost predicate Halts(o: Oracle, g: Graph, args: seq<Word>, w: World, x: Word, w': World) {
    exists n: nat :: Steps(o, g, n, Start(args, w)) == Halted(x, w')
  }

  /** So does the interpreter, for some bound on loop iterations. */
  ghost predicate Means(o: Oracle, uniform: bool, ps: seq<string>, body: List<Stmt>, args: seq<Word>, w: World, x: Word, w': World)
    requires |ps| == |args|
  {
    exists fuel: nat :: Interpret(o, uniform, fuel, ps, body, args, w) == Returned(x, w')
  }

  lemma {:induction false} HaltedStays(o: Oracle, g: Graph, n: nat, m: nat, r: Run)
    requires n <= m && !Steps(o, g, n, r).Running?
    ensures Steps(o, g, m, r) == Steps(o, g, n, r)
  {
    StepsAdd(o, g, n, m - n, r);
  }

  lemma StepsSame(o: Oracle, g: Graph, n: nat, m: nat, r: Run)
    requires !Steps(o, g, n, r).Running? && !Steps(o, g, m, r).Running?
    ensures Steps(o, g, n, r) == Steps(o, g, m, r)
  {
    if n <= m {
      HaltedStays(o, g, n, m, r);
    } else {
      HaltedStays(o, g, m, n, r);
    }
  }

  lemma UniformInterpret(o: Oracle, uniform: bool, fuel: nat, ps: seq<string>, body: List<Stmt>, args: seq<Word>, w: World)
    requires |ps| == |args| && (uniform ==> !TailUnion(body))
    ensures Interpret(o, uniform, fuel, ps, body, args, w) == Interpret(o, false, fuel, ps, body, args, w)
  {
    if uniform {
      UniformStmts(o, fuel, body, State(BindParams(ps, args, |ps|), w));
    }
  }

  /**
   Meaning is preserved, both ways and for every oracle, argument list and starting world:
   the emitted graph returns a word, heap and call trace exactly when the interpreter does,
   and it never gets stuck. With `uniform`, `return` is read as evaluate-then-return, which
   needs a body without a direct `return __union_new(size, tag, ..)`.
   */
  lemma MeaningPreserved(o: Oracle, uniform: bool, c: Ctx, ps: seq<string>, body: List<Stmt>, args: seq<Word>, w: World, x: Word, w': World)
    requires GenFun(c, ps, body).Some? && |ps| == |args| && (uniform ==> !TailUnion(body))
    ensures Halts(o, GenFun(c, ps, body).value.blocks, args, w, x, w') <==> Means(o, uniform, ps, body, args, w, x, w')
  {
    hide Interpret, Steps, GenFun;
    var g := GenFun(c, ps, body).value.blocks;
    if Means(o, uniform, ps, body, args, w, x, w') {
      var fuel: nat :| Interpret(o, uniform, fuel, ps, body, args, w) == Returned(x, w');
      UniformInterpret(o, uniform, fuel, ps, body, args, w);
      var n := FunSim(o, c, ps, body, args, w, fuel);
      assert Steps(o, g, n, Start(args, w)) == Halted(x, w');
    }
    if Halts(o, g, args, w, x, w') {
      var n: nat :| Steps(o, g, n, Start(args, w)) == Halted(x, w');
      UniformInterpret(o, uniform, n, ps, body, args, w);
      var m := FunSim(o, c, ps, body, args, w, n);
      if Interpret(o, false, n, ps, body, args, w).Timeout? {
        HaltedStays(o, g, n, m, Start(args, w));
        assert false;
      }
      StepsSame(o, g, n, m, Start(args, w));
      assert Interpret(o, uniform, n, ps, body, args, w) == Returned(x, w');
    }
  }

  /** No run of a compiled function reads an unwritten register, runs off a block or branches nowhere. */
  lemma NeverStuck(o: Oracle, c: Ctx, ps: seq<string>, body: List<Stmt>, args: seq<Word>, w: World, n: nat)
    requires GenFun(c, ps, body).Some? && |ps| == |args|
    ensures !Steps(o, GenFun(c, ps, body).value.blocks, n, Start(args, w)).Stuck?
  {
    hide Interpret, Steps, GenFun;
    var g := GenFun(c, ps, body).value.blocks;
    var m := FunSim(o, c, ps, body, args, w, n);
    if Steps(o, g, n, Start(args, w)).Stuck? {
      if m >= n {
        HaltedStays(o, g, n, m, Start(args, w));
      } else if Interpret(o, false, n, ps, body, args, w).Returned? {
        HaltedStays(o, g, m, n, Start(args, w));
      }
      assert false;
    }
  }

  ghost predicate RunsForever(o: Oracle, g: Graph, args: seq<Word>, w: World) {
    forall n: nat :: Steps(o, g, n, Start(args, w)).Running?
  }

  ghost predicate TimesOut(o: Oracle, ps: seq<string>, body: List<Stmt>, args: seq<Word>, w: World)
    requires |ps| == |args|
  {
    forall fuel: nat :: Interpret(o, false, fuel, ps, body, args, w).Timeout?
  }

  /** The compiled function runs for ever exactly when every iteration bound times out. */
  lemma DivergencePreserved(o: Oracle, c: Ctx, ps: seq<string>, body: List<Stmt>, args: seq<Word>, w: World)
    requires GenFun(c, ps, body).Some? && |ps| == |args|
    ensures RunsForever(o, GenFun(c, ps, body).value.blocks, args, w) <==> TimesOut(o, ps, body, args, w)
  {
    hide Interpret, Steps, GenFun;
    var g := GenFun(c, ps, body).value.blocks;
    if RunsForever(o, g, args, w) {
      forall fuel: nat
        ensures Interpret(o, false, fuel, ps, body, args, w).Timeout?
      {
        var n := FunSim(o, c, ps, body, args, w, fuel);
        assert Steps(o, g, n, Start(args, w)).Running?;
      }
    }
    if TimesOut(o, ps, body, args, w) {
      forall n: nat
        ensures Steps(o, g, n, Start(args, w)).Running?
      {
        var m := FunSim(o, c, ps, body, args, w, n);
        assert Interpret(o, false, n, ps, body, args, w).Timeout?;
        if !Steps(o, g, n, Start(args, w)).Running? {
          HaltedStays(o, g, n, m, Start(args, w));
        }
      }
    }
  }

  /** Every created block was entered exactly once and is straight-line code ended by its only
      terminator; every branch goes to a created block. */
  ghost predicate WellFormedGraph(g: Gen) {
    && (forall b | 0 <= b < |g.blocks| :: Closed(g.blocks[b]))
    && (forall b, i | 0 <= b < |g.blocks| && 0 <= i < |g.blocks[b]| ::
          && (g.blocks[b][i].Jump? ==> g.blocks[b][i].target < |g.blocks|)
          && (g.blocks[b][i].Brif? ==> g.blocks[b][i].yes < |g.blocks| && g.blocks[b][i].no < |g.blocks|))
    && (forall i, j | 0 <= i < j < |g.entered| :: g.entered[i] != g.entered[j])
    && (forall b: nat :: b in g.entered <==> b < |g.blocks|)
  }

  lemma GraphWellFormed(c: Ctx, ps: seq<string>, body: List<Stmt>)
    requires GenFun(c, ps, body).Some?
    ensures WellFormedGraph(GenFun(c, ps, body).value)
  {
    hide GenFun, Permitted, Closed;
    GenFunWf(c, ps, body);
    var g := GenFun(c, ps, body).value;
    forall b, i | 0 <= b < |g.blocks| && 0 <= i < |g.blocks[b]|
      ensures InstrOk(c, |g.blocks|, g.blocks[b][i])
    {
      assert CodeOk(c, |g.blocks|, g.blocks[b]);
    }
  }

  /** Every emitted call to a kernel name other than the function itself was allowed for the
      principal: the deployment's, else the module's, else the caller's. */
  lemma GateComplete(c: Ctx, ps: seq<string>, body: List<Stmt>, b: nat, i: nat)
    requires GenFun(c, ps, body).Some?
    requires b < |GenFun(c, ps, body).value.blocks| && i < |GenFun(c, ps, body).value.blocks[b]|
    ensures var ins := GenFun(c, ps, body).value.blocks[b][i];
            ins.CallI? && KernelName(ins.f) && ins.f != c.caller ==> Check(c.auth, Principal(c), "Call", ins.f)
  {
    hide GenFun, Permitted;
    GenFunWf(c, ps, body);
    var g := GenFun(c, ps, body).value;
    assert CodeOk(c, |g.blocks|, g.blocks[b]);
    if g.blocks[b][i].CallI? {
      PermittedMeans(c, g.blocks[b][i].f);
    }
  }

  // ----- modules -----

  /** Each function of the table, compiled in order; the first failure fails the module. */
  function CompileFuns(auth: Auth, moduleName: string, hs: seq<Header>): (r: Option<seq<Gen>>)
    ensures r.Some? ==> |r.value| == |hs|
  {
    if hs == [] then Some([])
    else
      var body :- ParseStmts(hs[0].body, 0);
      var g :- GenFun(Ctx(auth, hs[0].name, moduleName), hs[0].params, body);
      var gs :- CompileFuns(auth, moduleName, hs[1..]);
      Some([g] + gs)
  }

  function CompileModule(auth: Auth, d: seq<Byte>): Option<seq<Gen>> {
    var t :- ParseTable(d);
    CompileFuns(auth, t.moduleName, t.funs)
  }

  lemma {:induction false} CompiledEach(auth: Auth, moduleName: string, hs: seq<Header>, i: nat)
    requires CompileFuns(auth, moduleName, hs).Some? && i < |hs|
    ensures ParseStmts(hs[i].body, 0).Some?
    ensures GenFun(Ctx(auth, hs[i].name, moduleName), hs[i].params, ParseStmts(hs[i].body, 0).value) ==
            Some(CompileFuns(auth, moduleName, hs).value[i])
    decreases i
  {
    if i > 0 {
      CompiledEach(auth, moduleName, hs[1..], i - 1);
    }
  }

  /** For every byte string that compiles, every function of its table parses, its graph is well
      formed and gated, and it means what its byte-coded body means (with `uniform`, under the
      evaluate-then-return reading, for bodies without a tail union). */
  lemma ModuleCorrect(auth: Auth, d: seq<Byte>, i: nat, o: Oracle, uniform: bool, args: seq<Word>, w: World, x: Word, w': World)
    requires CompileModule(auth, d).Some? && i < |CompileModule(auth, d).value|
    requires |args| == |ParseTable(d).value.funs[i].params|
    requires var body := ParseStmts(ParseTable(d).value.funs[i].body, 0);
             uniform && body.Some? ==> !TailUnion(body.value)
    ensures var t, g := ParseTable(d).value, CompileModule(auth, d).value[i];
            var c := Ctx(auth, t.funs[i].name, t.moduleName);
            && ParseStmts(t.funs[i].body, 0).Some?
            && (Halts(o, g.blocks, args, w, x, w') <==>
                Means(o, uniform, t.funs[i].params, ParseStmts(t.funs[i].body, 0).value, args, w, x, w'))
            && WellFormedGraph(g)
            && (forall b, j | 0 <= b < |g.blocks| && 0 <= j < |g.blocks[b]| ::
                  var ins := g.blocks[b][j];
                  ins.CallI? && KernelName(ins.f) && ins.f != c.caller ==> Check(auth, Principal(c), "Call", ins.f))
  {
    hide ParseTable, ParseStmts, GenFun, Halts, Means, WellFormedGraph, Check;
    var t := ParseTable(d).value;
    var c := Ctx(auth, t.funs[i].name, t.moduleName);
    CompiledEach(auth, t.moduleName, t.funs, i);
    var body := ParseStmts(t.funs[i].body, 0).value;
    MeaningPreserved(o, uniform, c, t.funs[i].params, body, args, w, x, w');
    GraphWellFormed(c, t.funs[i].params, body);
    var g := CompileModule(auth, d).value[i];
    forall b, j | 0 <= b < |g.blocks| && 0 <= j < |g.blocks[b]|
      ensures var ins := g.blocks[b][j];
              ins.CallI? && KernelName(ins.f) && ins.f != c.caller ==> Check(auth, Principal(c), "Call", ins.f)
    {
      GateComplete(c, t.funs[i].params, body, b, j);
    }
  }
}
