/** Exactly which trees compile: names in scope, arguments of the inline forms, and granted calls. */
module CpsScope {
  import opened Util
  import opened Bytes
  import opened CpsFormat
  import opened CpsGate
  import opened CpsGen
  import CpsMachine
  import CpsPrinter
  import CpsTheorems

  // ----- calls -----

  predicate IsKernel(f: string) {
    |f| >= 3 && (f[..3] == "uk_" || f[..3] == "uz_" || f[..3] == "rs_")
  }

  /** The principal a call is charged to: the deployment's, else the module's, else the calling function. */
  function Charged(deployment: Option<string>, moduleName: string, caller: string): string {
    if deployment.Some? && deployment.value != "" then deployment.value
    else if moduleName != "" then moduleName
    else caller
  }

  /** A kernel name other than the function itself needs the engine's consent; nothing else does. */
  predicate Granted(c: Ctx, f: string) {
    IsKernel(f) && f != c.caller ==>
      c.auth.engine.Some? && c.auth.engine.value(Charged(c.auth.deployment, c.moduleName, c.caller), "Call", f) == Allow
  }

  /** Arguments the inline forms index: two for a slot read, one for a record, and two for a
      union, which is inline only where its value is used. */
  predicate EnoughArgs(f: string, n: nat, tail: bool) {
    && (f == "__slot_get" || f == "__ptr_slot_get" ==> n >= 2)
    && (f == "__record_new" ==> n >= 1)
    && (f == "__union_new" && !tail ==> n >= 2)
  }

  // ----- expressions and statements, in emission order over one flat scope -----

  predicate ExprOk(c: Ctx, scope: set<string>, e: Expr) {
    match e
    case Const(_) => true
    case Var(x) => x in scope
    case App(f, args) => ArgsOk(c, scope, args) && Granted(c, f) && EnoughArgs(f, Length(args), false)
    case Bin(_, a, b) => ExprOk(c, scope, a) && ExprOk(c, scope, b)
    case Not(a) => ExprOk(c, scope, a)
    case Load(a) => ExprOk(c, scope, a)
    case Text(_) => true
  }

  predicate ArgsOk(c: Ctx, scope: set<string>, es: List<Expr>) {
    match es
    case Nil => true
    case Cons(e, rest) => ExprOk(c, scope, e) && ArgsOk(c, scope, rest)
  }

  predicate ResultOk(c: Ctx, scope: set<string>, e: Expr) {
    if e.App? then ArgsOk(c, scope, e.args) && Granted(c, e.callee) && EnoughArgs(e.callee, Length(e.args), true)
    else ExprOk(c, scope, e)
  }

  /** The names in scope behind a statement: every let emitted so far, in whichever branch. */
  function ScopeAfter(scope: set<string>, s: Stmt): set<string>
    decreases s, 0
  {
    match s
    case If(_, t, e) => ScopeThrough(ScopeThrough(scope, t), e)
    case While(_, b) => ScopeThrough(scope, b)
    case Case(_, arms, dflt) => ScopeThrough(ScopeArms(scope, arms), dflt)
    case Let(x, _) => scope + {x}
    case _ => scope
  }

  function ScopeThrough(scope: set<string>, ss: List<Stmt>): set<string>
    decreases ss, 1
  {
    if ss.Nil? then scope
    else if ss.head.Return? then scope
    else ScopeThrough(ScopeAfter(scope, ss.head), ss.tail)
  }

  function ScopeArms(scope: set<string>, arms: List<Arm>): set<string>
    decreases arms, 1
  {
    if arms.Nil? then scope else ScopeArms(ScopeThrough(scope, arms.head.body), arms.tail)
  }

  predicate StmtOk(c: Ctx, scope: set<string>, s: Stmt)
    decreases s, 0
  {
    match s
    case Return(e) => ResultOk(c, scope, e)
    case If(x, t, e) => ExprOk(c, scope, x) && StmtsOk(c, scope, t) && StmtsOk(c, ScopeThrough(scope, t), e)
    case While(x, b) => ExprOk(c, scope, x) && StmtsOk(c, scope, b)
    case Case(x, arms, dflt) => ExprOk(c, scope, x) && ArmsOk(c, scope, arms) && StmtsOk(c, ScopeArms(scope, arms), dflt)
    case Let(_, e) => ExprOk(c, scope, e)
    case Store(p, e) => ExprOk(c, scope, p) && ExprOk(c, scope, e)
    case Discard(e) => ExprOk(c, scope, e)
  }

  /** What follows a return is not looked at. */
  predicate StmtsOk(c: Ctx, scope: set<string>, ss: List<Stmt>)
    decreases ss, 1
  {
    ss.Cons? ==> StmtOk(c, scope, ss.head) && (ss.head.Return? || StmtsOk(c, ScopeAfter(scope, ss.head), ss.tail))
  }

  predicate ArmsOk(c: Ctx, scope: set<string>, arms: List<Arm>)
    decreases arms, 1
  {
    arms.Cons? ==> StmtsOk(c, scope, arms.head.body) && ArmsOk(c, ScopeThrough(scope, arms.head.body), arms.tail)
  }

  /** A function body compiles from the scope of its parameters. */
  predicate FunOk(c: Ctx, ps: seq<string>, body: List<Stmt>) {
    StmtsOk(c, (set p | p in ps), body)
  }

  // ----- generation succeeds exactly then -----

  lemma PermittedIsGranted(c: Ctx, f: string)
    ensures Permitted(c, f) <==> Granted(c, f)
  {
    PermittedMeans(c, f);
  }

  lemma AppExactly(f: string, a: Codes)
    ensures GenApp(f, a).Some? <==> EnoughArgs(f, |a.vals|, false)
    ensures GenTailApp(f, a).Some? <==> EnoughArgs(f, |a.vals|, true)
  {
  }

  lemma {:induction false} ExprExactly(c: Ctx, vars: Vars, e: Expr, n: nat)
    ensures GenExpr(c, vars, e, n).Some? <==> ExprOk(c, vars.Keys, e)
    decreases e
  {
    hide Permitted, Granted, GenApp, EnoughArgs, GenText, GenBin;
    match e {
      case App(f, args) =>
        ArgsExactly(c, vars, args, n);
        PermittedIsGranted(c, f);
        var a := GenArgs(c, vars, args, n);
        if a.Some? {
          AppExactly(f, a.value);
        }
      case Bin(_, a, b) =>
        ExprExactly(c, vars, a, n);
        var x := GenExpr(c, vars, a, n);
        if x.Some? {
          ExprExactly(c, vars, b, x.value.next);
        }
      case Not(a) => ExprExactly(c, vars, a, n);
      case Load(a) => ExprExactly(c, vars, a, n);
      case _ =>
    }
  }

  lemma {:induction false} ArgsExactly(c: Ctx, vars: Vars, es: List<Expr>, n: nat)
    ensures GenArgs(c, vars, es, n).Some? <==> ArgsOk(c, vars.Keys, es)
    ensures GenArgs(c, vars, es, n).Some? ==> |GenArgs(c, vars, es, n).value.vals| == Length(es)
    decreases es
  {
    hide GenExpr, ExprOk;
    if es.Cons? {
      ExprExactly(c, vars, es.head, n);
      var x := GenExpr(c, vars, es.head, n);
      if x.Some? {
        ArgsExactly(c, vars, es.tail, x.value.next);
      }
    }
  }

  lemma ResultExactly(c: Ctx, vars: Vars, e: Expr, n: nat)
    ensures GenResult(c, vars, e, n).Some? <==> ResultOk(c, vars.Keys, e)
  {
    hide Permitted, Granted, GenTailApp, EnoughArgs, GenExpr, ExprOk, GenArgs, ArgsOk;
    if e.App? {
      ArgsExactly(c, vars, e.args, n);
      PermittedIsGranted(c, e.callee);
      var a := GenArgs(c, vars, e.args, n);
      if a.Some? {
        AppExactly(e.callee, a.value);
      }
    } else {
      ExprExactly(c, vars, e, n);
    }
  }

  lemma TestExactly(c: Ctx, vars: Vars, e: Expr, n: nat)
    ensures GenTest(c, vars, e, n).Some? <==> ExprOk(c, vars.Keys, e)
  {
    hide GenExpr, ExprOk;
    ExprExactly(c, vars, e, n);
  }

  /** What a list's outcome must be: it fails exactly when it is not in order, and leaves the scope. */
  ghost predicate ListAgrees(c: Ctx, ss: List<Stmt>, g: Gen, r: Option<Gen>) {
    && (r.Some? <==> StmtsOk(c, g.vars.Keys, ss))
    && (r.Some? ==> r.value.vars.Keys == ScopeThrough(g.vars.Keys, ss))
  }

  ghost predicate StmtAgrees(c: Ctx, s: Stmt, g: Gen, r: Option<Gen>) {
    && (r.Some? <==> StmtOk(c, g.vars.Keys, s))
    && (r.Some? ==> r.value.vars.Keys == ScopeAfter(g.vars.Keys, s) && r.value.terminated == s.Return?)
  }

  lemma ReturnScope(scope: set<string>, s: Stmt)
    ensures s.Return? ==> ScopeAfter(scope, s) == scope
  {
  }

  lemma {:induction false} StmtsExactly(c: Ctx, ss: List<Stmt>, g: Gen)
    requires !g.terminated
    ensures ListAgrees(c, ss, g, GenStmts(c, ss, g))
    decreases ss, 2
  {
    hide GenStmt, StmtOk, ScopeAfter;
    if ss.Cons? {
      ReturnScope(g.vars.Keys, ss.head);
      StmtExactly(c, ss.head, g);
      var g1 := GenStmt(c, ss.head, g);
      if g1.Some? && !ss.head.Return? {
        StmtsExactly(c, ss.tail, g1.value);
      }
    }
  }

  lemma {:induction false} StmtExactly(c: Ctx, s: Stmt, g: Gen)
    requires !g.terminated
    ensures StmtAgrees(c, s, g, GenStmt(c, s, g))
    decreases s, 1
  {
    hide GenExpr, ExprOk, GenResult, ResultOk, GenIf, GenWhile, GenCase, GenStmts;
    match s {
      case Return(e) => ResultExactly(c, g.vars, e, g.next);
      case If(_, _, _) => IfExactly(c, s, g);
      case While(_, _) => WhileExactly(c, s, g);
      case Case(_, _, _) => CaseExactly(c, s, g);
      case Let(x, e) => ExprExactly(c, g.vars, e, g.next);
      case Store(p, e) =>
        ExprExactly(c, g.vars, p, g.next);
        var k := GenExpr(c, g.vars, p, g.next);
        if k.Some? {
          ExprExactly(c, g.vars, e, k.value.next);
        }
      case Discard(e) => ExprExactly(c, g.vars, e, g.next);
    }
  }

  lemma {:induction false} IfExactly(c: Ctx, s: Stmt, g: Gen)
    requires s.If? && !g.terminated
    ensures StmtAgrees(c, s, g, GenIf(c, s, g))
    decreases s, 0
  {
    hide GenTest, ExprOk, GenStmts, StmtsOk, ScopeThrough;
    var n, k := |g.blocks|, GenTest(c, g.vars, s.test, g.next);
    TestExactly(c, g.vars, s.test, g.next);
    if k.Some? {
      var g1: Gen := g.Create(3).Close(k.value.ins + [CpsMachine.Brif(k.value.val, n, n + 1)], k.value.next).Switch(n);
      StmtsExactly(c, s.thn, g1);
      var g2 := GenStmts(c, s.thn, g1);
      if g2.Some? {
        var g3: Gen := g2.value.EndWith(n + 2).Switch(n + 1);
        StmtsExactly(c, s.els, g3);
      }
    }
  }

  lemma {:induction false} WhileExactly(c: Ctx, s: Stmt, g: Gen)
    requires s.While? && !g.terminated
    ensures StmtAgrees(c, s, g, GenWhile(c, s, g))
    decreases s, 0
  {
    hide GenTest, ExprOk, GenStmts, StmtsOk, ScopeThrough;
    var n := |g.blocks|;
    var g1: Gen := g.Create(3).EndWith(n).Switch(n);
    var k := GenTest(c, g1.vars, s.test, g1.next);
    TestExactly(c, g1.vars, s.test, g1.next);
    if k.Some? {
      var g2: Gen := g1.Close(k.value.ins + [CpsMachine.Brif(k.value.val, n + 1, n + 2)], k.value.next).Switch(n + 1);
      StmtsExactly(c, s.body, g2);
    }
  }

  lemma {:induction false} CaseExactly(c: Ctx, s: Stmt, g: Gen)
    requires s.Case? && !g.terminated
    ensures StmtAgrees(c, s, g, GenCase(c, s, g))
    decreases s, 0
  {
    hide GenExpr, ExprOk, GenStmts, StmtsOk, ScopeThrough, GenArms, ArmsOk, ScopeArms;
    var n, k := |g.blocks|, GenExpr(c, g.vars, s.subject, g.next);
    ExprExactly(c, g.vars, s.subject, g.next);
    if k.Some? {
      var g1: Gen := g.Emit(k.value.ins, k.value.next).Create(1);
      ArmsExactly(c, s.arms, k.value.val, n, g1);
      var g2 := GenArms(c, s.arms, k.value.val, n, g1);
      if g2.Some? {
        StmtsExactly(c, s.dflt, g2.value);
      }
    }
  }

  lemma {:induction false} ArmsExactly(c: Ctx, arms: List<Arm>, v: nat, merge: nat, g: Gen)
    requires !g.terminated
    ensures GenArms(c, arms, v, merge, g).Some? <==> ArmsOk(c, g.vars.Keys, arms)
    ensures GenArms(c, arms, v, merge, g).Some? ==>
              var r := GenArms(c, arms, v, merge, g).value; r.vars.Keys == ScopeArms(g.vars.Keys, arms) && !r.terminated
    decreases arms, 2
  {
    hide GenStmts, StmtsOk, ScopeThrough;
    if arms.Cons? {
      var n, z, a := |g.blocks|, g.next, arms.head;
      var g1: Gen := g.Create(2).Close([CpsMachine.Iconst(z, a.val), CpsMachine.Icmp(z + 1, Eq, v, z), CpsMachine.Brif(z + 1, n, n + 1)], z + 2).Switch(n);
      StmtsExactly(c, a.body, g1);
      var g2 := GenStmts(c, a.body, g1);
      if g2.Some? {
        ArmsExactly(c, arms.tail, v, merge, g2.value.EndWith(merge).Switch(n + 1));
      }
    }
  }

  lemma {:induction false} ParamScope(ps: seq<string>, n: nat)
    requires n <= |ps|
    ensures ParamVars(ps, n).Keys == set p | p in ps[..n]
  {
    if n > 0 {
      ParamScope(ps, n - 1);
      assert ps[..n] == ps[..n - 1] + [ps[n - 1]];
    }
  }

  /** A function compiles exactly when its body is in order. */
  lemma FunExactly(c: Ctx, ps: seq<string>, body: List<Stmt>)
    ensures GenFun(c, ps, body).Some? <==> FunOk(c, ps, body)
  {
    hide GenStmts, StmtsOk;
    ParamScope(ps, |ps|);
    assert ps[..|ps|] == ps;
    StmtsExactly(c, body, Entry(ps));
  }

  // ----- modules -----

  /** Function `i` of the table reads as a tree that is in order. */
  predicate EntryOk(auth: Auth, moduleName: string, h: Header) {
    var body := ParseStmts(h.body, 0);
    body.Some? && FunOk(Ctx(auth, h.name, moduleName), h.params, body.value)
  }

  lemma {:induction false} FunsExactly(auth: Auth, moduleName: string, hs: seq<Header>)
    ensures CpsTheorems.CompileFuns(auth, moduleName, hs).Some? <==> forall i | 0 <= i < |hs| :: EntryOk(auth, moduleName, hs[i])
  {
    hide FunOk, ParseStmts, GenFun;
    if hs != [] {
      var body := ParseStmts(hs[0].body, 0);
      if body.Some? {
        FunExactly(Ctx(auth, hs[0].name, moduleName), hs[0].params, body.value);
      }
      FunsExactly(auth, moduleName, hs[1..]);
      assert forall i | 0 <= i < |hs| - 1 :: hs[1..][i] == hs[i + 1];
      if forall i | 0 <= i < |hs[1..]| :: EntryOk(auth, moduleName, hs[1..][i]) {
        forall i | 1 <= i < |hs| ensures EntryOk(auth, moduleName, hs[i]) {
          assert hs[i] == hs[1..][i - 1];
        }
      }
    }
  }

  /** Any byte string compiles exactly when it reads as a table and every body is in order. */
  lemma ModuleExactly(auth: Auth, d: seq<Byte>)
    ensures CpsTheorems.CompileModule(auth, d).Some? <==>
            ParseTable(d).Some? && forall i | 0 <= i < |ParseTable(d).value.funs| :: EntryOk(auth, ParseTable(d).value.moduleName, ParseTable(d).value.funs[i])
  {
    hide ParseTable, EntryOk;
    if ParseTable(d).Some? {
      FunsExactly(auth, ParseTable(d).value.moduleName, ParseTable(d).value.funs);
    }
  }

  /** The table whose bodies are printed from these trees, padded anyhow. */
  ghost predicate Prints(g: CpsPrinter.Padding, t: Table, bodies: seq<List<Stmt>>) {
    && CpsPrinter.FitsTable(t) && |bodies| == |t.funs|
    && forall i | 0 <= i < |bodies| :: CpsPrinter.FitsStmts(g, [], bodies[i]) && t.funs[i].body == CpsPrinter.PrintBody(g, [], bodies[i])
  }

  /** A printed module compiles exactly when every tree in it is in order. */
  lemma PrintedExactly(auth: Auth, g: CpsPrinter.Padding, t: Table, bodies: seq<List<Stmt>>, version1: bool, rest: seq<Byte>)
    requires Prints(g, t, bodies) && (version1 ==> t.moduleName == "")
    ensures CpsTheorems.CompileModule(auth, CpsPrinter.PrintTable(t, version1) + rest).Some? <==>
            forall i | 0 <= i < |bodies| :: FunOk(Ctx(auth, t.funs[i].name, t.moduleName), t.funs[i].params, bodies[i])
  {
    hide ParseTable, ParseStmts, FunOk, CpsPrinter.PrintTable, CpsPrinter.PrintBody, CpsPrinter.FitsStmts, CpsPrinter.FitsTable;
    CpsPrinter.TableRoundTrip(t, version1, rest);
    ModuleExactly(auth, CpsPrinter.PrintTable(t, version1) + rest);
    forall i | 0 <= i < |bodies|
      ensures EntryOk(auth, t.moduleName, t.funs[i]) <==> FunOk(Ctx(auth, t.funs[i].name, t.moduleName), t.funs[i].params, bodies[i])
    {
      CpsPrinter.PaddedRoundTrip(g, bodies[i]);
    }
  }
}
