/**
 What every emission step keeps: blocks are straight-line code ended by at most one
 terminator, branch targets exist, kernel calls were granted, and the blocks still to be
 entered are exactly the pending ones.
 */
module CpsWellFormed {
  import opened Util
  import opened Bytes
  import opened CpsFormat
  import opened CpsMachine
  import opened CpsSemantics
  import opened CpsGate
  import opened CpsGen

  ghost predicate Open(b: seq<Instr>) {
    forall i | 0 <= i < |b| :: !b[i].Terminator()
  }

  /** Exactly one terminator, at the end. */
  ghost predicate Closed(b: seq<Instr>) {
    b != [] && b[|b| - 1].Terminator() && Open(b[..|b| - 1])
  }

  /** A call was permitted; a branch goes to one of the `n` created blocks. */
  ghost predicate InstrOk(c: Ctx, n: nat, i: Instr) {
    && (i.CallI? ==> Permitted(c, i.f))
    && (i.Jump? ==> i.target < n)
    && (i.Brif? ==> i.yes < n && i.no < n)
  }

  ghost predicate CodeOk(c: Ctx, n: nat, b: seq<Instr>) {
    forall i | 0 <= i < |b| :: InstrOk(c, n, b[i])
  }

  ghost predicate BlocksOk(c: Ctx, g: Gen) {
    forall b | 0 <= b < |g.blocks| :: CodeOk(c, |g.blocks|, g.blocks[b])
  }

  ghost predicate PendingOk(g: Gen, pend: set<nat>) {
    && (forall b | b in pend :: b < |g.blocks| && b != g.cur && g.blocks[b] == [])
    && (forall b | 0 <= b < |g.blocks| && b != g.cur && b !in pend :: Closed(g.blocks[b]))
  }

  ghost predicate EnteredOk(g: Gen, pend: set<nat>) {
    && (forall i, j | 0 <= i < j < |g.entered| :: g.entered[i] != g.entered[j])
    && (forall b: nat :: b in g.entered <==> b < |g.blocks| && b !in pend)
  }

  ghost predicate VarsOk(vars: Vars, n: nat) {
    && (forall x | x in vars :: vars[x] < n)
    && (forall x, y | x in vars && y in vars && vars[x] == vars[y] :: x == y)
  }

  ghost predicate CurOk(g: Gen) {
    if g.terminated then Closed(g.blocks[g.cur]) else Open(g.blocks[g.cur])
  }

  ghost predicate Wf(c: Ctx, g: Gen, pend: set<nat>) {
    BlocksOk(c, g) && PendingOk(g, pend) && EnteredOk(g, pend) && VarsOk(g.vars, g.nvars) && CurOk(g)
  }

  ghost predicate SubVars(vars: Vars, vars': Vars) {
    forall x | x in vars :: x in vars' && vars'[x] == vars[x]
  }

  /** `h` is `g` with code appended, blocks added and variables declared. */
  ghost predicate Ext(g: GenState, h: GenState) {
    && |g.blocks| <= |h.blocks|
    && (forall b | 0 <= b < |g.blocks| :: g.blocks[b] <= h.blocks[b])
    && SubVars(g.vars, h.vars) && g.next <= h.next && g.nvars <= h.nvars
    && (forall x | x in h.vars && x !in g.vars :: h.vars[x] >= g.nvars)
  }

  lemma ExtTrans(g: GenState, h: GenState, k: GenState)
    requires Ext(g, h) && Ext(h, k)
    ensures Ext(g, k)
  {
    forall b | 0 <= b < |g.blocks|
      ensures g.blocks[b] <= k.blocks[b]
    {
      assert g.blocks[b] <= h.blocks[b] <= k.blocks[b];
    }
  }

  // ----- what the block manager's operations keep -----

  lemma EmitWf(c: Ctx, g: Gen, pend: set<nat>, ins: seq<Instr>, next: nat)
    requires Wf(c, g, pend) && !g.terminated && Open(ins) && CodeOk(c, |g.blocks|, ins) && g.next <= next
    ensures Wf(c, g.Emit(ins, next), pend) && Ext(g, g.Emit(ins, next))
  {
  }

  lemma CloseWf(c: Ctx, g: Gen, pend: set<nat>, ins: seq<Instr>, t: Instr, next: nat)
    requires Wf(c, g, pend) && !g.terminated && Open(ins) && CodeOk(c, |g.blocks|, ins) && g.next <= next
    requires t.Terminator() && InstrOk(c, |g.blocks|, t)
    ensures Wf(c, g.Close(ins + [t], next), pend) && Ext(g, g.Close(ins + [t], next))
  {
    var b := g.blocks[g.cur] + (ins + [t]);
    assert b[..|b| - 1] == g.blocks[g.cur] + ins;
  }

  lemma EndWithWf(c: Ctx, g: Gen, pend: set<nat>, target: nat)
    requires Wf(c, g, pend) && target < |g.blocks|
    ensures Wf(c, g.EndWith(target), pend) && Ext(g, g.EndWith(target)) && g.EndWith(target).terminated
  {
    if !g.terminated {
      assert [] + [Jump(target)] == [Jump(target)];
      CloseWf(c, g, pend, [], Jump(target), g.next);
    }
  }

  lemma CreateWf(c: Ctx, g: Gen, pend: set<nat>, n: nat, more: set<nat>)
    requires Wf(c, g, pend)
    requires forall b :: b in more <==> |g.blocks| <= b < |g.blocks| + n
    ensures Wf(c, g.Create(n), pend + more) && Ext(g, g.Create(n))
  {
    var h: Gen := g.Create(n);
    assert forall b | 0 <= b < |g.blocks| :: h.blocks[b] == g.blocks[b];
    assert forall b | |g.blocks| <= b < |h.blocks| :: h.blocks[b] == [];
    forall b | 0 <= b < |h.blocks|
      ensures CodeOk(c, |h.blocks|, h.blocks[b])
    {
      if b < |g.blocks| {
        assert CodeOk(c, |g.blocks|, g.blocks[b]);
      }
    }
  }

  lemma SwitchWf(c: Ctx, g: Gen, pend: set<nat>, b: nat)
    requires Wf(c, g, pend) && g.terminated && b in pend
    ensures Wf(c, g.Switch(b), pend - {b}) && Ext(g, g.Switch(b)) && g.blocks[b] == []
  {
    var h: Gen := g.Switch(b);
    assert b !in g.entered;
    forall x: nat
      ensures x in h.entered <==> x < |h.blocks| && x !in pend - {b}
    {
      assert x in h.entered <==> x in g.entered || x == b;
    }
  }

  lemma AssignWf(c: Ctx, g: Gen, pend: set<nat>, x: string, v: nat)
    requires Wf(c, g, pend) && !g.terminated
    ensures Wf(c, g.Assign(x, v), pend) && Ext(g, g.Assign(x, v)) && !g.Assign(x, v).terminated
    ensures x in g.Assign(x, v).vars
    ensures g.Assign(x, v).blocks == g.Emit([DefVar(g.Assign(x, v).vars[x], v)], g.next).blocks
  {
    var id := if x in g.vars then g.vars[x] else g.nvars;
    EmitWf(c, g, pend, [DefVar(id, v)], g.next);
  }

  // ----- expression code is straight-line, gated, and over registers from `n` up -----

  ghost predicate ExprCodeOk(c: Ctx, ins: seq<Instr>) {
    Open(ins) && CodeOk(c, 0, ins)
  }

  lemma FieldStoresOk(c: Ctx, vals: seq<nat>, p: nat, i: nat)
    requires i >= 1
    ensures ExprCodeOk(c, FieldStores(vals, p, i))
    decreases |vals| - i
  {
  }

  lemma TextStoresOk(c: Ctx, s: seq<Byte>, p: nat, i: nat, n: nat)
    ensures ExprCodeOk(c, TextStores(s, p, i, n))
    decreases |s| - i
  {
  }

  lemma AllocPermitted(c: Ctx)
    ensures Permitted(c, ALLOC)
  {
    assert "au_" <= ALLOC;
  }

  lemma ConcatOk(c: Ctx, a: seq<Instr>, b: seq<Instr>)
    requires ExprCodeOk(c, a) && ExprCodeOk(c, b)
    ensures ExprCodeOk(c, a + b)
  {
  }

  lemma ObjectCodeOk(c: Ctx, a: Codes)
    requires ExprCodeOk(c, a.ins)
    ensures GenRecord(a).Some? ==> ExprCodeOk(c, GenRecord(a).value.ins)
    ensures GenUnion(a).Some? ==> ExprCodeOk(c, GenUnion(a).value.ins)
    ensures GenRecord(a).Some? ==> a.next <= GenRecord(a).value.next
    ensures GenUnion(a).Some? ==> a.next <= GenUnion(a).value.next
  {
    hide FieldStores;
    AllocPermitted(c);
    FieldStoresOk(c, a.vals, a.next, 1);
    FieldStoresOk(c, a.vals, a.next, 2);
  }

  lemma AppCodeOk(c: Ctx, f: string, a: Codes)
    requires ExprCodeOk(c, a.ins) && Permitted(c, f)
    ensures GenApp(f, a).Some? ==> ExprCodeOk(c, GenApp(f, a).value.ins)
    ensures GenTailApp(f, a).Some? ==> ExprCodeOk(c, GenTailApp(f, a).value.ins)
    ensures GenApp(f, a).Some? ==> a.next <= GenApp(f, a).value.next
    ensures GenTailApp(f, a).Some? ==> a.next <= GenTailApp(f, a).value.next
  {
    hide GenRecord, GenUnion, Permitted;
    ObjectCodeOk(c, a);
  }

  lemma TextCodeOk(c: Ctx, s: seq<Byte>, n: nat)
    ensures ExprCodeOk(c, GenText(s, n).ins) && n <= GenText(s, n).next
  {
    hide TextStores;
    AllocPermitted(c);
    TextStoresOk(c, s, n + 1, 0, n + 2);
  }

  /** One plain instruction more. */
  lemma OneOk(c: Ctx, ins: seq<Instr>, i: Instr)
    requires ins == [] || ExprCodeOk(c, ins)
    requires i.Iconst? || i.UseVar? || i.Bnot? || i.LoadI?
    ensures ExprCodeOk(c, ins + [i]) && ExprCodeOk(c, [i])
    ensures [] + [i] == [i]
  {
  }

  lemma BinOk(c: Ctx, op: BinOp, x: Code, y: Code)
    requires ExprCodeOk(c, x.ins) && ExprCodeOk(c, y.ins)
    ensures ExprCodeOk(c, GenBin(op, x, y).ins) && y.next <= GenBin(op, x, y).next
  {
    ConcatOk(c, x.ins, y.ins);
  }

  lemma {:induction false} GenExprOk(c: Ctx, vars: Vars, e: Expr, n: nat)
    requires GenExpr(c, vars, e, n).Some?
    ensures ExprCodeOk(c, GenExpr(c, vars, e, n).value.ins) && n <= GenExpr(c, vars, e, n).value.next
    decreases e
  {
    hide Permitted, GenApp, GenText, GenBin, ExprCodeOk;
    match e {
      case Const(w) => OneOk(c, [], Iconst(n, w));
      case Var(x) => OneOk(c, [], UseVar(n, vars[x]));
      case App(f, args) =>
        GenArgsOk(c, vars, args, n);
        AppCodeOk(c, f, GenArgs(c, vars, args, n).value);
      case Bin(op, a, b) =>
        var x := GenExpr(c, vars, a, n).value;
        var y := GenExpr(c, vars, b, x.next).value;
        GenExprOk(c, vars, a, n);
        GenExprOk(c, vars, b, x.next);
        BinOk(c, op, x, y);
      case Not(a) =>
        var x := GenExpr(c, vars, a, n).value;
        GenExprOk(c, vars, a, n);
        OneOk(c, x.ins, Bnot(x.next, x.val));
      case Load(a) =>
        var x := GenExpr(c, vars, a, n).value;
        GenExprOk(c, vars, a, n);
        OneOk(c, x.ins, LoadI(x.next, x.val));
      case Text(s) => TextCodeOk(c, s, n);
    }
  }

  lemma {:induction false} GenArgsOk(c: Ctx, vars: Vars, es: List<Expr>, n: nat)
    requires GenArgs(c, vars, es, n).Some?
    ensures ExprCodeOk(c, GenArgs(c, vars, es, n).value.ins) && n <= GenArgs(c, vars, es, n).value.next
    decreases es
  {
    match es
    case Nil =>
    case Cons(e, rest) =>
      GenExprOk(c, vars, e, n);
      GenArgsOk(c, vars, rest, GenExpr(c, vars, e, n).value.next);
  }

  lemma GenResultOk(c: Ctx, vars: Vars, e: Expr, n: nat)
    requires GenResult(c, vars, e, n).Some?
    ensures ExprCodeOk(c, GenResult(c, vars, e, n).value.ins) && n <= GenResult(c, vars, e, n).value.next
  {
    if e.App? {
      GenArgsOk(c, vars, e.args, n);
      AppCodeOk(c, e.callee, GenArgs(c, vars, e.args, n).value);
    } else {
      GenExprOk(c, vars, e, n);
    }
  }

  lemma GenTestOk(c: Ctx, vars: Vars, e: Expr, n: nat)
    requires GenTest(c, vars, e, n).Some?
    ensures ExprCodeOk(c, GenTest(c, vars, e, n).value.ins) && n <= GenTest(c, vars, e, n).value.next
  {
    GenExprOk(c, vars, e, n);
  }

  // ----- statements -----

  lemma CodeOkMore(c: Ctx, n: nat, ins: seq<Instr>)
    requires ExprCodeOk(c, ins)
    ensures CodeOk(c, n, ins)
  {
  }

  /** Emitting a branch: create `n` blocks, end the current one in `t`, enter the first. */
  lemma BranchWf(c: Ctx, g: Gen, pend: set<nat>, n: nat, more: set<nat>, ins: seq<Instr>, t: Instr, next: nat)
    requires Wf(c, g, pend) && !g.terminated && ExprCodeOk(c, ins) && n > 0 && g.next <= next
    requires forall b :: b in more <==> |g.blocks| <= b < |g.blocks| + n
    requires t.Terminator() && InstrOk(c, |g.blocks| + n, t)
    ensures var h := g.Create(n).Close(ins + [t], next).Switch(|g.blocks|);
            Wf(c, h, pend + more - {|g.blocks|}) && Ext(g, h) && h.blocks[h.cur] == []
  {
    hide Wf, Ext, Open, CodeOk, InstrOk;
    CreateWf(c, g, pend, n, more);
    var g1: Gen := g.Create(n);
    CodeOkMore(c, |g1.blocks|, ins);
    CloseWf(c, g1, pend + more, ins, t, next);
    var g2: Gen := g1.Close(ins + [t], next);
    SwitchWf(c, g2, pend + more, |g.blocks|);
    ExtTrans(g, g1, g2);
    ExtTrans(g, g2, g2.Switch(|g.blocks|));
  }

  /** Ending an arm: jump to `target` unless the arm returned, then enter a pending block. */
  lemma ArmEndWf(c: Ctx, g: Gen, pend: set<nat>, target: nat, b: nat)
    requires Wf(c, g, pend) && target < |g.blocks| && b in pend && b < |g.blocks|
    ensures var h := g.EndWith(target).Switch(b);
            Wf(c, h, pend - {b}) && Ext(g, h) && h.blocks[h.cur] == []
  {
    hide Wf, Ext;
    EndWithWf(c, g, pend, target);
    SwitchWf(c, g.EndWith(target), pend, b);
    ExtTrans(g, g.EndWith(target), g.EndWith(target).Switch(b));
  }

  ghost predicate Grows(c: Ctx, g: Gen, h: Gen, pend: set<nat>) {
    Wf(c, h, pend) && Ext(g, h)
  }

  /** The stages of an if: entering the then block, its end, entering the else block, its end. */
  lemma {:induction false} GenIfWf(c: Ctx, s: Stmt, g: Gen, pend: set<nat>) returns (g1: Gen, g2: Gen, g3: Gen, g4: Gen)
    requires s.If? && GenIf(c, s, g).Some? && Wf(c, g, pend) && !g.terminated
    ensures Grows(c, g, GenIf(c, s, g).value, pend)
    ensures var n, h, k := |g.blocks|, GenIf(c, s, g).value, GenTest(c, g.vars, s.test, g.next);
            && k.Some? && g1.cur == n && !g1.terminated
            && g1.blocks[g.cur] == g.blocks[g.cur] + (k.value.ins + [Brif(k.value.val, n, n + 1)])
            && GenStmts(c, s.thn, g1) == Some(g2)
            && g3.cur == n + 1 && !g3.terminated && g3.blocks == g2.EndWith(n + 2).blocks && g3.vars == g2.vars
            && GenStmts(c, s.els, g3) == Some(g4)
            && h.cur == n + 2 && !h.terminated && h.blocks == g4.EndWith(n + 2).blocks && h.vars == g4.vars
            && Wf(c, g1, pend + {n + 1, n + 2}) && Wf(c, g3, pend + {n + 2})
            && Ext(g1, h) && Ext(g2, h) && Ext(g3, h) && Ext(g4, h)
            && g1.blocks[n] == [] && g3.blocks[n + 1] == [] && h.blocks[n + 2] == []
    decreases s, 0
  {
    hide Wf, Ext, GenStmts, GenTest, Open, CodeOk;
    var n := |g.blocks|;
    PendBound(c, g, pend);
    g1 := ThenWf(c, s, g, pend);
    GenStmtsWf(c, s.thn, g1, pend + {n + 1, n + 2});
    g2 := GenStmts(c, s.thn, g1).value;
    ArmEndWf(c, g2, pend + {n + 1, n + 2}, n + 2, n + 1);
    g3 := g2.EndWith(n + 2).Switch(n + 1);
    assert pend + {n + 1, n + 2} - {n + 1} == pend + {n + 2};
    GenStmtsWf(c, s.els, g3, pend + {n + 2});
    g4 := GenStmts(c, s.els, g3).value;
    ArmEndWf(c, g4, pend + {n + 2}, n + 2, n + 2);
    var h := g4.EndWith(n + 2).Switch(n + 2);
    assert pend + {n + 2} - {n + 2} == pend;
    ExtTrans(g3, g4, h);
    ExtTrans(g2, g3, h);
    ExtTrans(g1, g2, h);
    ExtTrans(g, g1, h);
  }

  lemma ThenWf(c: Ctx, s: Stmt, g: Gen, pend: set<nat>) returns (g1: Gen)
    requires s.If? && GenTest(c, g.vars, s.test, g.next).Some? && Wf(c, g, pend) && !g.terminated
    ensures var n, k := |g.blocks|, GenTest(c, g.vars, s.test, g.next).value;
            && g1 == g.Create(3).Close(k.ins + [Brif(k.val, n, n + 1)], k.next).Switch(n)
            && Wf(c, g1, pend + {n + 1, n + 2}) && Ext(g, g1) && g1.blocks[n] == []
  {
    hide Wf, Ext, GenTest, Open, CodeOk;
    var n := |g.blocks|;
    var k := GenTest(c, g.vars, s.test, g.next).value;
    GenTestOk(c, g.vars, s.test, g.next);
    BranchWf(c, g, pend, 3, {n, n + 1, n + 2}, k.ins, Brif(k.val, n, n + 1), k.next);
    g1 := g.Create(3).Close(k.ins + [Brif(k.val, n, n + 1)], k.next).Switch(n);
    PendBound(c, g, pend);
    assert pend + {n, n + 1, n + 2} - {n} == pend + {n + 1, n + 2};
  }

  lemma PendBound(c: Ctx, g: Gen, pend: set<nat>)
    requires Wf(c, g, pend)
    ensures forall b | b in pend :: b < |g.blocks|
  {
  }

  /** The stages of a while: entering the header, entering the body, the body's end. */
  lemma {:induction false} GenWhileWf(c: Ctx, s: Stmt, g: Gen, pend: set<nat>) returns (g1: Gen, g2: Gen, g3: Gen)
    requires s.While? && GenWhile(c, s, g).Some? && Wf(c, g, pend) && !g.terminated
    ensures Grows(c, g, GenWhile(c, s, g).value, pend)
    ensures var n, h := |g.blocks|, GenWhile(c, s, g).value;
            && g1 == g.Create(3).EndWith(n).Switch(n)
            && var k := GenTest(c, g1.vars, s.test, g1.next);
            && k.Some? && g2 == g1.Close(k.value.ins + [Brif(k.value.val, n + 1, n + 2)], k.value.next).Switch(n + 1)
            && GenStmts(c, s.body, g2) == Some(g3)
            && |g3.blocks| > n + 2 && h == g3.EndWith(n).Switch(n + 2)
            && Wf(c, g2, pend + {n + 2})
            && Ext(g1, h) && Ext(g2, h) && Ext(g3, h)
            && g1.blocks[n] == [] && g2.blocks[n + 1] == [] && h.blocks[n + 2] == []
    decreases s, 0
  {
    hide Wf, Ext, GenStmts, GenTest, Open, CodeOk;
    var n := |g.blocks|;
    PendBound(c, g, pend);
    CreateWf(c, g, pend, 3, {n, n + 1, n + 2});
    var g0: Gen := g.Create(3);
    ArmEndWf(c, g0, pend + {n, n + 1, n + 2}, n, n);
    g1 := g0.EndWith(n).Switch(n);
    assert pend + {n, n + 1, n + 2} - {n} == pend + {n + 1, n + 2};
    g2 := HeaderWf(c, s, g1, pend + {n + 1, n + 2}, n + 1, n + 2);
    assert pend + {n + 1, n + 2} - {n + 1} == pend + {n + 2};
    GenStmtsWf(c, s.body, g2, pend + {n + 2});
    g3 := GenStmts(c, s.body, g2).value;
    ArmEndWf(c, g3, pend + {n + 2}, n, n + 2);
    assert pend + {n + 2} - {n + 2} == pend;
    var h := g3.EndWith(n).Switch(n + 2);
    ExtTrans(g2, g3, h);
    ExtTrans(g1, g2, h);
    ExtTrans(g0, g1, h);
    ExtTrans(g, g0, h);
  }

  lemma HeaderWf(c: Ctx, s: Stmt, g: Gen, pend: set<nat>, yes: nat, no: nat) returns (h: Gen)
    requires s.While? && GenTest(c, g.vars, s.test, g.next).Some? && Wf(c, g, pend) && !g.terminated
    requires yes in pend && yes < |g.blocks| && no < |g.blocks|
    ensures var k := GenTest(c, g.vars, s.test, g.next).value;
            h == g.Close(k.ins + [Brif(k.val, yes, no)], k.next).Switch(yes)
    ensures Wf(c, h, pend - {yes}) && Ext(g, h) && h.blocks[yes] == []
  {
    hide Wf, Ext, GenTest, Open, CodeOk;
    var k := GenTest(c, g.vars, s.test, g.next).value;
    GenTestOk(c, g.vars, s.test, g.next);
    CodeOkMore(c, |g.blocks|, k.ins);
    var t := Brif(k.val, yes, no);
    CloseWf(c, g, pend, k.ins, t, k.next);
    SwitchWf(c, g.Close(k.ins + [t], k.next), pend, yes);
    h := g.Close(k.ins + [t], k.next).Switch(yes);
    ExtTrans(g, g.Close(k.ins + [t], k.next), h);
  }

  function ArmTest(z: nat, w: Word, v: nat): seq<Instr> {
    [Iconst(z, w), Icmp(z + 1, Eq, v, z)]
  }

  /** One arm: entering its block, its end, entering the block of the next comparison. */
  lemma {:induction false} GenArmWf(c: Ctx, arms: List<Arm>, v: nat, merge: nat, g: Gen, pend: set<nat>)
    returns (g1: Gen, g2: Gen, g3: Gen)
    requires arms.Cons? && GenArms(c, arms, v, merge, g).Some?
    requires Wf(c, g, pend) && !g.terminated && merge < |g.blocks|
    ensures var n, z := |g.blocks|, g.next;
            && g1 == g.Create(2).Close(ArmTest(z, arms.head.val, v) + [Brif(z + 1, n, n + 1)], z + 2).Switch(n)
            && GenStmts(c, arms.head.body, g1) == Some(g2)
            && |g2.blocks| > n + 1 && g3 == g2.EndWith(merge).Switch(n + 1)
            && GenArms(c, arms, v, merge, g) == GenArms(c, arms.tail, v, merge, g3)
            && Wf(c, g1, pend + {n + 1}) && Wf(c, g3, pend)
            && Ext(g, g3) && Ext(g1, g3) && Ext(g2, g3)
            && g1.blocks[n] == [] && g3.blocks[n + 1] == []
    decreases arms, 1
  {
    hide Wf, Ext, GenStmts, Open, CodeOk;
    var n, z, a := |g.blocks|, g.next, arms.head;
    PendBound(c, g, pend);
    var ins, t := ArmTest(z, a.val, v), Brif(z + 1, n, n + 1);
    CompareOk(c, z, a.val, v);
    assert ins + [t] == [Iconst(z, a.val), Icmp(z + 1, Eq, v, z), t];
    BranchWf(c, g, pend, 2, {n, n + 1}, ins, t, z + 2);
    g1 := g.Create(2).Close(ins + [t], z + 2).Switch(n);
    assert pend + {n, n + 1} - {n} == pend + {n + 1};
    GenStmtsWf(c, a.body, g1, pend + {n + 1});
    g2 := GenStmts(c, a.body, g1).value;
    ArmEndWf(c, g2, pend + {n + 1}, merge, n + 1);
    g3 := g2.EndWith(merge).Switch(n + 1);
    assert pend + {n + 1} - {n + 1} == pend;
    ExtTrans(g1, g2, g3);
    ExtTrans(g, g1, g3);
  }

  lemma {:induction false} GenArmsWf(c: Ctx, arms: List<Arm>, v: nat, merge: nat, g: Gen, pend: set<nat>)
    requires GenArms(c, arms, v, merge, g).Some? && Wf(c, g, pend) && !g.terminated && merge < |g.blocks|
    ensures Grows(c, g, GenArms(c, arms, v, merge, g).value, pend)
    ensures !GenArms(c, arms, v, merge, g).value.terminated
    decreases arms, 2
  {
    hide Wf, Ext, GenStmts;
    match arms
    case Nil => ExtRefl(g);
    case Cons(a, rest) =>
      var g1, g2, g3 := GenArmWf(c, arms, v, merge, g, pend);
      GenArmsWf(c, rest, v, merge, g3, pend);
      ExtTrans(g, g3, GenArms(c, rest, v, merge, g3).value);
  }

  lemma CompareOk(c: Ctx, z: nat, w: Word, v: nat)
    ensures ExprCodeOk(c, ArmTest(z, w, v))
  {
  }

  lemma ExtRefl(g: GenState)
    ensures Ext(g, g)
  {
  }

  /** The stages of a case: before its arms, before its default, the default's end. */
  lemma {:induction false} GenCaseWf(c: Ctx, s: Stmt, g: Gen, pend: set<nat>) returns (g1: Gen, g2: Gen, g3: Gen)
    requires s.Case? && GenCase(c, s, g).Some? && Wf(c, g, pend) && !g.terminated
    ensures Grows(c, g, GenCase(c, s, g).value, pend)
    ensures var n, h, k := |g.blocks|, GenCase(c, s, g).value, GenExpr(c, g.vars, s.subject, g.next);
            && k.Some? && g1 == g.Emit(k.value.ins, k.value.next).Create(1)
            && GenArms(c, s.arms, k.value.val, n, g1) == Some(g2)
            && GenStmts(c, s.dflt, g2) == Some(g3)
            && |g3.blocks| > n && h == g3.EndWith(n).Switch(n)
            && Wf(c, g1, pend + {n}) && Ext(g1, h) && Ext(g2, h) && Ext(g3, h) && h.blocks[n] == []
            && g1.blocks[g.cur] == g.blocks[g.cur] + k.value.ins
    decreases s, 0
  {
    hide Wf, Ext, GenStmts, GenArms, GenExpr, Open, CodeOk;
    var n := |g.blocks|;
    PendBound(c, g, pend);
    var k := GenExpr(c, g.vars, s.subject, g.next).value;
    GenExprOk(c, g.vars, s.subject, g.next);
    CodeOkMore(c, n, k.ins);
    EmitWf(c, g, pend, k.ins, k.next);
    var g0: Gen := g.Emit(k.ins, k.next);
    CreateWf(c, g0, pend, 1, {n});
    g1 := g0.Create(1);
    GenArmsWf(c, s.arms, k.val, n, g1, pend + {n});
    g2 := GenArms(c, s.arms, k.val, n, g1).value;
    GenStmtsWf(c, s.dflt, g2, pend + {n});
    g3 := GenStmts(c, s.dflt, g2).value;
    ArmEndWf(c, g3, pend + {n}, n, n);
    assert pend + {n} - {n} == pend;
    var h := g3.EndWith(n).Switch(n);
    ExtTrans(g2, g3, h);
    ExtTrans(g1, g2, h);
    ExtTrans(g0, g1, h);
    ExtTrans(g, g0, h);
  }

  lemma {:induction false} GenSimpleWf(c: Ctx, s: Stmt, g: Gen, pend: set<nat>)
    requires s.Return? || s.Let? || s.Store? || s.Discard?
    requires GenStmt(c, s, g).Some? && Wf(c, g, pend) && !g.terminated
    ensures Grows(c, g, GenStmt(c, s, g).value, pend)
  {
    hide Wf, Ext, GenExpr, GenResult, Open, CodeOk;
    var n := |g.blocks|;
    match s {
      case Return(e) =>
        var k := GenResult(c, g.vars, e, g.next).value;
        GenResultOk(c, g.vars, e, g.next);
        CodeOkMore(c, n, k.ins);
        CloseWf(c, g, pend, k.ins, Ret(k.val), k.next);
      case Let(x, e) =>
        var k := GenExpr(c, g.vars, e, g.next).value;
        GenExprOk(c, g.vars, e, g.next);
        CodeOkMore(c, n, k.ins);
        EmitWf(c, g, pend, k.ins, k.next);
        AssignWf(c, g.Emit(k.ins, k.next), pend, x, k.val);
        ExtTrans(g, g.Emit(k.ins, k.next), g.Emit(k.ins, k.next).Assign(x, k.val));
      case Store(p, e) =>
        var k := GenExpr(c, g.vars, p, g.next).value;
        var l := GenExpr(c, g.vars, e, k.next).value;
        GenExprOk(c, g.vars, p, g.next);
        GenExprOk(c, g.vars, e, k.next);
        StoreOk(c, k, l);
        CodeOkMore(c, n, k.ins + l.ins + [StoreI(l.val, k.val, 0)]);
        EmitWf(c, g, pend, k.ins + l.ins + [StoreI(l.val, k.val, 0)], l.next);
      case Discard(e) =>
        var k := GenExpr(c, g.vars, e, g.next).value;
        GenExprOk(c, g.vars, e, g.next);
        CodeOkMore(c, n, k.ins);
        EmitWf(c, g, pend, k.ins, k.next);
    }
  }

  lemma StoreOk(c: Ctx, k: Code, l: Code)
    requires ExprCodeOk(c, k.ins) && ExprCodeOk(c, l.ins)
    ensures ExprCodeOk(c, k.ins + l.ins + [StoreI(l.val, k.val, 0)])
  {
  }

  /** Every statement keeps the invariant and the pending blocks, through any nesting. */
  lemma {:induction false} GenStmtWf(c: Ctx, s: Stmt, g: Gen, pend: set<nat>)
    requires GenStmt(c, s, g).Some? && Wf(c, g, pend) && !g.terminated
    ensures Grows(c, g, GenStmt(c, s, g).value, pend)
    decreases s, 1
  {
    hide Wf, Ext;
    match s {
      case If(_, _, _) => var _, _, _, _ := GenIfWf(c, s, g, pend);
      case While(_, _) => var _, _, _ := GenWhileWf(c, s, g, pend);
      case Case(_, _, _) => var _, _, _ := GenCaseWf(c, s, g, pend);
      case _ => GenSimpleWf(c, s, g, pend);
    }
  }

  lemma {:induction false} GenStmtsWf(c: Ctx, ss: List<Stmt>, g: Gen, pend: set<nat>)
    requires GenStmts(c, ss, g).Some? && Wf(c, g, pend)
    ensures Grows(c, g, GenStmts(c, ss, g).value, pend)
    decreases ss, 1
  {
    hide Wf, Ext, GenStmt;
    if ss.Nil? || g.terminated {
      ExtRefl(g);
    } else {
      GenStmtWf(c, ss.head, g, pend);
      var g1 := GenStmt(c, ss.head, g).value;
      GenStmtsWf(c, ss.tail, g1, pend);
      ExtTrans(g, g1, GenStmts(c, ss.tail, g1).value);
    }
  }

  // ----- whole functions -----

  lemma {:induction false} ParamVarsOk(ps: seq<string>, n: nat)
    requires n <= |ps|
    ensures VarsOk(ParamVars(ps, n), n)
  {
    if n > 0 {
      ParamVarsOk(ps, n - 1);
    }
  }

  lemma EntryWf(c: Ctx, ps: seq<string>)
    ensures Wf(c, Entry(ps), {})
  {
    ParamVarsOk(ps, |ps|);
  }

  lemma FinishWf(c: Ctx, g: Gen)
    requires Wf(c, g, {})
    ensures Wf(c, Finish(g), {}) && Ext(g, Finish(g)) && Finish(g).terminated
  {
    hide Wf, Ext;
    if !g.terminated {
      assert [Iconst(g.next, 0)] + [Ret(g.next)] == [Iconst(g.next, 0), Ret(g.next)];
      CloseWf(c, g, {}, [Iconst(g.next, 0)], Ret(g.next), g.next + 1);
    } else {
      ExtRefl(g);
    }
  }

  lemma GenFunWf(c: Ctx, ps: seq<string>, body: List<Stmt>)
    requires GenFun(c, ps, body).Some?
    ensures Wf(c, GenFun(c, ps, body).value, {}) && GenFun(c, ps, body).value.terminated
  {
    hide Wf, Ext, GenStmts;
    EntryWf(c, ps);
    GenStmtsWf(c, body, Entry(ps), {});
    FinishWf(c, GenStmts(c, body, Entry(ps)).value);
  }
}
