/** A printer for the CPS grammar, and the reader's round trip over everything it prints. */
module CpsPrinter {
  import opened Util
  import opened Bytes
  import opened CpsFormat
  import Utf8

  function OpcodeOf(op: BinOp): Byte {
    match op
    case Add => 0x05
    case Sub => 0x06
    case Lt => 0x10
    case Gt => 0x11
    case Le => 0x12
    case Ge => 0x13
    case Eq => 0x14
    case Ne => 0x15
    case Mul => 0x18
  }

  function Framed(s: seq<Byte>): seq<Byte> {
    ToLe(|s|, 4) + s
  }

  function PrintString(s: string): seq<Byte> {
    Framed(Utf8.Encode(s))
  }

  function PrintExpr(e: Expr): seq<Byte> {
    match e
    case Const(w) => [0x01] + ToLe(w, 8)
    case Var(name) => [0x02] + PrintString(name)
    case App(f, args) => [0x04] + (PrintString(f) + (ToLe(Length(args), 4) + PrintArgs(args)))
    case Bin(op, a, b) => [OpcodeOf(op)] + (PrintExpr(a) + PrintExpr(b))
    case Not(a) => [0x19] + PrintExpr(a)
    case Load(a) => [0x20] + PrintExpr(a)
    case Text(s) => [0x21] + Framed(s)
  }

  function PrintArgs(es: List<Expr>): seq<Byte> {
    match es
    case Nil => []
    case Cons(e, rest) => PrintExpr(e) + PrintArgs(rest)
  }

  /** Bytes to put behind each body that ends in a return; bodies are told apart by their path. */
  type Padding = seq<nat> -> seq<Byte>

  /** A nested body: the statements, and after a final return any padding at all. */
  function PrintBody(g: Padding, at: seq<nat>, ss: List<Stmt>): seq<Byte>
    decreases ss, 1
  {
    PrintStmts(g, at, ss) + if EndsInReturn(ss) then g(at) else []
  }

  function PrintStmt(g: Padding, at: seq<nat>, s: Stmt): seq<Byte>
    decreases s, 0
  {
    match s
    case Return(e) => [0x07] + PrintExpr(e)
    case If(c, t, e) => [0x08] + (PrintExpr(c) + (Framed(PrintBody(g, at + [0], t)) + Framed(PrintBody(g, at + [1], e))))
    case While(c, b) => [0x09] + (PrintExpr(c) + Framed(PrintBody(g, at + [0], b)))
    case Case(c, arms, dflt) =>
      [0x0A] + (PrintExpr(c) + (ToLe(Length(arms), 4) + (PrintArms(g, at + [0], arms) + Framed(PrintBody(g, at + [1], dflt)))))
    case Let(x, e) => [0x03] + (PrintString(x) + PrintExpr(e))
    case Store(p, v) => [0x30] + (PrintExpr(p) + PrintExpr(v))
    case Discard(e) => PrintExpr(e)
  }

  function PrintStmts(g: Padding, at: seq<nat>, ss: List<Stmt>): seq<Byte>
    decreases ss, 0
  {
    match ss
    case Nil => []
    case Cons(s, rest) => PrintStmt(g, at + [0], s) + PrintStmts(g, at + [1], rest)
  }

  function PrintArms(g: Padding, at: seq<nat>, arms: List<Arm>): seq<Byte>
    decreases arms, 0
  {
    match arms
    case Nil => []
    case Cons(a, rest) => ToLe(a.val, 8) + (Framed(PrintBody(g, at + [0], a.body)) + PrintArms(g, at + [1], rest))
  }

  // ----- what the format can hold: 32-bit lengths, and nothing after a return -----

  predicate FitsString(s: string) {
    |Utf8.Encode(s)| < TWO32
  }

  predicate FitsExpr(e: Expr) {
    match e
    case Const(_) => true
    case Var(name) => FitsString(name)
    case App(f, args) => FitsString(f) && Length(args) < TWO32 && FitsArgs(args)
    case Bin(_, a, b) => FitsExpr(a) && FitsExpr(b)
    case Not(a) => FitsExpr(a)
    case Load(a) => FitsExpr(a)
    case Text(s) => |s| < TWO32
  }

  predicate FitsArgs(es: List<Expr>) {
    match es
    case Nil => true
    case Cons(e, rest) => FitsExpr(e) && FitsArgs(rest)
  }

  predicate FitsBody(g: Padding, at: seq<nat>, ss: List<Stmt>)
    decreases ss, 1
  {
    |PrintBody(g, at, ss)| < TWO32 && FitsStmts(g, at, ss)
  }

  predicate FitsStmt(g: Padding, at: seq<nat>, s: Stmt)
    decreases s, 0
  {
    match s
    case Return(e) => FitsExpr(e)
    case If(c, t, e) => FitsExpr(c) && FitsBody(g, at + [0], t) && FitsBody(g, at + [1], e)
    case While(c, b) => FitsExpr(c) && FitsBody(g, at + [0], b)
    case Case(c, arms, dflt) => FitsExpr(c) && Length(arms) < TWO32 && FitsArms(g, at + [0], arms) && FitsBody(g, at + [1], dflt)
    case Let(x, e) => FitsString(x) && FitsExpr(e)
    case Store(p, v) => FitsExpr(p) && FitsExpr(v)
    case Discard(e) => FitsExpr(e)
  }

  predicate FitsStmts(g: Padding, at: seq<nat>, ss: List<Stmt>)
    decreases ss, 0
  {
    match ss
    case Nil => true
    case Cons(s, rest) => FitsStmt(g, at + [0], s) && FitsStmts(g, at + [1], rest) && (s.Return? ==> rest.Nil?)
  }

  predicate FitsArms(g: Padding, at: seq<nat>, arms: List<Arm>)
    decreases arms, 0
  {
    match arms
    case Nil => true
    case Cons(a, rest) => FitsBody(g, at + [0], a.body) && FitsArms(g, at + [1], rest)
  }

  predicate EndsInReturn(ss: List<Stmt>) {
    ss.Cons? && (ss.head.Return? || EndsInReturn(ss.tail))
  }

  // ----- the round trip -----

  /** The bytes `s` lie in `d` at `pos`. */
  ghost predicate At(d: seq<Byte>, pos: nat, s: seq<Byte>) {
    pos + |s| <= |d| && d[pos..pos + |s|] == s
  }

  lemma AtSplit(d: seq<Byte>, pos: nat, a: seq<Byte>, b: seq<Byte>)
    requires At(d, pos, a + b)
    ensures At(d, pos, a) && At(d, pos + |a|, b)
  {
    assert d[pos..pos + |a|] == (a + b)[..|a|] == a;
    assert d[pos + |a|..pos + |a + b|] == (a + b)[|a|..] == b;
  }

  lemma AtU8(d: seq<Byte>, pos: nat, b: Byte, rest: seq<Byte>)
    requires At(d, pos, [b] + rest)
    ensures pos < |d| && d[pos] == b && At(d, pos + 1, rest)
  {
    AtSplit(d, pos, [b], rest);
    assert d[pos] == d[pos..pos + 1][0];
  }

  lemma ReadsU32(d: seq<Byte>, pos: nat, n: nat)
    requires n < TWO32 && At(d, pos, ToLe(n, 4))
    ensures ReadU32(d, pos) == Some((n, pos + 4))
  {
    Le4RoundTrip(n);
  }

  lemma ReadsWord(d: seq<Byte>, pos: nat, w: Word)
    requires At(d, pos, ToLe(w, 8))
    ensures ReadWord(d, pos) == Some((w, pos + 8))
  {
    Le8RoundTrip(w);
  }

  lemma ReadsFramed(d: seq<Byte>, pos: nat, s: seq<Byte>)
    requires |s| < TWO32 && At(d, pos, Framed(s))
    ensures ReadFramed(d, pos) == Some((s, pos + |Framed(s)|))
  {
    AtSplit(d, pos, ToLe(|s|, 4), s);
    ReadsU32(d, pos, |s|);
  }

  lemma ReadsString(d: seq<Byte>, pos: nat, s: string)
    requires FitsString(s) && At(d, pos, PrintString(s))
    ensures ReadString(d, pos) == Some((s, pos + |PrintString(s)|))
  {
    ReadsFramed(d, pos, Utf8.Encode(s));
    Utf8.DecodeEncode(s);
  }

  lemma ExprOpcode(e: Expr)
    ensures PrintExpr(e) != []
    ensures PrintExpr(e)[0] !in [0x03, 0x07, 0x08, 0x09, 0x0A, 0x30]
  {
  }

  // Where the parts of a printed tree lie.

  lemma AtBin(d: seq<Byte>, pos: nat, e: Expr)
    requires e.Bin? && At(d, pos, PrintExpr(e))
    ensures pos < |d| && d[pos] == OpcodeOf(e.op)
    ensures At(d, pos + 1, PrintExpr(e.left))
    ensures At(d, pos + 1 + |PrintExpr(e.left)|, PrintExpr(e.right))
  {
    AtU8(d, pos, OpcodeOf(e.op), PrintExpr(e.left) + PrintExpr(e.right));
    AtSplit(d, pos + 1, PrintExpr(e.left), PrintExpr(e.right));
  }

  lemma AtApp(d: seq<Byte>, pos: nat, e: Expr)
    requires e.App? && FitsExpr(e) && At(d, pos, PrintExpr(e))
    ensures pos < |d| && d[pos] == 0x04
    ensures var p := pos + 1 + |PrintString(e.callee)|;
            && ReadString(d, pos + 1) == Some((e.callee, p))
            && ReadU32(d, p) == Some((Length(e.args), p + 4))
            && At(d, p + 4, PrintArgs(e.args))
  {
    hide At, ReadU32, ReadString, PrintString, FitsArgs;
    var name, count, rest := PrintString(e.callee), ToLe(Length(e.args), 4), PrintArgs(e.args);
    AtU8(d, pos, 0x04, name + (count + rest));
    AtSplit(d, pos + 1, name, count + rest);
    ReadsString(d, pos + 1, e.callee);
    AtSplit(d, pos + 1 + |name|, count, rest);
    ReadsU32(d, pos + 1 + |name|, Length(e.args));
  }

  lemma AtLeaf(d: seq<Byte>, pos: nat, e: Expr)
    requires e.Const? || e.Var? || e.Text?
    requires FitsExpr(e) && At(d, pos, PrintExpr(e))
    ensures ParseExpr(d, pos) == Some((e, pos + |PrintExpr(e)|))
  {
    hide At, ReadString, ReadFramed, PrintString, ToLe, Framed;
    match e
    case Const(w) =>
      AtU8(d, pos, 0x01, ToLe(w, 8));
      ReadsWord(d, pos + 1, w);
    case Var(name) =>
      AtU8(d, pos, 0x02, PrintString(name));
      ReadsString(d, pos + 1, name);
    case Text(t) =>
      AtU8(d, pos, 0x21, Framed(t));
      ReadsFramed(d, pos + 1, t);
  }

  lemma AtArgs(d: seq<Byte>, pos: nat, es: List<Expr>)
    requires es.Cons? && At(d, pos, PrintArgs(es))
    ensures At(d, pos, PrintExpr(es.head))
    ensures At(d, pos + |PrintExpr(es.head)|, PrintArgs(es.tail))
  {
    AtSplit(d, pos, PrintExpr(es.head), PrintArgs(es.tail));
  }

  // How the reader puts a tree together.

  lemma RuleBin(d: seq<Byte>, pos: nat, op: BinOp, a: Expr, b: Expr, p1: nat, p2: nat)
    requires pos < |d| && d[pos] == OpcodeOf(op)
    requires ParseExpr(d, pos + 1) == Some((a, p1)) && ParseExpr(d, p1) == Some((b, p2))
    ensures ParseExpr(d, pos) == Some((Bin(op, a, b), p2))
  {
  }

  lemma RuleUnary(d: seq<Byte>, pos: nat, a: Expr, p1: nat)
    requires pos < |d| && d[pos] in [0x19, 0x20]
    requires ParseExpr(d, pos + 1) == Some((a, p1))
    ensures ParseExpr(d, pos) == Some((if d[pos] == 0x19 then Not(a) else Load(a), p1))
  {
  }

  lemma RuleApp(d: seq<Byte>, pos: nat, f: string, args: List<Expr>, p1: nat, p2: nat)
    requires pos < |d| && d[pos] == 0x04
    requires ReadString(d, pos + 1) == Some((f, p1))
    requires p1 + 4 <= |d| && ReadU32(d, p1) == Some((Length(args), p1 + 4))
    requires ParseArgs(d, p1 + 4, Length(args)) == Some((args, p2))
    ensures ParseExpr(d, pos) == Some((App(f, args), p2))
  {
    hide ReadString, ReadU32, ParseArgs, Length;
  }

  lemma {:induction false} ExprRoundTrip(d: seq<Byte>, pos: nat, e: Expr)
    requires FitsExpr(e) && At(d, pos, PrintExpr(e))
    ensures ParseExpr(d, pos) == Some((e, pos + |PrintExpr(e)|))
    decreases e
  {
    hide At, ParseExpr, ParseArgs, PrintString, PrintArgs, FitsArgs, FitsString, ReadString, ReadU32, Length, ToLe;
    match e {
      case Const(_) => AtLeaf(d, pos, e);
      case Var(_) => AtLeaf(d, pos, e);
      case Text(_) => AtLeaf(d, pos, e);
      case App(f, args) =>
        AtApp(d, pos, e);
        var p := pos + 1 + |PrintString(f)|;
        ArgsRoundTrip(d, p + 4, args);
        RuleApp(d, pos, f, args, p, p + 4 + |PrintArgs(args)|);
      case Bin(op, a, b) =>
        AtBin(d, pos, e);
        var p := pos + 1 + |PrintExpr(a)|;
        ExprRoundTrip(d, pos + 1, a);
        ExprRoundTrip(d, p, b);
        RuleBin(d, pos, op, a, b, p, p + |PrintExpr(b)|);
      case Not(a) =>
        AtU8(d, pos, 0x19, PrintExpr(a));
        ExprRoundTrip(d, pos + 1, a);
        RuleUnary(d, pos, a, pos + 1 + |PrintExpr(a)|);
      case Load(a) =>
        AtU8(d, pos, 0x20, PrintExpr(a));
        ExprRoundTrip(d, pos + 1, a);
        RuleUnary(d, pos, a, pos + 1 + |PrintExpr(a)|);
    }
  }

  lemma {:induction false} ArgsRoundTrip(d: seq<Byte>, pos: nat, es: List<Expr>)
    requires FitsArgs(es) && At(d, pos, PrintArgs(es))
    ensures ParseArgs(d, pos, Length(es)) == Some((es, pos + |PrintArgs(es)|))
    decreases es
  {
    hide At, ParseExpr;
    match es
    case Nil =>
    case Cons(e, rest) =>
      AtArgs(d, pos, es);
      ExprRoundTrip(d, pos, e);
      ArgsRoundTrip(d, pos + |PrintExpr(e)|, rest);
  }

  lemma AtIf(d: seq<Byte>, pos: nat, g: Padding, at: seq<nat>, s: Stmt)
    requires s.If? && At(d, pos, PrintStmt(g, at, s))
    ensures pos < |d| && d[pos] == 0x08
    ensures var p := pos + 1 + |PrintExpr(s.test)|;
            && At(d, pos + 1, PrintExpr(s.test))
            && At(d, p, Framed(PrintBody(g, at + [0], s.thn)))
            && At(d, p + |Framed(PrintBody(g, at + [0], s.thn))|, Framed(PrintBody(g, at + [1], s.els)))
  {
    hide At, PrintExpr, PrintBody, Framed;
    var c, t, e := PrintExpr(s.test), Framed(PrintBody(g, at + [0], s.thn)), Framed(PrintBody(g, at + [1], s.els));
    AtU8(d, pos, 0x08, c + (t + e));
    AtSplit(d, pos + 1, c, t + e);
    AtSplit(d, pos + 1 + |c|, t, e);
  }

  lemma AtWhile(d: seq<Byte>, pos: nat, g: Padding, at: seq<nat>, s: Stmt)
    requires s.While? && At(d, pos, PrintStmt(g, at, s))
    ensures pos < |d| && d[pos] == 0x09
    ensures At(d, pos + 1, PrintExpr(s.test))
    ensures At(d, pos + 1 + |PrintExpr(s.test)|, Framed(PrintBody(g, at + [0], s.body)))
  {
    AtU8(d, pos, 0x09, PrintExpr(s.test) + Framed(PrintBody(g, at + [0], s.body)));
    AtSplit(d, pos + 1, PrintExpr(s.test), Framed(PrintBody(g, at + [0], s.body)));
  }

  lemma AtCase(d: seq<Byte>, pos: nat, g: Padding, at: seq<nat>, s: Stmt)
    requires s.Case? && FitsStmt(g, at, s) && At(d, pos, PrintStmt(g, at, s))
    ensures pos < |d| && d[pos] == 0x0A
    ensures var p := pos + 1 + |PrintExpr(s.subject)|;
            && At(d, pos + 1, PrintExpr(s.subject))
            && ReadU32(d, p) == Some((Length(s.arms), p + 4))
            && At(d, p + 4, PrintArms(g, at + [0], s.arms))
            && At(d, p + 4 + |PrintArms(g, at + [0], s.arms)|, Framed(PrintBody(g, at + [1], s.dflt)))
  {
    hide At, ReadU32, ToLe, PrintExpr;
    var c, count := PrintExpr(s.subject), ToLe(Length(s.arms), 4);
    var arms, dflt := PrintArms(g, at + [0], s.arms), Framed(PrintBody(g, at + [1], s.dflt));
    AtU8(d, pos, 0x0A, c + (count + (arms + dflt)));
    AtSplit(d, pos + 1, c, count + (arms + dflt));
    AtSplit(d, pos + 1 + |c|, count, arms + dflt);
    ReadsU32(d, pos + 1 + |c|, Length(s.arms));
    AtSplit(d, pos + 1 + |c| + 4, arms, dflt);
  }

  lemma AtArm(d: seq<Byte>, pos: nat, g: Padding, at: seq<nat>, arms: List<Arm>)
    requires arms.Cons? && At(d, pos, PrintArms(g, at, arms))
    ensures ReadWord(d, pos) == Some((arms.head.val, pos + 8))
    ensures At(d, pos + 8, Framed(PrintBody(g, at + [0], arms.head.body)))
    ensures At(d, pos + 8 + |Framed(PrintBody(g, at + [0], arms.head.body))|, PrintArms(g, at + [1], arms.tail))
  {
    var w, body, rest := ToLe(arms.head.val, 8), Framed(PrintBody(g, at + [0], arms.head.body)), PrintArms(g, at + [1], arms.tail);
    AtSplit(d, pos, w, body + rest);
    ReadsWord(d, pos, arms.head.val);
    AtSplit(d, pos + 8, body, rest);
  }

  lemma AtFirst(d: seq<Byte>, pos: nat, e: Expr)
    requires At(d, pos, PrintExpr(e))
    ensures pos < |d| && d[pos] !in [0x03, 0x07, 0x08, 0x09, 0x0A, 0x30]
  {
    ExprOpcode(e);
    assert d[pos] == d[pos..pos + |PrintExpr(e)|][0];
  }

  lemma AtStmt(d: seq<Byte>, pos: nat, g: Padding, at: seq<nat>, s: Stmt)
    requires At(d, pos, PrintStmt(g, at, s))
    ensures pos < |d| && pos + |PrintStmt(g, at, s)| <= |d|
  {
    if s.Discard? {
      ExprOpcode(s.e);
    }
  }

  lemma AtLet(d: seq<Byte>, pos: nat, g: Padding, at: seq<nat>, s: Stmt)
    requires s.Let? && FitsStmt(g, at, s) && At(d, pos, PrintStmt(g, at, s))
    ensures pos < |d| && d[pos] == 0x03
    ensures ReadString(d, pos + 1) == Some((s.x, pos + 1 + |PrintString(s.x)|))
    ensures At(d, pos + 1 + |PrintString(s.x)|, PrintExpr(s.val))
  {
    hide ReadString, Utf8.Encode;
    AtU8(d, pos, 0x03, PrintString(s.x) + PrintExpr(s.val));
    AtSplit(d, pos + 1, PrintString(s.x), PrintExpr(s.val));
    ReadsString(d, pos + 1, s.x);
  }

  lemma AtStore(d: seq<Byte>, pos: nat, g: Padding, at: seq<nat>, s: Stmt)
    requires s.Store? && At(d, pos, PrintStmt(g, at, s))
    ensures pos < |d| && d[pos] == 0x30
    ensures At(d, pos + 1, PrintExpr(s.ptr))
    ensures At(d, pos + 1 + |PrintExpr(s.ptr)|, PrintExpr(s.val))
  {
    AtU8(d, pos, 0x30, PrintExpr(s.ptr) + PrintExpr(s.val));
    AtSplit(d, pos + 1, PrintExpr(s.ptr), PrintExpr(s.val));
  }

  lemma SimpleStmtRoundTrip(d: seq<Byte>, pos: nat, g: Padding, at: seq<nat>, s: Stmt)
    requires s.Return? || s.Let? || s.Store? || s.Discard?
    requires FitsStmt(g, at, s) && At(d, pos, PrintStmt(g, at, s)) && pos < |d|
    ensures ParseStmt(d, pos) == Some((s, pos + |PrintStmt(g, at, s)|))
  {
    hide At, ParseExpr, PrintExpr, FitsExpr, PrintString, ReadString;
    match s
    case Return(e) =>
      AtU8(d, pos, 0x07, PrintExpr(e));
      ExprRoundTrip(d, pos + 1, e);
    case Let(x, e) =>
      AtLet(d, pos, g, at, s);
      ExprRoundTrip(d, pos + 1 + |PrintString(x)|, e);
    case Store(a, v) =>
      AtStore(d, pos, g, at, s);
      ExprRoundTrip(d, pos + 1, a);
      ExprRoundTrip(d, pos + 1 + |PrintExpr(a)|, v);
    case Discard(e) =>
      AtFirst(d, pos, e);
      ExprRoundTrip(d, pos, e);
  }

  lemma RuleIf(d: seq<Byte>, pos: nat, s: Stmt, p1: nat, p2: nat, p3: nat)
    requires s.If? && pos < |d| && d[pos] == 0x08
    requires ParseExpr(d, pos + 1) == Some((s.test, p1))
    requires ParseBody(d, p1) == Some((s.thn, p2)) && ParseBody(d, p2) == Some((s.els, p3))
    ensures ParseStmt(d, pos) == Some((s, p3))
  {
  }

  lemma RuleWhile(d: seq<Byte>, pos: nat, s: Stmt, p1: nat, p2: nat)
    requires s.While? && pos < |d| && d[pos] == 0x09
    requires ParseExpr(d, pos + 1) == Some((s.test, p1)) && ParseBody(d, p1) == Some((s.body, p2))
    ensures ParseStmt(d, pos) == Some((s, p2))
  {
  }

  lemma RuleCase(d: seq<Byte>, pos: nat, s: Stmt, p1: nat, p2: nat, p3: nat)
    requires s.Case? && pos < |d| && d[pos] == 0x0A
    requires ParseExpr(d, pos + 1) == Some((s.subject, p1))
    requires ReadU32(d, p1) == Some((Length(s.arms), p1 + 4))
    requires ParseArms(d, p1 + 4, Length(s.arms)) == Some((s.arms, p2))
    requires ParseBody(d, p2) == Some((s.dflt, p3))
    ensures ParseStmt(d, pos) == Some((s, p3))
  {
  }

  lemma {:induction false} BodyRoundTrip(d: seq<Byte>, pos: nat, g: Padding, at: seq<nat>, ss: List<Stmt>)
    requires FitsBody(g, at, ss) && At(d, pos, Framed(PrintBody(g, at, ss)))
    ensures ParseBody(d, pos) == Some((ss, pos + |Framed(PrintBody(g, at, ss))|))
    decreases ss, 1
  {
    var inner, own := PrintBody(g, at, ss), PrintStmts(g, at, ss);
    ReadsFramed(d, pos, inner);
    assert inner[0..|own|] == own;
    StmtsRoundTrip(inner, 0, g, at, ss);
  }

  lemma {:induction false} StmtRoundTrip(d: seq<Byte>, pos: nat, g: Padding, at: seq<nat>, s: Stmt)
    requires FitsStmt(g, at, s) && At(d, pos, PrintStmt(g, at, s)) && pos < |d|
    ensures ParseStmt(d, pos) == Some((s, pos + |PrintStmt(g, at, s)|))
    decreases s, 0
  {
    hide At, ParseExpr, ParseBody, ParseArms, ParseStmt, FitsExpr, FitsBody, FitsArms, PrintBody, PrintArms, PrintExpr, Framed;
    match s {
      case If(c, t, e) =>
        AtIf(d, pos, g, at, s);
        ExprRoundTrip(d, pos + 1, c);
        var p := pos + 1 + |PrintExpr(c)|;
        var p1 := p + |Framed(PrintBody(g, at + [0], t))|;
        BodyRoundTrip(d, p, g, at + [0], t);
        BodyRoundTrip(d, p1, g, at + [1], e);
        RuleIf(d, pos, s, p, p1, p1 + |Framed(PrintBody(g, at + [1], e))|);
      case While(c, b) =>
        AtWhile(d, pos, g, at, s);
        ExprRoundTrip(d, pos + 1, c);
        var p := pos + 1 + |PrintExpr(c)|;
        BodyRoundTrip(d, p, g, at + [0], b);
        RuleWhile(d, pos, s, p, p + |Framed(PrintBody(g, at + [0], b))|);
      case Case(c, arms, dflt) =>
        AtCase(d, pos, g, at, s);
        ExprRoundTrip(d, pos + 1, c);
        var p := pos + 1 + |PrintExpr(c)|;
        var p1 := p + 4 + |PrintArms(g, at + [0], arms)|;
        ArmsRoundTrip(d, p + 4, g, at + [0], arms);
        BodyRoundTrip(d, p1, g, at + [1], dflt);
        RuleCase(d, pos, s, p, p1, p1 + |Framed(PrintBody(g, at + [1], dflt))|);
      case _ =>
        SimpleStmtRoundTrip(d, pos, g, at, s);
    }
  }

  lemma {:induction false} ArmsRoundTrip(d: seq<Byte>, pos: nat, g: Padding, at: seq<nat>, arms: List<Arm>)
    requires FitsArms(g, at, arms) && At(d, pos, PrintArms(g, at, arms))
    ensures ParseArms(d, pos, Length(arms)) == Some((arms, pos + |PrintArms(g, at, arms)|))
    decreases arms, 0
  {
    hide At, ParseBody, ParseStmts, FitsBody, PrintBody, Framed;
    match arms
    case Nil =>
    case Cons(a, rest) =>
      AtArm(d, pos, g, at, arms);
      var p := pos + 8 + |Framed(PrintBody(g, at + [0], a.body))|;
      BodyRoundTrip(d, pos + 8, g, at + [0], a.body);
      ArmsRoundTrip(d, p, g, at + [1], rest);
      assert ParseArms(d, p, Length(arms) - 1) == Some((rest, p + |PrintArms(g, at + [1], rest)|));
  }

  /**
   The printed list reads back as itself, from the end of the bytes or, when the list ends
   in a return, in front of any bytes at all, whatever pads the bodies nested in it.
   */
  lemma {:induction false} StmtsRoundTrip(d: seq<Byte>, pos: nat, g: Padding, at: seq<nat>, ss: List<Stmt>)
    requires FitsStmts(g, at, ss) && At(d, pos, PrintStmts(g, at, ss))
    requires pos + |PrintStmts(g, at, ss)| == |d| || EndsInReturn(ss)
    ensures ParseStmts(d, pos) == Some(ss)
    decreases ss, 0
  {
    hide At, ParseStmt, PrintStmt, FitsStmt;
    match ss
    case Nil =>
    case Cons(s, rest) =>
      var first := PrintStmt(g, at + [0], s);
      AtSplit(d, pos, first, PrintStmts(g, at + [1], rest));
      AtStmt(d, pos, g, at + [0], s);
      StmtRoundTrip(d, pos, g, at + [0], s);
      if !s.Return? {
        StmtsRoundTrip(d, pos + |first|, g, at + [1], rest);
      }
  }

  /** A body that returns early is read from its frame alone: what follows the return inside
      the frame is skipped, and the outer cursor lands just past the frame. */
  lemma EarlyReturnFraming(d: seq<Byte>, pos: nat, g: Padding, at: seq<nat>, ss: List<Stmt>, junk: seq<Byte>)
    requires FitsStmts(g, at, ss) && EndsInReturn(ss) && |PrintStmts(g, at, ss) + junk| < TWO32
    requires At(d, pos, Framed(PrintStmts(g, at, ss) + junk))
    ensures ParseBody(d, pos) == Some((ss, pos + 4 + |PrintStmts(g, at, ss)| + |junk|))
  {
    var own := PrintStmts(g, at, ss);
    var inner := own + junk;
    ReadsFramed(d, pos, inner);
    assert inner[0..|own|] == own;
    StmtsRoundTrip(inner, 0, g, at, ss);
  }

  /**
   A whole function body, padded behind every return at every depth and behind its own, reads
   back as the same tree whatever the padding is.
   */
  lemma PaddingIgnored(g: Padding, h: Padding, ss: List<Stmt>)
    requires FitsStmts(g, [], ss) && FitsStmts(h, [], ss)
    ensures ParseStmts(PrintBody(g, [], ss), 0) == ParseStmts(PrintBody(h, [], ss), 0) == Some(ss)
  {
    PaddedRoundTrip(g, ss);
    PaddedRoundTrip(h, ss);
  }

  lemma PaddedRoundTrip(g: Padding, ss: List<Stmt>)
    requires FitsStmts(g, [], ss)
    ensures ParseStmts(PrintBody(g, [], ss), 0) == Some(ss)
  {
    var own, all := PrintStmts(g, [], ss), PrintBody(g, [], ss);
    assert all[0..|own|] == own;
    StmtsRoundTrip(all, 0, g, [], ss);
  }

  // ----- the function table -----

  function PrintParams(ps: seq<string>): seq<Byte> {
    if ps == [] then [] else PrintString(ps[0]) + PrintParams(ps[1..])
  }

  function PrintHeader(h: Header): seq<Byte> {
    PrintString(h.name) + (ToLe(|h.params|, 4) + (PrintParams(h.params) + ([h.ret] + Framed(h.body))))
  }

  function PrintHeaders(hs: seq<Header>): seq<Byte> {
    if hs == [] then [] else PrintHeader(hs[0]) + PrintHeaders(hs[1..])
  }

  /** Version 2 carries the module name; version 1 only exists for the empty one. */
  function PrintTable(t: Table, version1: bool): seq<Byte> {
    (if version1 then ToLe(0x4350_5331, 4) else ToLe(0x4350_5332, 4) + PrintString(t.moduleName)) +
    (ToLe(|t.funs|, 4) + PrintHeaders(t.funs))
  }

  predicate FitsHeader(h: Header) {
    && FitsString(h.name) && |h.params| < TWO32 && |h.body| < TWO32
    && forall i | 0 <= i < |h.params| :: FitsString(h.params[i])
  }

  predicate FitsTable(t: Table) {
    && FitsString(t.moduleName) && |t.funs| < TWO32
    && forall i | 0 <= i < |t.funs| :: FitsHeader(t.funs[i])
  }

  lemma {:induction false} ParamsRoundTrip(d: seq<Byte>, pos: nat, ps: seq<string>)
    requires (forall i | 0 <= i < |ps| :: FitsString(ps[i])) && At(d, pos, PrintParams(ps))
    ensures ParseParams(d, pos, |ps|) == Some((ps, pos + |PrintParams(ps)|))
    decreases |ps|
  {
    hide At, ReadString, PrintString, FitsString;
    if ps != [] {
      AtSplit(d, pos, PrintString(ps[0]), PrintParams(ps[1..]));
      ReadsString(d, pos, ps[0]);
      ParamsRoundTrip(d, pos + |PrintString(ps[0])|, ps[1..]);
      assert ps == [ps[0]] + ps[1..];
    }
  }

  lemma HeaderRoundTrip(d: seq<Byte>, pos: nat, h: Header)
    requires FitsHeader(h) && At(d, pos, PrintHeader(h))
    ensures ParseHeader(d, pos) == Some((h, pos + |PrintHeader(h)|))
  {
    hide At, ReadString, ReadU32, ReadFramed, PrintString, PrintParams, ParseParams, Framed, ToLe;
    var name, count, params, body := PrintString(h.name), ToLe(|h.params|, 4), PrintParams(h.params), Framed(h.body);
    AtSplit(d, pos, name, count + (params + ([h.ret] + body)));
    ReadsString(d, pos, h.name);
    var p := pos + |name|;
    AtSplit(d, p, count, params + ([h.ret] + body));
    ReadsU32(d, p, |h.params|);
    AtSplit(d, p + 4, params, [h.ret] + body);
    ParamsRoundTrip(d, p + 4, h.params);
    AtU8(d, p + 4 + |params|, h.ret, body);
    ReadsFramed(d, p + 4 + |params| + 1, h.body);
  }

  lemma {:induction false} HeadersRoundTrip(d: seq<Byte>, pos: nat, hs: seq<Header>)
    requires (forall i | 0 <= i < |hs| :: FitsHeader(hs[i])) && At(d, pos, PrintHeaders(hs))
    ensures ParseHeaders(d, pos, |hs|) == Some((hs, pos + |PrintHeaders(hs)|))
    decreases |hs|
  {
    hide At, PrintHeader, ParseHeader, FitsHeader;
    if hs != [] {
      AtSplit(d, pos, PrintHeader(hs[0]), PrintHeaders(hs[1..]));
      HeaderRoundTrip(d, pos, hs[0]);
      HeadersRoundTrip(d, pos + |PrintHeader(hs[0])|, hs[1..]);
      assert hs == [hs[0]] + hs[1..];
    }
  }

  /** A printed table followed by any bytes reads back as itself. */
  lemma TableRoundTrip(t: Table, version1: bool, rest: seq<Byte>)
    requires FitsTable(t) && (version1 ==> t.moduleName == "")
    ensures ParseTable(PrintTable(t, version1) + rest) == Some(t)
  {
    hide At, ReadString, ReadU32, PrintString, FitsHeader, ParseHeaders, PrintHeaders, ToLe;
    var d := PrintTable(t, version1) + rest;
    var count, funs := ToLe(|t.funs|, 4), PrintHeaders(t.funs);
    var front := if version1 then ToLe(MAGIC1, 4) else ToLe(MAGIC2, 4) + PrintString(t.moduleName);
    AtStart(front + (count + funs), rest);
    AtSplit(d, 0, front, count + funs);
    if version1 {
      ReadsU32(d, 0, MAGIC1);
    } else {
      AtSplit(d, 0, ToLe(MAGIC2, 4), PrintString(t.moduleName));
      ReadsU32(d, 0, MAGIC2);
      ReadsString(d, 4, t.moduleName);
    }
    AtSplit(d, |front|, count, funs);
    ReadsU32(d, |front|, |t.funs|);
    HeadersRoundTrip(d, |front| + 4, t.funs);
  }

  lemma AtStart(s: seq<Byte>, rest: seq<Byte>)
    ensures At(s + rest, 0, s)
  {
  }
}
