/**
 What the reader accepts. The predicates say where each part of a tree lies in a byte
 string, with every opcode, width and frame written out; the reader returns a tree
 exactly when it lies there, so that truncated, mislabelled and unknown bytes are refused.
 */
module CpsReading {
  import opened Util
  import opened Bytes
  import opened CpsFormat
  import opened CpsGate
  import CpsPrinter
  import CpsScope
  import CpsTheorems
  import Utf8

  // ----- where the parts of a tree lie -----

  ghost predicate CountAt(d: seq<Byte>, p: nat, n: nat) {
    p + 4 <= |d| && n < TWO32 && d[p..p + 4] == ToLe(n, 4)
  }

  ghost predicate WordAt(d: seq<Byte>, p: nat, w: Word) {
    p + 8 <= |d| && d[p..p + 8] == ToLe(w, 8)
  }

  /** A four-byte length at `p`, and that many bytes up to `q`. */
  ghost predicate FrameAt(d: seq<Byte>, p: nat, q: nat, s: seq<Byte>) {
    p + 4 <= q <= |d| && s == d[p + 4..q] && CountAt(d, p, |s|)
  }

  ghost predicate TextAt(d: seq<Byte>, p: nat, q: nat, t: string) {
    p + 4 <= q <= |d| && FrameAt(d, p, q, d[p + 4..q]) && Utf8.LossyDecode(d[p + 4..q]) == t
  }

  ghost predicate ExprAt(d: seq<Byte>, p: nat, q: nat, e: Expr)
    decreases e
  {
    p < |d| &&
    match e
    case Const(w) => d[p] == 0x01 && WordAt(d, p + 1, w) && q == p + 9
    case Var(x) => d[p] == 0x02 && TextAt(d, p + 1, q, x)
    case App(f, args) => d[p] == 0x04 && exists m: nat :: TextAt(d, p + 1, m, f) && CountAt(d, m, Length(args)) && ArgsAt(d, m + 4, q, args)
    case Bin(op, a, b) => d[p] == CpsPrinter.OpcodeOf(op) && exists m: nat :: ExprAt(d, p + 1, m, a) && ExprAt(d, m, q, b)
    case Not(a) => d[p] == 0x19 && ExprAt(d, p + 1, q, a)
    case Load(a) => d[p] == 0x20 && ExprAt(d, p + 1, q, a)
    case Text(s) => d[p] == 0x21 && FrameAt(d, p + 1, q, s)
  }

  ghost predicate ArgsAt(d: seq<Byte>, p: nat, q: nat, es: List<Expr>)
    decreases es
  {
    match es
    case Nil => p == q <= |d|
    case Cons(e, rest) => exists m: nat :: ExprAt(d, p, m, e) && ArgsAt(d, m, q, rest)
  }

  /** Statements to the end of their bytes, or to a return with anything behind it. */
  ghost predicate StmtsAt(d: seq<Byte>, p: nat, ss: List<Stmt>)
    decreases ss, 0
  {
    match ss
    case Nil => p == |d|
    case Cons(s, rest) => exists m: nat :: StmtAt(d, p, m, s) && (if s.Return? then rest.Nil? else StmtsAt(d, m, rest))
  }

  ghost predicate BodyAt(d: seq<Byte>, p: nat, q: nat, ss: List<Stmt>)
    decreases ss, 1
  {
    p + 4 <= q <= |d| && FrameAt(d, p, q, d[p + 4..q]) && StmtsAt(d[p + 4..q], 0, ss)
  }

  ghost predicate StmtAt(d: seq<Byte>, p: nat, q: nat, s: Stmt)
    decreases s, 0
  {
    p < |d| &&
    match s
    case Return(e) => d[p] == 0x07 && ExprAt(d, p + 1, q, e)
    case If(c, t, e) => d[p] == 0x08 && exists m: nat, n: nat :: ExprAt(d, p + 1, m, c) && BodyAt(d, m, n, t) && BodyAt(d, n, q, e)
    case While(c, b) => d[p] == 0x09 && exists m: nat :: ExprAt(d, p + 1, m, c) && BodyAt(d, m, q, b)
    case Case(c, arms, dflt) =>
      d[p] == 0x0A && exists m: nat, n: nat ::
        ExprAt(d, p + 1, m, c) && CountAt(d, m, Length(arms)) && ArmsAt(d, m + 4, n, arms) && BodyAt(d, n, q, dflt)
    case Let(x, e) => d[p] == 0x03 && exists m: nat :: TextAt(d, p + 1, m, x) && ExprAt(d, m, q, e)
    case Store(a, v) => d[p] == 0x30 && exists m: nat :: ExprAt(d, p + 1, m, a) && ExprAt(d, m, q, v)
    case Discard(e) => ExprAt(d, p, q, e)
  }

  ghost predicate ArmsAt(d: seq<Byte>, p: nat, q: nat, arms: List<Arm>)
    decreases arms, 0
  {
    match arms
    case Nil => p == q <= |d|
    case Cons(a, rest) => WordAt(d, p, a.val) && exists m: nat :: BodyAt(d, p + 8, m, a.body) && ArmsAt(d, m, q, rest)
  }

  // ----- numbers, frames and texts -----

  lemma CountRead(d: seq<Byte>, p: nat, n: nat, q: nat)
    ensures ReadU32(d, p) == Some((n, q)) <==> CountAt(d, p, n) && q == p + 4
  {
    if p + 4 <= |d| {
      LeBack(d[p..p + 4]);
      if n < TWO32 {
        Le4RoundTrip(n);
      }
    }
  }

  lemma WordRead(d: seq<Byte>, p: nat, w: Word, q: nat)
    ensures ReadWord(d, p) == Some((w, q)) <==> WordAt(d, p, w) && q == p + 8
  {
    if p + 8 <= |d| {
      LeBack(d[p..p + 8]);
      Le8RoundTrip(w);
    }
  }

  lemma FrameRead(d: seq<Byte>, p: nat, s: seq<Byte>, q: nat)
    ensures ReadFramed(d, p) == Some((s, q)) <==> FrameAt(d, p, q, s)
  {
    hide CountAt, ReadU32;
    CountRead(d, p, |s|, p + 4);
    var n := ReadU32(d, p);
    if n.Some? {
      CountRead(d, p, n.value.0, n.value.1);
      assert CountAt(d, p, n.value.0) && n.value.1 == p + 4;
    }
  }

  lemma TextRead(d: seq<Byte>, p: nat, t: string, q: nat)
    ensures ReadString(d, p) == Some((t, q)) <==> TextAt(d, p, q, t)
  {
    hide FrameAt, ReadFramed;
    var f := ReadFramed(d, p);
    if f.Some? {
      FrameRead(d, p, f.value.0, f.value.1);
      FrameParts(d, p, f.value.1, f.value.0);
    }
    if TextAt(d, p, q, t) {
      FrameRead(d, p, d[p + 4..q], q);
    }
  }

  lemma FrameParts(d: seq<Byte>, p: nat, q: nat, s: seq<Byte>)
    requires FrameAt(d, p, q, s)
    ensures p + 4 <= q <= |d| && s == d[p + 4..q]
  {
  }

  // ----- expressions -----

  lemma LeafReads(d: seq<Byte>, p: nat, q: nat, e: Expr)
    requires p <= |d| && (e.Const? || e.Var? || e.Text?)
    ensures ParseExpr(d, p) == Some((e, q)) <==> ExprAt(d, p, q, e)
  {
    hide ReadString, ReadFramed, WordAt, TextAt, FrameAt, ParseApp, Le8;
    if p < |d| {
      match e
      case Const(w) => WordRead(d, p + 1, w, q);
      case Var(x) =>
        TextRead(d, p + 1, x, q);
        var r := ReadString(d, p + 1);
        assert r.Some? ==> r == Some((r.value.0, r.value.1));
      case Text(s) =>
        FrameRead(d, p + 1, s, q);
        var r := ReadFramed(d, p + 1);
        assert r.Some? ==> r == Some((r.value.0, r.value.1));
    }
  }

  /** What a parsed operation was read from. */
  lemma BinParts(d: seq<Byte>, p: nat, q: nat, e: Expr) returns (m: nat)
    requires p <= |d| && e.Bin? && ParseExpr(d, p) == Some((e, q))
    ensures p < m <= |d| && d[p] == CpsPrinter.OpcodeOf(e.op)
    ensures ParseExpr(d, p + 1) == Some((e.left, m)) && ParseExpr(d, m) == Some((e.right, q))
  {
    m := ParseExpr(d, p + 1).value.1;
  }

  lemma UnaryParts(d: seq<Byte>, p: nat, q: nat, e: Expr, a: Expr)
    requires p <= |d| && (e == Not(a) || e == Load(a))
    ensures var op := if e.Not? then 0x19 else 0x20;
            && (ParseExpr(d, p) == Some((e, q)) <==> p < |d| && d[p] == op && ParseExpr(d, p + 1) == Some((a, q)))
            && (ExprAt(d, p, q, e) <==> p < |d| && d[p] == op && ExprAt(d, p + 1, q, a))
  {
    hide ParseApp, ReadString, ReadFramed, ReadWord;
    if p < |d| {
      var r := ParseExpr(d, p + 1);
      assert r.Some? ==> r == Some((r.value.0, r.value.1));
    }
  }

  lemma BinSplit(d: seq<Byte>, p: nat, q: nat, e: Expr) returns (m: nat)
    requires e.Bin? && ExprAt(d, p, q, e)
    ensures p < |d| && d[p] == CpsPrinter.OpcodeOf(e.op) && ExprAt(d, p + 1, m, e.left) && ExprAt(d, m, q, e.right)
  {
    match e
    case Bin(_, a, b) => m :| ExprAt(d, p + 1, m, a) && ExprAt(d, m, q, b);
  }

  lemma BinJoin(d: seq<Byte>, p: nat, m: nat, q: nat, e: Expr)
    requires e.Bin? && p < |d| && d[p] == CpsPrinter.OpcodeOf(e.op) && ExprAt(d, p + 1, m, e.left) && ExprAt(d, m, q, e.right)
    ensures ExprAt(d, p, q, e)
  {
  }

  lemma ArgsSplit(d: seq<Byte>, p: nat, q: nat, es: List<Expr>) returns (m: nat)
    requires es.Cons? && ArgsAt(d, p, q, es)
    ensures ExprAt(d, p, m, es.head) && ArgsAt(d, m, q, es.tail)
  {
    match es
    case Cons(e, rest) => m :| ExprAt(d, p, m, e) && ArgsAt(d, m, q, rest);
  }

  lemma AppParts(d: seq<Byte>, p: nat, q: nat, e: Expr) returns (m: nat)
    requires p <= |d| && e.App? && ParseExpr(d, p) == Some((e, q))
    ensures p < |d| && d[p] == 0x04 && m + 4 <= |d|
    ensures ReadString(d, p + 1) == Some((e.callee, m)) && ReadU32(d, m) == Some((Length(e.args), m + 4))
    ensures ParseArgs(d, m + 4, Length(e.args)) == Some((e.args, q))
  {
    hide ParseArgs, ReadString, Length;
    m := ReadString(d, p + 1).value.1;
  }

  /** The reader returns `e` and the cursor `q` exactly when `e` lies between `p` and `q`. */
  lemma {:induction false} ExprReads(d: seq<Byte>, p: nat, q: nat, e: Expr)
    requires p <= |d|
    ensures ParseExpr(d, p) == Some((e, q)) <==> ExprAt(d, p, q, e)
    decreases e
  {
    match e {
      case Const(_) => LeafReads(d, p, q, e);
      case Var(_) => LeafReads(d, p, q, e);
      case Text(_) => LeafReads(d, p, q, e);
      case App(_, _) => AppReads(d, p, q, e);
      case Bin(_, _, _) => BinReads(d, p, q, e);
      case Not(a) => UnaryReads(d, p, q, e, a);
      case Load(a) => UnaryReads(d, p, q, e, a);
    }
  }

  lemma {:induction false} UnaryReads(d: seq<Byte>, p: nat, q: nat, e: Expr, a: Expr)
    requires p <= |d| && (e == Not(a) || e == Load(a))
    ensures ParseExpr(d, p) == Some((e, q)) <==> ExprAt(d, p, q, e)
    decreases e, 0
  {
    hide ParseExpr, ExprAt;
    UnaryParts(d, p, q, e, a);
    if p < |d| {
      ExprReads(d, p + 1, q, a);
    }
  }

  lemma {:induction false} BinReads(d: seq<Byte>, p: nat, q: nat, e: Expr)
    requires p <= |d| && e.Bin?
    ensures ParseExpr(d, p) == Some((e, q)) <==> ExprAt(d, p, q, e)
    decreases e, 0
  {
    hide ParseExpr, ExprAt;
    if ParseExpr(d, p) == Some((e, q)) {
      var m := BinParts(d, p, q, e);
      ExprReads(d, p + 1, m, e.left);
      ExprReads(d, m, q, e.right);
      BinJoin(d, p, m, q, e);
    }
    if ExprAt(d, p, q, e) {
      var m := BinSplit(d, p, q, e);
      ExprReads(d, p + 1, m, e.left);
      ExprReads(d, m, q, e.right);
      CpsPrinter.RuleBin(d, p, e.op, e.left, e.right, m, q);
    }
  }

  lemma {:induction false} AppReads(d: seq<Byte>, p: nat, q: nat, e: Expr)
    requires p <= |d| && e.App?
    ensures ParseExpr(d, p) == Some((e, q)) <==> ExprAt(d, p, q, e)
    decreases e, 0
  {
    hide ParseExpr, ParseArgs, ReadString, ReadU32, TextAt;
    if ParseExpr(d, p) == Some((e, q)) {
      var m := AppParts(d, p, q, e);
      TextRead(d, p + 1, e.callee, m);
      CountRead(d, m, Length(e.args), m + 4);
      ArgsRead(d, m + 4, q, e.args);
    }
    if ExprAt(d, p, q, e) {
      var m: nat :| TextAt(d, p + 1, m, e.callee) && CountAt(d, m, Length(e.args)) && ArgsAt(d, m + 4, q, e.args);
      TextRead(d, p + 1, e.callee, m);
      CountRead(d, m, Length(e.args), m + 4);
      ArgsRead(d, m + 4, q, e.args);
      CpsPrinter.RuleApp(d, p, e.callee, e.args, m, q);
    }
  }

  lemma {:induction false} ArgsRead(d: seq<Byte>, p: nat, q: nat, es: List<Expr>)
    requires p <= |d|
    ensures ParseArgs(d, p, Length(es)) == Some((es, q)) <==> ArgsAt(d, p, q, es)
    decreases es
  {
    hide ParseExpr, ExprAt;
    if es.Cons? {
      if ParseArgs(d, p, Length(es)) == Some((es, q)) {
        var m := ParseExpr(d, p).value.1;
        ExprReads(d, p, m, es.head);
        ArgsRead(d, m, q, es.tail);
      }
      if ArgsAt(d, p, q, es) {
        var m := ArgsSplit(d, p, q, es);
        ExprReads(d, p, m, es.head);
        ArgsRead(d, m, q, es.tail);
      }
    }
  }

  // ----- statements -----

  lemma TextInside(d: seq<Byte>, p: nat, q: nat, t: string)
    requires TextAt(d, p, q, t)
    ensures q <= |d|
  {
  }

  lemma IfSplit(d: seq<Byte>, p: nat, q: nat, s: Stmt) returns (m: nat, n: nat)
    requires s.If? && StmtAt(d, p, q, s)
    ensures p < |d| && d[p] == 0x08
    ensures ExprAt(d, p + 1, m, s.test) && BodyAt(d, m, n, s.thn) && BodyAt(d, n, q, s.els)
  {
    match s
    case If(c, t, e) => m, n :| ExprAt(d, p + 1, m, c) && BodyAt(d, m, n, t) && BodyAt(d, n, q, e);
  }

  lemma WhileSplit(d: seq<Byte>, p: nat, q: nat, s: Stmt) returns (m: nat)
    requires s.While? && StmtAt(d, p, q, s)
    ensures p < |d| && d[p] == 0x09 && ExprAt(d, p + 1, m, s.test) && BodyAt(d, m, q, s.body)
  {
    match s
    case While(c, b) => m :| ExprAt(d, p + 1, m, c) && BodyAt(d, m, q, b);
  }

  lemma CaseSplit(d: seq<Byte>, p: nat, q: nat, s: Stmt) returns (m: nat, n: nat)
    requires s.Case? && StmtAt(d, p, q, s)
    ensures p < |d| && d[p] == 0x0A && ExprAt(d, p + 1, m, s.subject) && CountAt(d, m, Length(s.arms))
    ensures ArmsAt(d, m + 4, n, s.arms) && BodyAt(d, n, q, s.dflt)
  {
    match s
    case Case(c, arms, dflt) =>
      m, n :| ExprAt(d, p + 1, m, c) && CountAt(d, m, Length(arms)) && ArmsAt(d, m + 4, n, arms) && BodyAt(d, n, q, dflt);
  }

  lemma ArmSplit(d: seq<Byte>, p: nat, q: nat, arms: List<Arm>) returns (m: nat)
    requires arms.Cons? && ArmsAt(d, p, q, arms)
    ensures p + 8 <= |d| && WordAt(d, p, arms.head.val)
    ensures BodyAt(d, p + 8, m, arms.head.body) && ArmsAt(d, m, q, arms.tail)
  {
    match arms
    case Cons(a, rest) => m :| BodyAt(d, p + 8, m, a.body) && ArmsAt(d, m, q, rest);
  }

  lemma StmtsSplit(d: seq<Byte>, p: nat, ss: List<Stmt>) returns (m: nat)
    requires ss.Cons? && StmtsAt(d, p, ss)
    ensures p < |d| && StmtAt(d, p, m, ss.head)
    ensures if ss.head.Return? then ss.tail.Nil? else StmtsAt(d, m, ss.tail)
  {
    match ss
    case Cons(s, rest) => m :| StmtAt(d, p, m, s) && (if s.Return? then rest.Nil? else StmtsAt(d, m, rest));
  }

  lemma ExprLead(d: seq<Byte>, p: nat, q: nat, e: Expr)
    requires ExprAt(d, p, q, e)
    ensures p < |d| && d[p] !in [0x03, 0x07, 0x08, 0x09, 0x0A, 0x30]
  {
  }

  lemma {:induction false} PlainReads(d: seq<Byte>, p: nat, q: nat, s: Stmt)
    requires p < |d| && (s.Return? || s.Discard?)
    ensures ParseStmt(d, p) == Some((s, q)) <==> StmtAt(d, p, q, s)
  {
    hide ParseExpr, ExprAt, ParseBody, ParseArms, ReadString;
    match s
    case Return(e) => ExprReads(d, p + 1, q, e);
    case Discard(e) =>
      ExprReads(d, p, q, e);
      if ExprAt(d, p, q, e) {
        ExprLead(d, p, q, e);
      }
  }

  lemma LetReads(d: seq<Byte>, p: nat, q: nat, s: Stmt)
    requires p < |d| && s.Let?
    ensures ParseStmt(d, p) == Some((s, q)) <==> StmtAt(d, p, q, s)
  {
    hide ParseExpr, ExprAt, ParseBody, ParseArms, ReadString, TextAt;
    match s
    case Let(x, e) =>
      if ParseStmt(d, p) == Some((s, q)) {
        var m := ReadString(d, p + 1).value.1;
        TextRead(d, p + 1, x, m);
        TextInside(d, p + 1, m, x);
        ExprReads(d, m, q, e);
      }
      if StmtAt(d, p, q, s) {
        var m: nat :| TextAt(d, p + 1, m, x) && ExprAt(d, m, q, e);
        TextInside(d, p + 1, m, x);
        TextRead(d, p + 1, x, m);
        ExprReads(d, m, q, e);
      }
  }

  lemma StoreReads(d: seq<Byte>, p: nat, q: nat, s: Stmt)
    requires p < |d| && s.Store?
    ensures ParseStmt(d, p) == Some((s, q)) <==> StmtAt(d, p, q, s)
  {
    hide ParseExpr, ExprAt, ParseBody, ParseArms, ReadString;
    match s
    case Store(a, v) =>
      if ParseStmt(d, p) == Some((s, q)) {
        var m := ParseExpr(d, p + 1).value.1;
        ExprReads(d, p + 1, m, a);
        ExprReads(d, m, q, v);
      }
      if StmtAt(d, p, q, s) {
        var m: nat :| ExprAt(d, p + 1, m, a) && ExprAt(d, m, q, v);
        ExprReads(d, p + 1, m, a);
        ExprReads(d, m, q, v);
      }
  }

  lemma {:induction false} BodyReads(d: seq<Byte>, p: nat, q: nat, ss: List<Stmt>)
    requires p <= |d|
    ensures ParseBody(d, p) == Some((ss, q)) <==> BodyAt(d, p, q, ss)
    decreases ss, 2
  {
    hide ParseStmts, StmtsAt, ReadFramed, FrameAt;
    var f := ReadFramed(d, p);
    if f.Some? {
      FrameRead(d, p, f.value.0, f.value.1);
      FrameParts(d, p, f.value.1, f.value.0);
      StmtsRead(f.value.0, 0, ss);
    }
    if BodyAt(d, p, q, ss) {
      FrameRead(d, p, d[p + 4..q], q);
    }
  }

  lemma {:induction false} IfReads(d: seq<Byte>, p: nat, q: nat, s: Stmt)
    requires p < |d| && s.If?
    ensures ParseStmt(d, p) == Some((s, q)) <==> StmtAt(d, p, q, s)
    decreases s, 1
  {
    hide ParseExpr, ExprAt, ParseBody, BodyAt, ParseArms, ReadString;
    match s
    case If(c, t, e) =>
      if ParseStmt(d, p) == Some((s, q)) {
        var m := ParseExpr(d, p + 1).value.1;
        var n := ParseBody(d, m).value.1;
        ExprReads(d, p + 1, m, c);
        BodyReads(d, m, n, t);
        BodyReads(d, n, q, e);
      }
      if StmtAt(d, p, q, s) {
        var m, n := IfSplit(d, p, q, s);
        ExprReads(d, p + 1, m, c);
        BodyReads(d, m, n, t);
        BodyReads(d, n, q, e);
      }
  }

  lemma {:induction false} WhileReads(d: seq<Byte>, p: nat, q: nat, s: Stmt)
    requires p < |d| && s.While?
    ensures ParseStmt(d, p) == Some((s, q)) <==> StmtAt(d, p, q, s)
    decreases s, 1
  {
    hide ParseExpr, ExprAt, ParseBody, BodyAt, ParseArms, ReadString;
    match s
    case While(c, b) =>
      if ParseStmt(d, p) == Some((s, q)) {
        var m := ParseExpr(d, p + 1).value.1;
        ExprReads(d, p + 1, m, c);
        BodyReads(d, m, q, b);
      }
      if StmtAt(d, p, q, s) {
        var m := WhileSplit(d, p, q, s);
        ExprReads(d, p + 1, m, c);
        BodyReads(d, m, q, b);
      }
  }

  /** What a parsed case was read from. */
  lemma CaseParts(d: seq<Byte>, p: nat, q: nat, s: Stmt) returns (m: nat, n: nat)
    requires p < |d| && s.Case? && ParseStmt(d, p) == Some((s, q))
    ensures d[p] == 0x0A && m + 4 <= |d| && n <= |d|
    ensures ParseExpr(d, p + 1) == Some((s.subject, m)) && ReadU32(d, m) == Some((Length(s.arms), m + 4))
    ensures ParseArms(d, m + 4, Length(s.arms)) == Some((s.arms, n)) && ParseBody(d, n) == Some((s.dflt, q))
  {
    hide ParseExpr, ParseBody, ParseArms, ReadString, ReadU32;
    m := ParseExpr(d, p + 1).value.1;
    var k := ReadU32(d, m).value.0;
    CountRead(d, m, k, ReadU32(d, m).value.1);
    n := ParseArms(d, m + 4, k).value.1;
    ArmsLength(d, m + 4, k);
  }

  lemma {:induction false} ArmsLength(d: seq<Byte>, p: nat, n: nat)
    requires p <= |d| && ParseArms(d, p, n).Some?
    ensures Length(ParseArms(d, p, n).value.0) == n
    decreases n
  {
    hide ParseBody;
    if n > 0 {
      var p2 := ParseBody(d, p + 8).value.1;
      ArmsLength(d, p2, n - 1);
    }
  }

  lemma {:induction false} CaseReads(d: seq<Byte>, p: nat, q: nat, s: Stmt)
    requires p < |d| && s.Case?
    ensures ParseStmt(d, p) == Some((s, q)) <==> StmtAt(d, p, q, s)
    decreases s, 1
  {
    hide ParseExpr, ExprAt, ParseBody, BodyAt, ParseArms, ArmsAt, ReadString, ReadU32, ParseStmt;
    match s
    case Case(c, arms, dflt) =>
      if ParseStmt(d, p) == Some((s, q)) {
        var m, n := CaseParts(d, p, q, s);
        ExprReads(d, p + 1, m, c);
        CountRead(d, m, Length(arms), m + 4);
        ArmsReadAt(d, m + 4, n, arms);
        BodyReads(d, n, q, dflt);
      }
      if StmtAt(d, p, q, s) {
        var m, n := CaseSplit(d, p, q, s);
        ExprReads(d, p + 1, m, c);
        CountRead(d, m, Length(arms), m + 4);
        ArmsReadAt(d, m + 4, n, arms);
        BodyReads(d, n, q, dflt);
        CpsPrinter.RuleCase(d, p, s, m, n, q);
      }
  }

  lemma {:induction false} ArmsReadAt(d: seq<Byte>, p: nat, q: nat, arms: List<Arm>)
    requires p <= |d|
    ensures ParseArms(d, p, Length(arms)) == Some((arms, q)) <==> ArmsAt(d, p, q, arms)
    decreases arms, 1
  {
    hide ParseBody, BodyAt, ReadWord, WordAt;
    match arms
    case Nil =>
    case Cons(a, rest) =>
      WordRead(d, p, a.val, p + 8);
      if ParseArms(d, p, Length(arms)) == Some((arms, q)) {
        var w := ReadWord(d, p).value;
        WordRead(d, p, w.0, w.1);
        var m := ParseBody(d, p + 8).value.1;
        BodyReads(d, p + 8, m, a.body);
        ArmsReadAt(d, m, q, rest);
      }
      if ArmsAt(d, p, q, arms) {
        var m := ArmSplit(d, p, q, arms);
        BodyReads(d, p + 8, m, a.body);
        ArmsReadAt(d, m, q, rest);
      }
  }

  /** One statement is read exactly when it lies between the two cursors. */
  lemma {:induction false} StmtReads(d: seq<Byte>, p: nat, q: nat, s: Stmt)
    requires p < |d|
    ensures ParseStmt(d, p) == Some((s, q)) <==> StmtAt(d, p, q, s)
    decreases s, 2
  {
    hide ParseStmt, StmtAt;
    match s {
      case Return(_) => PlainReads(d, p, q, s);
      case Discard(_) => PlainReads(d, p, q, s);
      case Let(_, _) => LetReads(d, p, q, s);
      case Store(_, _) => StoreReads(d, p, q, s);
      case If(_, _, _) => IfReads(d, p, q, s);
      case While(_, _) => WhileReads(d, p, q, s);
      case Case(_, _, _) => CaseReads(d, p, q, s);
    }
  }

  /** A list is read exactly when it lies at the cursor and runs to the end or to a return. */
  lemma {:induction false} StmtsRead(d: seq<Byte>, p: nat, ss: List<Stmt>)
    requires p <= |d|
    ensures ParseStmts(d, p) == Some(ss) <==> StmtsAt(d, p, ss)
    decreases ss, 1
  {
    hide ParseStmt, StmtAt;
    match ss
    case Nil =>
    case Cons(s, rest) =>
      if ParseStmts(d, p) == Some(ss) {
        var m := ParseStmt(d, p).value.1;
        StmtReads(d, p, m, s);
        if !s.Return? {
          StmtsRead(d, m, rest);
        }
      }
      if StmtsAt(d, p, ss) {
        var m := StmtsSplit(d, p, ss);
        StmtReads(d, p, m, s);
        if !s.Return? {
          StmtsRead(d, m, rest);
        }
      }
  }

  // ----- the function table -----

  ghost predicate ParamsAt(d: seq<Byte>, p: nat, q: nat, ps: seq<string>)
    decreases |ps|
  {
    if ps == [] then p == q <= |d| else exists m: nat :: TextAt(d, p, m, ps[0]) && ParamsAt(d, m, q, ps[1..])
  }

  /** A name, the counted parameters up to `n`, one byte for the result type and a framed body. */
  ghost predicate HeaderAt(d: seq<Byte>, p: nat, q: nat, h: Header) {
    exists m: nat, n: nat ::
      && TextAt(d, p, m, h.name) && CountAt(d, m, |h.params|) && ParamsAt(d, m + 4, n, h.params)
      && n < |d| && d[n] == h.ret && FrameAt(d, n + 1, q, h.body)
  }

  ghost predicate HeadersAt(d: seq<Byte>, p: nat, q: nat, hs: seq<Header>)
    decreases |hs|
  {
    if hs == [] then p == q <= |d| else exists m: nat :: HeaderAt(d, p, m, hs[0]) && HeadersAt(d, m, q, hs[1..])
  }

  ghost predicate HeadersFrom(d: seq<Byte>, p: nat, hs: seq<Header>) {
    exists q: nat :: HeadersAt(d, p, q, hs)
  }

  /** The first version's magic and no name, or the second's and the module's name. */
  ghost predicate NameAt(d: seq<Byte>, q: nat, name: string) {
    || (CountAt(d, 0, 0x4350_5331) && name == "" && q == 4)
    || (CountAt(d, 0, 0x4350_5332) && TextAt(d, 4, q, name))
  }

  /** The table lies at the start of `d`; anything may follow it. */
  ghost predicate TableAt(d: seq<Byte>, t: Table) {
    exists m: nat :: NameAt(d, m, t.moduleName) && CountAt(d, m, |t.funs|) && HeadersFrom(d, m + 4, t.funs)
  }

  lemma ParamsSplit(d: seq<Byte>, p: nat, q: nat, ps: seq<string>) returns (m: nat)
    requires ps != [] && ParamsAt(d, p, q, ps)
    ensures m <= |d| && TextAt(d, p, m, ps[0]) && ParamsAt(d, m, q, ps[1..])
  {
    m :| TextAt(d, p, m, ps[0]) && ParamsAt(d, m, q, ps[1..]);
  }

  lemma {:induction false} ParamsRead(d: seq<Byte>, p: nat, q: nat, ps: seq<string>)
    requires p <= |d|
    ensures ParseParams(d, p, |ps|) == Some((ps, q)) <==> ParamsAt(d, p, q, ps)
    decreases |ps|
  {
    hide TextAt, ReadString;
    if ps != [] {
      assert ps == [ps[0]] + ps[1..];
      if ParseParams(d, p, |ps|) == Some((ps, q)) {
        var m := ReadString(d, p).value.1;
        var rest := ParseParams(d, m, |ps| - 1).value.0;
        assert ps[1..] == rest;
        TextRead(d, p, ps[0], m);
        ParamsRead(d, m, q, ps[1..]);
      }
      if ParamsAt(d, p, q, ps) {
        var m := ParamsSplit(d, p, q, ps);
        TextRead(d, p, ps[0], m);
        ParamsRead(d, m, q, ps[1..]);
      }
    }
  }

  /** What a parsed header was read from. */
  lemma HeaderParts(d: seq<Byte>, p: nat, q: nat, h: Header) returns (m: nat, n: nat)
    requires p <= |d| && ParseHeader(d, p) == Some((h, q))
    ensures m + 4 <= |d| && n < |d| && d[n] == h.ret
    ensures ReadString(d, p) == Some((h.name, m)) && ReadU32(d, m) == Some((|h.params|, m + 4))
    ensures ParseParams(d, m + 4, |h.params|) == Some((h.params, n)) && ReadFramed(d, n + 1) == Some((h.body, q))
  {
    hide ReadString, ReadFramed, ParseParams;
    m := ReadString(d, p).value.1;
    n := ParseParams(d, m + 4, |h.params|).value.1;
    var r := ReadFramed(d, n + 1);
    assert r == Some((r.value.0, r.value.1));
  }

  lemma HeaderReads(d: seq<Byte>, p: nat, q: nat, h: Header)
    requires p <= |d|
    ensures ParseHeader(d, p) == Some((h, q)) <==> HeaderAt(d, p, q, h)
  {
    hide ReadString, ReadFramed, ReadU32, ParseParams, TextAt, FrameAt, ParamsAt;
    if ParseHeader(d, p) == Some((h, q)) {
      var m, n := HeaderParts(d, p, q, h);
      TextRead(d, p, h.name, m);
      CountRead(d, m, |h.params|, m + 4);
      ParamsRead(d, m + 4, n, h.params);
      FrameRead(d, n + 1, h.body, q);
    }
    if HeaderAt(d, p, q, h) {
      var m: nat, n: nat :|
        && TextAt(d, p, m, h.name) && CountAt(d, m, |h.params|) && ParamsAt(d, m + 4, n, h.params)
        && n < |d| && d[n] == h.ret && FrameAt(d, n + 1, q, h.body);
      TextRead(d, p, h.name, m);
      CountRead(d, m, |h.params|, m + 4);
      ParamsRead(d, m + 4, n, h.params);
      FrameRead(d, n + 1, h.body, q);
    }
  }

  lemma HeadersSplit(d: seq<Byte>, p: nat, q: nat, hs: seq<Header>) returns (m: nat)
    requires hs != [] && HeadersAt(d, p, q, hs)
    ensures HeaderAt(d, p, m, hs[0]) && HeadersAt(d, m, q, hs[1..])
  {
    m :| HeaderAt(d, p, m, hs[0]) && HeadersAt(d, m, q, hs[1..]);
  }

  lemma {:induction false} HeadersRead(d: seq<Byte>, p: nat, q: nat, hs: seq<Header>)
    requires p <= |d|
    ensures ParseHeaders(d, p, |hs|) == Some((hs, q)) <==> HeadersAt(d, p, q, hs)
    decreases |hs|
  {
    hide HeaderAt, ParseHeader;
    if hs != [] {
      assert hs == [hs[0]] + hs[1..];
      if ParseHeaders(d, p, |hs|) == Some((hs, q)) {
        var m := ParseHeader(d, p).value.1;
        var rest := ParseHeaders(d, m, |hs| - 1).value.0;
        assert hs[1..] == rest;
        HeaderReads(d, p, m, hs[0]);
        HeadersRead(d, m, q, hs[1..]);
      }
      if HeadersAt(d, p, q, hs) {
        var m := HeadersSplit(d, p, q, hs);
        HeaderReads(d, p, m, hs[0]);
        HeadersRead(d, m, q, hs[1..]);
      }
    }
  }

  lemma NameReads(d: seq<Byte>, q: nat, name: string)
    ensures ParseModuleName(d) == Some((name, q)) <==> NameAt(d, q, name)
  {
    hide TextAt, ReadString, ReadU32;
    TextRead(d, 4, name, q);
    CountRead(d, 0, 0x4350_5331, 4);
    CountRead(d, 0, 0x4350_5332, 4);
    var r := ReadU32(d, 0);
    if r.Some? {
      CountRead(d, 0, r.value.0, r.value.1);
    }
  }

  /** The reader returns a table exactly when it lies at the start of the bytes. */
  lemma TableReads(d: seq<Byte>, t: Table)
    ensures ParseTable(d) == Some(t) <==> TableAt(d, t)
  {
    hide ParseModuleName, NameAt, ReadU32, ParseHeaders, HeadersAt;
    if ParseTable(d) == Some(t) {
      var m := ParseModuleName(d).value.1;
      var n := ReadU32(d, m).value;
      NameReads(d, m, t.moduleName);
      CountRead(d, m, n.0, n.1);
      HeadersRead(d, m + 4, ParseHeaders(d, m + 4, n.0).value.1, t.funs);
    }
    if TableAt(d, t) {
      var m: nat :| NameAt(d, m, t.moduleName) && CountAt(d, m, |t.funs|) && HeadersFrom(d, m + 4, t.funs);
      var q: nat :| HeadersAt(d, m + 4, q, t.funs);
      NameReads(d, m, t.moduleName);
      CountRead(d, m, |t.funs|, m + 4);
      HeadersRead(d, m + 4, q, t.funs);
    }
  }

  // ----- which byte strings compile -----

  /** The body of the entry holds statements that are in order for it. */
  ghost predicate EntryHolds(auth: Auth, moduleName: string, h: Header) {
    exists ss :: StmtsAt(h.body, 0, ss) && CpsScope.FunOk(Ctx(auth, h.name, moduleName), h.params, ss)
  }

  ghost predicate TableHolds(auth: Auth, d: seq<Byte>, t: Table) {
    TableAt(d, t) && forall i | 0 <= i < |t.funs| :: EntryHolds(auth, t.moduleName, t.funs[i])
  }

  lemma EntryExactly(auth: Auth, moduleName: string, h: Header)
    ensures CpsScope.EntryOk(auth, moduleName, h) <==> EntryHolds(auth, moduleName, h)
  {
    hide ParseStmts, StmtsAt, CpsScope.FunOk;
    if CpsScope.EntryOk(auth, moduleName, h) {
      StmtsRead(h.body, 0, ParseStmts(h.body, 0).value);
    }
    if EntryHolds(auth, moduleName, h) {
      var ss :| StmtsAt(h.body, 0, ss) && CpsScope.FunOk(Ctx(auth, h.name, moduleName), h.params, ss);
      StmtsRead(h.body, 0, ss);
    }
  }

  /** Any byte string compiles exactly when it holds a table whose bodies hold statements in order. */
  lemma CompilesExactly(auth: Auth, d: seq<Byte>)
    ensures CpsTheorems.CompileModule(auth, d).Some? <==> exists t :: TableHolds(auth, d, t)
  {
    hide ParseTable, TableAt, EntryHolds, CpsScope.EntryOk, CpsTheorems.CompileModule;
    CpsScope.ModuleExactly(auth, d);
    forall moduleName, h
      ensures CpsScope.EntryOk(auth, moduleName, h) <==> EntryHolds(auth, moduleName, h)
    {
      EntryExactly(auth, moduleName, h);
    }
    if CpsTheorems.CompileModule(auth, d).Some? {
      var t := ParseTable(d).value;
      TableReads(d, t);
      assert TableHolds(auth, d, t);
    }
    if t :| TableHolds(auth, d, t) {
      TableReads(d, t);
    }
  }
}
