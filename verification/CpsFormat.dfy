/**
 The length-framed CPS byte format: the trees it denotes, the reader's view of a byte
 string (what `CpsReader` and the opcode dispatch consume) and a printer for it.
 */
module CpsFormat {
  import opened Util
  import opened Bytes
  import Utf8

  datatype BinOp = Add | Sub | Mul | Lt | Gt | Le | Ge | Eq | Ne

  datatype Expr =
    | Const(w: Word)
    | Var(name: string)
    | App(callee: string, args: List<Expr>)
    | Bin(op: BinOp, left: Expr, right: Expr)
    | Not(arg: Expr)
    | Load(ptr: Expr)
    | Text(bytes: seq<Byte>)

  datatype Arm = Arm(val: Word, body: List<Stmt>)

  datatype Stmt =
    | Return(result: Expr)
    | If(test: Expr, thn: List<Stmt>, els: List<Stmt>)
    | While(test: Expr, body: List<Stmt>)
    | Case(subject: Expr, arms: List<Arm>, dflt: List<Stmt>)
    | Let(x: string, val: Expr)
    | Store(ptr: Expr, val: Expr)
    | Discard(e: Expr)

  /** One entry of the function table; the body stays encoded until it is compiled. */
  datatype Header = Header(name: string, params: seq<string>, ret: Byte, body: seq<Byte>)

  datatype Table = Table(moduleName: string, funs: seq<Header>)

  // ----- the reader's primitives -----

  function ReadU8(d: seq<Byte>, pos: nat): Option<(Byte, nat)>
  {
    if pos >= |d| then None else Some((d[pos], pos + 1))
  }

  function ReadU32(d: seq<Byte>, pos: nat): Option<(nat, nat)>
  {
    if pos + 4 > |d| then None else Some((Le4(d[pos..pos + 4]), pos + 4))
  }

  function ReadWord(d: seq<Byte>, pos: nat): Option<(Word, nat)>
  {
    if pos + 8 > |d| then None else Some((Le8(d[pos..pos + 8]), pos + 8))
  }

  function ReadBytes(d: seq<Byte>, pos: nat, n: nat): Option<(seq<Byte>, nat)>
  {
    if pos + n > |d| then None else Some((d[pos..pos + n], pos + n))
  }

  function ReadFramed(d: seq<Byte>, pos: nat): Option<(seq<Byte>, nat)>
  {
    var (n, p) :- ReadU32(d, pos);
    ReadBytes(d, p, n)
  }

  function ReadString(d: seq<Byte>, pos: nat): Option<(string, nat)>
  {
    var (s, p) :- ReadFramed(d, pos);
    Some((Utf8.LossyDecode(s), p))
  }

  // ----- trees from bytes -----

  function BinOpOf(op: Byte): Option<BinOp> {
    if op == 0x05 then Some(Add)
    else if op == 0x06 then Some(Sub)
    else if op == 0x10 then Some(Lt)
    else if op == 0x11 then Some(Gt)
    else if op == 0x12 then Some(Le)
    else if op == 0x13 then Some(Ge)
    else if op == 0x14 then Some(Eq)
    else if op == 0x15 then Some(Ne)
    else if op == 0x18 then Some(Mul)
    else None
  }

  function ParseExpr(d: seq<Byte>, pos: nat): (r: Option<(Expr, nat)>)
    requires pos <= |d|
    ensures r.Some? ==> pos < r.value.1 <= |d|
    decreases |d| - pos, 0, 0
  {
    var (op, p) :- ReadU8(d, pos);
    if op == 0x01 then
      var (w, p1) :- ReadWord(d, p);
      Some((Const(w), p1))
    else if op == 0x02 then
      var (name, p1) :- ReadString(d, p);
      Some((Var(name), p1))
    else if op == 0x04 then
      ParseApp(d, p)
    else if BinOpOf(op).Some? then
      var (a, p1) :- ParseExpr(d, p);
      var (b, p2) :- ParseExpr(d, p1);
      Some((Bin(BinOpOf(op).value, a, b), p2))
    else if op == 0x19 then
      var (a, p1) :- ParseExpr(d, p);
      Some((Not(a), p1))
    else if op == 0x20 then
      var (a, p1) :- ParseExpr(d, p);
      Some((Load(a), p1))
    else if op == 0x21 then
      var (s, p1) :- ReadFramed(d, p);
      Some((Text(s), p1))
    else
      None
  }

  /** An application, after its opcode byte. */
  function ParseApp(d: seq<Byte>, pos: nat): (r: Option<(Expr, nat)>)
    requires pos <= |d|
    ensures r.Some? ==> pos < r.value.1 <= |d| && r.value.0.App?
    decreases |d| - pos, 2, 0
  {
    var (f, p1) :- ReadString(d, pos);
    var (n, p2) :- ReadU32(d, p1);
    var (args, p3) :- ParseArgs(d, p2, n);
    Some((App(f, args), p3))
  }

  function ParseArgs(d: seq<Byte>, pos: nat, n: nat): (r: Option<(List<Expr>, nat)>)
    requires pos <= |d|
    ensures r.Some? ==> pos <= r.value.1 <= |d| && Length(r.value.0) == n
    decreases |d| - pos, 1, n
  {
    if n == 0 then Some((Nil, pos))
    else
      var (e, p1) :- ParseExpr(d, pos);
      var (es, p2) :- ParseArgs(d, p1, n - 1);
      Some((Cons(e, es), p2))
  }

  /** A length-framed statement list: the cursor moves past the frame whatever is inside. */
  function ParseBody(d: seq<Byte>, pos: nat): (r: Option<(List<Stmt>, nat)>)
    requires pos <= |d|
    ensures r.Some? ==> pos < r.value.1 <= |d|
    decreases |d| - pos, 0, 0
  {
    var (s, p) :- ReadFramed(d, pos);
    var body :- ParseStmts(s, 0);
    Some((body, p))
  }

  function ParseStmt(d: seq<Byte>, pos: nat): (r: Option<(Stmt, nat)>)
    requires pos < |d|
    ensures r.Some? ==> pos < r.value.1 <= |d|
    decreases |d| - pos, 2, 0
  {
    var op := d[pos];
    var p := pos + 1;
    if op == 0x07 then
      var (e, p1) :- ParseExpr(d, p);
      Some((Return(e), p1))
    else if op == 0x08 then
      var (c, p1) :- ParseExpr(d, p);
      var (t, p2) :- ParseBody(d, p1);
      var (e, p3) :- ParseBody(d, p2);
      Some((If(c, t, e), p3))
    else if op == 0x09 then
      var (c, p1) :- ParseExpr(d, p);
      var (b, p2) :- ParseBody(d, p1);
      Some((While(c, b), p2))
    else if op == 0x0A then
      var (c, p1) :- ParseExpr(d, p);
      var (n, p2) :- ReadU32(d, p1);
      var (arms, p3) :- ParseArms(d, p2, n);
      var (dflt, p4) :- ParseBody(d, p3);
      Some((Case(c, arms, dflt), p4))
    else if op == 0x03 then
      var (x, p1) :- ReadString(d, p);
      var (e, p2) :- ParseExpr(d, p1);
      Some((Let(x, e), p2))
    else if op == 0x30 then
      var (a, p1) :- ParseExpr(d, p);
      var (v, p2) :- ParseExpr(d, p1);
      Some((Store(a, v), p2))
    else
      var (e, p1) :- ParseExpr(d, pos);
      Some((Discard(e), p1))
  }

  function ParseArms(d: seq<Byte>, pos: nat, n: nat): (r: Option<(List<Arm>, nat)>)
    requires pos <= |d|
    ensures r.Some? ==> pos <= r.value.1 <= |d|
    decreases |d| - pos, 1, n
  {
    if n == 0 then Some((Nil, pos))
    else
      var (w, p1) :- ReadWord(d, pos);
      var (body, p2) :- ParseBody(d, p1);
      var (arms, p3) :- ParseArms(d, p2, n - 1);
      Some((Cons(Arm(w, body), arms), p3))
  }

  /** A statement list runs to the end of its bytes or to its first return, whichever comes first. */
  function ParseStmts(d: seq<Byte>, pos: nat): Option<List<Stmt>>
    requires pos <= |d|
    decreases |d| - pos, 3, 0
  {
    if pos == |d| then Some(Nil)
    else
      var (s, p) :- ParseStmt(d, pos);
      if s.Return? then Some(Cons(s, Nil))
      else
        var rest :- ParseStmts(d, p);
        Some(Cons(s, rest))
  }

  // ----- the function table -----

  const MAGIC1: nat := 0x4350_5331
  const MAGIC2: nat := 0x4350_5332

  function ParseParams(d: seq<Byte>, pos: nat, n: nat): (r: Option<(seq<string>, nat)>)
    requires pos <= |d|
    ensures r.Some? ==> pos <= r.value.1 <= |d| && |r.value.0| == n
    decreases n
  {
    if n == 0 then Some(([], pos))
    else
      var (s, p1) :- ReadString(d, pos);
      var (ss, p2) :- ParseParams(d, p1, n - 1);
      Some(([s] + ss, p2))
  }

  function ParseHeader(d: seq<Byte>, pos: nat): (r: Option<(Header, nat)>)
    requires pos <= |d|
    ensures r.Some? ==> pos <= r.value.1 <= |d|
  {
    var (name, p1) :- ReadString(d, pos);
    var (n, p2) :- ReadU32(d, p1);
    var (params, p3) :- ParseParams(d, p2, n);
    var (ret, p4) :- ReadU8(d, p3);
    var (body, p5) :- ReadFramed(d, p4);
    Some((Header(name, params, ret, body), p5))
  }

  function ParseHeaders(d: seq<Byte>, pos: nat, n: nat): (r: Option<(seq<Header>, nat)>)
    requires pos <= |d|
    ensures r.Some? ==> pos <= r.value.1 <= |d| && |r.value.0| == n
    decreases n
  {
    if n == 0 then Some(([], pos))
    else
      var (h, p1) :- ParseHeader(d, pos);
      var (hs, p2) :- ParseHeaders(d, p1, n - 1);
      Some(([h] + hs, p2))
  }

  /** Version 1 has no module name; version 2 names the module after the magic. */
  function ParseModuleName(d: seq<Byte>): (r: Option<(string, nat)>)
    ensures r.Some? ==> r.value.1 <= |d|
  {
    var (magic, p) :- ReadU32(d, 0);
    if magic == MAGIC1 then Some(("", p))
    else if magic == MAGIC2 then ReadString(d, p)
    else None
  }

  function ParseTable(d: seq<Byte>): Option<Table> {
    var (name, p1) :- ParseModuleName(d);
    var (n, p2) :- ReadU32(d, p1);
    var (funs, p3) :- ParseHeaders(d, p2, n);
    Some(Table(name, funs))
  }
}
