/**
 The single-pass compiler itself: a reader cursor, a block manager and a flat variable map,
 all updated in place while opcodes are consumed. Each method is proved to do what reading
 the tree first and generating code from it afterwards does.
 */
module CpsEmit {
  import opened Util
  import opened Bytes
  import opened CpsFormat
  import opened CpsMachine
  import opened CpsSemantics
  import opened CpsGate
  import opened CpsGen
  import opened CpsTheorems
  import Utf8

  function Pair<T>(r: Option<T>, pos: nat): Option<(T, nat)> {
    if r.Some? then Some((r.value, pos)) else None
  }

  class CpsReader {
    const data: seq<Byte>
    var pos: nat

    ghost predicate Valid()
      reads this
    {
      pos <= |data|
    }

    constructor (d: seq<Byte>)
      ensures data == d && pos == 0 && Valid()
    {
      data := d;
      pos := 0;
    }

    method ReadU8() returns (r: Option<Byte>)
      requires Valid()
      modifies this
      ensures Valid() && Pair(r, pos) == CpsFormat.ReadU8(data, old(pos))
    {
      if pos >= |data| {
        return None;
      }
      r := Some(data[pos]);
      pos := pos + 1;
    }

    method PeekU8() returns (r: Option<Byte>)
      requires Valid()
      ensures r == if pos < |data| then Some(data[pos]) else None
    {
      r := if pos >= |data| then None else Some(data[pos]);
    }

    method ReadU32() returns (r: Option<nat>)
      requires Valid()
      modifies this
      ensures Valid() && Pair(r, pos) == CpsFormat.ReadU32(data, old(pos))
    {
      if pos + 4 > |data| {
        return None;
      }
      r := Some(Le4(data[pos..pos + 4]));
      pos := pos + 4;
    }

    method ReadI64() returns (r: Option<Word>)
      requires Valid()
      modifies this
      ensures Valid() && Pair(r, pos) == CpsFormat.ReadWord(data, old(pos))
    {
      if pos + 8 > |data| {
        return None;
      }
      r := Some(Le8(data[pos..pos + 8]));
      pos := pos + 8;
    }

    method ReadBytes(n: nat) returns (r: Option<seq<Byte>>)
      requires Valid()
      modifies this
      ensures Valid() && Pair(r, pos) == CpsFormat.ReadBytes(data, old(pos), n)
    {
      if pos + n > |data| {
        return None;
      }
      r := Some(data[pos..pos + n]);
      pos := pos + n;
    }

    /** A length and that many bytes. */
    method ReadFramed() returns (r: Option<seq<Byte>>)
      requires Valid()
      modifies this
      ensures Valid() && Pair(r, pos) == CpsFormat.ReadFramed(data, old(pos))
    {
      var n := ReadU32();
      if n.None? {
        return None;
      }
      r := ReadBytes(n.value);
    }

    method ReadString() returns (r: Option<string>)
      requires Valid()
      modifies this
      ensures Valid() && Pair(r, pos) == CpsFormat.ReadString(data, old(pos))
    {
      var s := ReadFramed();
      if s.None? {
        return None;
      }
      r := Some(Utf8.LossyDecode(s.value));
    }
  }

  class VarMap {
    var m: Vars

    constructor ()
      ensures m == map[]
    {
      m := map[];
    }
  }

  class BlockManager {
    var blocks: seq<seq<Instr>>
    var cur: nat
    var terminated: bool
    var next: nat
    var nvars: nat
    var entered: seq<nat>

    ghost predicate Valid()
      reads this
    {
      cur < |blocks|
    }

    function State(m: Vars): GenState
      reads this
    {
      GenState(blocks, cur, terminated, next, m, nvars, entered)
    }

    constructor ()
      ensures blocks == [] && !terminated && next == 0 && nvars == 0 && entered == []
    {
      blocks, cur, terminated, next, nvars, entered := [], 0, false, 0, 0, [];
    }

    method CreateBlock() returns (b: nat)
      modifies this`blocks
      ensures b == |old(blocks)| && blocks == old(blocks) + [[]]
    {
      b := |blocks|;
      blocks := blocks + [[]];
    }

    method SwitchToBlock(b: nat)
      requires b < |blocks|
      modifies this`cur, this`terminated, this`entered
      ensures Valid() && cur == b && !terminated && entered == old(entered) + [b]
    {
      cur, terminated, entered := b, false, entered + [b];
    }

    /** A fresh SSA value. */
    method Fresh() returns (v: nat)
      modifies this`next
      ensures v == old(next) && next == v + 1
    {
      v := next;
      next := next + 1;
    }

    /** Appends one instruction to the current block. */
    method Ins(i: Instr)
      requires Valid()
      modifies this`blocks
      ensures Valid() && blocks == old(blocks)[cur := old(blocks[cur]) + [i]]
    {
      blocks := blocks[cur := blocks[cur] + [i]];
    }

    method EmitReturn(v: nat)
      requires Valid()
      modifies this`blocks, this`terminated
      ensures Valid() && terminated
      ensures blocks == if old(terminated) then old(blocks) else old(blocks)[cur := old(blocks[cur]) + [Ret(v)]]
    {
      if !terminated {
        Ins(Ret(v));
        terminated := true;
      }
    }

    method EmitJump(target: nat)
      requires Valid()
      modifies this`blocks, this`terminated
      ensures Valid() && terminated
      ensures blocks == if old(terminated) then old(blocks) else old(blocks)[cur := old(blocks[cur]) + [Jump(target)]]
    {
      if !terminated {
        Ins(Jump(target));
        terminated := true;
      }
    }

    /** With a merge block, jump to it; without one, return zero. */
    method EnsureTerminated(merge: Option<nat>)
      requires Valid()
      modifies this`blocks, this`terminated, this`next
      ensures Valid() && terminated
      ensures old(terminated) ==> blocks == old(blocks) && next == old(next)
      ensures !old(terminated) && merge.Some? ==>
                next == old(next) && blocks == old(blocks)[cur := old(blocks[cur]) + [Jump(merge.value)]]
      ensures !old(terminated) && merge.None? ==>
                next == old(next) + 1 &&
                blocks == old(blocks)[cur := old(blocks[cur]) + [Iconst(old(next), 0), Ret(old(next))]]
    {
      if !terminated {
        if merge.Some? {
          EmitJump(merge.value);
        } else {
          var zero := Fresh();
          Ins(Iconst(zero, 0));
          EmitReturn(zero);
          assert old(blocks[cur]) + [Iconst(zero, 0)] + [Ret(zero)] == old(blocks[cur]) + [Iconst(zero, 0), Ret(zero)];
        }
      }
    }
  }

  // ----- expressions -----

  /** Read one expression, then generate it: what `EmitExpr` does in one pass. */
  function ExprSpec(c: Ctx, vars: Vars, d: seq<Byte>, pos: nat, n: nat): (r: Option<(Code, nat)>)
    requires pos <= |d|
    ensures r.Some? ==> pos < r.value.1 <= |d|
  {
    var (e, p) :- ParseExpr(d, pos);
    var k :- GenExpr(c, vars, e, n);
    Some((k, p))
  }

  function ArgsSpec(c: Ctx, vars: Vars, d: seq<Byte>, pos: nat, count: nat, n: nat): Option<(Codes, nat)>
    requires pos <= |d|
  {
    var (es, p) :- ParseArgs(d, pos, count);
    var a :- GenArgs(c, vars, es, n);
    Some((a, p))
  }

  function AppSpec(c: Ctx, vars: Vars, tail: bool, d: seq<Byte>, pos: nat, n: nat): Option<(Code, nat)>
    requires pos <= |d|
  {
    var (e, p) :- ParseApp(d, pos);
    var a :- GenArgs(c, vars, e.args, n);
    if !Permitted(c, e.callee) then None
    else
      var k :- if tail then GenTailApp(e.callee, a) else GenApp(e.callee, a);
      Some((k, p))
  }

  /** Prepends code already emitted to the code of the remaining arguments. */
  function Glue(done: Codes, rest: Option<(Codes, nat)>): Option<(Codes, nat)> {
    var (a, p) :- rest;
    Some((Codes(done.ins + a.ins, done.vals + a.vals, a.next), p))
  }

  lemma ArgsStep(c: Ctx, vars: Vars, d: seq<Byte>, pos: nat, count: nat, n: nat)
    requires pos <= |d| && count > 0
    ensures ArgsSpec(c, vars, d, pos, count, n) ==
            (var x := ExprSpec(c, vars, d, pos, n);
             if x.None? then None
             else Glue(Codes(x.value.0.ins, [x.value.0.val], x.value.0.next),
                       ArgsSpec(c, vars, d, x.value.1, count - 1, x.value.0.next)))
  {
    hide ParseExpr, GenExpr;
  }

  lemma GlueGlue(done: Codes, more: Codes, rest: Option<(Codes, nat)>)
    ensures Glue(done, Glue(more, rest)) == Glue(Codes(done.ins + more.ins, done.vals + more.vals, more.next), rest)
  {
    if rest.Some? {
      assert done.ins + (more.ins + rest.value.0.ins) == done.ins + more.ins + rest.value.0.ins;
      assert done.vals + (more.vals + rest.value.0.vals) == done.vals + more.vals + rest.value.0.vals;
    }
  }

  lemma GlueNil(a: Codes, p: nat)
    ensures Glue(a, Some((Codes([], [], a.next), p))) == Some((a, p))
  {
    assert a.ins + [] == a.ins && a.vals + [] == a.vals;
  }

  lemma GlueFront(n: nat, rest: Option<(Codes, nat)>)
    ensures Glue(Codes([], [], n), rest) == rest
  {
    if rest.Some? {
      assert [] + rest.value.0.ins == rest.value.0.ins && [] + rest.value.0.vals == rest.value.0.vals;
    }
  }

  lemma EmitEmit(g: Gen, a: seq<Instr>, n: nat, b: seq<Instr>, m: nat)
    ensures g.Emit(a, n).Emit(b, m) == g.Emit(a + b, m)
  {
    assert g.blocks[g.cur] + a + b == g.blocks[g.cur] + (a + b);
  }

  /** The manager after emitting `ins` from state `g`. */
  ghost predicate Emitted(mgr: BlockManager, m: Vars, g: GenState, ins: seq<Instr>, next: nat)
    reads mgr
  {
    g.cur < |g.blocks| && mgr.State(m) == g.Emit(ins, next)
  }

  /** What an expression emission from state `g` leaves behind, by its specification. */
  ghost predicate ExprDone(reader: CpsReader, mgr: BlockManager, m: Vars, g: GenState, spec: Option<(Code, nat)>, r: Option<nat>)
    reads reader, mgr
  {
    && reader.Valid() && mgr.Valid()
    && (r.Some? <==> spec.Some?)
    && (r.Some? ==> r.value == spec.value.0.val && reader.pos == spec.value.1 &&
                    Emitted(mgr, m, g, spec.value.0.ins, spec.value.0.next))
  }

  lemma AppOpcode(c: Ctx, vars: Vars, d: seq<Byte>, pos: nat, n: nat)
    requires pos < |d| && d[pos] == 0x04
    ensures ExprSpec(c, vars, d, pos, n) == AppSpec(c, vars, false, d, pos + 1, n)
  {
    hide ParseApp, GenApp, Permitted;
  }

  lemma BinaryOpcode(c: Ctx, vars: Vars, d: seq<Byte>, pos: nat, n: nat)
    requires pos < |d| && BinOpOf(d[pos]).Some?
    ensures ExprSpec(c, vars, d, pos, n) == BinarySpec(c, vars, BinOpOf(d[pos]).value, d, pos + 1, n)
  {
    hide GenBin;
    BinaryParse(d, pos);
    hide ParseExpr;
  }

  lemma BinaryParse(d: seq<Byte>, pos: nat)
    requires pos < |d| && BinOpOf(d[pos]).Some?
    ensures ParseExpr(d, pos) ==
            (var a := ParseExpr(d, pos + 1);
             if a.None? then None
             else
               var b := ParseExpr(d, a.value.1);
               if b.None? then None else Some((Bin(BinOpOf(d[pos]).value, a.value.0, b.value.0), b.value.1)))
  {
  }

  lemma UnaryOpcode(c: Ctx, vars: Vars, d: seq<Byte>, pos: nat, n: nat)
    requires pos < |d| && (d[pos] == 0x19 || d[pos] == 0x20)
    ensures ExprSpec(c, vars, d, pos, n) == UnarySpec(c, vars, d[pos] == 0x19, d, pos + 1, n)
  {
  }

  function BinarySpec(c: Ctx, vars: Vars, op: BinOp, d: seq<Byte>, pos: nat, n: nat): Option<(Code, nat)>
    requires pos <= |d|
  {
    var (x, p1) :- ExprSpec(c, vars, d, pos, n);
    var (y, p2) :- ExprSpec(c, vars, d, p1, x.next);
    Some((GenBin(op, x, y), p2))
  }

  function UnarySpec(c: Ctx, vars: Vars, not: bool, d: seq<Byte>, pos: nat, n: nat): Option<(Code, nat)>
    requires pos <= |d|
  {
    var (k, p) :- ExprSpec(c, vars, d, pos, n);
    Some((Code(k.ins + [if not then Bnot(k.next, k.val) else LoadI(k.next, k.val)], k.next, k.next + 1), p))
  }

  method EmitConst(mgr: BlockManager, w: Word) returns (v: nat)
    requires mgr.Valid()
    modifies mgr`blocks, mgr`next
    ensures mgr.Valid() && v == old(mgr.next) && mgr.next == v + 1
    ensures mgr.blocks == old(mgr.blocks)[mgr.cur := old(mgr.blocks[mgr.cur]) + [Iconst(v, w)]]
  {
    v := mgr.Fresh();
    mgr.Ins(Iconst(v, w));
  }

  method EmitExpr(reader: CpsReader, mgr: BlockManager, vars: VarMap, c: Ctx) returns (r: Option<nat>)
    requires reader.Valid() && mgr.Valid()
    modifies reader, mgr
    ensures ExprDone(reader, mgr, vars.m, old(mgr.State(vars.m)), ExprSpec(c, vars.m, reader.data, old(reader.pos), old(mgr.next)), r)
    decreases |reader.data| - reader.pos, 0
  {
    hide ExprSpec, AppSpec, BinarySpec, UnarySpec;
    var op := reader.ReadU8();
    if op.None? {
      EmptyInput(c, vars.m, reader.data, old(reader.pos), mgr.next);
      return None;
    }
    ghost var p := old(reader.pos);
    if op.value == 0x04 {
      AppOpcode(c, vars.m, reader.data, p, mgr.next);
      r := EmitApp(reader, mgr, vars, c, false);
    } else if BinOpOf(op.value).Some? {
      BinaryOpcode(c, vars.m, reader.data, p, mgr.next);
      r := EmitBinary(reader, mgr, vars, c, BinOpOf(op.value).value);
    } else if op.value == 0x19 || op.value == 0x20 {
      UnaryOpcode(c, vars.m, reader.data, p, mgr.next);
      r := EmitUnary(reader, mgr, vars, c, op.value == 0x19);
    } else {
      r := EmitLeaf(reader, mgr, vars, c, op.value);
    }
  }

  lemma EmptyInput(c: Ctx, vars: Vars, d: seq<Byte>, pos: nat, n: nat)
    requires pos == |d|
    ensures ExprSpec(c, vars, d, pos, n).None?
  {
  }

  method EmitApp(reader: CpsReader, mgr: BlockManager, vars: VarMap, c: Ctx, tail: bool) returns (r: Option<nat>)
    requires reader.Valid() && mgr.Valid()
    modifies reader, mgr
    ensures ExprDone(reader, mgr, vars.m, old(mgr.State(vars.m)), AppSpec(c, vars.m, tail, reader.data, old(reader.pos), old(mgr.next)), r)
    decreases |reader.data| - reader.pos, 1
  {
    hide ExprSpec, ArgsSpec, GenApp, GenTailApp, Permitted;
    ghost var g, m, d := mgr.State(vars.m), vars.m, reader.data;
    AppUnfold(c, m, tail, d, reader.pos, mgr.next);
    var f := reader.ReadString();
    if f.None? {
      return None;
    }
    var count := reader.ReadU32();
    if count.None? {
      return None;
    }
    ghost var p0 := reader.pos;
    ghost var done := Codes([], [], g.next);
    var args: seq<nat> := [];
    GlueFront(g.next, ArgsSpec(c, m, d, p0, count.value, g.next));
    assert g == g.Emit([], g.next) by { EmitNothing(g); }
    for i := 0 to count.value
      invariant reader.Valid() && mgr.Valid() && p0 <= reader.pos
      invariant mgr.State(m) == g.Emit(done.ins, done.next) && done.vals == args
      invariant ArgsSpec(c, m, d, p0, count.value, g.next) == Glue(done, ArgsSpec(c, m, d, reader.pos, count.value - i, done.next))
    {
      ghost var rest := count.value - i;
      ArgsStep(c, m, d, reader.pos, rest, done.next);
      ghost var x := ExprSpec(c, m, d, reader.pos, done.next);
      var v := EmitExpr(reader, mgr, vars, c);
      if v.None? {
        return None;
      }
      EmitEmit(g, done.ins, done.next, x.value.0.ins, x.value.0.next);
      ghost var more := Codes(x.value.0.ins, [v.value], x.value.0.next);
      GlueGlue(done, more, ArgsSpec(c, m, d, reader.pos, rest - 1, more.next));
      args := args + [v.value];
      done := Codes(done.ins + more.ins, done.vals + more.vals, more.next);
    }
    ArgsEnd(c, m, d, reader.pos, done.next);
    GlueNil(done, reader.pos);
    if !Permitted(c, f.value) {
      return None;
    }
    r := EmitCallKind(mgr, m, g, done, f.value, args, tail);
  }

  lemma EmitNothing(g: Gen)
    ensures g == g.Emit([], g.next)
  {
    assert g.blocks[g.cur] + [] == g.blocks[g.cur];
  }

  lemma ArgsEnd(c: Ctx, vars: Vars, d: seq<Byte>, pos: nat, n: nat)
    requires pos <= |d|
    ensures ArgsSpec(c, vars, d, pos, 0, n) == Some((Codes([], [], n), pos))
  {
  }

  lemma AppUnfold(c: Ctx, vars: Vars, tail: bool, d: seq<Byte>, pos: nat, n: nat)
    requires pos <= |d|
    ensures AppSpec(c, vars, tail, d, pos, n) ==
            (var f := CpsFormat.ReadString(d, pos);
             if f.None? then None
             else
               var k := CpsFormat.ReadU32(d, f.value.1);
               if k.None? then None
               else
                 var a := ArgsSpec(c, vars, d, k.value.1, k.value.0, n);
                 if a.None? || !Permitted(c, f.value.0) then None
                 else
                   var code := if tail then GenTailApp(f.value.0, a.value.0) else GenApp(f.value.0, a.value.0);
                   if code.None? then None else Some((code.value, a.value.1)))
  {
    hide Permitted, GenApp, GenTailApp, CpsFormat.ReadString, CpsFormat.ReadU32;
  }

  /** The code of a call whose arguments have been emitted, by kind of callee; the builtins
      index their argument vector, so too few arguments abort. */
  method EmitCallKind(mgr: BlockManager, ghost m: Vars, ghost g: GenState, ghost done: Codes, f: string, args: seq<nat>, tail: bool)
    returns (r: Option<nat>)
    requires mgr.Valid() && Emitted(mgr, m, g, done.ins, done.next) && done.vals == args
    modifies mgr
    ensures mgr.Valid()
    ensures var code := if tail then GenTailApp(f, done) else GenApp(f, done);
            && (r.Some? <==> code.Some?)
            && (r.Some? ==> r.value == code.value.val && Emitted(mgr, m, g, code.value.ins, code.value.next))
  {
    hide GenSlotGet, GenRecord, GenUnion;
    if IsSlotGet(f) {
      r := EmitSlotGet(mgr, m, g, done, args);
    } else if f == RECORD_NEW {
      r := EmitRecord(mgr, m, g, done, args);
    } else if f == UNION_NEW && !tail {
      r := EmitUnion(mgr, m, g, done, args);
    } else {
      var v := mgr.Fresh();
      mgr.Ins(CallI(v, f, args));
      EmitEmit(g, done.ins, done.next, [CallI(v, f, args)], v + 1);
      r := Some(v);
    }
  }

  method EmitSlotGet(mgr: BlockManager, ghost m: Vars, ghost g: GenState, ghost done: Codes, args: seq<nat>) returns (r: Option<nat>)
    requires mgr.Valid() && Emitted(mgr, m, g, done.ins, done.next) && done.vals == args
    modifies mgr
    ensures mgr.Valid() && (r.Some? <==> GenSlotGet(done).Some?)
    ensures r.Some? ==> r.value == GenSlotGet(done).value.val &&
                        Emitted(mgr, m, g, GenSlotGet(done).value.ins, GenSlotGet(done).value.next)
  {
    if |args| < 2 {
      return None;
    }
    var a := mgr.Fresh();
    mgr.Ins(Arith(a, Add, args[0], args[1]));
    EmitEmit(g, done.ins, done.next, [Arith(a, Add, args[0], args[1])], a + 1);
    var v := mgr.Fresh();
    mgr.Ins(LoadI(v, a));
    EmitEmit(g, done.ins + [Arith(a, Add, args[0], args[1])], a + 1, [LoadI(v, a)], v + 1);
    assert done.ins + [Arith(a, Add, args[0], args[1])] + [LoadI(v, a)] == done.ins + [Arith(a, Add, args[0], args[1]), LoadI(v, a)];
    r := Some(v);
  }

  /** Stores arguments from index `start` on, each at its eight-byte slot. */
  method EmitFields(mgr: BlockManager, ghost m: Vars, ghost g: GenState, ghost ins: seq<Instr>, args: seq<nat>, p: nat, start: nat)
    requires mgr.Valid() && Emitted(mgr, m, g, ins, mgr.next) && 1 <= start
    modifies mgr`blocks
    ensures mgr.Valid() && Emitted(mgr, m, g, ins + FieldStores(args, p, start), mgr.next)
  {
    ghost var done: seq<Instr> := [];
    assert ins + [] == ins && [] + FieldStores(args, p, start) == FieldStores(args, p, start);
    var i := start;
    while i < |args|
      invariant start <= i && mgr.Valid()
      invariant Emitted(mgr, m, g, ins + done, mgr.next)
      invariant done + FieldStores(args, p, i) == FieldStores(args, p, start)
      decreases |args| - i
    {
      var st := StoreI(args[i], p, Off32((i - 1) * 8));
      mgr.Ins(st);
      EmitEmit(g, ins + done, mgr.next, [st], mgr.next);
      assert ins + done + [st] == ins + (done + [st]);
      assert done + [st] + FieldStores(args, p, i + 1) == done + ([st] + FieldStores(args, p, i + 1));
      done := done + [st];
      i := i + 1;
    }
    assert done == FieldStores(args, p, start);
  }

  method EmitRecord(mgr: BlockManager, ghost m: Vars, ghost g: GenState, ghost done: Codes, args: seq<nat>) returns (r: Option<nat>)
    requires mgr.Valid() && Emitted(mgr, m, g, done.ins, done.next) && done.vals == args
    modifies mgr
    ensures mgr.Valid() && (r.Some? <==> GenRecord(done).Some?)
    ensures r.Some? ==> r.value == GenRecord(done).value.val &&
                        Emitted(mgr, m, g, GenRecord(done).value.ins, GenRecord(done).value.next)
  {
    if |args| < 1 {
      return None;
    }
    var p := mgr.Fresh();
    mgr.Ins(CallI(p, ALLOC, [args[0]]));
    EmitEmit(g, done.ins, done.next, [CallI(p, ALLOC, [args[0]])], p + 1);
    EmitFields(mgr, m, g, done.ins + [CallI(p, ALLOC, [args[0]])], args, p, 1);
    r := Some(p);
  }

  method EmitUnion(mgr: BlockManager, ghost m: Vars, ghost g: GenState, ghost done: Codes, args: seq<nat>) returns (r: Option<nat>)
    requires mgr.Valid() && Emitted(mgr, m, g, done.ins, done.next) && done.vals == args
    modifies mgr
    ensures mgr.Valid() && (r.Some? <==> GenUnion(done).Some?)
    ensures r.Some? ==> r.value == GenUnion(done).value.val &&
                        Emitted(mgr, m, g, GenUnion(done).value.ins, GenUnion(done).value.next)
  {
    if |args| < 2 {
      return None;
    }
    var p := mgr.Fresh();
    var call, tag := CallI(p, ALLOC, [args[0]]), StoreI(args[1], p, 0);
    mgr.Ins(call);
    EmitEmit(g, done.ins, done.next, [call], p + 1);
    mgr.Ins(tag);
    EmitEmit(g, done.ins + [call], p + 1, [tag], p + 1);
    assert done.ins + [call] + [tag] == done.ins + [call, tag];
    EmitFields(mgr, m, g, done.ins + [call, tag], args, p, 2);
    r := Some(p);
  }

  method EmitBinary(reader: CpsReader, mgr: BlockManager, vars: VarMap, c: Ctx, op: BinOp) returns (r: Option<nat>)
    requires reader.Valid() && mgr.Valid()
    modifies reader, mgr
    ensures ExprDone(reader, mgr, vars.m, old(mgr.State(vars.m)), BinarySpec(c, vars.m, op, reader.data, old(reader.pos), old(mgr.next)), r)
    decreases |reader.data| - reader.pos, 1
  {
    hide ExprSpec;
    ghost var g, m := mgr.State(vars.m), vars.m;
    var a := EmitExpr(reader, mgr, vars, c);
    if a.None? {
      return None;
    }
    var b := EmitExpr(reader, mgr, vars, c);
    if b.None? {
      return None;
    }
    ghost var x := ExprSpec(c, m, reader.data, old(reader.pos), g.next).value.0;
    ghost var y := ExprSpec(c, m, reader.data, ExprSpec(c, m, reader.data, old(reader.pos), g.next).value.1, x.next).value.0;
    EmitEmit(g, x.ins, x.next, y.ins, y.next);
    ghost var g2 := mgr.State(m);
    assert g2 == g.Emit(x.ins + y.ins, y.next);
    var v := mgr.Fresh();
    if op in {Add, Sub, Mul} {
      mgr.Ins(Arith(v, op, a.value, b.value));
      EmitEmit(g, x.ins + y.ins, y.next, [Arith(v, op, a.value, b.value)], v + 1);
      r := Some(v);
    } else {
      mgr.Ins(Icmp(v, op, a.value, b.value));
      var u := mgr.Fresh();
      mgr.Ins(Uextend(u, v));
      EmitEmit(g2, [Icmp(v, op, a.value, b.value)], v + 1, [Uextend(u, v)], u + 1);
      assert [Icmp(v, op, a.value, b.value)] + [Uextend(u, v)] == [Icmp(v, op, a.value, b.value), Uextend(u, v)];
      EmitEmit(g, x.ins + y.ins, y.next, [Icmp(v, op, a.value, b.value), Uextend(u, v)], u + 1);
      r := Some(u);
    }
  }

  method EmitUnary(reader: CpsReader, mgr: BlockManager, vars: VarMap, c: Ctx, not: bool) returns (r: Option<nat>)
    requires reader.Valid() && mgr.Valid()
    modifies reader, mgr
    ensures ExprDone(reader, mgr, vars.m, old(mgr.State(vars.m)), UnarySpec(c, vars.m, not, reader.data, old(reader.pos), old(mgr.next)), r)
    decreases |reader.data| - reader.pos, 1
  {
    hide ExprSpec;
    ghost var g, m := mgr.State(vars.m), vars.m;
    var a := EmitExpr(reader, mgr, vars, c);
    if a.None? {
      return None;
    }
    ghost var k := ExprSpec(c, m, reader.data, old(reader.pos), g.next).value.0;
    var v := mgr.Fresh();
    var i := if not then Bnot(v, a.value) else LoadI(v, a.value);
    mgr.Ins(i);
    EmitEmit(g, k.ins, k.next, [i], v + 1);
    r := Some(v);
  }

  /** Constants, variables and byte constants; any other opcode is unknown. */
  method EmitLeaf(reader: CpsReader, mgr: BlockManager, vars: VarMap, c: Ctx, op: Byte) returns (r: Option<nat>)
    requires reader.Valid() && mgr.Valid()
    requires 0 < reader.pos && reader.data[reader.pos - 1] == op && op != 0x04 && BinOpOf(op).None? && op != 0x19 && op != 0x20
    modifies reader, mgr
    ensures ExprDone(reader, mgr, vars.m, old(mgr.State(vars.m)), ExprSpec(c, vars.m, reader.data, old(reader.pos) - 1, old(mgr.next)), r)
  {
    LeafUnfold(c, vars.m, reader.data, reader.pos - 1, mgr.next);
    hide ExprSpec, GenText;
    if op == 0x01 {
      var w := reader.ReadI64();
      if w.None? {
        return None;
      }
      var v := EmitConst(mgr, w.value);
      r := Some(v);
    } else if op == 0x02 {
      var x := reader.ReadString();
      if x.None? || x.value !in vars.m {
        return None;
      }
      var v := mgr.Fresh();
      mgr.Ins(UseVar(v, vars.m[x.value]));
      r := Some(v);
    } else if op == 0x21 {
      var s := reader.ReadFramed();
      if s.None? {
        return None;
      }
      ghost var m := vars.m;
      var v := EmitText(mgr, m, s.value);
      r := Some(v);
    } else {
      r := None;
    }
  }

  lemma LeafUnfold(c: Ctx, vars: Vars, d: seq<Byte>, pos: nat, n: nat)
    requires pos < |d| && d[pos] != 0x04 && BinOpOf(d[pos]).None? && d[pos] != 0x19 && d[pos] != 0x20
    ensures ExprSpec(c, vars, d, pos, n) ==
            if d[pos] == 0x01 then
              var w := CpsFormat.ReadWord(d, pos + 1);
              if w.None? then None else Some((Code([Iconst(n, w.value.0)], n, n + 1), w.value.1))
            else if d[pos] == 0x02 then
              var x := CpsFormat.ReadString(d, pos + 1);
              if x.None? || x.value.0 !in vars then None
              else Some((Code([UseVar(n, vars[x.value.0])], n, n + 1), x.value.1))
            else if d[pos] == 0x21 then
              var s := CpsFormat.ReadFramed(d, pos + 1);
              if s.None? then None else Some((GenText(s.value.0, n), s.value.1))
            else None
  {
    hide GenText, CpsFormat.ReadWord, CpsFormat.ReadString, CpsFormat.ReadFramed;
  }

  method EmitByte(mgr: BlockManager, ghost m: Vars, ghost g: GenState, ghost ins: seq<Instr>, b: Byte, p: nat, off: int)
    requires mgr.Valid() && Emitted(mgr, m, g, ins, mgr.next)
    modifies mgr
    ensures mgr.Valid() && mgr.next == old(mgr.next) + 1
    ensures Emitted(mgr, m, g, ins + [Iconst(old(mgr.next), b), Store8(old(mgr.next), p, off)], mgr.next)
  {
    var v := EmitConst(mgr, b);
    EmitEmit(g, ins, v, [Iconst(v, b)], v + 1);
    mgr.Ins(Store8(v, p, off));
    EmitEmit(g, ins + [Iconst(v, b)], v + 1, [Store8(v, p, off)], v + 1);
    assert ins + [Iconst(v, b)] + [Store8(v, p, off)] == ins + [Iconst(v, b), Store8(v, p, off)];
  }

  /** Byte stores from index 0, one fresh constant each. */
  method EmitTextStores(mgr: BlockManager, ghost m: Vars, ghost g: GenState, ghost ins: seq<Instr>, s: seq<Byte>, p: nat)
    requires mgr.Valid() && Emitted(mgr, m, g, ins, mgr.next)
    modifies mgr
    ensures mgr.Valid() && mgr.next == old(mgr.next) + |s|
    ensures Emitted(mgr, m, g, ins + TextStores(s, p, 0, old(mgr.next)), mgr.next)
  {
    hide Emitted, TextStores;
    ghost var done: seq<Instr>, n0 := [], mgr.next;
    assert ins + [] == ins && [] + TextStores(s, p, 0, n0) == TextStores(s, p, 0, n0);
    for i := 0 to |s|
      invariant mgr.Valid() && mgr.next == n0 + i
      invariant Emitted(mgr, m, g, ins + done, mgr.next)
      invariant done + TextStores(s, p, i, n0 + i) == TextStores(s, p, 0, n0)
    {
      ghost var v := mgr.next;
      ghost var two := [Iconst(v, s[i]), Store8(v, p, Off32(i))];
      TextStep(s, p, i, v);
      EmitByte(mgr, m, g, ins + done, s[i], p, Off32(i));
      assert ins + done + two == ins + (done + two);
      assert done + two + TextStores(s, p, i + 1, n0 + i + 1) == done + (two + TextStores(s, p, i + 1, n0 + i + 1));
      done := done + two;
    }
    TextStep(s, p, |s|, n0 + |s|);
    assert done == TextStores(s, p, 0, n0);
  }

  lemma TextStep(s: seq<Byte>, p: nat, i: nat, n: nat)
    ensures i < |s| ==> TextStores(s, p, i, n) == [Iconst(n, s[i]), Store8(n, p, Off32(i))] + TextStores(s, p, i + 1, n + 1)
    ensures i >= |s| ==> TextStores(s, p, i, n) == []
  {
  }

  method EmitText(mgr: BlockManager, ghost m: Vars, s: seq<Byte>) returns (v: nat)
    requires mgr.Valid()
    modifies mgr
    ensures mgr.Valid() && v == GenText(s, old(mgr.next)).val
    ensures Emitted(mgr, m, old(mgr.State(m)), GenText(s, old(mgr.next)).ins, GenText(s, old(mgr.next)).next)
  {
    hide TextStores;
    ghost var g, n := mgr.State(m), mgr.next;
    var size := Wrap64(if |s| > 1 then |s| else 1);
    var a := EmitConst(mgr, size);
    var p := mgr.Fresh();
    mgr.Ins(CallI(p, ALLOC, [a]));
    EmitEmit(g, [Iconst(a, size)], a + 1, [CallI(p, ALLOC, [a])], p + 1);
    ghost var i0 := [Iconst(a, size), CallI(p, ALLOC, [a])];
    assert [Iconst(a, size)] + [CallI(p, ALLOC, [a])] == i0;
    EmitTextStores(mgr, m, g, i0, s, p);
    ghost var i1 := i0 + TextStores(s, p, 0, n + 2);
    v := EmitSpan(mgr, m, g, i1, p, Wrap64(|s|));
  }

  /** One instruction more. */
  method Push(mgr: BlockManager, ghost m: Vars, ghost g: GenState, ghost ins: seq<Instr>, i: Instr)
    requires mgr.Valid() && Emitted(mgr, m, g, ins, mgr.next)
    modifies mgr`blocks
    ensures mgr.Valid() && Emitted(mgr, m, g, ins + [i], mgr.next)
  {
    mgr.Ins(i);
    EmitEmit(g, ins, mgr.next, [i], mgr.next);
  }

  lemma Renumber(mgr: BlockManager, m: Vars, g: GenState, ins: seq<Instr>, n: nat)
    requires g.cur < |g.blocks| && mgr.State(m) == g.Emit(ins, n).(next := mgr.next)
    ensures Emitted(mgr, m, g, ins, mgr.next)
  {
  }

  method EmitSpan(mgr: BlockManager, ghost m: Vars, ghost g: GenState, ghost ins: seq<Instr>, p: nat, len: Word) returns (v: nat)
    requires mgr.Valid() && Emitted(mgr, m, g, ins, mgr.next)
    modifies mgr
    ensures mgr.Valid() && v == old(mgr.next) + 1
    ensures var q := old(mgr.next);
            Emitted(mgr, m, g, ins + [Iconst(q, 16), CallI(v, ALLOC, [q]), Iconst(q + 2, len), StoreI(p, v, 0), StoreI(q + 2, v, 8)], q + 3)
  {
    var q := mgr.Fresh();
    v := mgr.Fresh();
    var l := mgr.Fresh();
    Renumber(mgr, m, g, ins, q);
    hide Emitted;
    Push(mgr, m, g, ins, Iconst(q, 16));
    Push(mgr, m, g, ins + [Iconst(q, 16)], CallI(v, ALLOC, [q]));
    Push(mgr, m, g, ins + [Iconst(q, 16)] + [CallI(v, ALLOC, [q])], Iconst(l, len));
    ghost var i3 := ins + [Iconst(q, 16)] + [CallI(v, ALLOC, [q])] + [Iconst(l, len)];
    Push(mgr, m, g, i3, StoreI(p, v, 0));
    Push(mgr, m, g, i3 + [StoreI(p, v, 0)], StoreI(l, v, 8));
    assert i3 + [StoreI(p, v, 0)] + [StoreI(l, v, 8)] ==
           ins + [Iconst(q, 16), CallI(v, ALLOC, [q]), Iconst(l, len), StoreI(p, v, 0), StoreI(l, v, 8)];
  }

  // ----- statements -----

  /** Read a statement list to its end or first return, then generate it; in a terminated
      block nothing is read. */
  function StmtsSpec(c: Ctx, d: seq<Byte>, pos: nat, g: Gen): (r: Option<Gen>)
    requires pos <= |d|
    ensures r.Some? ==> |g.blocks| <= |r.value.blocks|
  {
    if g.terminated then Some(g) else
    var ss :- ParseStmts(d, pos);
    GenStmts(c, ss, g)
  }

  function StmtSpec(c: Ctx, d: seq<Byte>, pos: nat, g: Gen): (r: Option<(Gen, nat)>)
    requires pos < |d|
    ensures r.Some? ==> |g.blocks| <= |r.value.0.blocks| && pos < r.value.1 <= |d|
  {
    var (s, p) :- ParseStmt(d, pos);
    var g1 :- GenStmt(c, s, g);
    Some((g1, p))
  }

  /** A list goes on statement by statement until a return. */
  lemma StmtsStep(c: Ctx, d: seq<Byte>, pos: nat, g: Gen)
    requires pos < |d| && !g.terminated
    ensures StmtsSpec(c, d, pos, g) ==
            (var s := StmtSpec(c, d, pos, g);
             if s.None? then None
             else if d[pos] == 0x07 then Some(s.value.0)
             else StmtsSpec(c, d, s.value.1, s.value.0))
    ensures StmtSpec(c, d, pos, g).Some? ==> (d[pos] == 0x07 <==> StmtSpec(c, d, pos, g).value.0.terminated)
  {
    hide GenExpr, GenTest, GenResult, ParseBody, ParseExpr, ParseArms;
    var s := ParseStmt(d, pos);
    if s.Some? {
      assert s.value.0.Return? <==> d[pos] == 0x07;
      if GenStmt(c, s.value.0, g).Some? {
        var g1 := GenStmt(c, s.value.0, g).value;
        OpenAfter(c, s.value.0, g);
        assert GenStmts(c, Nil, g1) == Some(g1);
        assert GenStmts(c, Cons(s.value.0, Nil), g) == Some(g1);
      }
    }
  }

  lemma OpenAfter(c: Ctx, s: Stmt, g: Gen)
    requires !g.terminated && GenStmt(c, s, g).Some?
    ensures GenStmt(c, s, g).value.terminated <==> s.Return?
  {
    hide GenStmts, GenExpr, GenTest, GenResult, GenArms;
  }

  lemma NothingRead(c: Ctx, d: seq<Byte>, pos: nat, g: Gen)
    requires pos <= |d| && g.terminated
    ensures StmtsSpec(c, d, pos, g) == Some(g)
  {
  }

  lemma StmtsEnd(c: Ctx, d: seq<Byte>, g: Gen)
    ensures StmtsSpec(c, d, |d|, g) == Some(g)
  {
  }

  /** What a statement emission from state `g` leaves behind, by its specification. */
  ghost predicate StmtDone(reader: CpsReader, mgr: BlockManager, vars: VarMap, spec: Option<(Gen, nat)>, ok: bool)
    reads reader, mgr, vars
  {
    && reader.Valid() && mgr.Valid()
    && (ok <==> spec.Some?)
    && (ok ==> mgr.State(vars.m) == spec.value.0 && reader.pos == spec.value.1)
  }

  method EmitStmtList(reader: CpsReader, mgr: BlockManager, vars: VarMap, c: Ctx) returns (ok: bool)
    requires reader.Valid() && mgr.Valid()
    modifies reader, mgr, vars
    ensures mgr.Valid()
    ensures ok <==> StmtsSpec(c, reader.data, old(reader.pos), old(mgr.State(vars.m))).Some?
    ensures ok ==> mgr.State(vars.m) == StmtsSpec(c, reader.data, old(reader.pos), old(mgr.State(vars.m))).value
    decreases |reader.data| - reader.pos, 3
  {
    hide StmtsSpec, StmtSpec;
    ghost var spec := StmtsSpec(c, reader.data, reader.pos, mgr.State(vars.m));
    while reader.pos < |reader.data|
      invariant reader.Valid() && mgr.Valid()
      invariant spec == StmtsSpec(c, reader.data, reader.pos, mgr.State(vars.m))
      invariant |reader.data| - reader.pos <= |reader.data| - old(reader.pos)
      decreases |reader.data| - reader.pos
    {
      if mgr.terminated {
        NothingRead(c, reader.data, reader.pos, mgr.State(vars.m));
        return true;
      }
      StmtsStep(c, reader.data, reader.pos, mgr.State(vars.m));
      var op := reader.data[reader.pos];
      var good := EmitStmt(reader, mgr, vars, c);
      if !good {
        return false;
      }
      if op == 0x07 {
        return true;
      }
    }
    StmtsEnd(c, reader.data, mgr.State(vars.m));
    ok := true;
  }

  method EmitStmt(reader: CpsReader, mgr: BlockManager, vars: VarMap, c: Ctx) returns (ok: bool)
    requires reader.Valid() && mgr.Valid() && !mgr.terminated && reader.pos < |reader.data|
    modifies reader, mgr, vars
    ensures StmtDone(reader, mgr, vars, StmtSpec(c, reader.data, old(reader.pos), old(mgr.State(vars.m))), ok)
    decreases |reader.data| - reader.pos, 2
  {
    hide StmtSpec;
    var op := reader.PeekU8();
    if op == Some(0x08) {
      ok := EmitIf(reader, mgr, vars, c);
    } else if op == Some(0x09) {
      ok := EmitWhile(reader, mgr, vars, c);
    } else if op == Some(0x0A) {
      ok := EmitCase(reader, mgr, vars, c);
    } else if op == Some(0x07) {
      ok := EmitReturnStmt(reader, mgr, vars, c);
    } else if op == Some(0x03) {
      ok := EmitLet(reader, mgr, vars, c);
    } else if op == Some(0x30) {
      ok := EmitStore(reader, mgr, vars, c);
    } else {
      DiscardUnfold(c, reader.data, reader.pos, mgr.State(vars.m));
      var v := EmitExpr(reader, mgr, vars, c);
      ok := v.Some?;
    }
  }

  lemma DiscardUnfold(c: Ctx, d: seq<Byte>, pos: nat, g: Gen)
    requires pos < |d| && d[pos] !in [0x03, 0x07, 0x08, 0x09, 0x0A, 0x30]
    ensures StmtSpec(c, d, pos, g) ==
            (var k := ExprSpec(c, g.vars, d, pos, g.next);
             if k.None? then None else Some((g.Emit(k.value.0.ins, k.value.0.next), k.value.1)))
  {
    hide ParseExpr, GenExpr;
  }

  lemma ReturnUnfold(c: Ctx, d: seq<Byte>, pos: nat, g: Gen)
    requires pos < |d| && d[pos] == 0x07
    ensures StmtSpec(c, d, pos, g) ==
            (var k := if pos + 1 < |d| && d[pos + 1] == 0x04 then AppSpec(c, g.vars, true, d, pos + 2, g.next)
                      else ExprSpec(c, g.vars, d, pos + 1, g.next);
             if k.None? then None else Some((g.Close(k.value.0.ins + [Ret(k.value.0.val)], k.value.0.next), k.value.1)))
  {
    hide ParseApp, GenExpr, Permitted, GenTailApp;
    if pos + 1 < |d| && d[pos + 1] == 0x04 {
      assert ParseExpr(d, pos + 1) == ParseApp(d, pos + 2);
    } else {
      NotApp(d, pos + 1);
    }
  }

  lemma NotApp(d: seq<Byte>, pos: nat)
    requires pos <= |d| && (pos == |d| || d[pos] != 0x04)
    ensures ParseExpr(d, pos).Some? ==> !ParseExpr(d, pos).value.0.App?
  {
  }

  /** A return; a direct call takes the tail path. */
  method EmitReturnStmt(reader: CpsReader, mgr: BlockManager, vars: VarMap, c: Ctx) returns (ok: bool)
    requires reader.Valid() && mgr.Valid() && !mgr.terminated && reader.pos < |reader.data| && reader.data[reader.pos] == 0x07
    modifies reader, mgr
    ensures StmtDone(reader, mgr, vars, StmtSpec(c, reader.data, old(reader.pos), old(mgr.State(vars.m))), ok)
    decreases |reader.data| - reader.pos, 1
  {
    hide StmtSpec, ExprSpec, AppSpec;
    ghost var g: Gen := mgr.State(vars.m);
    ReturnUnfold(c, reader.data, reader.pos, g);
    var _ := reader.ReadU8();
    var op := reader.PeekU8();
    var v: Option<nat>;
    ghost var k;
    if op == Some(0x04) {
      var _ := reader.ReadU8();
      k := AppSpec(c, vars.m, true, reader.data, reader.pos, mgr.next);
      v := EmitApp(reader, mgr, vars, c, true);
    } else {
      k := ExprSpec(c, vars.m, reader.data, reader.pos, mgr.next);
      v := EmitExpr(reader, mgr, vars, c);
    }
    if v.None? {
      return false;
    }
    mgr.EmitReturn(v.value);
    EmitEmit(g, k.value.0.ins, k.value.0.next, [Ret(v.value)], k.value.0.next);
    ok := true;
  }

  lemma LetUnfold(c: Ctx, d: seq<Byte>, pos: nat, g: Gen)
    requires pos < |d| && d[pos] == 0x03
    ensures StmtSpec(c, d, pos, g) ==
            (var x := CpsFormat.ReadString(d, pos + 1);
             if x.None? then None
             else
               var k := ExprSpec(c, g.vars, d, x.value.1, g.next);
               if k.None? then None
               else Some((g.Emit(k.value.0.ins, k.value.0.next).Assign(x.value.0, k.value.0.val), k.value.1)))
  {
    hide ParseExpr, GenExpr;
  }

  method EmitLet(reader: CpsReader, mgr: BlockManager, vars: VarMap, c: Ctx) returns (ok: bool)
    requires reader.Valid() && mgr.Valid() && reader.pos < |reader.data| && reader.data[reader.pos] == 0x03
    modifies reader, mgr, vars
    ensures StmtDone(reader, mgr, vars, StmtSpec(c, reader.data, old(reader.pos), old(mgr.State(vars.m))), ok)
    decreases |reader.data| - reader.pos, 1
  {
    hide StmtSpec, ExprSpec;
    LetUnfold(c, reader.data, reader.pos, mgr.State(vars.m));
    var _ := reader.ReadU8();
    var x := reader.ReadString();
    if x.None? {
      return false;
    }
    var v := EmitExpr(reader, mgr, vars, c);
    if v.None? {
      return false;
    }
    var id: nat;
    if x.value in vars.m {
      id := vars.m[x.value];
    } else {
      id := mgr.nvars;
      mgr.nvars := mgr.nvars + 1;
      vars.m := vars.m[x.value := id];
    }
    mgr.Ins(DefVar(id, v.value));
    ok := true;
  }

  lemma StoreUnfold(c: Ctx, d: seq<Byte>, pos: nat, g: Gen)
    requires pos < |d| && d[pos] == 0x30
    ensures StmtSpec(c, d, pos, g) ==
            (var k := ExprSpec(c, g.vars, d, pos + 1, g.next);
             if k.None? then None
             else
               var l := ExprSpec(c, g.vars, d, k.value.1, k.value.0.next);
               if l.None? then None
               else Some((g.Emit(k.value.0.ins + l.value.0.ins + [StoreI(l.value.0.val, k.value.0.val, 0)], l.value.0.next), l.value.1)))
  {
    hide ParseExpr, GenExpr;
  }

  method EmitStore(reader: CpsReader, mgr: BlockManager, vars: VarMap, c: Ctx) returns (ok: bool)
    requires reader.Valid() && mgr.Valid() && reader.pos < |reader.data| && reader.data[reader.pos] == 0x30
    modifies reader, mgr
    ensures StmtDone(reader, mgr, vars, StmtSpec(c, reader.data, old(reader.pos), old(mgr.State(vars.m))), ok)
    decreases |reader.data| - reader.pos, 1
  {
    hide StmtSpec, ExprSpec;
    ghost var g: Gen, d := mgr.State(vars.m), reader.data;
    StoreUnfold(c, d, reader.pos, g);
    var _ := reader.ReadU8();
    ghost var k := ExprSpec(c, vars.m, d, reader.pos, g.next);
    var p := EmitExpr(reader, mgr, vars, c);
    if p.None? {
      return false;
    }
    ghost var l := ExprSpec(c, vars.m, d, reader.pos, mgr.next);
    var v := EmitExpr(reader, mgr, vars, c);
    if v.None? {
      return false;
    }
    EmitEmit(g, k.value.0.ins, k.value.0.next, l.value.0.ins, l.value.0.next);
    mgr.Ins(StoreI(v.value, p.value, 0));
    EmitEmit(g, k.value.0.ins + l.value.0.ins, l.value.0.next, [StoreI(v.value, p.value, 0)], l.value.0.next);
    ok := true;
  }

  // ----- if, while and case -----

  function TestCode(k: Code): Code {
    Code(k.ins + [Iconst(k.next, 0), Icmp(k.next + 1, Ne, k.val, k.next)], k.next + 1, k.next + 2)
  }

  function TestSpec(c: Ctx, vars: Vars, d: seq<Byte>, pos: nat, n: nat): (r: Option<(Code, nat)>)
    requires pos <= |d|
    ensures r.Some? ==> pos < r.value.1 <= |d|
  {
    var (k, p) :- ExprSpec(c, vars, d, pos, n);
    Some((TestCode(k), p))
  }

  /** A condition, compared with zero. */
  method EmitTest(reader: CpsReader, mgr: BlockManager, vars: VarMap, c: Ctx) returns (r: Option<nat>)
    requires reader.Valid() && mgr.Valid()
    modifies reader, mgr
    ensures ExprDone(reader, mgr, vars.m, old(mgr.State(vars.m)), TestSpec(c, vars.m, reader.data, old(reader.pos), old(mgr.next)), r)
    decreases |reader.data| - reader.pos, 1
  {
    hide ExprSpec;
    ghost var g, k := mgr.State(vars.m), ExprSpec(c, vars.m, reader.data, reader.pos, mgr.next);
    var v := EmitExpr(reader, mgr, vars, c);
    if v.None? {
      return None;
    }
    var zero := EmitConst(mgr, 0);
    EmitEmit(g, k.value.0.ins, zero, [Iconst(zero, 0)], zero + 1);
    var t := mgr.Fresh();
    mgr.Ins(Icmp(t, Ne, v.value, zero));
    EmitEmit(g, k.value.0.ins + [Iconst(zero, 0)], zero + 1, [Icmp(t, Ne, v.value, zero)], t + 1);
    assert k.value.0.ins + [Iconst(zero, 0)] + [Icmp(t, Ne, v.value, zero)] ==
           k.value.0.ins + [Iconst(zero, 0), Icmp(t, Ne, v.value, zero)];
    r := Some(t);
  }

  /** Creates `n` blocks and then ends the current one with `t`: the order in which the
      compiler works, and the one in which the generated state is described. */
  lemma CreateAfter(g: Gen, ins: seq<Instr>, next: nat, n: nat, t: Instr)
    ensures g.Emit(ins, next).Create(n).Emit([t], next).(terminated := true) == g.Create(n).Close(ins + [t], next)
  {
    var h: Gen := g.Create(n);
    assert h.blocks[g.cur] == g.blocks[g.cur];
    assert g.Emit(ins, next).Create(n).blocks == h.Emit(ins, next).blocks;
    assert g.blocks[g.cur] + ins + [t] == g.blocks[g.cur] + (ins + [t]);
  }

  method CreateBlocks(mgr: BlockManager, n: nat) returns (b: nat)
    requires mgr.Valid()
    modifies mgr`blocks
    ensures mgr.Valid() && b == |old(mgr.blocks)|
    ensures mgr.blocks == old(mgr.blocks) + Empties(n)
  {
    b := |mgr.blocks|;
    for i := 0 to n
      invariant mgr.Valid() && mgr.blocks == old(mgr.blocks) + Empties(i)
    {
      var _ := mgr.CreateBlock();
      assert Empties(i) + [[]] == Empties(i + 1);
    }
  }

  /** Ends the current block in a branch on `cond` to the first two of `n` new blocks and enters the first. */
  method OpenBranch(mgr: BlockManager, ghost m: Vars, ghost g: GenState, ghost ins: seq<Instr>, cond: nat, n: nat) returns (b: nat)
    requires mgr.Valid() && Emitted(mgr, m, g, ins, mgr.next) && !mgr.terminated && n >= 2
    modifies mgr
    ensures mgr.Valid() && !mgr.terminated && b == |g.blocks| && |mgr.blocks| == b + n && mgr.next == old(mgr.next)
    ensures mgr.State(m) == g.Create(n).Close(ins + [Brif(cond, b, b + 1)], mgr.next).Switch(b)
  {
    b := CreateBlocks(mgr, n);
    mgr.Ins(Brif(cond, b, b + 1));
    CreateAfter(g, ins, mgr.next, n, Brif(cond, b, b + 1));
    mgr.SwitchToBlock(b);
  }

  /** A framed list in its own reader, ended by a jump to `merge`; then `enter` is entered. */
  method EmitArm(bytes: seq<Byte>, mgr: BlockManager, vars: VarMap, c: Ctx, merge: nat, enter: nat) returns (ok: bool)
    requires mgr.Valid() && merge < |mgr.blocks| && enter < |mgr.blocks|
    modifies mgr, vars
    ensures mgr.Valid()
    ensures var spec := StmtsSpec(c, bytes, 0, old(mgr.State(vars.m)));
            && (ok <==> spec.Some?)
            && (ok ==> mgr.State(vars.m) == spec.value.EndWith(merge).Switch(enter))
    decreases |bytes|, 4
  {
    hide StmtsSpec;
    var inner := new CpsReader(bytes);
    ok := EmitStmtList(inner, mgr, vars, c);
    if ok {
      mgr.EnsureTerminated(Some(merge));
      mgr.SwitchToBlock(enter);
    }
  }

  function IfSpec(c: Ctx, d: seq<Byte>, pos: nat, g: Gen): Option<(Gen, nat)>
    requires pos <= |d|
  {
    var n := |g.blocks|;
    var (k, p1) :- TestSpec(c, g.vars, d, pos, g.next);
    var (t, p2) :- CpsFormat.ReadFramed(d, p1);
    var (e, p3) :- CpsFormat.ReadFramed(d, p2);
    var g1: Gen := g.Create(3).Close(k.ins + [Brif(k.val, n, n + 1)], k.next).Switch(n);
    var g2 :- StmtsSpec(c, t, 0, g1);
    var g4 :- StmtsSpec(c, e, 0, g2.EndWith(n + 2).Switch(n + 1));
    Some((g4.EndWith(n + 2).Switch(n + 2), p3))
  }

  lemma IfUnfold(c: Ctx, d: seq<Byte>, pos: nat, g: Gen)
    requires pos < |d| && d[pos] == 0x08
    ensures StmtSpec(c, d, pos, g) == IfSpec(c, d, pos + 1, g)
  {
    hide ParseExpr, GenExpr, ParseStmts, GenStmts, CpsFormat.ReadFramed;
    var e := ParseExpr(d, pos + 1);
    if e.Some? {
      FrameIs(d, e.value.1);
      var t := ParseBody(d, e.value.1);
      if t.Some? {
        FrameIs(d, t.value.1);
        var f := ParseBody(d, t.value.1);
        if f.Some? {
          assert StmtSpec(c, d, pos, g).Some? <==> GenIf(c, If(e.value.0, t.value.0, f.value.0), g).Some?;
        }
      }
    }
  }

  /** A framed body is the list inside its frame. */
  lemma FrameIs(d: seq<Byte>, pos: nat)
    requires pos <= |d|
    ensures ParseBody(d, pos) ==
            (var f := CpsFormat.ReadFramed(d, pos);
             if f.None? then None
             else
               var ss := ParseStmts(f.value.0, 0);
               if ss.None? then None else Some((ss.value, f.value.1)))
  {
    hide ParseStmts, CpsFormat.ReadFramed;
  }

  method EmitIf(reader: CpsReader, mgr: BlockManager, vars: VarMap, c: Ctx) returns (ok: bool)
    requires reader.Valid() && mgr.Valid() && !mgr.terminated && reader.pos < |reader.data| && reader.data[reader.pos] == 0x08
    modifies reader, mgr, vars
    ensures StmtDone(reader, mgr, vars, StmtSpec(c, reader.data, old(reader.pos), old(mgr.State(vars.m))), ok)
    decreases |reader.data| - reader.pos, 1
  {
    hide StmtSpec, TestSpec, StmtsSpec, CpsFormat.ReadFramed;
    ghost var g: Gen := mgr.State(vars.m);
    IfUnfold(c, reader.data, reader.pos, g);
    var _ := reader.ReadU8();
    ghost var k := TestSpec(c, vars.m, reader.data, reader.pos, mgr.next);
    var cond := EmitTest(reader, mgr, vars, c);
    if cond.None? {
      return false;
    }
    FrameShrinks(reader.data, reader.pos);
    var thenData := reader.ReadFramed();
    if thenData.None? {
      return false;
    }
    FrameShrinks(reader.data, reader.pos);
    var elseData := reader.ReadFramed();
    if elseData.None? {
      return false;
    }
    ghost var m := vars.m;
    var n := OpenBranch(mgr, m, g, k.value.0.ins, cond.value, 3);
    ok := EmitArm(thenData.value, mgr, vars, c, n + 2, n + 1);
    if ok {
      ok := EmitArm(elseData.value, mgr, vars, c, n + 2, n + 2);
    }
  }

  lemma FrameShrinks(d: seq<Byte>, pos: nat)
    ensures CpsFormat.ReadFramed(d, pos).Some? ==>
              |CpsFormat.ReadFramed(d, pos).value.0| + 4 + pos == CpsFormat.ReadFramed(d, pos).value.1 <= |d|
  {
  }

  /** Creates header, body and exit, jumps to the header and enters it. */
  method OpenLoop(mgr: BlockManager, ghost m: Vars) returns (n: nat)
    requires mgr.Valid() && !mgr.terminated
    modifies mgr
    ensures mgr.Valid() && !mgr.terminated && n == |old(mgr.blocks)| && |mgr.blocks| == n + 3
    ensures mgr.State(m) == old(mgr.State(m)).Create(3).EndWith(n).Switch(n)
  {
    n := CreateBlocks(mgr, 3);
    mgr.EmitJump(n);
    mgr.SwitchToBlock(n);
  }

  function WhileSpec(c: Ctx, d: seq<Byte>, pos: nat, g: Gen): Option<(Gen, nat)>
    requires pos <= |d|
  {
    var n := |g.blocks|;
    var g1: Gen := g.Create(3).EndWith(n).Switch(n);
    var (k, p1) :- TestSpec(c, g1.vars, d, pos, g1.next);
    var (b, p2) :- CpsFormat.ReadFramed(d, p1);
    var g2: Gen := g1.Close(k.ins + [Brif(k.val, n + 1, n + 2)], k.next).Switch(n + 1);
    var g3 :- StmtsSpec(c, b, 0, g2);
    Some((g3.EndWith(n).Switch(n + 2), p2))
  }

  lemma WhileUnfold(c: Ctx, d: seq<Byte>, pos: nat, g: Gen)
    requires pos < |d| && d[pos] == 0x09
    ensures StmtSpec(c, d, pos, g) == WhileSpec(c, d, pos + 1, g)
  {
    hide ParseExpr, GenExpr, ParseStmts, GenStmts, CpsFormat.ReadFramed;
    var e := ParseExpr(d, pos + 1);
    if e.Some? {
      FrameIs(d, e.value.1);
      var b := ParseBody(d, e.value.1);
      if b.Some? {
        assert StmtSpec(c, d, pos, g).Some? <==> GenWhile(c, While(e.value.0, b.value.0), g).Some?;
      }
    }
  }

  method EmitWhile(reader: CpsReader, mgr: BlockManager, vars: VarMap, c: Ctx) returns (ok: bool)
    requires reader.Valid() && mgr.Valid() && !mgr.terminated && reader.pos < |reader.data| && reader.data[reader.pos] == 0x09
    modifies reader, mgr, vars
    ensures StmtDone(reader, mgr, vars, StmtSpec(c, reader.data, old(reader.pos), old(mgr.State(vars.m))), ok)
    decreases |reader.data| - reader.pos, 1
  {
    hide StmtSpec, TestSpec, StmtsSpec, CpsFormat.ReadFramed;
    WhileUnfold(c, reader.data, reader.pos, mgr.State(vars.m));
    var _ := reader.ReadU8();
    ghost var m := vars.m;
    var n := OpenLoop(mgr, m);
    ghost var g1: Gen := mgr.State(vars.m);
    ghost var k := TestSpec(c, vars.m, reader.data, reader.pos, mgr.next);
    var cond := EmitTest(reader, mgr, vars, c);
    if cond.None? {
      return false;
    }
    FrameShrinks(reader.data, reader.pos);
    var body := reader.ReadFramed();
    if body.None? {
      return false;
    }
    mgr.Ins(Brif(cond.value, n + 1, n + 2));
    EmitEmit(g1, k.value.0.ins, k.value.0.next, [Brif(cond.value, n + 1, n + 2)], k.value.0.next);
    mgr.SwitchToBlock(n + 1);
    ok := EmitArm(body.value, mgr, vars, c, n, n + 2);
  }

  function ArmsSpec(c: Ctx, d: seq<Byte>, pos: nat, count: nat, v: nat, merge: nat, g: Gen): (r: Option<(Gen, nat)>)
    requires pos <= |d|
    ensures r.Some? ==> |g.blocks| <= |r.value.0.blocks| && pos <= r.value.1 <= |d|
  {
    var (arms, p) :- ParseArms(d, pos, count);
    var g1 :- GenArms(c, arms, v, merge, g);
    Some((g1, p))
  }

  function ArmSpec(c: Ctx, d: seq<Byte>, pos: nat, v: nat, merge: nat, g: Gen): (r: Option<(Gen, nat)>)
    requires pos <= |d| && merge < |g.blocks|
    ensures r.Some? ==> |g.blocks| < |r.value.0.blocks| && pos < r.value.1 <= |d|
  {
    var n, z := |g.blocks|, g.next;
    var (w, p1) :- CpsFormat.ReadWord(d, pos);
    var (b, p2) :- CpsFormat.ReadFramed(d, p1);
    var g1: Gen := g.Create(2).Close([Iconst(z, w), Icmp(z + 1, Eq, v, z), Brif(z + 1, n, n + 1)], z + 2).Switch(n);
    var g2 :- StmtsSpec(c, b, 0, g1);
    Some((g2.EndWith(merge).Switch(n + 1), p2))
  }

  lemma ArmsSpecStep(c: Ctx, d: seq<Byte>, pos: nat, count: nat, v: nat, merge: nat, g: Gen)
    requires pos <= |d| && count > 0 && merge < |g.blocks|
    ensures ArmsSpec(c, d, pos, count, v, merge, g) ==
            (var a := ArmSpec(c, d, pos, v, merge, g);
             if a.None? then None else ArmsSpec(c, d, a.value.1, count - 1, v, merge, a.value.0))
  {
    hide ParseStmts, GenStmts, CpsFormat.ReadFramed, CpsFormat.ReadWord;
    var w := CpsFormat.ReadWord(d, pos);
    if w.Some? {
      WordShrinks(d, pos);
      FrameIs(d, w.value.1);
    }
  }

  lemma ArmsSpecEnd(c: Ctx, d: seq<Byte>, pos: nat, v: nat, merge: nat, g: Gen)
    requires pos <= |d|
    ensures ArmsSpec(c, d, pos, 0, v, merge, g) == Some((g, pos))
  {
  }

  /** One comparison and its arm. */
  method EmitCaseArm(reader: CpsReader, mgr: BlockManager, vars: VarMap, c: Ctx, v: nat, merge: nat) returns (ok: bool)
    requires reader.Valid() && mgr.Valid() && !mgr.terminated && merge < |mgr.blocks|
    modifies reader, mgr, vars
    ensures StmtDone(reader, mgr, vars, ArmSpec(c, reader.data, old(reader.pos), v, merge, old(mgr.State(vars.m))), ok)
    decreases |reader.data| - reader.pos, 1
  {
    hide StmtsSpec, CpsFormat.ReadFramed, CpsFormat.ReadWord;
    ghost var g: Gen := mgr.State(vars.m);
    var w := reader.ReadI64();
    if w.None? {
      return false;
    }
    WordShrinks(reader.data, old(reader.pos));
    FrameShrinks(reader.data, reader.pos);
    var body := reader.ReadFramed();
    if body.None? {
      return false;
    }
    var z := EmitConst(mgr, w.value);
    var t := mgr.Fresh();
    mgr.Ins(Icmp(t, Eq, v, z));
    ghost var ins := [Iconst(z, w.value), Icmp(t, Eq, v, z)];
    EmitEmit(g, [Iconst(z, w.value)], z + 1, [Icmp(t, Eq, v, z)], t + 1);
    assert [Iconst(z, w.value)] + [Icmp(t, Eq, v, z)] == ins;
    ghost var m := vars.m;
    var n := OpenBranch(mgr, m, g, ins, t, 2);
    assert ins + [Brif(t, n, n + 1)] == [Iconst(z, w.value), Icmp(t, Eq, v, z), Brif(t, n, n + 1)];
    ok := EmitArm(body.value, mgr, vars, c, merge, n + 1);
  }

  lemma WordShrinks(d: seq<Byte>, pos: nat)
    ensures CpsFormat.ReadWord(d, pos).Some? ==> CpsFormat.ReadWord(d, pos).value.1 == pos + 8 <= |d|
  {
  }

  function CaseSpec(c: Ctx, d: seq<Byte>, pos: nat, g: Gen): Option<(Gen, nat)>
    requires pos <= |d|
  {
    var n := |g.blocks|;
    var (k, p1) :- ExprSpec(c, g.vars, d, pos, g.next);
    var (count, p2) :- CpsFormat.ReadU32(d, p1);
    var (g2, p3) :- ArmsSpec(c, d, p2, count, k.val, n, g.Emit(k.ins, k.next).Create(1));
    var (b, p4) :- CpsFormat.ReadFramed(d, p3);
    var g3 :- StmtsSpec(c, b, 0, g2);
    Some((g3.EndWith(n).Switch(n), p4))
  }

  lemma {:induction false} ArmsOpen(c: Ctx, arms: List<Arm>, v: nat, merge: nat, g: Gen)
    requires !g.terminated
    ensures GenArms(c, arms, v, merge, g).Some? ==> !GenArms(c, arms, v, merge, g).value.terminated
    decreases arms
  {
    hide GenStmts;
    if arms.Cons? {
      var n, z := |g.blocks|, g.next;
      var ins := [Iconst(z, arms.head.val), Icmp(z + 1, Eq, v, z), Brif(z + 1, n, n + 1)];
      var g2 := GenStmts(c, arms.head.body, g.Create(2).Close(ins, z + 2).Switch(n));
      if g2.Some? {
        ArmsOpen(c, arms.tail, v, merge, g2.value.EndWith(merge).Switch(n + 1));
      }
    }
  }

  lemma CaseUnfold(c: Ctx, d: seq<Byte>, pos: nat, g: Gen)
    requires pos < |d| && d[pos] == 0x0A && !g.terminated
    ensures StmtSpec(c, d, pos, g) == CaseSpec(c, d, pos + 1, g)
  {
    hide ParseExpr, GenExpr, ParseStmts, GenStmts, ParseArms, GenArms, CpsFormat.ReadFramed;
    var e := ParseExpr(d, pos + 1);
    if e.Some? {
      var n := CpsFormat.ReadU32(d, e.value.1);
      if n.Some? {
        var arms := ParseArms(d, n.value.1, n.value.0);
        if arms.Some? {
          FrameIs(d, arms.value.1);
          var k := GenExpr(c, g.vars, e.value.0, g.next);
          if k.Some? {
            ArmsOpen(c, arms.value.0, k.value.val, |g.blocks|, g.Emit(k.value.ins, k.value.next).Create(1));
          }
          var f := ParseBody(d, arms.value.1);
          if f.Some? {
            assert StmtSpec(c, d, pos, g).Some? <==> GenCase(c, Case(e.value.0, arms.value.0, f.value.0), g).Some?;
          }
        }
      }
    }
  }

  method EmitCase(reader: CpsReader, mgr: BlockManager, vars: VarMap, c: Ctx) returns (ok: bool)
    requires reader.Valid() && mgr.Valid() && !mgr.terminated && reader.pos < |reader.data| && reader.data[reader.pos] == 0x0A
    modifies reader, mgr, vars
    ensures StmtDone(reader, mgr, vars, StmtSpec(c, reader.data, old(reader.pos), old(mgr.State(vars.m))), ok)
    decreases |reader.data| - reader.pos, 1
  {
    hide StmtSpec, ExprSpec, StmtsSpec, ArmsSpec, ArmSpec, CpsFormat.ReadFramed;
    ghost var d := reader.data;
    CaseUnfold(c, d, reader.pos, mgr.State(vars.m));
    var _ := reader.ReadU8();
    var v := EmitExpr(reader, mgr, vars, c);
    if v.None? {
      return false;
    }
    var count := reader.ReadU32();
    if count.None? {
      return false;
    }
    var merge := CreateBlocks(mgr, 1);
    ghost var arms := ArmsSpec(c, d, reader.pos, count.value, v.value, merge, mgr.State(vars.m));
    for i := 0 to count.value
      invariant reader.Valid() && mgr.Valid() && !mgr.terminated && merge < |mgr.blocks| && old(reader.pos) < reader.pos
      invariant arms == ArmsSpec(c, d, reader.pos, count.value - i, v.value, merge, mgr.State(vars.m))
    {
      ArmsSpecStep(c, d, reader.pos, count.value - i, v.value, merge, mgr.State(vars.m));
      ArmOpen(c, d, reader.pos, v.value, merge, mgr.State(vars.m));
      var good := EmitCaseArm(reader, mgr, vars, c, v.value, merge);
      if !good {
        return false;
      }
    }
    ArmsSpecEnd(c, d, reader.pos, v.value, merge, mgr.State(vars.m));
    FrameShrinks(d, reader.pos);
    var dflt := reader.ReadFramed();
    if dflt.None? {
      return false;
    }
    ok := EmitArm(dflt.value, mgr, vars, c, merge, merge);
  }

  lemma ArmOpen(c: Ctx, d: seq<Byte>, pos: nat, v: nat, merge: nat, g: Gen)
    requires pos <= |d| && merge < |g.blocks|
    ensures ArmSpec(c, d, pos, v, merge, g).Some? ==> !ArmSpec(c, d, pos, v, merge, g).value.0.terminated
  {
    hide StmtsSpec;
  }

  // ----- functions and modules -----

  /** The entry block: one variable declared, defined and named for each parameter. */
  method EmitParams(mgr: BlockManager, vars: VarMap, ps: seq<string>)
    requires mgr.Valid() && mgr.cur == 0 && !mgr.terminated && mgr.entered == [0] && mgr.blocks == [[]]
    requires mgr.next == 0 && mgr.nvars == 0 && vars.m == map[]
    modifies mgr, vars
    ensures mgr.Valid() && !mgr.terminated && mgr.State(vars.m) == Entry(ps)
  {
    mgr.next := |ps|;
    for i := 0 to |ps|
      invariant mgr.Valid() && mgr.cur == 0 && !mgr.terminated && mgr.entered == [0]
      invariant mgr.next == |ps| && mgr.nvars == i
      invariant mgr.blocks == [ParamCode(i)] && vars.m == ParamVars(ps, i)
    {
      mgr.Ins(DefVar(i, i));
      assert ParamCode(i) + [DefVar(i, i)] == ParamCode(i + 1);
      vars.m := vars.m[ps[i] := mgr.nvars];
      mgr.nvars := mgr.nvars + 1;
    }
  }

  /** One function: parameters, body, and the implicit return of zero. */
  method CompileFunction(c: Ctx, h: Header) returns (r: Option<Gen>)
    ensures r == (var body := ParseStmts(h.body, 0);
                  if body.None? then None else GenFun(c, h.params, body.value))
  {
    hide ParseStmts, GenStmts, Entry;
    var mgr := new BlockManager();
    var vars := new VarMap();
    var entry := mgr.CreateBlock();
    mgr.SwitchToBlock(entry);
    EmitParams(mgr, vars, h.params);
    var reader := new CpsReader(h.body);
    var ok := EmitStmtList(reader, mgr, vars, c);
    if !ok {
      return None;
    }
    mgr.EnsureTerminated(None);
    r := Some(mgr.State(vars.m));
  }

  function Onto<T>(done: seq<T>, rest: Option<(seq<T>, nat)>): Option<(seq<T>, nat)> {
    var (s, p) :- rest;
    Some((done + s, p))
  }

  lemma OntoStep<T>(done: seq<T>, x: T, rest: Option<(seq<T>, nat)>)
    ensures Onto(done, Onto([x], rest)) == Onto(done + [x], rest)
  {
    if rest.Some? {
      assert done + ([x] + rest.value.0) == done + [x] + rest.value.0;
    }
  }

  method ReadParams(reader: CpsReader, n: nat) returns (r: Option<seq<string>>)
    requires reader.Valid()
    modifies reader
    ensures reader.Valid() && Pair(r, reader.pos) == ParseParams(reader.data, old(reader.pos), n)
  {
    hide CpsFormat.ReadString;
    var ps: seq<string> := [];
    ghost var whole := ParseParams(reader.data, reader.pos, n);
    assert whole.Some? ==> [] + whole.value.0 == whole.value.0;
    for i := 0 to n
      invariant reader.Valid() && whole == Onto(ps, ParseParams(reader.data, reader.pos, n - i))
    {
      ghost var p := reader.pos;
      var s := reader.ReadString();
      if s.None? {
        return None;
      }
      OntoStep(ps, s.value, ParseParams(reader.data, reader.pos, n - i - 1));
      ps := ps + [s.value];
    }
    assert ps + [] == ps;
    r := Some(ps);
  }

  method ReadHeader(reader: CpsReader) returns (r: Option<Header>)
    requires reader.Valid()
    modifies reader
    ensures reader.Valid() && Pair(r, reader.pos) == ParseHeader(reader.data, old(reader.pos))
  {
    hide CpsFormat.ReadString, CpsFormat.ReadFramed, ParseParams;
    var name := reader.ReadString();
    if name.None? {
      return None;
    }
    var n := reader.ReadU32();
    if n.None? {
      return None;
    }
    var params := ReadParams(reader, n.value);
    if params.None? {
      return None;
    }
    var ret := reader.ReadU8();
    if ret.None? {
      return None;
    }
    var body := reader.ReadFramed();
    if body.None? {
      return None;
    }
    r := Some(Header(name.value, params.value, ret.value, body.value));
  }

  /** The functions compiled so far, then those still to come. */
  ghost function Compiled(auth: Auth, name: string, gs: seq<Gen>, hs: seq<Header>): Option<seq<Gen>> {
    var rest := CompileFuns(auth, name, hs);
    if rest.None? then None else Some(gs + rest.value)
  }

  lemma CompiledStart(auth: Auth, name: string, hs: seq<Header>)
    ensures Compiled(auth, name, [], hs) == CompileFuns(auth, name, hs)
    ensures hs == [] ==> forall gs: seq<Gen> :: Compiled(auth, name, gs, hs) == Some(gs)
  {
    hide ParseStmts, GenFun;
    assert forall gs: seq<Gen> :: gs + [] == gs;
    var r := CompileFuns(auth, name, hs);
    assert r.Some? ==> [] + r.value == r.value;
  }

  lemma CompiledStep(auth: Auth, name: string, gs: seq<Gen>, hs: seq<Header>, g: Option<Gen>)
    requires hs != []
    requires g == (var body := ParseStmts(hs[0].body, 0);
                   if body.None? then None else GenFun(Ctx(auth, hs[0].name, name), hs[0].params, body.value))
    ensures Compiled(auth, name, gs, hs) == if g.None? then None else Compiled(auth, name, gs + [g.value], hs[1..])
  {
    hide ParseStmts, GenFun;
    var rest := CompileFuns(auth, name, hs[1..]);
    if g.Some? && rest.Some? {
      assert CompileFuns(auth, name, hs) == Some([g.value] + rest.value);
      assert gs + ([g.value] + rest.value) == gs + [g.value] + rest.value;
    }
  }

  /** `compile_cps_to_clif`: the whole table is read first, then each function is compiled. */
  method CompileCps(auth: Auth, data: seq<Byte>) returns (r: Option<seq<Gen>>)
    ensures r == CompileModule(auth, data)
  {
    hide ParseTable, ParseStmts, GenFun, Compiled, CompileFuns;
    var t := ReadTable(data);
    if t.None? {
      return None;
    }
    var name, hs, gs: seq<Gen> := t.value.moduleName, t.value.funs, [];
    assert hs[0..] == hs;
    CompiledStart(auth, name, hs);
    for i := 0 to |hs|
      invariant Compiled(auth, name, gs, hs[i..]) == CompileFuns(auth, name, hs)
    {
      assert hs[i..][0] == hs[i] && hs[i..][1..] == hs[i + 1..];
      var g := CompileFunction(Ctx(auth, hs[i].name, name), hs[i]);
      CompiledStep(auth, name, gs, hs[i..], g);
      if g.None? {
        return None;
      }
      gs := gs + [g.value];
    }
    CompiledStart(auth, name, hs[|hs|..]);
    r := Some(gs);
  }

  method ReadTable(data: seq<Byte>) returns (r: Option<Table>)
    ensures r == ParseTable(data)
  {
    hide CpsFormat.ReadString, ParseHeader;
    var reader := new CpsReader(data);
    var magic := reader.ReadU32();
    if magic.None? {
      return None;
    }
    var name := Some("");
    if magic.value == MAGIC2 {
      name := reader.ReadString();
    } else if magic.value != MAGIC1 {
      return None;
    }
    if name.None? {
      return None;
    }
    var n := reader.ReadU32();
    if n.None? {
      return None;
    }
    var hs: seq<Header> := [];
    ghost var whole := ParseHeaders(data, reader.pos, n.value);
    assert whole.Some? ==> [] + whole.value.0 == whole.value.0;
    for i := 0 to n.value
      invariant reader.Valid() && whole == Onto(hs, ParseHeaders(data, reader.pos, n.value - i))
    {
      var h := ReadHeader(reader);
      if h.None? {
        return None;
      }
      OntoStep(hs, h.value, ParseHeaders(data, reader.pos, n.value - i - 1));
      hs := hs + [h.value];
    }
    assert hs + [] == hs;
    r := Some(Table(name.value, hs));
  }
}
