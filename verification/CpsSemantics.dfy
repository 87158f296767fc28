/**
 The meaning of a byte-coded body: a direct interpreter over one flat environment that
 defaults to zero, with left-to-right evaluation and a bound on loop iterations.
 */
module CpsSemantics {
  import opened Util
  import opened Bytes
  import opened CpsFormat
  import opened CpsMachine

  type Env = map<string, Word>

  function Lookup(env: Env, x: string): Word {
    if x in env then env[x] else 0
  }

  predicate IsSlotGet(f: string) {
    f == "__slot_get" || f == "__ptr_slot_get"
  }

  const RECORD_NEW := "__record_new"
  const UNION_NEW := "__union_new"
  const ALLOC := "au_alloc"

  /** Fields from index `i` on, each at its eight-byte slot. */
  function StoreFields(h: Heap, p: Word, ws: seq<Word>, i: nat): Heap
    requires i >= 1
    decreases |ws| - i
  {
    if i >= |ws| then h
    else StoreFields(Store64(h, Offset(p, Off32((i - 1) * 8)), ws[i]), p, ws, i + 1)
  }

  /** A record or union: `ws[0]` is the size, the rest is stored slot by slot (a union's tag first). */
  function NewObject(o: Oracle, w: World, ws: seq<Word>): (Word, World)
    requires ws != []
  {
    var (p, w1) := CallOut(o, w, ALLOC, [ws[0]]);
    (p, w1.(heap := StoreFields(w1.heap, p, ws, 1)))
  }

  function StoreText(h: Heap, p: Word, s: seq<Byte>, i: nat): Heap
    decreases |s| - i
  {
    if i >= |s| then h
    else StoreText(Poke(h, Offset(p, Off32(i)), [s[i]]), p, s, i + 1)
  }

  /** A byte constant: its bytes in one object, a {data, size} span in another. */
  function NewSpan(o: Oracle, w: World, s: seq<Byte>): (Word, World) {
    var (p, w1) := CallOut(o, w, ALLOC, [Wrap64(if |s| > 1 then |s| else 1)]);
    var w2 := w1.(heap := StoreText(w1.heap, p, s, 0));
    var (q, w3) := CallOut(o, w2, ALLOC, [16]);
    (q, w3.(heap := Store64(Store64(w3.heap, Offset(q, 0), p), Offset(q, 8), Wrap64(|s|))))
  }

  /** A call on evaluated arguments; the allocation builtins and slot reads are inline. */
  function Apply(o: Oracle, w: World, f: string, ws: seq<Word>): (Word, World) {
    if IsSlotGet(f) && |ws| >= 2 then (Load64(w.heap, WordOp(Add, ws[0], ws[1])), w)
    else if f == RECORD_NEW && |ws| >= 1 then NewObject(o, w, ws)
    else if f == UNION_NEW && |ws| >= 2 then NewObject(o, w, ws)
    else CallOut(o, w, f, ws)
  }

  /** Slot reads load at the sum of their two arguments and call nothing. */
  lemma SlotNames(o: Oracle, w: World, f: string, ws: seq<Word>)
    requires (f == "__slot_get" || f == "__ptr_slot_get") && |ws| >= 2
    ensures Apply(o, w, f, ws) == (Load64(w.heap, WordOp(Add, ws[0], ws[1])), w)
  {
    hide Load64, NewObject;
  }

  /** Records and unions ask `au_alloc` for their size, and are called nothing else. */
  lemma ObjectNames(o: Oracle, w: World, f: string, ws: seq<Word>)
    requires (f == "__record_new" && |ws| >= 1) || (f == "__union_new" && |ws| >= 2)
    ensures var p := o(w, "au_alloc", [ws[0]]).0;
            Apply(o, w, f, ws).0 == p && Apply(o, w, f, ws).1.trace == w.trace + [Event("au_alloc", [ws[0]], p)]
  {
    hide Load64, StoreFields;
  }

  /** Every other name is called as it is, with all its arguments. */
  lemma OtherNames(o: Oracle, w: World, f: string, ws: seq<Word>)
    requires f !in {"__slot_get", "__ptr_slot_get", "__record_new", "__union_new"}
    ensures var (x, h) := o(w, f, ws); Apply(o, w, f, ws) == (x, World(h, w.trace + [Event(f, ws, x)]))
  {
    hide Load64, NewObject;
  }

  function Eval(o: Oracle, env: Env, e: Expr, w: World): (Word, World) {
    match e
    case Const(c) => (c, w)
    case Var(x) => (Lookup(env, x), w)
    case App(f, args) =>
      var (ws, w1) := EvalArgs(o, env, args, w);
      Apply(o, w1, f, ws)
    case Bin(op, a, b) =>
      var (x, w1) := Eval(o, env, a, w);
      var (y, w2) := Eval(o, env, b, w1);
      (WordOp(op, x, y), w2)
    case Not(a) =>
      var (x, w1) := Eval(o, env, a, w);
      (WordNot(x), w1)
    case Load(a) =>
      var (x, w1) := Eval(o, env, a, w);
      (Load64(w1.heap, x), w1)
    case Text(s) => NewSpan(o, w, s)
  }

  function EvalArgs(o: Oracle, env: Env, es: List<Expr>, w: World): (r: (seq<Word>, World))
    ensures |r.0| == Length(es)
  {
    match es
    case Nil => ([], w)
    case Cons(e, rest) =>
      var (x, w1) := Eval(o, env, e, w);
      var (xs, w2) := EvalArgs(o, env, rest, w1);
      ([x] + xs, w2)
  }

  /**
   The result of `return e`. The uniform reading evaluates `e`; the emitted reading differs
   for a direct `__union_new` call, which the tail path leaves to an ordinary call.
   */
  function EvalResult(o: Oracle, uniform: bool, env: Env, e: Expr, w: World): (Word, World) {
    if !uniform && e.App? && e.callee == UNION_NEW then
      var (ws, w1) := EvalArgs(o, env, e.args, w);
      CallOut(o, w1, UNION_NEW, ws)
    else Eval(o, env, e, w)
  }

  datatype State = State(env: Env, world: World)

  datatype Outcome = Timeout | Normal(st: State) | Returned(result: Word, world: World)

  function ChooseArm(arms: List<Arm>, dflt: List<Stmt>, v: Word): List<Stmt> {
    match arms
    case Nil => dflt
    case Cons(a, rest) => if a.val == v then a.body else ChooseArm(rest, dflt, v)
  }

  lemma {:induction false} ChosenIsSmaller(arms: List<Arm>, dflt: List<Stmt>, v: Word)
    ensures ChooseArm(arms, dflt, v) == dflt || ChooseArm(arms, dflt, v) < arms
  {
    match arms
    case Nil =>
    case Cons(a, rest) => ChosenIsSmaller(rest, dflt, v);
  }

  function Perform(o: Oracle, uniform: bool, fuel: nat, s: Stmt, st: State): Outcome
    decreases fuel, s, 0
  {
    match s
    case Return(e) =>
      var (x, w) := EvalResult(o, uniform, st.env, e, st.world);
      Returned(x, w)
    case If(c, t, e) =>
      var (x, w) := Eval(o, st.env, c, st.world);
      if x != 0 then PerformAll(o, uniform, fuel, t, st.(world := w))
      else PerformAll(o, uniform, fuel, e, st.(world := w))
    case While(c, b) =>
      if fuel == 0 then Timeout
      else
        var (x, w) := Eval(o, st.env, c, st.world);
        if x == 0 then Normal(st.(world := w))
        else
          var r := PerformAll(o, uniform, fuel - 1, b, st.(world := w));
          if r.Normal? then Perform(o, uniform, fuel - 1, s, r.st) else r
    case Case(c, arms, dflt) =>
      var (x, w) := Eval(o, st.env, c, st.world);
      ChosenIsSmaller(arms, dflt, x);
      PerformAll(o, uniform, fuel, ChooseArm(arms, dflt, x), st.(world := w))
    case Let(x, e) =>
      var (v, w) := Eval(o, st.env, e, st.world);
      Normal(State(st.env[x := v], w))
    case Store(p, e) =>
      var (a, w1) := Eval(o, st.env, p, st.world);
      var (v, w2) := Eval(o, st.env, e, w1);
      Normal(st.(world := w2.(heap := Store64(w2.heap, Offset(a, 0), v))))
    case Discard(e) =>
      var (_, w) := Eval(o, st.env, e, st.world);
      Normal(st.(world := w))
  }

  function PerformAll(o: Oracle, uniform: bool, fuel: nat, ss: List<Stmt>, st: State): Outcome
    decreases fuel, ss, 1
  {
    match ss
    case Nil => Normal(st)
    case Cons(s, rest) =>
      var r := Perform(o, uniform, fuel, s, st);
      if r.Normal? then PerformAll(o, uniform, fuel, rest, r.st) else r
  }

  function BindParams(ps: seq<string>, args: seq<Word>, n: nat): Env
    requires n <= |ps| && |ps| == |args|
  {
    if n == 0 then map[] else BindParams(ps, args, n - 1)[ps[n - 1] := args[n - 1]]
  }

  /** A whole function call: falling off the end returns zero. */
  function Interpret(o: Oracle, uniform: bool, fuel: nat, ps: seq<string>, body: List<Stmt>, args: seq<Word>, w: World): Outcome
    requires |ps| == |args|
  {
    var r := PerformAll(o, uniform, fuel, body, State(BindParams(ps, args, |ps|), w));
    if r.Normal? then Returned(0, r.st.world) else r
  }
}
