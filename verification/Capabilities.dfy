/**
 Linear capabilities: environments that are created, forked, dropped, saved into serializer
 buffers and restored from them. Saved environments are held as the very bytes written.
 */
module Capabilities {
  import opened Util
  import opened Bytes
  import opened Serialize

  datatype CapEnv = CapEnv(token: Token, namespace: Word)

  const EMPTY: CapEnv := CapEnv(Token(0, 0), 0)

  /** `ser_cap_env`: the token, then the namespace pointer. */
  function EncodeEnv(e: CapEnv): seq<Byte> {
    Encode(Linear(e.token)) + Encode(U64(e.namespace))
  }

  /** `des_cap_env`. */
  function DecodeEnv(s: seq<Byte>): Option<CapEnv> {
    var (t, p) :- Decode(TokenShape, s, 0);
    var (n, q) :- Decode(WordShape, s, p);
    if t.Linear? && n.U64? then Some(CapEnv(t.t, n.v)) else None
  }

  lemma EnvRoundTrip(e: CapEnv)
    ensures DecodeEnv(EncodeEnv(e)) == Some(e)
  {
    hide Decode, Encode;
    var items := [Linear(e.token), U64(e.namespace)];
    var a, b := Encode(items[0]), Encode(items[1]);
    DecodeOne([], items[0], b);
    assert [] + a + b == a + b;
    DecodeOne(a, items[1], []);
    assert a + b + [] == a + b;
  }

  /** The counter, every environment slot, and every serialized environment not yet restored. */
  datatype Caps = Caps(counter: nat, envs: seq<CapEnv>, saved: seq<Option<seq<Byte>>>)

  datatype Op =
    | Create(at: nat, namespace: Word, secret: Word)
    | Fork(parent: nat, at: nat, namespace: Word, secret: Word)
    | Drop(at: nat)
    | Save(at: nat)
    | Restore(buf: nat, at: nat)

  /** The slots an operation names exist. */
  predicate InRange(c: Caps, op: Op) {
    match op
    case Create(a, _, _) => a < |c.envs|
    case Fork(p, a, _, _) => p < |c.envs| && a < |c.envs|
    case Drop(a) => a < |c.envs|
    case Save(a) => a < |c.envs|
    case Restore(b, a) => b < |c.saved| && a < |c.envs|
  }

  /** One operation; none when the program exits (a consumed parent, or nothing left to restore). */
  function Apply(c: Caps, op: Op): Option<Caps>
    requires InRange(c, op)
  {
    match op
    case Create(a, ns, secret) =>
      Some(c.(counter := c.counter + 1, envs := c.envs[a := CapEnv(Token(Wrap64(c.counter), secret), ns)]))
    case Fork(p, a, ns, secret) =>
      if c.envs[p].token.id == 0 then None
      else Some(c.(envs := c.envs[p := EMPTY][a := CapEnv(Token(c.envs[p].token.id, secret), ns)]))
    case Drop(a) => Some(c.(envs := c.envs[a := EMPTY]))
    case Save(a) =>
      Some(c.(envs := c.envs[a := CapEnv(Token(0, 0), c.envs[a].namespace)], saved := c.saved + [Some(EncodeEnv(c.envs[a]))]))
    case Restore(b, a) =>
      var s :- c.saved[b];
      var e :- DecodeEnv(s);
      Some(c.(envs := c.envs[a := e], saved := c.saved[b := None]))
  }

  /** Creating and forking put an environment with the asked namespace and secret in the asked
      slot; a fork empties its parent, and no other slot changes. */
  lemma NewEnvironment(c: Caps, op: Op, j: nat)
    requires InRange(c, op) && Apply(c, op).Some? && j < |c.envs|
    ensures op.Fork? ==> c.envs[op.parent].token.id != 0
    ensures op.Create? ==>
              var d := Apply(c, op).value;
              && d.envs[op.at].namespace == op.namespace && d.envs[op.at].token.secret == op.secret
              && d.envs[op.at].token.id == c.counter % 0x1_0000_0000_0000_0000 && d.counter == c.counter + 1
              && (j != op.at ==> d.envs[j] == c.envs[j])
    ensures op.Fork? ==>
              var d := Apply(c, op).value;
              && d.envs[op.at].namespace == op.namespace && d.envs[op.at].token == Token(c.envs[op.parent].token.id, op.secret)
              && (op.parent != op.at ==> d.envs[op.parent] == CapEnv(Token(0, 0), 0))
              && (j != op.at && j != op.parent ==> d.envs[j] == c.envs[j])
    ensures op.Drop? ==> Apply(c, op).value.envs[op.at] == CapEnv(Token(0, 0), 0)
  {
    hide EncodeEnv, DecodeEnv;
  }

  /** The operations that stop: a fork without a token, and a restore of a buffer already used. */
  lemma StopsExactly(c: Caps, op: Op)
    requires InRange(c, op)
    ensures Apply(c, op).None? <==>
            || (op.Fork? && c.envs[op.parent].token.id == 0)
            || (op.Restore? && (c.saved[op.buf].None? || DecodeEnv(c.saved[op.buf].value).None?))
  {
    hide EncodeEnv, DecodeEnv;
  }

  // ----- ids by place -----

  function SavedId(s: Option<seq<Byte>>): Word {
    if s.None? || DecodeEnv(s.value).None? then 0 else DecodeEnv(s.value).value.token.id
  }

  /** The id held in each environment slot and in each unrestored buffer; zero where there is none. */
  function Ids(c: Caps): (r: seq<Word>)
    ensures |r| == |c.envs| + |c.saved|
  {
    seq(|c.envs|, i requires 0 <= i < |c.envs| => c.envs[i].token.id) +
    seq(|c.saved|, i requires 0 <= i < |c.saved| => SavedId(c.saved[i]))
  }

  ghost predicate Unique(ids: seq<Word>) {
    forall i, j | 0 <= i < |ids| && 0 <= j < |ids| && i != j && ids[i] != 0 :: ids[i] != ids[j]
  }

  ghost predicate Under(ids: seq<Word>, n: nat) {
    forall i | 0 <= i < |ids| :: ids[i] < n
  }

  /** No non-zero id is held in two live places, and every id came from the counter. */
  ghost predicate OnePlace(c: Caps) {
    Unique(Ids(c)) && Under(Ids(c), c.counter) && c.counter >= 1
  }

  lemma Clear(ids: seq<Word>, a: nat)
    requires Unique(ids) && a < |ids|
    ensures Unique(ids[a := 0])
  {
  }

  lemma Issue(ids: seq<Word>, a: nat, id: Word)
    requires Unique(ids) && Under(ids, id) && a < |ids|
    ensures Unique(ids[a := id])
  {
  }

  lemma Move(ids: seq<Word>, from: nat, to: nat)
    requires Unique(ids) && from < |ids| && to < |ids|
    ensures Unique(ids[from := 0][to := ids[from]])
  {
  }

  lemma Append(ids: seq<Word>, a: nat)
    requires Unique(ids) && a < |ids|
    ensures Unique(ids[a := 0] + [ids[a]])
  {
  }

  /** What an operation does to the ids. */
  lemma ApplyIds(c: Caps, op: Op)
    requires InRange(c, op) && Apply(c, op).Some?
    ensures var d, ids, n := Apply(c, op).value, Ids(c), |c.envs|;
            match op
            case Create(a, _, _) => Ids(d) == ids[a := Wrap64(c.counter)]
            case Fork(p, a, _, _) => Ids(d) == ids[p := 0][a := ids[p]]
            case Drop(a) => Ids(d) == ids[a := 0]
            case Save(a) => Ids(d) == ids[a := 0] + [ids[a]]
            case Restore(b, a) => Ids(d) == ids[n + b := 0][a := ids[n + b]]
  {
    hide DecodeEnv, EncodeEnv;
    var d, ids, n := Apply(c, op).value, Ids(c), |c.envs|;
    match op {
      case Create(a, _, _) => assert Ids(d) == ids[a := Wrap64(c.counter)];
      case Fork(p, a, _, _) => assert Ids(d) == ids[p := 0][a := ids[p]];
      case Drop(a) => assert Ids(d) == ids[a := 0];
      case Save(a) => SaveIds(c, a);
      case Restore(b, a) => RestoreIds(c, b, a);
    }
  }

  lemma SaveIds(c: Caps, a: nat)
    requires a < |c.envs|
    ensures Ids(Apply(c, Save(a)).value) == Ids(c)[a := 0] + [Ids(c)[a]]
  {
    EnvRoundTrip(c.envs[a]);
    hide DecodeEnv, EncodeEnv;
    assert Ids(Apply(c, Save(a)).value) == Ids(c)[a := 0] + [Ids(c)[a]];
  }

  lemma RestoreIds(c: Caps, b: nat, a: nat)
    requires InRange(c, Restore(b, a)) && Apply(c, Restore(b, a)).Some?
    ensures Ids(Apply(c, Restore(b, a)).value) == Ids(c)[|c.envs| + b := 0][a := Ids(c)[|c.envs| + b]]
  {
    hide DecodeEnv;
    assert Ids(Apply(c, Restore(b, a)).value) == Ids(c)[|c.envs| + b := 0][a := Ids(c)[|c.envs| + b]];
  }

  /** Every operation keeps every capability in one place; a creation needs a counter that has not passed 2^64. */
  lemma ApplyKeeps(c: Caps, op: Op)
    requires OnePlace(c) && InRange(c, op) && Apply(c, op).Some? && (op.Create? ==> c.counter <= TWO64)
    ensures OnePlace(Apply(c, op).value)
  {
    hide DecodeEnv, EncodeEnv, Unique, Ids;
    ApplyIds(c, op);
    match op {
      case Create(a, _, _) =>
        if c.counter < TWO64 {
          Issue(Ids(c), a, c.counter);
        } else {
          Clear(Ids(c), a);
        }
      case Fork(p, a, _, _) => Move(Ids(c), p, a);
      case Drop(a) => Clear(Ids(c), a);
      case Save(a) => Append(Ids(c), a);
      case Restore(b, a) => Move(Ids(c), |c.envs| + b, a);
    }
  }

  /** A run: operations applied in turn; it ends early when the program exits. */
  function Run(c: Caps, ops: seq<Op>): Option<Caps>
    decreases |ops|
  {
    if ops == [] then Some(c)
    else if !InRange(c, ops[0]) then None
    else
      var d :- Apply(c, ops[0]);
      Run(d, ops[1..])
  }

  function Creations(ops: seq<Op>): nat {
    if ops == [] then 0 else (if ops[0].Create? then 1 else 0) + Creations(ops[1..])
  }

  predicate Initial(c: Caps) {
    && c.counter == 1 && c.saved == []
    && forall i | 0 <= i < |c.envs| :: c.envs[i] == EMPTY
  }

  lemma {:induction false} RunKeeps(c: Caps, ops: seq<Op>)
    requires OnePlace(c) && Run(c, ops).Some? && c.counter + Creations(ops) <= TWO64 + 1
    ensures OnePlace(Run(c, ops).value)
    decreases |ops|
  {
    hide OnePlace;
    if ops != [] {
      ApplyKeeps(c, ops[0]);
      RunKeeps(Apply(c, ops[0]).value, ops[1..]);
    }
  }

  /**
   Over any run of create, fork, drop, save and restore with at most 2^64 creations, no
   non-zero capability id is held in two live places.
   */
  lemma Linearity(c: Caps, ops: seq<Op>)
    requires Initial(c) && Run(c, ops).Some? && Creations(ops) <= TWO64
    ensures Unique(Ids(Run(c, ops).value))
  {
    RunKeeps(c, ops);
  }

  /** `n` creations in slot 1. */
  function Creates(n: nat): seq<Op> {
    seq(n, i => Create(1, 0, 0))
  }

  /** The state after `n` creations in slot 1. */
  function AfterCreates(c: Caps, n: nat): Caps
    requires |c.envs| >= 2
  {
    if n == 0 then c
    else Caps(c.counter + n, c.envs[1 := CapEnv(Token(Wrap64(c.counter + n - 1), 0), 0)], c.saved)
  }

  lemma {:induction false} CreatesRun(c: Caps, n: nat)
    requires |c.envs| >= 2
    ensures Creations(Creates(n)) == n
    ensures Run(c, Creates(n)) == Some(AfterCreates(c, n))
    decreases n
  {
    if n > 0 {
      var ops := Creates(n);
      assert ops[0] == Create(1, 0, 0) && ops[1..] == Creates(n - 1);
      var d := Apply(c, ops[0]).value;
      CreatesRun(d, n - 1);
      assert AfterCreates(d, n - 1).envs == AfterCreates(c, n).envs;
    }
  }

  /** One creation in slot 0, then `n` in slot 1. */
  function OneThen(n: nat): seq<Op> {
    [Create(0, 0, 0)] + Creates(n)
  }

  lemma OneThenRun(c: Caps, n: nat)
    requires Initial(c) && |c.envs| >= 2 && n > 0
    ensures Creations(OneThen(n)) == n + 1 && Run(c, OneThen(n)).Some?
    ensures var d := Run(c, OneThen(n)).value;
            |d.envs| == |c.envs| && d.envs[0].token.id == 1 && d.envs[1].token.id == Wrap64(n + 1)
  {
    var ops := OneThen(n);
    assert ops[0] == Create(0, 0, 0) && ops[1..] == Creates(n);
    CreatesRun(Apply(c, ops[0]).value, n);
  }

  /** With n = 2^64 both slots end up holding id 1. */
  lemma CounterWraps(c: Caps)
    requires Initial(c) && |c.envs| >= 2
    ensures Creations(OneThen(TWO64)) == TWO64 + 1 && Run(c, OneThen(TWO64)).Some?
    ensures var d := Run(c, OneThen(TWO64)).value;
            |d.envs| >= 2 && d.envs[0].token.id == 1 && d.envs[1].token.id == 1 && !Unique(Ids(d))
  {
    hide Ids, Unique, Run, OneThen, Creations;
    OneThenRun(c, TWO64);
    HeldTwice(Run(c, OneThen(TWO64)).value);
  }

  lemma HeldTwice(d: Caps)
    requires |d.envs| >= 2 && d.envs[0].token.id == d.envs[1].token.id != 0
    ensures !Unique(Ids(d))
  {
    assert Ids(d)[0] == Ids(d)[1] != 0;
  }

  /** Every run of at most `n` creations keeps every id in one place. */
  ghost predicate AlwaysLinear(n: nat) {
    forall c, ops :: Initial(c) && Run(c, ops).Some? && Creations(ops) <= n ==> Unique(Ids(Run(c, ops).value))
  }

  /** 2^64 creations is the exact limit. */
  lemma LinearityExact(n: nat)
    ensures AlwaysLinear(n) <==> n <= TWO64
  {
    hide Unique, Ids, Run, Initial, Creations, OneThen;
    if n <= TWO64 {
      forall c, ops | Initial(c) && Run(c, ops).Some? && Creations(ops) <= n
        ensures Unique(Ids(Run(c, ops).value))
      {
        Linearity(c, ops);
      }
    } else {
      var c := Caps(1, [EMPTY, EMPTY], []);
      assert Initial(c) by { StartsEmpty(c); }
      CounterWraps(c);
    }
  }

  lemma StartsEmpty(c: Caps)
    requires c == Caps(1, [EMPTY, EMPTY], [])
    ensures Initial(c)
  {
  }

  // ----- in place -----

  /** The runtime's token counter and environments, updated in place. */
  class CapStore {
    var counter: nat
    var envs: seq<CapEnv>
    var saved: seq<Option<seq<Byte>>>

    function State(): Caps
      reads this
    {
      Caps(counter, envs, saved)
    }

    constructor (n: nat)
      ensures Initial(State()) && |envs| == n
    {
      counter, envs, saved := 1, seq(n, i => EMPTY), [];
    }

    method CreateEnv(a: nat, ns: Word, secret: Word)
      requires a < |envs|
      modifies this
      ensures Some(State()) == Apply(old(State()), Create(a, ns, secret))
    {
      var id := Wrap64(counter);
      counter := counter + 1;
      envs := envs[a := CapEnv(Token(id, secret), ns)];
    }

    /** Forking consumes the parent; forking a consumed one ends the program. */
    method ForkEnv(p: nat, a: nat, ns: Word, secret: Word) returns (ok: bool)
      requires p < |envs| && a < |envs|
      modifies this
      ensures ok ==> Some(State()) == Apply(old(State()), Fork(p, a, ns, secret))
      ensures !ok ==> Apply(old(State()), Fork(p, a, ns, secret)).None? && State() == old(State())
    {
      if envs[p].token.id == 0 {
        return false;
      }
      var child := CapEnv(Token(envs[p].token.id, secret), ns);
      envs := envs[p := EMPTY];
      envs := envs[a := child];
      ok := true;
    }

    method DropEnv(a: nat)
      requires a < |envs|
      modifies this
      ensures Some(State()) == Apply(old(State()), Drop(a))
    {
      envs := envs[a := EMPTY];
    }

    method SaveEnv(a: nat)
      requires a < |envs|
      modifies this
      ensures Some(State()) == Apply(old(State()), Save(a))
    {
      var e := envs[a];
      var ser := new Serializer(24);
      var _, left := ser.PutToken(e.token);
      var _ := ser.PutU64(e.namespace);
      assert ser.Written() == EncodeEnv(e);
      assert ser.buffer[..] == ser.buffer[..ser.pos];
      saved := saved + [Some(ser.buffer[..])];
      envs := envs[a := CapEnv(left, e.namespace)];
    }

    /** Restoring reads the buffer back once; a second restore, or a short buffer, fails. */
    method RestoreEnv(b: nat, a: nat) returns (ok: bool)
      requires b < |saved| && a < |envs|
      modifies this
      ensures ok ==> Some(State()) == Apply(old(State()), Restore(b, a))
      ensures !ok ==> Apply(old(State()), Restore(b, a)).None? && State() == old(State())
    {
      hide Decode, DecodeU64;
      if saved[b].None? {
        return false;
      }
      var des := new Deserializer(saved[b].value);
      var t := des.GetToken();
      if t.None? {
        return false;
      }
      ghost var p := des.pos;
      var n := des.GetU64();
      assert Decode(WordShape, des.buffer, p) == if n.Some? then Some((U64(n.value), des.pos)) else None by {
        DecodeWordIs(des.buffer, p);
      }
      if n.None? {
        return false;
      }
      envs := envs[a := CapEnv(t.value, n.value)];
      saved := saved[b := None];
      ok := true;
    }
  }

  lemma DecodeWordIs(s: seq<Byte>, p: nat)
    ensures Decode(WordShape, s, p) == match DecodeU64(s, p) { case None => None case Some((v, q)) => Some((U64(v), q)) }
  {
  }
}
