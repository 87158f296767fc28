/** Listener dispatch over symbol events: waterfall, parallel and serial. */
module SymbolDispatch {
  import opened Util

  /** JSON values as the host reads them. */
  datatype Json = Null | Bool(b: bool) | Number(n: real) | Text(s: string) | Array(items: seq<Json>) | Object(fields: map<string, Json>)

  /** Error codes: a number, or a `UK-` code written as a string. */
  datatype Code = Num(n: nat) | Uk(n: nat)

  datatype Flow = Next | Deny(code: Code, name: string) | Ok(value: Json) | Err(kernelCode: nat, message: string)

  /**
   A listener over events `E` and kernel state `K`. `decide` may change the state and either
   owns the event with a flow or delegates; `after` runs when a delegated flow comes back,
   which is returned unchanged.
   */
  datatype Listener<!E, !K> = Listener(decide: (E, K) -> (Option<Flow>, K), after: (E, Flow, K) -> K)

  /** `on_symbol` with a continuation for the rest of the chain. */
  function OnSymbol<E, K>(l: Listener<E, K>, ev: E, next: K -> (Flow, K), k: K): (Flow, K) {
    var (own, k1) := l.decide(ev, k);
    match own
    case Some(f) => (f, k1)
    case None =>
      var (f, k2) := next(k1);
      (f, l.after(ev, f, k2))
  }

  function Waterfall<E, K>(ls: seq<Listener<E, K>>, i: nat, ev: E, k: K): (Flow, K)
    decreases |ls| - i
  {
    if i >= |ls| then (Next, k)
    else OnSymbol(ls[i], ev, (k1: K) => Waterfall(ls, i + 1, ev, k1), k)
  }

  /** The state in which listener `i` is asked, if all before it delegate. */
  function Asked<E, K>(ls: seq<Listener<E, K>>, i: nat, ev: E, k: K): K
    requires i <= |ls|
  {
    if i == 0 then k else ls[i - 1].decide(ev, Asked(ls, i - 1, ev, k)).1
  }

  ghost predicate Delegates<E, K>(ls: seq<Listener<E, K>>, i: nat, ev: E, k: K)
    requires i < |ls|
  {
    ls[i].decide(ev, Asked(ls, i, ev, k)).0.None?
  }

  lemma {:induction false} FlowFrom<E, K>(ls: seq<Listener<E, K>>, i: nat, j: nat, ev: E, k: K)
    requires i <= j <= |ls| && forall m | i <= m < j :: Delegates(ls, m, ev, k)
    ensures Waterfall(ls, i, ev, Asked(ls, i, ev, k)).0 == Waterfall(ls, j, ev, Asked(ls, j, ev, k)).0
    decreases j - i
  {
    if i < j {
      assert Delegates(ls, i, ev, k);
      FlowFrom(ls, i + 1, j, ev, k);
    }
  }

  /** The first owner's flow is the outcome. */
  lemma FirstOwnerWins<E, K>(ls: seq<Listener<E, K>>, j: nat, ev: E, k: K)
    requires j < |ls| && !Delegates(ls, j, ev, k) && forall m | 0 <= m < j :: Delegates(ls, m, ev, k)
    ensures Some(Waterfall(ls, 0, ev, k).0) == ls[j].decide(ev, Asked(ls, j, ev, k)).0
  {
    FlowFrom(ls, 0, j, ev, k);
  }

  lemma NobodyOwns<E, K>(ls: seq<Listener<E, K>>, ev: E, k: K)
    requires forall m | 0 <= m < |ls| :: Delegates(ls, m, ev, k)
    ensures Waterfall(ls, 0, ev, k).0 == Next
  {
    FlowFrom(ls, 0, |ls|, ev, k);
  }

  lemma {:induction false} SameAsked<E, K>(ls: seq<Listener<E, K>>, ms: seq<Listener<E, K>>, i: nat, j: nat, ev: E, k: K)
    requires i <= j < |ls| && j < |ms| && ls[..j + 1] == ms[..j + 1]
    ensures Asked(ls, i, ev, k) == Asked(ms, i, ev, k) && ls[i] == ms[i]
  {
    assert ls[..j + 1][i] == ms[..j + 1][i];
    if i > 0 {
      SameAsked(ls, ms, i - 1, j, ev, k);
    }
  }

  /** Nothing after the first owner runs: any other tail gives the same flow and the same state. */
  lemma {:induction false} NothingAfterOwner<E, K>(ls: seq<Listener<E, K>>, ms: seq<Listener<E, K>>, i: nat, j: nat, ev: E, k: K)
    requires i <= j < |ls| && j < |ms| && ls[..j + 1] == ms[..j + 1]
    requires !Delegates(ls, j, ev, k) && forall m | i <= m < j :: Delegates(ls, m, ev, k)
    ensures Waterfall(ls, i, ev, Asked(ls, i, ev, k)) == Waterfall(ms, i, ev, Asked(ls, i, ev, k))
    decreases j - i
  {
    SameAsked(ls, ms, i, j, ev, k);
    if i < j {
      assert Delegates(ls, i, ev, k);
      NothingAfterOwner(ls, ms, i + 1, j, ev, k);
    }
  }

  // ----- parallel and serial -----

  function Rank(f: Flow): nat {
    match f
    case Deny(_, _) => 3
    case Err(_, _) => 2
    case Ok(_) => 1
    case Next => 0
  }

  /** Any `on_symbol` at all: it may call its continuation any number of times, or not. */
  type Handler<!E, !K> = (E, K -> (Flow, K), K) -> (Flow, K)

  /** The flows of all listeners, each asked with a continuation that yields `Next`. */
  function Flows<E, K>(ls: seq<Handler<E, K>>, ev: E, k: K): (r: (seq<Flow>, K))
    ensures |r.0| == |ls|
    decreases |ls|
  {
    if ls == [] then ([], k)
    else
      var (f, k1) := ls[0](ev, (k': K) => (Next, k'), k);
      var (fs, k2) := Flows(ls[1..], ev, k1);
      ([f] + fs, k2)
  }

  /** `f` is the earliest flow of a kind. */
  ghost predicate Earliest(fs: seq<Flow>, f: Flow, kind: Flow -> bool) {
    exists i :: 0 <= i < |fs| && fs[i] == f && kind(f) && forall j | 0 <= j < i :: !kind(fs[j])
  }

  ghost predicate Holds(fs: seq<Flow>, kind: Flow -> bool) {
    exists i :: 0 <= i < |fs| && kind(fs[i])
  }

  /** A denial beats an error, an error beats a result, a result beats delegation; of one kind the
      earliest counts. */
  ghost predicate MostRestrictive(fs: seq<Flow>, outcome: Flow) {
    var deny, err, ok := (f: Flow) => f.Deny?, (f: Flow) => f.Err?, (f: Flow) => f.Ok?;
    if Holds(fs, deny) then Earliest(fs, outcome, deny)
    else if Holds(fs, err) then Earliest(fs, outcome, err)
    else if Holds(fs, ok) then Earliest(fs, outcome, ok)
    else outcome == Next
  }

  lemma HighestIsRestrictive(fs: seq<Flow>, outcome: Flow)
    requires forall i | 0 <= i < |fs| :: Rank(fs[i]) <= Rank(outcome)
    requires outcome == Next || exists i :: 0 <= i < |fs| && fs[i] == outcome && forall j | 0 <= j < i :: Rank(fs[j]) < Rank(outcome)
    ensures MostRestrictive(fs, outcome)
  {
    if outcome != Next {
      var i :| 0 <= i < |fs| && fs[i] == outcome && forall j | 0 <= j < i :: Rank(fs[j]) < Rank(outcome);
      assert forall j | 0 <= j < i :: (outcome.Deny? ==> !fs[j].Deny?) && (outcome.Err? ==> !fs[j].Err?) && (outcome.Ok? ==> !fs[j].Ok?);
    }
  }

  /** Asks all of them and keeps the first flow of the highest rank met. */
  method Parallel<E, K>(ls: seq<Handler<E, K>>, ev: E, k: K) returns (outcome: Flow, k': K)
    ensures k' == Flows(ls, ev, k).1
    ensures var fs := Flows(ls, ev, k).0;
            && (forall i | 0 <= i < |fs| :: Rank(fs[i]) <= Rank(outcome))
            && (outcome == Next || exists i :: 0 <= i < |fs| && fs[i] == outcome && forall j | 0 <= j < i :: Rank(fs[j]) < Rank(outcome))
            && MostRestrictive(fs, outcome)
  {
    outcome, k' := Next, k;
    ghost var fs := Flows(ls, ev, k).0;
    assert ls[0..] == ls && fs[0..] == fs;
    for n := 0 to |ls|
      invariant Flows(ls[n..], ev, k') == (fs[n..], Flows(ls, ev, k).1)
      invariant forall i | 0 <= i < n :: Rank(fs[i]) <= Rank(outcome)
      invariant outcome == Next || exists i :: 0 <= i < n && fs[i] == outcome && forall j | 0 <= j < i :: Rank(fs[j]) < Rank(outcome)
    {
      assert ls[n..][0] == ls[n] && ls[n..][1..] == ls[n + 1..] && fs[n..][0] == fs[n] && fs[n..][1..] == fs[n + 1..];
      var (flow, k1) := ls[n](ev, (q: K) => (Next, q), k');
      StepFlows(ls[n..], ev, k');
      k' := k1;
      if Rank(flow) > Rank(outcome) {
        outcome := flow;
        assert fs[n] == outcome && forall j | 0 <= j < n :: Rank(fs[j]) < Rank(outcome);
      }
    }
    HighestIsRestrictive(fs, outcome);
  }

  lemma StepFlows<E, K>(ls: seq<Handler<E, K>>, ev: E, k: K)
    requires ls != []
    ensures var (f, k1) := ls[0](ev, (q: K) => (Next, q), k);
            var (fs, k2) := Flows(ls, ev, k);
            f == fs[0] && Flows(ls[1..], ev, k1) == (fs[1..], k2)
  {
  }

  /** Asks all of them and keeps the latest flow that is not `Next`. */
  method Serial<E, K>(ls: seq<Handler<E, K>>, ev: E, k: K) returns (outcome: Flow, k': K)
    ensures k' == Flows(ls, ev, k).1
    ensures var fs := Flows(ls, ev, k).0;
            && (outcome == Next ==> forall i | 0 <= i < |fs| :: fs[i] == Next)
            && (outcome != Next ==> exists i :: 0 <= i < |fs| && fs[i] == outcome && forall j | i < j < |fs| :: fs[j] == Next)
  {
    outcome, k' := Next, k;
    ghost var fs := Flows(ls, ev, k).0;
    assert ls[0..] == ls && fs[0..] == fs;
    for n := 0 to |ls|
      invariant Flows(ls[n..], ev, k') == (fs[n..], Flows(ls, ev, k).1)
      invariant outcome == Next ==> forall i | 0 <= i < n :: fs[i] == Next
      invariant outcome != Next ==> exists i :: 0 <= i < n && fs[i] == outcome && forall j | i < j < n :: fs[j] == Next
    {
      assert ls[n..][0] == ls[n] && ls[n..][1..] == ls[n + 1..] && fs[n..][0] == fs[n] && fs[n..][1..] == fs[n + 1..];
      var (flow, k1) := ls[n](ev, (q: K) => (Next, q), k');
      StepFlows(ls[n..], ev, k');
      k' := k1;
      if flow != Next {
        outcome := flow;
        assert fs[n] == outcome;
      }
    }
  }
}
