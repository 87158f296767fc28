/** What a loopback call is answered and whether it reaches the kernel, read off the call itself. */
module LoopbackCalls {
  import opened Util
  import opened SymbolDispatch
  import opened Loopback

  // ----- texts in the call -----

  /** `t` is the text under `key` in the first argument, or empty when there is none. */
  predicate Says(args: seq<Json>, key: string, t: string) {
    if args != [] && args[0].Object? && key in args[0].fields && args[0].fields[key].Text?
    then args[0].fields[key] == Text(t)
    else t == ""
  }

  predicate MarkAt(url: string, i: nat) {
    i + 3 <= |url| && url[i..i + 3] == "://"
  }

  /** The first `://` stands at `i`, and `host` runs from there to a delimiter or the end. */
  predicate HostAt(url: string, host: string, i: nat) {
    && i + 3 + |host| <= |url| && MarkAt(url, i) && (forall j: nat | j < i :: !MarkAt(url, j))
    && url[i + 3..i + 3 + |host|] == host && (forall j | 0 <= j < |host| :: host[j] !in "/?#")
    && (i + 3 + |host| == |url| || url[i + 3 + |host|] in "/?#")
  }

  ghost predicate HostIn(url: string, host: string) {
    exists i: nat :: HostAt(url, host, i)
  }

  /** Some net grant matches the host. */
  ghost predicate Reachable(host: string, net: set<string>) {
    exists e, name, granted, asked :: e in net && Matches(e, host, name, granted, asked)
  }

  /** The acting identity holds what the symbol needs: a kernel grant, or for a submitted action
      the effect it names, or for a fetch a net grant for the host it names. */
  ghost predicate Entitled(c: Call, g: Grants)
    requires WellPosed(c)
  {
    var args := c.body.value.items;
    if c.symbol == "uk_action_submit" then exists t :: Says(args, "effect", t) && t in g.effects
    else if c.symbol == "uk_fetch" then
      exists u, host :: Says(args, "url", u) && host != "" && HostIn(u, host) && Reachable(host, c.net)
    else c.symbol in g.kernel
  }

  lemma MarkTail(url: string, i: nat)
    requires url != ""
    ensures MarkAt(url, i + 1) <==> MarkAt(url[1..], i)
  {
    if i + 4 <= |url| {
      assert url[1..][i..i + 3] == url[i + 1..i + 4];
    }
  }

  lemma {:induction false} SchemeFound(url: string, i: nat)
    requires MarkAt(url, i) && forall j: nat | j < i :: !MarkAt(url, j)
    ensures AfterScheme(url) == url[i + 3..]
    decreases i
  {
    assert url[..3] == url[0..3];
    if i > 0 {
      assert !MarkAt(url, 0);
      forall j: nat | j <= i - 1 ensures MarkAt(url[1..], j) <==> MarkAt(url, j + 1) {
        MarkTail(url, j);
      }
      SchemeFound(url[1..], i - 1);
      assert url[1..][i + 2..] == url[i + 3..];
    }
  }

  lemma {:induction false} SchemeSearch(url: string) returns (i: nat)
    requires AfterScheme(url) != ""
    ensures MarkAt(url, i) && forall j: nat | j < i :: !MarkAt(url, j)
    decreases |url|
  {
    assert url[..3] == url[0..3];
    if url[..3] == "://" {
      i := 0;
    } else {
      var k := SchemeSearch(url[1..]);
      i := k + 1;
      MarkTail(url, k);
      forall j: nat | j < i ensures !MarkAt(url, j) {
        if j > 0 {
          MarkTail(url, j - 1);
        }
      }
    }
  }

  /** The host a fetch is checked for is the one written in the URL. */
  lemma FetchHostMeans(url: string, host: string)
    requires host != ""
    ensures FetchHost(url) == host <==> HostIn(url, host)
  {
    if HostIn(url, host) {
      var i: nat :| HostAt(url, host, i);
      SchemeFound(url, i);
      var rest := url[i + 3..];
      assert rest[..|host|] == url[i + 3..i + 3 + |host|];
      assert |host| < |rest| ==> rest[|host|] == url[i + 3 + |host|];
      HostRead(rest, host);
    }
    if FetchHost(url) == host {
      var i := SchemeSearch(url);
      SchemeFound(url, i);
      var rest := url[i + 3..];
      assert rest[..|host|] == url[i + 3..i + 3 + |host|];
      assert HostAt(url, host, i);
    }
  }

  lemma HostRead(rest: string, host: string)
    requires |host| <= |rest| && rest[..|host|] == host && (forall j | 0 <= j < |host| :: host[j] !in "/?#")
    requires |host| == |rest| || rest[|host|] in "/?#"
    ensures rest[..FirstIndex(rest, {'/', '?', '#'})] == host
  {
    var n := FirstIndex(rest, {'/', '?', '#'});
    assert forall j | 0 <= j < |host| :: rest[j] == host[j];
    assert n == |host|;
  }

  lemma SaysField(args: seq<Json>, key: string)
    ensures forall t :: Says(args, key, t) <==> t == TextField(args, key)
  {
  }

  lemma GrantedIsEntitled(c: Call, who: Caller, n: nat)
    requires WellPosed(c)
    ensures Granted(EventOf(c, who, n)) <==> Entitled(c, who.grants)
  {
    hide FetchHost, EgressAllowed, Reachable, HostIn, TextField, Says;
    var args := c.body.value.items;
    if c.symbol == "uk_action_submit" {
      SaysField(args, "effect");
    } else if c.symbol == "uk_fetch" {
      SaysField(args, "url");
      var u := TextField(args, "url");
      FetchGranted(u, c.net);
    }
  }

  lemma FetchGranted(u: string, net: set<string>)
    ensures FetchHost(u) != "" && EgressAllowed(FetchHost(u), net) <==> exists host :: host != "" && HostIn(u, host) && Reachable(host, net)
  {
    hide FetchHost, HostIn, Matches, EgressAllowed;
    var h := FetchHost(u);
    if h != "" {
      FetchHostMeans(u, h);
      EgressMeans(h, net);
    }
    if host :| host != "" && HostIn(u, host) && Reachable(host, net) {
      FetchHostMeans(u, host);
      EgressMeans(host, net);
    }
  }

  // ----- the symbols each gate names -----

  predicate LatchedSymbol(s: string) {
    s in {"uk_fetch", "uk_agent_spawn", "uk_blueprint_export", "uk_action_submit", "uk_gate_approve",
          "uk_cert_set_authority", "uk_cert_mint", "uk_cert_transfer", "uk_cert_burn",
          "uk_auction_open", "uk_auction_bid", "uk_auction_close"}
  }

  predicate MeteredSymbol(s: string) {
    s in {"uk_evolve", "uk_condition", "uk_event_probability", "uk_bayesian_update", "uk_belief_propagation", "uk_ode_analyze"}
  }

  predicate UnpausedSymbol(s: string) {
    s in {"uk_session_close", "uk_version", "uk_action_submit"}
  }

  lemma SymbolLists(s: string)
    ensures s in SensitiveBlocked() <==> LatchedSymbol(s)
    ensures s in Metered() <==> MeteredSymbol(s)
    ensures s in PostureExempt() <==> UnpausedSymbol(s)
  {
  }

  // ----- the answer to a call -----

  /** Who acts and with which grants: the module itself, or the sub-agent with its own bounds. */
  function Actor<S>(h: Host<S>, c: Call, sys: S): Option<(string, Grants)> {
    match c.agent
    case None => Some((c.moduleName, c.grants))
    case Some(handle) =>
      match h.agent(handle, sys)
      case None => None
      case Some((bounds, id)) => Some((id, bounds))
  }

  /** The actor as the kernel and the audit log see it. */
  function Named(c: Call, actor: (string, Grants)): Caller {
    Caller(if c.agent.None? then "gadget" else "agent", actor.0, actor.1)
  }

  /** The meter's answer, asked only for a metered symbol, and the kernel state behind it. */
  function MeterFor<S>(h: Host<S>, c: Call, who: string, sys: S): (int, S) {
    if MeteredSymbol(c.symbol) then h.consume(who, 1000, 0, sys) else (0, sys)
  }

  /** The refusal of the first gate that stops the call, if any does. */
  ghost function RefusalFor<S>(h: Host<S>, c: Call, sys: S): Option<Reply>
    requires WellPosed(c)
  {
    match Actor(h, c, sys)
    case None => Some(Error(Num(4001), "CallDenied"))
    case Some((who, g)) =>
      var (code, sys') := MeterFor(h, c, who, sys);
      if !Entitled(c, g) then Some(Error(Num(4001), "CallDenied"))
      else if LatchedSymbol(c.symbol) && h.latched(who, sys) then Some(Error(Uk(4701), "SensitiveLatched"))
      else if code == 1 then Some(Error(Uk(4601), "RateLimited"))
      else if code != 0 then Some(Error(Uk(4602), "BudgetExceeded"))
      else if h.strict(sys') && !UnpausedSymbol(c.symbol) && h.mutates(c.symbol) != Some(false) then Some(Error(Uk(4501), "ConsoleOnly"))
      else None
  }

  /** The dispatch the kernel is asked for. */
  function StartFor(c: Call, who: Caller, number: nat): Start
    requires WellPosed(c)
  {
    Start(Some(who), Some(Trace(who.principal, number)), who.principal, c.symbol, c.body.value.items)
  }

  /** A symbol with a declared deadline is late past the module's own limit, or else the declared one. */
  predicate TimedOut<S>(h: Host<S>, c: Call, start: Start, sys: S) {
    match h.timeout(c.symbol)
    case None => false
    case Some(declared) => h.late(if c.maxMs.Some? then c.maxMs.value else declared, start, sys).Some?
  }

  /** What the kernel answers, unless a declared deadline passes first. */
  function AnswerFor<S>(h: Host<S>, c: Call, start: Start, sys: S): Reply {
    if TimedOut(h, c, start, sys) then Error(Uk(4603), "ToolTimeout")
    else
      match h.dispatch(start, sys).0
      case Value(v) => Result(v)
      case Failure(code, _) => Error(Num(code), "KernelError")
  }

  lemma ActorIs<S>(h: Host<S>, c: Call, sys: S)
    ensures Actor(h, c, sys).None? <==> Identity(h, c, sys).None?
    ensures Identity(h, c, sys).Some? ==>
              var who := Identity(h, c, sys).value; Actor(h, c, sys) == Some((who.principal, who.grants)) && who == Named(c, Actor(h, c, sys).value)
  {
  }

  /** The gates, one by one, in the words of the call. */
  lemma GatesMean<S>(h: Host<S>, c: Call, who: Caller, n: nat, sys: S)
    requires WellPosed(c)
    ensures var ev := EventOf(c, who, n);
            && (Granted(ev) <==> Entitled(c, who.grants))
            && (Blocked(h, ev, sys) <==> LatchedSymbol(c.symbol) && h.latched(who.principal, sys))
            && MeterVerdict(h, ev, sys) == MeterFor(h, c, who.principal, sys)
            && (forall s :: Paused(h, ev, s) <==> h.strict(s) && !UnpausedSymbol(c.symbol) && h.mutates(c.symbol) != Some(false))
  {
    hide Granted, Entitled, SensitiveBlocked, LatchedSymbol, Metered, MeteredSymbol, PostureExempt, UnpausedSymbol;
    SymbolLists(c.symbol);
    GrantedIsEntitled(c, who, n);
  }

  lemma OutcomeMeans<S>(h: Host<S>, c: Call, who: Caller, n: nat, sys: S)
    requires WellPosed(c)
    ensures ReplyOf(Outcome(h, EventOf(c, who, n), sys).0) == AnswerFor(h, c, StartFor(c, who, n), sys)
  {
    assert StartOf(EventOf(c, who, n)) == StartFor(c, who, n);
  }

  /**
   For every call with a JSON-array body: the reply is the refusal of the first gate that stops
   it, or else what the kernel answers in time; and the kernel is asked, once and in the acting
   identity's name, exactly when no gate stops it.
   */
  lemma CallAnswered<S>(h: Host<S>, c: Call, k: Kernel<S>)
    requires WellPosed(c)
    ensures var (r, k') := DispatchLoopback(h, c, k);
            var refusal, actor := RefusalFor(h, c, k.sys), Actor(h, c, k.sys);
            && (refusal.Some? ==> r == refusal.value && k'.starts == k.starts)
            && (refusal.None? ==> actor.Some?)
            && (refusal.None? ==>
                  var start := StartFor(c, Named(c, actor.value), k.traceSeq);
                  r == AnswerFor(h, c, start, MeterFor(h, c, actor.value.0, k.sys).1) && k'.starts == k.starts + [start])
  {
    ActorIs(h, c, k.sys);
    hide Waterfall, Chain, Outcome, AnswerFor, Entitled, LatchedSymbol, UnpausedSymbol, MeterFor, Granted, Blocked, MeterVerdict, Paused, Identity, Actor, EventOf, StartFor;
    if Identity(h, c, k.sys).Some? {
      var who := Identity(h, c, k.sys).value;
      KnownAnswered(h, c, who, k);
    } else {
      UnknownAnswered(h, c, k);
    }
  }

  lemma UnknownAnswered<S>(h: Host<S>, c: Call, k: Kernel<S>)
    requires WellPosed(c) && Identity(h, c, k.sys).None?
    ensures DispatchLoopback(h, c, k).0 == Error(Num(4001), "CallDenied") && DispatchLoopback(h, c, k).1.starts == k.starts
  {
    hide Waterfall, Chain;
  }

  lemma KnownAnswered<S>(h: Host<S>, c: Call, who: Caller, k: Kernel<S>)
    requires WellPosed(c) && Identity(h, c, k.sys) == Some(who) && Actor(h, c, k.sys) == Some((who.principal, who.grants))
    ensures var (r, k') := DispatchLoopback(h, c, k);
            var refusal := RefusalFor(h, c, k.sys);
            var start := StartFor(c, who, k.traceSeq);
            if refusal.Some? then r == refusal.value && k'.starts == k.starts
            else r == AnswerFor(h, c, start, MeterFor(h, c, who.principal, k.sys).1) && k'.starts == k.starts + [start]
  {
    var f, k1 := KnownCaller(h, c, who, k);
    GatesMean(h, c, who, k.traceSeq, k.sys);
    OutcomeMeans(h, c, who, k.traceSeq, MeterFor(h, c, who.principal, k.sys).1);
    assert StartOf(EventOf(c, who, k.traceSeq)) == StartFor(c, who, k.traceSeq);
    hide DispatchLoopback, Outcome, AnswerFor, Entitled, LatchedSymbol, UnpausedSymbol, MeterFor, Granted, Blocked, MeterVerdict, Paused, Identity, Actor, EventOf, StartFor, StartOf, MeterReached;
  }

  /** Without what its symbol needs, a call never reaches the kernel, consumes no budget, and a
      known caller is told 4001. */
  lemma NoGrantNoCall<S>(h: Host<S>, c: Call, k: Kernel<S>)
    requires WellPosed(c)
    ensures var (r, k') := DispatchLoopback(h, c, k);
            var actor := Actor(h, c, k.sys);
            actor.None? || !Entitled(c, actor.value.1) ==>
              r == Error(Num(4001), "CallDenied") && k'.starts == k.starts && k'.consumed == k.consumed
  {
    CallAnswered(h, c, k);
    BudgetOnlyPastLatch(h, c, k);
    ActorIs(h, c, k.sys);
    if Identity(h, c, k.sys).Some? {
      GatesMean(h, c, Identity(h, c, k.sys).value, k.traceSeq, k.sys);
    }
    hide DispatchLoopback, AnswerFor, Entitled, Granted, Blocked, LatchedSymbol, UnpausedSymbol, MeterFor, Identity, Actor, EventOf, Acting;
  }

  /** The signed decimal text of an agent handle. */
  function HandleText(n: int): string {
    if n < 0 then "-" + DecimalText(-n) else DecimalText(n)
  }

  /** Who the audit entry names, and under which number. */
  lemma AuditSaysWho<S>(h: Host<S>, c: Call, k: Kernel<S>)
    requires WellPosed(c)
    ensures |DispatchLoopback(h, c, k).1.audit| == |k.audit| + 1
    ensures var e := DispatchLoopback(h, c, k).1.audit[|k.audit|];
            match Actor(h, c, k.sys)
            case Some(actor) => e.caller == Some(Named(c, actor)) && e.trace == Some(Trace(actor.0, k.traceSeq))
            case None =>
              c.agent.Some? && e.trace == k.trace
              && e.caller == Some(Caller("agent", "agent-" + HandleText(c.agent.value), Grants({}, {}, {}, {}, [])))
  {
    OneAuditPerCall(h, c, k);
    ActorIs(h, c, k.sys);
    hide Waterfall, Chain, FirstRefusal, Outcome;
    if Identity(h, c, k.sys).Some? {
      var f, k1 := KnownCaller(h, c, Identity(h, c, k.sys).value, k);
    }
  }

  /** The audit entry says why: the refusal's code, or for a fetch that was let through the host it
      went to, and nothing for any other result. */
  lemma AuditSaysWhy<S>(h: Host<S>, c: Call, k: Kernel<S>)
    requires WellPosed(c)
    ensures |DispatchLoopback(h, c, k).1.audit| == |k.audit| + 1
    ensures var (r, k') := DispatchLoopback(h, c, k);
            var refusal, e := RefusalFor(h, c, k.sys), k'.audit[|k.audit|];
            && (refusal.Some? ==> e.detail == Refused(refusal.value.code))
            && (r.Result? ==>
                  if c.symbol == "uk_fetch" then e.detail == Allowed(FetchHost(TextField(c.body.value.items, "url")))
                  else e.detail == NoDetail)
            && (refusal.None? && r.Error? && Actor(h, c, k.sys).Some? ==>
                  var actor := Actor(h, c, k.sys).value;
                  e.detail == FailureDetail(h, c, StartFor(c, Named(c, actor), k.traceSeq), MeterFor(h, c, actor.0, k.sys).1))
  {
    OneAuditPerCall(h, c, k);
    CallAnswered(h, c, k);
    ActorIs(h, c, k.sys);
    hide Entitled, AnswerFor, FailureDetail, StartFor, MeterFor, RefusalFor, Waterfall, Chain, FirstRefusal, Outcome, Actor;
    RefusalIsError(h, c, k.sys);
    if Identity(h, c, k.sys).Some? {
      var f, k1 := KnownCaller(h, c, Identity(h, c, k.sys).value, k);
      RefusalIsDeny(h, c, Identity(h, c, k.sys).value, k, f, k1);
      FailureMeans(h, c, Identity(h, c, k.sys).value, k, f, k1);
    }
  }

  /** The detail of a dispatched call that fails: the deadline's code, or the kernel's own code and message. */
  function FailureDetail<S>(h: Host<S>, c: Call, start: Start, sys: S): Detail {
    if TimedOut(h, c, start, sys) then Refused(Uk(4603))
    else
      match h.dispatch(start, sys).0
      case Value(_) => NoDetail
      case Failure(code, message) => KernelError(code, message)
  }

  lemma FailureMeans<S>(h: Host<S>, c: Call, who: Caller, k: Kernel<S>, f: Flow, k1: Kernel<S>)
    requires WellPosed(c) && Identity(h, c, k.sys) == Some(who) && Actor(h, c, k.sys) == Some((who.principal, who.grants))
    requires Decided(h, EventOf(c, who, k.traceSeq), Tagged(k, who), f, k1)
    ensures RefusalFor(h, c, k.sys).None? ==>
              var d := FailureDetail(h, c, StartFor(c, who, k.traceSeq), MeterFor(h, c, who.principal, k.sys).1);
              match f
              case Deny(code, _) => d == Refused(code)
              case Err(code, message) => d == KernelError(code, message)
              case _ => true
  {
    GatesMean(h, c, who, k.traceSeq, k.sys);
    assert StartOf(EventOf(c, who, k.traceSeq)) == StartFor(c, who, k.traceSeq);
    OutcomeDetail(h, c, who, k.traceSeq, MeterFor(h, c, who.principal, k.sys).1);
    hide Outcome, FailureDetail, Entitled, LatchedSymbol, UnpausedSymbol, MeterFor, Granted, Blocked, MeterVerdict, Paused, Identity, Actor, EventOf, MeterReached, StartFor, StartOf;
  }

  lemma OutcomeDetail<S>(h: Host<S>, c: Call, who: Caller, n: nat, sys: S)
    requires WellPosed(c)
    ensures var d := FailureDetail(h, c, StartFor(c, who, n), sys);
            match Outcome(h, EventOf(c, who, n), sys).0
            case Deny(code, _) => d == Refused(code)
            case Err(code, message) => d == KernelError(code, message)
            case _ => true
  {
    assert StartOf(EventOf(c, who, n)) == StartFor(c, who, n);
  }

  lemma RefusalIsError<S>(h: Host<S>, c: Call, sys: S)
    requires WellPosed(c)
    ensures RefusalFor(h, c, sys).Some? ==> RefusalFor(h, c, sys).value.Error?
    ensures Actor(h, c, sys).None? ==> RefusalFor(h, c, sys) == Some(Error(Num(4001), "CallDenied"))
  {
    hide Entitled, MeterFor, LatchedSymbol, UnpausedSymbol;
  }

  lemma RefusalIsDeny<S>(h: Host<S>, c: Call, who: Caller, k: Kernel<S>, f: Flow, k1: Kernel<S>)
    requires WellPosed(c) && Identity(h, c, k.sys) == Some(who) && Actor(h, c, k.sys) == Some((who.principal, who.grants))
    requires Decided(h, EventOf(c, who, k.traceSeq), Tagged(k, who), f, k1)
    ensures RefusalFor(h, c, k.sys).Some? ==> f.Deny? && ReplyOf(f) == RefusalFor(h, c, k.sys).value
  {
    GatesMean(h, c, who, k.traceSeq, k.sys);
    hide Outcome, Entitled, LatchedSymbol, UnpausedSymbol, MeterFor, Granted, Blocked, MeterVerdict, Paused, Identity, Actor, EventOf, MeterReached;
  }

  // ----- trace numbers over runs -----

  /** The numbers of the entries that carry a trace, oldest first. */
  function Numbers(audit: seq<AuditEntry>): seq<nat> {
    if audit == [] then []
    else
      var n := |audit| - 1;
      Numbers(audit[..n]) + (if audit[n].trace.Some? then [audit[n].trace.value.number] else [])
  }

  /** `count` numbers from `first` on, wrapping at 64 bits. */
  function Consecutive(first: nat, count: nat): (s: seq<nat>)
    ensures |s| == count && forall i | 0 <= i < count :: s[i] == (first + i) % 0x1_0000_0000_0000_0000
  {
    seq(count, i requires 0 <= i < count => (first + i) % 0x1_0000_0000_0000_0000)
  }

  lemma Advances<S>(h: Host<S>, c: Call, k: Kernel<S>)
    ensures var k' := DispatchLoopback(h, c, k).1;
            k'.traceSeq == if WellPosed(c) && Actor(h, c, k.sys).Some? then (k.traceSeq + 1) % 0x1_0000_0000_0000_0000 else k.traceSeq
  {
    hide Waterfall, Chain, FirstRefusal, Outcome;
    ActorIs(h, c, k.sys);
    if WellPosed(c) && Identity(h, c, k.sys).Some? {
      var f, k1 := KnownCaller(h, c, Identity(h, c, k.sys).value, k);
    }
  }

  /** A well-posed call of a known actor is audited under the next number, and no other call takes one. */
  lemma CallNumbered<S>(h: Host<S>, c: Call, k: Kernel<S>)
    requires k.trace == None
    ensures var k' := DispatchLoopback(h, c, k).1;
            && k'.trace == None
            && if WellPosed(c) && Actor(h, c, k.sys).Some?
               then Numbers(k'.audit) == Numbers(k.audit) + [k.traceSeq] && k'.traceSeq == (k.traceSeq + 1) % 0x1_0000_0000_0000_0000
               else Numbers(k'.audit) == Numbers(k.audit) && k'.traceSeq == k.traceSeq
  {
    Advances(h, c, k);
    if WellPosed(c) {
      OneAuditPerCall(h, c, k);
      AuditSaysWho(h, c, k);
      hide DispatchLoopback, Actor, Acting;
      var a := DispatchLoopback(h, c, k).1.audit;
      assert a[..|a| - 1] == k.audit;
    }
  }

  /**
   Over any run of calls the traced audit entries are numbered consecutively, wrapping at
   64 bits, whatever is refused in between.
   */
  lemma {:induction false} RunNumbered<S>(h: Host<S>, cs: seq<(Call, S)>, k: Kernel<S>)
    requires k.trace == None && k.traceSeq < 0x1_0000_0000_0000_0000
    ensures var k' := Calls(h, cs, k).1;
            && |Numbers(k.audit)| <= |Numbers(k'.audit)| && k'.trace == None
            && var count := |Numbers(k'.audit)| - |Numbers(k.audit)|;
               && Numbers(k'.audit) == Numbers(k.audit) + Consecutive(k.traceSeq, count)
               && k'.traceSeq == (k.traceSeq + count) % 0x1_0000_0000_0000_0000
  {
    hide DispatchLoopback, Actor, Numbers;
    if cs == [] {
      assert Numbers(k.audit) + Consecutive(k.traceSeq, 0) == Numbers(k.audit);
    } else {
      var n := |cs| - 1;
      RunNumbered(h, cs[..n], k);
      var k1 := Calls(h, cs[..n], k).1;
      var k2 := k1.(sys := cs[n].1);
      CallNumbered(h, cs[n].0, k2);
      var count := |Numbers(k1.audit)| - |Numbers(k.audit)|;
      NextNumber(k.traceSeq, count);
      assert Calls(h, cs, k).1 == DispatchLoopback(h, cs[n].0, k2).1;
      var base := Numbers(k.audit);
      assert (base + Consecutive(k.traceSeq, count)) + [k1.traceSeq] == base + (Consecutive(k.traceSeq, count) + [k1.traceSeq]);
    }
  }

  lemma NextNumber(first: nat, count: nat)
    ensures var m := (first + count) % 0x1_0000_0000_0000_0000;
            && Consecutive(first, count + 1) == Consecutive(first, count) + [m]
            && (m + 1) % 0x1_0000_0000_0000_0000 == (first + (count + 1)) % 0x1_0000_0000_0000_0000
  {
  }

  /** No number is used twice within 2^64 traced calls. */
  lemma NumbersDistinct<S>(h: Host<S>, cs: seq<(Call, S)>, k: Kernel<S>, i: nat, j: nat)
    requires k.trace == None && k.traceSeq < 0x1_0000_0000_0000_0000 && k.audit == []
    requires i < j < |Numbers(Calls(h, cs, k).1.audit)| && j - i < 0x1_0000_0000_0000_0000
    ensures Numbers(Calls(h, cs, k).1.audit)[i] != Numbers(Calls(h, cs, k).1.audit)[j]
  {
    hide Calls;
    RunNumbered(h, cs, k);
  }
}
