/** The loopback policy chain: seven listeners around one kernel dispatch. */
module Loopback {
  import opened Util
  import opened SymbolDispatch

  // ----- events, kernel state and host oracles -----

  datatype Grants = Grants(kernel: set<string>, effects: set<string>, observers: set<string>,
                           resources: set<string>, kinds: seq<(string, string)>)

  datatype Caller = Caller(from: string, principal: string, grants: Grants)

  datatype Trace = Trace(principal: string, number: nat)

  datatype Event = Event(symbol: string, args: seq<Json>, principal: string, kernelGrants: set<string>,
                         effects: set<string>, net: set<string>, fetchUrl: string,
                         caller: Caller, trace: Trace, maxMs: Option<nat>)

  datatype Detail = NoDetail | Refused(code: Code) | Allowed(host: string) | KernelError(kernelCode: nat, message: string)

  datatype AuditEntry = AuditEntry(caller: Option<Caller>, trace: Option<Trace>, symbol: string,
                                   args: seq<Json>, ok: bool, detail: Detail)

  /** A kernel dispatch that was begun: who it ran as, and what it ran. */
  datatype Start = Start(caller: Option<Caller>, trace: Option<Trace>, principal: string, symbol: string, args: seq<Json>)

  /**
   What the host keeps: the kernel's own state `sys`, the audit entries appended by the
   loopback, the dispatches begun, the meter consultations, the thread's caller and trace
   tags, and the trace counter.
   */
  datatype Kernel<S> = Kernel(sys: S, audit: seq<AuditEntry>, starts: seq<Start>, consumed: seq<string>,
                              caller: Option<Caller>, trace: Option<Trace>, traceSeq: nat)

  datatype Answer = Value(value: Json) | Failure(code: nat, message: string)

  /**
   The kernel interface, as arbitrary state-passing functions. `late` gives the kernel state
   at the deadline when the worker has not answered by then, and `None` when it has.
   */
  datatype Host<!S> = Host(
    latched: (string, S) -> bool,
    consume: (string, nat, nat, S) -> (int, S),
    strict: S -> bool,
    mutates: string -> Option<bool>,
    timeout: string -> Option<nat>,
    dispatch: (Start, S) -> (Answer, S),
    late: (nat, Start, S) -> Option<S>,
    agent: (int, S) -> Option<(Grants, string)>)

  const LOOPBACK_BUDGET: nat := 1000
  const LOOPBACK_RATE_LIMIT: nat := 0
  const TRACE_MODULUS: nat := 0x1_0000_0000_0000_0000

  function Metered(): set<string> {
    {"uk_evolve", "uk_condition", "uk_event_probability", "uk_bayesian_update", "uk_belief_propagation", "uk_ode_analyze"}
  }

  function SensitiveBlocked(): set<string> {
    {"uk_fetch", "uk_agent_spawn", "uk_blueprint_export", "uk_action_submit", "uk_gate_approve",
     "uk_cert_set_authority", "uk_cert_mint", "uk_cert_transfer", "uk_cert_burn",
     "uk_auction_open", "uk_auction_bid", "uk_auction_close"}
  }

  function PostureExempt(): set<string> {
    {"uk_session_close", "uk_version", "uk_action_submit"}
  }

  // ----- egress -----

  function FirstIndex(s: string, stop: set<char>): (i: nat)
    ensures i <= |s| && (forall j | 0 <= j < i :: s[j] !in stop) && (i < |s| ==> s[i] in stop)
  {
    if s == "" || s[0] in stop then 0 else 1 + FirstIndex(s[1..], stop)
  }

  /** The text after the first `://`, or nothing. */
  function AfterScheme(url: string): string {
    if |url| < 3 then "" else if url[..3] == "://" then url[3..] else AfterScheme(url[1..])
  }

  function FetchHost(url: string): string {
    var rest := AfterScheme(url);
    rest[..FirstIndex(rest, {'/', '?', '#'})]
  }

  function LastColon(s: string): (r: Option<nat>)
    ensures r.Some? ==> r.value < |s| && s[r.value] == ':'
  {
    if s == "" then None
    else if s[|s| - 1] == ':' then Some(|s| - 1)
    else LastColon(s[..|s| - 1])
  }

  function Decimal(s: string): Option<nat> {
    if s == "" then Some(0)
    else if !('0' <= s[|s| - 1] <= '9') then None
    else
      var high :- Decimal(s[..|s| - 1]);
      Some(high * 10 + (s[|s| - 1] - '0') as nat)
  }

  function SplitHostPort(s: string): (string, Option<nat>) {
    match LastColon(s)
    case None => (s, None)
    case Some(i) =>
      var port := Decimal(s[i + 1..]);
      if s[i + 1..] != "" && port.Some? && port.value < 0x1_0000 then (s[..i], port) else (s, None)
  }

  predicate Covers(entry: string, host: string) {
    var (grantHost, grantPort) := SplitHostPort(entry);
    var (reqHost, reqPort) := SplitHostPort(host);
    grantHost == reqHost && (grantPort.Some? && reqPort.Some? ==> grantPort == reqPort)
  }

  predicate EgressAllowed(host: string, net: set<string>) {
    host != "" && exists entry :: entry in net && Covers(entry, host)
  }

  lemma {:induction false} DecimalBack(n: nat)
    ensures DecimalText(n) != "" && Decimal(DecimalText(n)) == Some(n)
    ensures forall i | 0 <= i < |DecimalText(n)| :: DecimalText(n)[i] != ':'
  {
    hide Decimal;
    var s, c := DecimalText(n), "0123456789"[n % 10];
    DigitValue(n % 10);
    if n >= 10 {
      DecimalBack(n / 10);
      DecimalSnoc(DecimalText(n / 10), c);
    } else {
      DecimalEmpty();
      DecimalSnoc("", c);
      assert s == "" + [c];
    }
  }

  lemma DecimalEmpty()
    ensures Decimal("") == Some(0)
  {
  }

  lemma DecimalSnoc(s: string, c: char)
    requires '0' <= c <= '9' && Decimal(s).Some?
    ensures Decimal(s + [c]) == Some(Decimal(s).value * 10 + (c - '0') as nat)
  {
    assert (s + [c])[..|s|] == s;
  }

  lemma DigitValue(d: nat)
    requires d < 10
    ensures var c := "0123456789"[d]; '0' <= c <= '9' && (c - '0') as nat == d
  {
  }

  lemma {:induction false} LastColonBack(a: string, b: string)
    requires forall i | 0 <= i < |b| :: b[i] != ':'
    ensures LastColon(a + ":" + b) == Some(|a|)
    decreases |b|
  {
    var s := a + ":" + b;
    if b != "" {
      var n := |b| - 1;
      assert s[|s| - 1] == b[n] && s[..|s| - 1] == a + ":" + b[..n];
      LastColonBack(a, b[..n]);
    }
  }

  /** Host and port written out are read back. */
  lemma SplitBack(host: string, port: nat)
    requires port < 0x1_0000
    ensures SplitHostPort(host + ":" + DecimalText(port)) == (host, Some(port))
  {
    DecimalBack(port);
    LastColonBack(host, DecimalText(port));
    var s := host + ":" + DecimalText(port);
    assert s[|host| + 1..] == DecimalText(port) && s[..|host|] == host;
  }

  lemma {:induction false} NoColon(host: string)
    requires ':' !in host
    ensures LastColon(host) == None
  {
    if host != "" {
      assert host[|host| - 1] in host;
      NoColon(host[..|host| - 1]);
    }
  }

  predicate AllDigits(d: string) {
    forall i | 0 <= i < |d| :: '0' <= d[i] <= '9'
  }

  lemma {:induction false} DigitsRead(d: string)
    ensures Decimal(d).Some? <==> AllDigits(d)
  {
    if d != "" {
      DigitsRead(d[..|d| - 1]);
    }
  }

  /** `s` is a host, a colon and a decimal port below 2^16. */
  ghost predicate HostPort(s: string, host: string, port: nat) {
    exists d :: d != "" && AllDigits(d) && Decimal(d) == Some(port) && port < 0x1_0000 && s == host + ":" + d
  }

  /** A port is read exactly off text of that form; everything else is all host. */
  lemma SplitMeans(s: string, host: string, port: nat)
    ensures SplitHostPort(s) == (host, Some(port)) <==> HostPort(s, host, port)
    ensures SplitHostPort(s).1 == None ==> SplitHostPort(s).0 == s
  {
    if SplitHostPort(s) == (host, Some(port)) {
      var i := LastColon(s).value;
      DigitsRead(s[i + 1..]);
      assert s == s[..i] + ":" + s[i + 1..];
    }
    if HostPort(s, host, port) {
      var d :| d != "" && AllDigits(d) && Decimal(d) == Some(port) && port < 0x1_0000 && s == host + ":" + d;
      LastColonBack(host, d);
      assert s[|host| + 1..] == d && s[..|host|] == host;
    }
  }

  function HostOf(s: string): string {
    SplitHostPort(s).0
  }

  function PortOf(s: string): Option<nat> {
    SplitHostPort(s).1
  }

  /** `s` names this host and this port, or this host and no port: then no host, colon and port
      spell it. */
  ghost predicate Names(s: string, host: string, port: Option<nat>) {
    if port.Some? then HostPort(s, host, port.value)
    else s == host && forall h, p :: !HostPort(s, h, p)
  }

  /** Every text names exactly one host and at most one port, and that is what the split yields. */
  lemma SplitNames(s: string, host: string, port: Option<nat>)
    ensures Names(s, host, port) <==> SplitHostPort(s) == (host, port)
  {
    hide SplitHostPort, HostPort;
    if port.Some? {
      SplitMeans(s, host, port.value);
    } else {
      forall h, p: nat ensures HostPort(s, h, p) <==> SplitHostPort(s) == (h, Some(p)) {
        SplitMeans(s, h, p);
      }
      SplitMeans(s, "", 0);
      var (h, p) := SplitHostPort(s);
      if p.Some? {
        assert HostPort(s, h, p.value);
      }
    }
  }

  /** The grant and the target name one host, and where both name a port, one port. */
  ghost predicate Matches(e: string, target: string, host: string, granted: Option<nat>, asked: Option<nat>) {
    Names(e, host, granted) && Names(target, host, asked) && (granted == None || asked == None || granted == asked)
  }

  /** Egress to any target under any grant set: allowed exactly when some grant matches it. */
  lemma EgressMeans(target: string, net: set<string>)
    ensures EgressAllowed(target, net) <==> target != "" && exists e, host, granted, asked :: e in net && Matches(e, target, host, granted, asked)
  {
    hide SplitHostPort, Names;
    if EgressAllowed(target, net) {
      var e :| e in net && Covers(e, target);
      var (h, gp) := SplitHostPort(e);
      var (_, rp) := SplitHostPort(target);
      SplitNames(e, h, gp);
      SplitNames(target, h, rp);
      assert Matches(e, target, h, gp, rp);
    }
    if target != "" {
      if e, host, granted, asked :| e in net && Matches(e, target, host, granted, asked) {
        SplitNames(e, host, granted);
        SplitNames(target, host, asked);
        assert Covers(e, target);
      }
    }
  }

  /** The port an allowed fetch is dialled on. */
  function DialPort(target: string): nat {
    if PortOf(target).Some? then PortOf(target).value else 80
  }

  /** A grant for one port lets a request without a port through: it is dialled on port 80. */
  lemma PortGrantLeaks(host: string, granted: nat)
    requires host != "" && ':' !in host && granted < 0x1_0000
    ensures EgressAllowed(host, {host + ":" + DecimalText(granted)}) && DialPort(host) == 80
  {
    hide SplitHostPort, DecimalText, Decimal, LastColon, EgressAllowed;
    SplitBack(host, granted);
    NoColon(host);
    Portless(host);
    OneGrant(host, host + ":" + DecimalText(granted));
  }

  /**
   A grant for one port confines requests to that port of its host exactly when the request
   carries a port: whatever it lets through is then dialled there. A request without one is
   confined only if the granted port is 80.
   */
  lemma PortGrantConfines(target: string, host: string, granted: nat)
    requires granted < 0x1_0000 && target != "" && HostOf(target) == host
    ensures var net := {host + ":" + DecimalText(granted)};
            && (EgressAllowed(target, net) <==> PortOf(target) == None || PortOf(target) == Some(granted))
            && ((EgressAllowed(target, net) ==> DialPort(target) == granted) <==> PortOf(target).Some? || granted == 80)
  {
    hide SplitHostPort, DecimalText, Decimal, LastColon, EgressAllowed;
    var entry := host + ":" + DecimalText(granted);
    SplitBack(host, granted);
    OneGrant(target, entry);
  }

  /** A grant without a port covers every request to its host, and no other. */
  lemma HostGrantCovers(target: string, host: string)
    requires target != "" && PortOf(host) == None
    ensures EgressAllowed(target, {host}) <==> HostOf(target) == host
  {
    SplitMeans(host, "", 0);
    hide SplitHostPort, EgressAllowed;
    OneGrant(target, host);
  }

  lemma OneGrant(target: string, entry: string)
    ensures EgressAllowed(target, {entry}) <==> target != "" && Covers(entry, target)
    ensures !EgressAllowed(target, {})
  {
    hide Covers;
    assert entry in {entry};
  }

  lemma Portless(host: string)
    requires LastColon(host) == None
    ensures SplitHostPort(host) == (host, None)
  {
  }

  lemma {:induction false} SchemeBack(scheme: string, rest: string)
    requires ':' !in scheme
    ensures AfterScheme(scheme + "://" + rest) == rest
  {
    var s := scheme + "://" + rest;
    if scheme == "" {
      assert s[..3] == "://" && s[3..] == rest;
    } else {
      assert s[0] == scheme[0] && scheme[0] in scheme && s[..3][0] != ':';
      assert s[1..] == scheme[1..] + "://" + rest;
      SchemeBack(scheme[1..], rest);
    }
  }

  /** The host of a URL is what stands between `://` and the path, query or fragment. */
  lemma FetchHostBack(scheme: string, host: string, tail: string)
    requires ':' !in scheme && (forall i | 0 <= i < |host| :: host[i] !in {'/', '?', '#'})
    requires tail == "" || tail[0] in {'/', '?', '#'}
    ensures FetchHost(scheme + "://" + host + tail) == host
  {
    var rest := host + tail;
    assert scheme + "://" + host + tail == scheme + "://" + rest;
    SchemeBack(scheme, rest);
    var i := FirstIndex(rest, {'/', '?', '#'});
    assert forall j | 0 <= j < |host| :: rest[j] == host[j];
    assert tail != "" ==> rest[|host|] == tail[0];
    assert i == |host| && rest[..i] == host;
  }

  // ----- the listeners -----

  function TextField(args: seq<Json>, key: string): string {
    if args != [] && args[0].Object? && key in args[0].fields && args[0].fields[key].Text?
    then args[0].fields[key].s else ""
  }

  predicate Granted(ev: Event) {
    if ev.symbol == "uk_action_submit" then TextField(ev.args, "effect") in ev.effects
    else if ev.symbol == "uk_fetch" then
      var host := FetchHost(ev.fetchUrl);
      host != "" && EgressAllowed(host, ev.net)
    else ev.symbol in ev.kernelGrants
  }

  function Keep<S>(): (Event, Flow, Kernel<S>) -> Kernel<S> {
    (ev: Event, f: Flow, k: Kernel<S>) => k
  }

  function GrantGate<S>(): Listener<Event, Kernel<S>> {
    Listener((ev: Event, k: Kernel<S>) => (if Granted(ev) then None else Some(Deny(Num(4001), "CallDenied")), k), Keep())
  }

  function Latch<S>(h: Host<S>): Listener<Event, Kernel<S>> {
    Listener((ev: Event, k: Kernel<S>) =>
      (if ev.symbol in SensitiveBlocked() && h.latched(ev.principal, k.sys) then Some(Deny(Uk(4701), "SensitiveLatched")) else None, k),
      Keep())
  }

  function ConsultMeter<S>(h: Host<S>, ev: Event, k: Kernel<S>): (Option<Flow>, Kernel<S>) {
    if ev.symbol !in Metered() then (None, k)
    else
      var (code, sys) := h.consume(ev.principal, LOOPBACK_BUDGET, LOOPBACK_RATE_LIMIT, k.sys);
      (if code == 0 then None
       else if code == 1 then Some(Deny(Uk(4601), "RateLimited"))
       else Some(Deny(Uk(4602), "BudgetExceeded")),
       k.(sys := sys, consumed := k.consumed + [ev.principal]))
  }

  function Meter<S>(h: Host<S>): Listener<Event, Kernel<S>> {
    Listener((ev: Event, k: Kernel<S>) => ConsultMeter(h, ev, k), Keep())
  }

  function Posture<S>(h: Host<S>): Listener<Event, Kernel<S>> {
    Listener((ev: Event, k: Kernel<S>) =>
      (if !h.strict(k.sys) then None
       else if ev.symbol in PostureExempt() then None
       else if h.mutates(ev.symbol) == Some(false) then None
       else Some(Deny(Uk(4501), "ConsoleOnly")), k),
      Keep())
  }

  function FlowOf(a: Answer): Flow {
    match a
    case Value(v) => Ok(v)
    case Failure(code, message) => Err(code, message)
  }

  function EffectiveDeadline<S>(h: Host<S>, ev: Event): Option<nat> {
    var declared :- h.timeout(ev.symbol);
    Some(if ev.maxMs.Some? then ev.maxMs.value else declared)
  }

  /** The dispatch on a worker thread, which installs its own caller and trace tags. */
  function RunWithDeadline<S>(h: Host<S>, ms: nat, ev: Event, k: Kernel<S>): (Flow, Kernel<S>) {
    var start := Start(Some(ev.caller), Some(ev.trace), ev.principal, ev.symbol, ev.args);
    var k1 := k.(starts := k.starts + [start]);
    match h.late(ms, start, k.sys)
    case Some(sys) => (Deny(Uk(4603), "ToolTimeout"), k1.(sys := sys))
    case None =>
      var (a, sys) := h.dispatch(start, k.sys);
      (FlowOf(a), k1.(sys := sys))
  }

  function ArmDeadline<S>(h: Host<S>, ev: Event, k: Kernel<S>): (Option<Flow>, Kernel<S>) {
    match EffectiveDeadline(h, ev)
    case None => (None, k)
    case Some(ms) =>
      var (f, k1) := RunWithDeadline(h, ms, ev, k);
      (Some(f), k1)
  }

  function Guard<S>(h: Host<S>): Listener<Event, Kernel<S>> {
    Listener((ev: Event, k: Kernel<S>) => ArmDeadline(h, ev, k), Keep())
  }

  /** The dispatch on the calling thread, under the tags that thread carries. */
  function PlainDispatch<S>(h: Host<S>, ev: Event, k: Kernel<S>): (Flow, Kernel<S>) {
    var start := Start(k.caller, k.trace, ev.principal, ev.symbol, ev.args);
    var (a, sys) := h.dispatch(start, k.sys);
    (FlowOf(a), k.(sys := sys, starts := k.starts + [start]))
  }

  function Dispatch<S>(h: Host<S>): Listener<Event, Kernel<S>> {
    Listener((ev: Event, k: Kernel<S>) => var (f, k1) := PlainDispatch(h, ev, k); (Some(f), k1), Keep())
  }

  function AppendAudit<S>(symbol: string, args: seq<Json>, ok: bool, detail: Detail, k: Kernel<S>): Kernel<S> {
    k.(audit := k.audit + [AuditEntry(k.caller, k.trace, symbol, args, ok, detail)])
  }

  function AuditFlow<S>(ev: Event, f: Flow, k: Kernel<S>): Kernel<S> {
    match f
    case Next => k
    case Deny(code, _) => AppendAudit(ev.symbol, ev.args, false, Refused(code), k)
    case Ok(_) => AppendAudit(ev.symbol, ev.args, true, if ev.symbol == "uk_fetch" then Allowed(FetchHost(ev.fetchUrl)) else NoDetail, k)
    case Err(code, message) => AppendAudit(ev.symbol, ev.args, false, KernelError(code, message), k)
  }

  function Audit<S>(): Listener<Event, Kernel<S>> {
    Listener((ev: Event, k: Kernel<S>) => (None, k), (ev: Event, f: Flow, k: Kernel<S>) => AuditFlow(ev, f, k))
  }

  /** All seven listeners, outermost first. */
  function Chain<S>(h: Host<S>): seq<Listener<Event, Kernel<S>>> {
    [Audit(), GrantGate(), Latch(h), Meter(h), Posture(h), Guard(h), Dispatch(h)]
  }

  // ----- one call -----

  datatype Reply = Result(value: Json) | Error(code: Code, name: string)

  /** A request: the module's own grants, an optional sub-agent handle, and the parsed body. */
  datatype Call = Call(agent: Option<int>, moduleName: string, grants: Grants, net: set<string>,
                       maxMs: Option<nat>, symbol: string, body: Option<Json>)

  function ReplyOf(f: Flow): Reply {
    match f
    case Next => Error(Num(4001), "CallDenied")
    case Deny(code, name) => Error(code, name)
    case Ok(v) => Result(v)
    case Err(code, _) => Error(Num(code), "KernelError")
  }

  function NoGrants(): Grants {
    Grants({}, {}, {}, {}, [])
  }

  /** Who the call runs as: a sub-agent with its own bounds, or the module. */
  function Identity<S>(h: Host<S>, c: Call, sys: S): Option<Caller> {
    match c.agent
    case None => Some(Caller("gadget", c.moduleName, c.grants))
    case Some(handle) =>
      var (bounds, id) :- h.agent(handle, sys);
      Some(Caller("agent", id, bounds))
  }

  predicate WellPosed(c: Call) {
    c.body.Some? && c.body.value.Array?
  }

  function EventOf(c: Call, who: Caller, number: nat): Event
    requires WellPosed(c)
  {
    var args := c.body.value.items;
    Event(c.symbol, args, who.principal, who.grants.kernel, who.grants.effects, c.net,
          if c.symbol == "uk_fetch" then TextField(args, "url") else "", who, Trace(who.principal, number), c.maxMs)
  }

  /** The kernel as the chain finds it: caller and trace installed, trace number taken. */
  function Tagged<S>(k: Kernel<S>, who: Caller): Kernel<S> {
    k.(caller := Some(who), trace := Some(Trace(who.principal, k.traceSeq)), traceSeq := (k.traceSeq + 1) % TRACE_MODULUS)
  }

  function Cleared<S>(k: Kernel<S>): Kernel<S> {
    k.(caller := None, trace := None)
  }

  function UnknownAgent(handle: int): Caller {
    Caller("agent", "agent-" + (if handle < 0 then "-" + DecimalText(-handle) else DecimalText(handle)), NoGrants())
  }

  /** One loopback call: the reply and the host afterwards. */
  function DispatchLoopback<S>(h: Host<S>, c: Call, k: Kernel<S>): (Reply, Kernel<S>) {
    if !WellPosed(c) then (Error(Num(4000), ""), k)
    else
      var args := c.body.value.items;
      match Identity(h, c, k.sys)
      case None =>
        var k1 := k.(caller := Some(UnknownAgent(c.agent.value)));
        (Error(Num(4001), "CallDenied"), Cleared(AppendAudit(c.symbol, args, false, Refused(Num(4001)), k1)))
      case Some(who) =>
        var (f, k1) := Waterfall(Chain(h), 0, EventOf(c, who, k.traceSeq), Tagged(k, who));
        (ReplyOf(f), Cleared(k1))
  }

  // ----- what the chain decides, gate by gate -----

  datatype Gate = AtGrant | AtLatch | AtMeter | AtPosture | Past

  predicate Blocked<S>(h: Host<S>, ev: Event, sys: S) {
    ev.symbol in SensitiveBlocked() && h.latched(ev.principal, sys)
  }

  /** The meter's verdict and the kernel state after it was consulted, if it was. */
  function MeterVerdict<S>(h: Host<S>, ev: Event, sys: S): (int, S) {
    if ev.symbol in Metered() then h.consume(ev.principal, LOOPBACK_BUDGET, LOOPBACK_RATE_LIMIT, sys) else (0, sys)
  }

  predicate Paused<S>(h: Host<S>, ev: Event, sys: S) {
    h.strict(sys) && ev.symbol !in PostureExempt() && h.mutates(ev.symbol) != Some(false)
  }

  /** The first gate that refuses the event. */
  function FirstRefusal<S>(h: Host<S>, ev: Event, sys: S): Gate {
    if !Granted(ev) then AtGrant
    else if Blocked(h, ev, sys) then AtLatch
    else if MeterVerdict(h, ev, sys).0 != 0 then AtMeter
    else if Paused(h, ev, MeterVerdict(h, ev, sys).1) then AtPosture
    else Past
  }

  /** The refusal that belongs to each gate. */
  function Refusal(gate: Gate, meter: int): Flow {
    match gate
    case AtGrant => Deny(Num(4001), "CallDenied")
    case AtLatch => Deny(Uk(4701), "SensitiveLatched")
    case AtMeter => if meter == 1 then Deny(Uk(4601), "RateLimited") else Deny(Uk(4602), "BudgetExceeded")
    case AtPosture => Deny(Uk(4501), "ConsoleOnly")
    case Past => Next
  }

  predicate MeterReached<S>(h: Host<S>, ev: Event, sys: S) {
    Granted(ev) && !Blocked(h, ev, sys) && ev.symbol in Metered()
  }

  /** What the six inner listeners do to flow and state, said gate by gate. */
  ghost predicate Decided<S>(h: Host<S>, ev: Event, k: Kernel<S>, f: Flow, k': Kernel<S>) {
    var gate := FirstRefusal(h, ev, k.sys);
    && f != Next
    && k'.audit == k.audit && k'.caller == k.caller && k'.trace == k.trace && k'.traceSeq == k.traceSeq
    && k'.consumed == (if MeterReached(h, ev, k.sys) then k.consumed + [ev.principal] else k.consumed)
    && (gate != Past ==> f == Refusal(gate, MeterVerdict(h, ev, k.sys).0) && k'.starts == k.starts)
    && (gate == AtGrant || gate == AtLatch ==> k'.sys == k.sys)
    && (gate == AtMeter || gate == AtPosture ==> k'.sys == MeterVerdict(h, ev, k.sys).1)
    && (gate == Past ==> (f, k'.sys) == Outcome(h, ev, MeterVerdict(h, ev, k.sys).1)
                         && k'.starts == k.starts + [StartOf(ev)])
  }

  function StartOf(ev: Event): Start {
    Start(Some(ev.caller), Some(ev.trace), ev.principal, ev.symbol, ev.args)
  }

  /** The dispatch itself, run to completion or cut off at the deadline. */
  function Outcome<S>(h: Host<S>, ev: Event, sys: S): (Flow, S) {
    var ms := EffectiveDeadline(h, ev);
    if ms.Some? && h.late(ms.value, StartOf(ev), sys).Some?
    then (Deny(Uk(4603), "ToolTimeout"), h.late(ms.value, StartOf(ev), sys).value)
    else var (a, sys') := h.dispatch(StartOf(ev), sys); (FlowOf(a), sys')
  }

  ghost predicate CarriesTags<S>(ev: Event, k: Kernel<S>) {
    k.caller == Some(ev.caller) && k.trace == Some(ev.trace)
  }

  lemma FromGuard<S>(h: Host<S>, ev: Event, k: Kernel<S>)
    requires CarriesTags(ev, k)
    ensures var (f, k') := Waterfall(Chain(h), 5, ev, k);
            && (f, k'.sys) == Outcome(h, ev, k.sys) && k' == k.(sys := k'.sys, starts := k.starts + [StartOf(ev)])
            && f != Next
  {
    assert Waterfall(Chain(h), 6, ev, k) == PlainDispatch(h, ev, k);
  }

  lemma FromPosture<S>(h: Host<S>, ev: Event, k: Kernel<S>)
    ensures Waterfall(Chain(h), 4, ev, k)
         == if Paused(h, ev, k.sys) then (Deny(Uk(4501), "ConsoleOnly"), k) else Waterfall(Chain(h), 5, ev, k)
  {
    hide Guard, Dispatch, PostureExempt;
  }

  lemma FromMeter<S>(h: Host<S>, ev: Event, k: Kernel<S>)
    ensures Waterfall(Chain(h), 3, ev, k)
         == var (own, k1) := ConsultMeter(h, ev, k); if own.Some? then (own.value, k1) else Waterfall(Chain(h), 4, ev, k1)
  {
    hide Guard, Dispatch, Posture, ConsultMeter;
    var l, rest := Chain(h)[3], Waterfall(Chain(h), 4, ev, ConsultMeter(h, ev, k).1);
    assert l.decide(ev, k) == ConsultMeter(h, ev, k) && l.after(ev, rest.0, rest.1) == rest.1;
  }

  lemma FromGrant<S>(h: Host<S>, ev: Event, k: Kernel<S>)
    ensures Waterfall(Chain(h), 1, ev, k)
         == if !Granted(ev) then (Deny(Num(4001), "CallDenied"), k)
            else if Blocked(h, ev, k.sys) then (Deny(Uk(4701), "SensitiveLatched"), k)
            else Waterfall(Chain(h), 3, ev, k)
  {
    hide Guard, Dispatch, Posture, Meter, Granted, SensitiveBlocked;
    assert Waterfall(Chain(h), 2, ev, k)
        == if Blocked(h, ev, k.sys) then (Deny(Uk(4701), "SensitiveLatched"), k) else Waterfall(Chain(h), 3, ev, k);
  }

  /** The six inner listeners decide exactly by the first refusing gate. */
  lemma ChainDecides<S>(h: Host<S>, ev: Event, k: Kernel<S>)
    requires CarriesTags(ev, k)
    ensures var (f, k') := Waterfall(Chain(h), 1, ev, k); Decided(h, ev, k, f, k')
  {
    hide Waterfall, Chain, Granted, SensitiveBlocked, PostureExempt, Metered, Outcome;
    FromGrant(h, ev, k);
    FromMeter(h, ev, k);
    var k1 := ConsultMeter(h, ev, k).1;
    FromPosture(h, ev, k1);
    FromGuard(h, ev, k1);
  }

  lemma FromAudit<S>(h: Host<S>, ev: Event, k: Kernel<S>)
    ensures var (f, k1) := Waterfall(Chain(h), 1, ev, k);
            Waterfall(Chain(h), 0, ev, k) == (f, AuditFlow(ev, f, k1))
  {
    hide Guard, Dispatch, Posture, Meter, Granted, SensitiveBlocked, GrantGate, Latch, AuditFlow;
  }

  // ----- the loopback theorems -----

  /** The identity an audit entry of this call must carry. */
  function Acting<S>(h: Host<S>, c: Call, sys: S): Caller {
    match Identity(h, c, sys)
    case Some(who) => who
    case None => if c.agent.Some? then UnknownAgent(c.agent.value) else Caller("gadget", c.moduleName, c.grants)
  }

  /** The gate at which a call of a known identity ends. */
  function CallGate<S>(h: Host<S>, c: Call, k: Kernel<S>): Option<Gate>
    requires WellPosed(c)
  {
    var who :- Identity(h, c, k.sys);
    Some(FirstRefusal(h, EventOf(c, who, k.traceSeq), k.sys))
  }

  /** Flow and state around the audit of one call by a known identity. */
  lemma KnownCaller<S>(h: Host<S>, c: Call, who: Caller, k: Kernel<S>) returns (f: Flow, k1: Kernel<S>)
    requires WellPosed(c) && Identity(h, c, k.sys) == Some(who)
    ensures Decided(h, EventOf(c, who, k.traceSeq), Tagged(k, who), f, k1)
    ensures DispatchLoopback(h, c, k) == (ReplyOf(f), Cleared(AuditFlow(EventOf(c, who, k.traceSeq), f, k1)))
  {
    hide Waterfall, Chain, FirstRefusal, Outcome, Decided, Identity;
    var ev := EventOf(c, who, k.traceSeq);
    FromAudit(h, ev, Tagged(k, who));
    ChainDecides(h, ev, Tagged(k, who));
    var w := Waterfall(Chain(h), 1, ev, Tagged(k, who));
    f, k1 := w.0, w.1;
  }

  /**
   For every call with a JSON-array body, one audit entry is appended, tagged with the acting
   identity, and true exactly when the reply is a result. The caller tags end cleared.
   */
  lemma OneAuditPerCall<S>(h: Host<S>, c: Call, k: Kernel<S>)
    requires WellPosed(c)
    ensures var (r, k') := DispatchLoopback(h, c, k);
            && |k'.audit| == |k.audit| + 1 && k'.audit[..|k.audit|] == k.audit
            && k'.caller == None && k'.trace == None
            && var e := k'.audit[|k.audit|];
               && (e.ok <==> r.Result?)
               && e.symbol == c.symbol && e.args == c.body.value.items
               && e.caller == Some(Acting(h, c, k.sys))
  {
    hide Waterfall, Chain, FirstRefusal, Outcome;
    if Identity(h, c, k.sys).Some? {
      var f, k1 := KnownCaller(h, c, Identity(h, c, k.sys).value, k);
    }
  }

  /**
   Kernel dispatch begins at most once per call, under the acting identity, and exactly when
   the caller is known and grant, latch, meter and posture have all let the call through.
   */
  lemma DispatchOnlyPastGates<S>(h: Host<S>, c: Call, k: Kernel<S>)
    requires WellPosed(c)
    ensures var k' := DispatchLoopback(h, c, k).1;
            if CallGate(h, c, k) == Some(Past)
            then k'.starts == k.starts + [StartOf(EventOf(c, Acting(h, c, k.sys), k.traceSeq))]
            else k'.starts == k.starts
  {
    hide Waterfall, Chain, FirstRefusal, Outcome;
    if Identity(h, c, k.sys).Some? {
      var f, k1 := KnownCaller(h, c, Identity(h, c, k.sys).value, k);
    }
  }

  /** The reply to a refused call is the refusal of the first gate that fails. */
  lemma DenialIsFirstGate<S>(h: Host<S>, c: Call, k: Kernel<S>)
    requires WellPosed(c)
    ensures CallGate(h, c, k) == None ==> DispatchLoopback(h, c, k).0 == Error(Num(4001), "CallDenied")
    ensures CallGate(h, c, k).Some? && CallGate(h, c, k) != Some(Past) ==>
              var meter := MeterVerdict(h, EventOf(c, Acting(h, c, k.sys), k.traceSeq), k.sys).0;
              DispatchLoopback(h, c, k).0 == ReplyOf(Refusal(CallGate(h, c, k).value, meter))
  {
    hide Waterfall, Chain, FirstRefusal, Outcome;
    if Identity(h, c, k.sys).Some? {
      var f, k1 := KnownCaller(h, c, Identity(h, c, k.sys).value, k);
    }
  }

  /** Budget is consumed only for a metered symbol, past grant and latch, and then once. */
  lemma BudgetOnlyPastLatch<S>(h: Host<S>, c: Call, k: Kernel<S>)
    requires WellPosed(c)
    ensures var k' := DispatchLoopback(h, c, k).1;
            var who := Acting(h, c, k.sys);
            if Identity(h, c, k.sys).Some? && MeterReached(h, EventOf(c, who, k.traceSeq), k.sys)
            then k'.consumed == k.consumed + [who.principal]
            else k'.consumed == k.consumed
  {
    hide Waterfall, Chain, FirstRefusal, Outcome, MeterReached;
    if Identity(h, c, k.sys).Some? {
      var f, k1 := KnownCaller(h, c, Identity(h, c, k.sys).value, k);
    }
  }

  /** The chain always owns the event. */
  lemma NextNeverEscapes<S>(h: Host<S>, c: Call, who: Caller, k: Kernel<S>)
    requires WellPosed(c) && Identity(h, c, k.sys) == Some(who)
    ensures Waterfall(Chain(h), 0, EventOf(c, who, k.traceSeq), Tagged(k, who)).0 != Next
  {
    hide Waterfall, Chain, FirstRefusal, Outcome, Identity;
    FromAudit(h, EventOf(c, who, k.traceSeq), Tagged(k, who));
    ChainDecides(h, EventOf(c, who, k.traceSeq), Tagged(k, who));
  }

  /** The same host with no declared deadlines. */
  function Unhurried<S>(h: Host<S>): Host<S> {
    h.(timeout := (s: string) => None)
  }

  ghost predicate InTime<S>(h: Host<S>, ev: Event, sys: S) {
    var ms := EffectiveDeadline(h, ev);
    ms.Some? ==> h.late(ms.value, StartOf(ev), sys) == None
  }

  lemma SameDecision<S>(h: Host<S>, g: Host<S>, ev: Event, k: Kernel<S>, f: Flow, k1: Kernel<S>, f': Flow, k1': Kernel<S>)
    requires g == Unhurried(h) && InTime(h, ev, MeterVerdict(h, ev, k.sys).1)
    requires Decided(h, ev, k, f, k1) && Decided(g, ev, k, f', k1')
    ensures f == f' && k1 == k1'
  {
    hide Metered, SensitiveBlocked, PostureExempt, Granted;
    assert FirstRefusal(g, ev, k.sys) == FirstRefusal(h, ev, k.sys);
    assert Outcome(g, ev, MeterVerdict(g, ev, k.sys).1) == Outcome(h, ev, MeterVerdict(h, ev, k.sys).1);
  }

  /**
   A deadline that the dispatch meets changes nothing: reply and state are those of the same
   host without deadlines.
   */
  lemma DeadlineTransparent<S>(h: Host<S>, c: Call, k: Kernel<S>)
    requires WellPosed(c) && Identity(h, c, k.sys).Some?
    requires var ev := EventOf(c, Acting(h, c, k.sys), k.traceSeq); InTime(h, ev, MeterVerdict(h, ev, k.sys).1)
    ensures DispatchLoopback(h, c, k) == DispatchLoopback(Unhurried(h), c, k)
  {
    hide Waterfall, Chain, DispatchLoopback, Decided, MeterVerdict, InTime;
    var who := Identity(h, c, k.sys).value;
    var f, k1 := KnownCaller(h, c, who, k);
    var f', k1' := KnownCaller(Unhurried(h), c, who, k);
    SameDecision(h, Unhurried(h), EventOf(c, who, k.traceSeq), Tagged(k, who), f, k1, f', k1');
  }

  // ----- runs -----

  /** A run of calls; before each one the kernel's own state may have become anything. */
  function Calls<S>(h: Host<S>, cs: seq<(Call, S)>, k: Kernel<S>): (r: (seq<Reply>, Kernel<S>))
    ensures |r.0| == |cs|
  {
    if cs == [] then ([], k)
    else
      var n := |cs| - 1;
      var (rs, k1) := Calls(h, cs[..n], k);
      var (r, k2) := DispatchLoopback(h, cs[n].0, k1.(sys := cs[n].1));
      (rs + [r], k2)
  }

  /** The replies to the calls whose body was an array. */
  function Answered<S>(cs: seq<(Call, S)>, rs: seq<Reply>): seq<bool>
    requires |cs| == |rs|
  {
    if cs == [] then []
    else
      var n := |cs| - 1;
      Answered(cs[..n], rs[..n]) + (if WellPosed(cs[n].0) then [rs[n].Result?] else [])
  }

  function Oks(es: seq<AuditEntry>): seq<bool> {
    seq(|es|, i requires 0 <= i < |es| => es[i].ok)
  }

  /**
   Over any run the audit log grows by one entry for each array-bodied call, in order, and
   its verdicts are the replies' verdicts; dispatches never outnumber the entries.
   */
  lemma {:induction false} RunIsAudited<S>(h: Host<S>, cs: seq<(Call, S)>, k: Kernel<S>)
    ensures var (rs, k') := Calls(h, cs, k);
            && Oks(k'.audit) == Oks(k.audit) + Answered(cs, rs)
            && |k.starts| <= |k'.starts| && |k'.starts| - |k.starts| <= |k'.audit| - |k.audit|
  {
    hide DispatchLoopback, CallGate, Acting, StartOf, EventOf;
    if cs != [] {
      var n := |cs| - 1;
      RunIsAudited(h, cs[..n], k);
      var (rs, k1) := Calls(h, cs[..n], k);
      assert Calls(h, cs, k).0[..n] == rs;
      LoopAudited(h, cs[n].0, k1.(sys := cs[n].1));
    }
  }

  lemma LoopAudited<S>(h: Host<S>, c: Call, k: Kernel<S>)
    ensures var (r, k') := DispatchLoopback(h, c, k);
            && Oks(k'.audit) == Oks(k.audit) + (if WellPosed(c) then [r.Result?] else [])
            && |k.starts| <= |k'.starts| && |k'.starts| - |k.starts| <= |k'.audit| - |k.audit|
  {
    if WellPosed(c) {
      hide DispatchLoopback, CallGate, Acting, StartOf, EventOf;
      OneAuditPerCall(h, c, k);
      DispatchOnlyPastGates(h, c, k);
      var k' := DispatchLoopback(h, c, k).1;
      assert k'.audit == k.audit + [k'.audit[|k.audit|]];
    }
  }
}
