/** The compiler's gate over the process's authority state: which manifests stand behind a compiled call. */
module CpsAuthority {
  import opened Util
  import opened Bytes
  import opened CpsFormat
  import CpsGate
  import CpsGen
  import CpsTheorems
  import Grants
  import Authority

  /** The engine slot and deployment principal as the compiler reads them. */
  function GateOf(a: Authority.Auth): CpsGate.Auth {
    CpsGate.Auth(
      if a.slot.Installed?
      then Some((p, act, r) => if Grants.Authorizes(a.slot.engine, p, act, r) then CpsGate.Allow else CpsGate.Deny)
      else None,
      a.principal)
  }

  lemma GateAllows(a: Authority.Auth, p: string, f: string)
    ensures CpsGate.Check(GateOf(a), p, "Call", f) <==> Authority.Allows(a.slot, p, "Call", f)
  {
  }

  /** The name of the manifest that wrote the engine slot last. */
  function WriterName(w: Authority.Writer): Option<string> {
    match w
    case Nobody => None
    case Loader(n) => Some(n)
    case Alone(m) => Some(m.name)
  }

  lemma PrincipalIsWriter(es: seq<Authority.Event>, caller: string, moduleName: string)
    ensures var w := WriterName(Authority.LastWriter(es));
            w.Some? && w.value != "" ==>
              CpsGate.Principal(CpsGate.Ctx(GateOf(Authority.Run(Authority.Fresh(), es)), caller, moduleName)) == w.value
  {
    hide Authority.Run, Authority.LastWriter;
    Authority.RunWrites(es);
  }

  /**
   After any run of manifest loads, checks, module loads and swaps, every kernel call in every
   function of a module that compiles, other than to the function itself, is listed for the
   compiling principal by a manifest that decides: so before any manifest was accepted no
   such call is compiled at all. The principal is the last writer's name unless that is empty.
   */
  lemma CompiledCallsAreListed(es: seq<Authority.Event>, d: seq<Byte>, k: nat, b: nat, i: nat)
    requires CpsTheorems.CompileModule(GateOf(Authority.Run(Authority.Fresh(), es)), d).Some?
    requires var gs := CpsTheorems.CompileModule(GateOf(Authority.Run(Authority.Fresh(), es)), d).value;
             k < |gs| && b < |gs[k].blocks| && i < |gs[k].blocks[b]|
    ensures var auth := GateOf(Authority.Run(Authority.Fresh(), es));
            var t, ins := ParseTable(d).value, CpsTheorems.CompileModule(auth, d).value[k].blocks[b][i];
            var c := CpsGate.Ctx(auth, t.funs[k].name, t.moduleName);
            && (ins.CallI? && CpsGate.KernelName(ins.f) && ins.f != c.caller ==>
                  Authority.Listed(es, CpsGate.Principal(c), ins.f))
            && (var w := WriterName(Authority.LastWriter(es)); w.Some? && w.value != "" ==> CpsGate.Principal(c) == w.value)
  {
    hide Authority.Run, Authority.LastWriter, Authority.Listed, CpsGate.KernelName, CpsGate.Principal, GateOf;
    hide ParseTable, ParseStmts, CpsGen.GenFun;
    var a := Authority.Run(Authority.Fresh(), es);
    var auth := GateOf(a);
    var t := ParseTable(d).value;
    var c := CpsGate.Ctx(auth, t.funs[k].name, t.moduleName);
    CpsTheorems.CompiledEach(auth, t.moduleName, t.funs, k);
    var body := ParseStmts(t.funs[k].body, 0).value;
    CpsTheorems.GateComplete(c, t.funs[k].params, body, b, i);
    var ins := CpsTheorems.CompileModule(auth, d).value[k].blocks[b][i];
    if ins.CallI? {
      GateAllows(a, CpsGate.Principal(c), ins.f);
      Authority.ChecksDecide(es, CpsGate.Principal(c), ins.f);
    }
    PrincipalIsWriter(es, c.caller, c.moduleName);
  }

  // ----- the code of loaded modules -----

  /** The gate while a module is built: its own manifest's engine, and its name. */
  function OwnGate(m: Grants.Manifest): CpsGate.Auth
    requires Grants.Accepted(Some(m))
  {
    GateOf(Authority.Installing(Authority.Fresh(), m))
  }

  lemma BuildGate(a: Authority.Auth, m: Grants.Manifest)
    requires Grants.Accepted(Some(m))
    ensures GateOf(Authority.Installing(a, m)) == OwnGate(m)
  {
    assert Authority.Installing(a, m).slot == Authority.Installing(Authority.Fresh(), m).slot;
  }

  /** A module directory: its parsed manifest, its code file, and whether the compiled code links. */
  datatype Module = Module(manifest: Option<Grants.Manifest>, code: Option<seq<Byte>>, links: bool)

  /** What loader and swap find: the code builds if it compiles under the engine and principal
      they have just installed, and links. */
  function CandidateOf(a: Authority.Auth, d: Module): Authority.Candidate {
    Authority.Candidate(d.manifest, d.code.Some?,
      && d.code.Some? && Grants.Accepted(d.manifest) && d.links
      && CpsTheorems.CompileModule(GateOf(Authority.Installing(a, d.manifest.value)), d.code.value).Some?)
  }

  datatype ModuleEvent =
    | Load(manifest: Option<Grants.Manifest>)
    | Ask
    | LoadModule(dir: Module)
    | Swap(name: string, dir: Module)

  function EventOf(a: Authority.Auth, e: ModuleEvent): Authority.Event {
    match e
    case Load(m) => Authority.Load(m)
    case Ask => Authority.Ask
    case LoadModule(d) => Authority.LoadModule(CandidateOf(a, d))
    case Swap(n, d) => Authority.Swap(n, CandidateOf(a, d))
  }

  /** The authority state and the code of each loaded module. */
  datatype System = System(auth: Authority.Auth, code: map<string, seq<Byte>>)

  function StepSystem(s: System, e: ModuleEvent): System {
    var auth := Authority.Step(s.auth, EventOf(s.auth, e));
    match e
    case LoadModule(d) =>
      var c := CandidateOf(s.auth, d);
      System(auth, if c.builds then s.code[d.manifest.value.name := d.code.value] else s.code)
    case Swap(n, d) =>
      System(auth, if Authority.Swapped(s.auth, n, CandidateOf(s.auth, d)).0 == None && d.code.Some? then s.code[n := d.code.value] else s.code)
    case _ => System(auth, s.code)
  }

  function RunSystem(es: seq<ModuleEvent>): System {
    if es == [] then System(Authority.Fresh(), map[])
    else StepSystem(RunSystem(es[..|es| - 1]), es[|es| - 1])
  }

  /** The module's code compiled under its own manifest. */
  predicate Built(m: Grants.Manifest, code: seq<Byte>) {
    Grants.Accepted(Some(m)) && CpsTheorems.CompileModule(OwnGate(m), code).Some?
  }

  ghost predicate AllBuilt(s: System) {
    s.auth.modules.Keys == s.code.Keys && forall n | n in s.code :: Built(s.auth.modules[n], s.code[n])
  }

  lemma StepBuilt(s: System, e: ModuleEvent)
    requires AllBuilt(s)
    ensures AllBuilt(StepSystem(s, e))
  {
    hide CpsTheorems.CompileModule, Grants.Merged, Grants.FromManifest, Authority.FirstOutside, Authority.Escalation, OwnGate, Authority.Narrows, GateOf;
    if (e.LoadModule? || e.Swap?) && Grants.Accepted(e.dir.manifest) {
      BuildGate(s.auth, e.dir.manifest.value);
    }
    if e.Swap? {
      Authority.SwapGate(s.auth, e.name, CandidateOf(s.auth, e.dir));
    }
  }

  lemma {:induction false} RunBuilt(es: seq<ModuleEvent>)
    ensures AllBuilt(RunSystem(es))
  {
    hide StepSystem, Built;
    if es != [] {
      RunBuilt(es[..|es| - 1]);
      StepBuilt(RunSystem(es[..|es| - 1]), es[|es| - 1]);
    }
  }

  /**
   After any run of loads, checks, module loads and swaps, every kernel call in the compiled
   code of every loaded module, other than to the function itself, is listed by that module's
   own current manifest.
   */
  lemma LoadedCallsAreListed(es: seq<ModuleEvent>, n: string, k: nat, b: nat, i: nat)
    requires n in RunSystem(es).auth.modules
    ensures var s := RunSystem(es);
            var m := s.auth.modules[n];
            && n in s.code && Built(m, s.code[n])
            && var gs := CpsTheorems.CompileModule(OwnGate(m), s.code[n]).value;
               k < |gs| && b < |gs[k].blocks| && i < |gs[k].blocks[b]| ==>
                 var ins := gs[k].blocks[b][i];
                 ins.CallI? && CpsGate.KernelName(ins.f) && ins.f != ParseTable(s.code[n]).value.funs[k].name ==>
                   ins.f in m.kernel || ins.f in m.zenodo
  {
    RunBuilt(es);
    var s := RunSystem(es);
    var m := s.auth.modules[n];
    hide RunSystem;
    var gs := CpsTheorems.CompileModule(OwnGate(m), s.code[n]).value;
    if k < |gs| && b < |gs[k].blocks| && i < |gs[k].blocks[b]| {
      OwnCallsListed(m, s.code[n], k, b, i);
    }
  }

  lemma OwnCallsListed(m: Grants.Manifest, d: seq<Byte>, k: nat, b: nat, i: nat)
    requires Built(m, d)
    requires var gs := CpsTheorems.CompileModule(OwnGate(m), d).value; k < |gs| && b < |gs[k].blocks| && i < |gs[k].blocks[b]|
    ensures var ins := CpsTheorems.CompileModule(OwnGate(m), d).value[k].blocks[b][i];
            ins.CallI? && CpsGate.KernelName(ins.f) && ins.f != ParseTable(d).value.funs[k].name ==> ins.f in m.kernel || ins.f in m.zenodo
  {
    hide CpsGate.KernelName, CpsGate.Principal, OwnGate, ParseTable, ParseStmts, CpsGen.GenFun;
    var auth, t := OwnGate(m), ParseTable(d).value;
    var c := CpsGate.Ctx(auth, t.funs[k].name, t.moduleName);
    CpsTheorems.CompiledEach(auth, t.moduleName, t.funs, k);
    CpsTheorems.GateComplete(c, t.funs[k].params, ParseStmts(t.funs[k].body, 0).value, b, i);
    var ins := CpsTheorems.CompileModule(auth, d).value[k].blocks[b][i];
    if ins.CallI? {
      OwnAllows(m, CpsGate.Principal(c), ins.f);
    }
  }

  lemma OwnAllows(m: Grants.Manifest, p: string, f: string)
    requires Grants.Accepted(Some(m))
    ensures CpsGate.Check(OwnGate(m), p, "Call", f) ==> f in m.kernel || f in m.zenodo
  {
    GateAllows(Authority.Installing(Authority.Fresh(), m), p, f);
    Authority.AloneLists(m, p, f);
  }
}
