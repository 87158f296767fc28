/**
 The process-wide authority state: manifests merged by the loader, the one engine slot that
 loads, module loads and swaps all write, the deployment principal, and the loaded modules.
 */
module Authority {
  import opened Util
  import opened Grants

  datatype Slot = Empty | DenyAll | Installed(engine: Engine)

  predicate Allows(s: Slot, principal: string, action: string, resource: string) {
    s.Installed? && Authorizes(s.engine, principal, action, resource)
  }

  /** `merged` is what the loader accumulates; `slot` is the engine that checks consult. */
  datatype Auth = Auth(merged: Engine, slot: Slot, principal: Option<string>, modules: map<string, Manifest>)

  function Fresh(): Auth {
    Auth(NewEngine(), Empty, None, map[])
  }

  // ----- loads and checks -----

  /** A manifest that does not parse (`None`) or has a bad posture changes nothing. */
  function AfterLoad(a: Auth, m: Option<Manifest>): Auth {
    if Accepted(m) then var g := Loaded(a.merged, m); a.(merged := g, slot := Installed(g), principal := Some(m.value.name))
    else a
  }

  /** The first check with nothing installed installs the engine that denies everything. */
  function AfterAsk(a: Auth): Auth {
    if a.slot.Empty? then a.(slot := DenyAll) else a
  }

  // ----- modules -----

  datatype Kind = KernelGrant | FsGrant | EffectGrant | NetGrant

  datatype Refusal =
    | NotLoaded
    | BadManifest
    | NameMismatch
    | Escalates(kind: Kind, grant: string)
    | NoBody
    | BadPosture
    | BuildFailed

  /** What a swap finds on disk: the parsed manifest, the code file, and whether it builds. */
  datatype Candidate = Candidate(manifest: Option<Manifest>, body: bool, builds: bool)

  function FirstOutside(news: seq<string>, olds: seq<string>): (r: Option<string>)
    ensures r.None? <==> Elements(news) <= Elements(olds)
  {
    if news == [] then None
    else
      var init := FirstOutside(news[..|news| - 1], olds);
      var last := news[|news| - 1];
      assert Elements(news) == Elements(news[..|news| - 1]) + {last};
      if init.Some? then init
      else if last in olds then None
      else assert last in Elements(news) && last !in Elements(olds); Some(last)
  }

  /** The loop over one kind of grant: the first one the old manifest does not hold. */
  method CheckSubset(news: seq<string>, olds: seq<string>) returns (r: Option<string>)
    ensures r == FirstOutside(news, olds)
  {
    for i := 0 to |news|
      invariant FirstOutside(news[..i], olds) == None
    {
      assert news[..i + 1][..i] == news[..i];
      if news[i] !in olds {
        OutsideStays(news, i + 1, olds);
        return Some(news[i]);
      }
    }
    assert news[..|news|] == news;
    r := None;
  }

  lemma {:induction false} OutsideStays(news: seq<string>, i: nat, olds: seq<string>)
    requires i <= |news| && FirstOutside(news[..i], olds).Some?
    ensures FirstOutside(news, olds) == FirstOutside(news[..i], olds)
  {
    if i == |news| {
      assert news[..i] == news;
    } else {
      var init := news[..|news| - 1];
      assert init[..i] == news[..i];
      OutsideStays(init, i, olds);
    }
  }

  /** The escalation checks in their order. */
  function Escalation(was: Manifest, next: Manifest): Option<Refusal> {
    var k := FirstOutside(next.kernel, was.kernel);
    var f := FirstOutside(next.fs, was.fs);
    var e := FirstOutside(next.effects, was.effects);
    var n := FirstOutside(next.net, was.net);
    if k.Some? then Some(Escalates(KernelGrant, k.value))
    else if f.Some? then Some(Escalates(FsGrant, f.value))
    else if e.Some? then Some(Escalates(EffectGrant, e.value))
    else if n.Some? then Some(Escalates(NetGrant, n.value))
    else None
  }

  /** The engine of one manifest alone goes into the slot; what the loader merged is not touched. */
  function Installing(a: Auth, m: Manifest): Auth
    requires Accepted(Some(m))
  {
    a.(slot := Installed(FromManifest(m).value), principal := Some(m.name))
  }

  /** Loading a module: its engine is installed before its code is read and built. */
  function AfterModuleLoad(a: Auth, c: Candidate): Auth {
    if !Accepted(c.manifest) then a
    else
      var m := c.manifest.value;
      if c.body && c.builds then Installing(a, m).(modules := a.modules[m.name := m]) else Installing(a, m)
  }

  /** One swap attempt: the refusal, if any, and the state afterwards. */
  function Swapped(a: Auth, name: string, c: Candidate): (Option<Refusal>, Auth) {
    if name !in a.modules then (Some(NotLoaded), a)
    else if c.manifest.None? then (Some(BadManifest), a)
    else
      var was, next := a.modules[name], c.manifest.value;
      if next.name != was.name then (Some(NameMismatch), a)
      else if Escalation(was, next).Some? then (Escalation(was, next), a)
      else if !c.body then (Some(NoBody), a)
      else if !Accepted(c.manifest) then (Some(BadPosture), a)
      else if !c.builds then (Some(BuildFailed), Installing(a, next))
      else (None, Installing(a, next).(modules := a.modules[name := next]))
  }

  // ----- in place -----

  class Process {
    var merged: Engine
    var slot: Slot
    var principal: Option<string>
    var modules: map<string, Manifest>

    function State(): Auth
      reads this
    {
      Auth(merged, slot, principal, modules)
    }

    constructor ()
      ensures State() == Fresh()
    {
      merged, slot, principal, modules := NewEngine(), Empty, None, map[];
    }

    method LoadManifest(m: Option<Manifest>) returns (ok: bool)
      modifies this
      ensures ok == Accepted(m) && State() == AfterLoad(old(State()), m)
    {
      if m.None? {
        return false;
      }
      var engine := FromManifest(m.value);
      if engine.None? {
        return false;
      }
      merged := Merge(merged, engine.value);
      slot := Installed(merged);
      principal := Some(m.value.name);
      return true;
    }

    method Check(who: string, action: string, resource: string) returns (allowed: bool)
      modifies this`slot
      ensures allowed == Allows(old(slot), who, action, resource) && State() == AfterAsk(old(State()))
    {
      if slot.Empty? {
        slot := DenyAll;
      }
      allowed := Allows(slot, who, action, resource);
    }

    method LoadModule(c: Candidate) returns (ok: bool)
      modifies this
      ensures ok == (Accepted(c.manifest) && c.body && c.builds) && State() == AfterModuleLoad(old(State()), c)
    {
      if c.manifest.None? {
        return false;
      }
      var m := c.manifest.value;
      var engine := FromManifest(m);
      if engine.None? {
        return false;
      }
      slot := Installed(engine.value);
      principal := Some(m.name);
      if !c.body || !c.builds {
        return false;
      }
      modules := modules[m.name := m];
      return true;
    }

    method Swap(name: string, c: Candidate) returns (r: Option<Refusal>)
      modifies this
      ensures (r, State()) == Swapped(old(State()), name, c)
    {
      if name !in modules {
        return Some(NotLoaded);
      }
      if c.manifest.None? {
        return Some(BadManifest);
      }
      var was, next := modules[name], c.manifest.value;
      if next.name != was.name {
        return Some(NameMismatch);
      }
      var outside := CheckSubset(next.kernel, was.kernel);
      if outside.Some? {
        return Some(Escalates(KernelGrant, outside.value));
      }
      outside := CheckSubset(next.fs, was.fs);
      if outside.Some? {
        return Some(Escalates(FsGrant, outside.value));
      }
      outside := CheckSubset(next.effects, was.effects);
      if outside.Some? {
        return Some(Escalates(EffectGrant, outside.value));
      }
      outside := CheckSubset(next.net, was.net);
      if outside.Some? {
        return Some(Escalates(NetGrant, outside.value));
      }
      if !c.body {
        return Some(NoBody);
      }
      var engine := FromManifest(next);
      if engine.None? {
        return Some(BadPosture);
      }
      slot := Installed(engine.value);
      principal := Some(next.name);
      if !c.builds {
        return Some(BuildFailed);
      }
      modules := modules[name := next];
      return None;
    }
  }

  // ----- one swap -----

  /** The later manifest holds no grant of any kind that the earlier one did not. */
  predicate Narrows(later: Manifest, earlier: Manifest) {
    && later.name == earlier.name
    && Elements(later.kernel) <= Elements(earlier.kernel)
    && Elements(later.fs) <= Elements(earlier.fs)
    && Elements(later.effects) <= Elements(earlier.effects)
    && Elements(later.net) <= Elements(earlier.net)
  }

  /** The swap gets as far as the engine: loaded, nothing escalates, and the files are in order. */
  predicate Reaches(a: Auth, name: string, c: Candidate) {
    name in a.modules && Accepted(c.manifest) && Narrows(c.manifest.value, a.modules[name]) && c.body
  }

  /**
   A swap goes through exactly when it reaches the engine and the code builds. A refused one
   leaves the whole state as it was exactly when it did not get that far; a failed build
   leaves the modules, but engine and principal are already the new ones.
   */
  lemma SwapGate(a: Auth, name: string, c: Candidate)
    ensures var (r, a') := Swapped(a, name, c);
            && (r == None <==> Reaches(a, name, c) && c.builds)
            && (r == Some(BuildFailed) <==> Reaches(a, name, c) && !c.builds)
            && (!Reaches(a, name, c) ==> r.Some? && a' == a)
            && (r == Some(BuildFailed) ==> a' == Installing(a, c.manifest.value))
            && (r == None ==> a' == Installing(a, c.manifest.value).(modules := a.modules[name := c.manifest.value]))
            && a'.merged == a.merged
  {
    hide FirstOutside, FromManifest;
  }

  function Plain(name: string, kernel: seq<string>, zenodo: seq<string>): Manifest {
    Manifest(name, kernel, zenodo, [], [], [], None, [])
  }

  /** A module whose only grant is `uk_a`, and a swap to no grants whose build fails: refused, and
      yet the call is lost. */
  lemma FailedBuildLosesGrant(a: Auth)
    requires a == AfterModuleLoad(Fresh(), Candidate(Some(Plain("m", ["uk_a"], [])), true, true))
    ensures var (r, a') := Swapped(a, "m", Candidate(Some(Plain("m", [], [])), true, false));
            && r == Some(BuildFailed) && a'.modules == a.modules
            && Allows(a.slot, "m", "Call", "uk_a") && !Allows(a'.slot, "m", "Call", "uk_a")
  {
    var next := Plain("m", [], []);
    assert FirstOutside(next.kernel, ["uk_a"]) == None;
  }

  /** A swap that only adds a `zenodo` entry goes through, and the new call is allowed. */
  lemma ZenodoSwapGains(a: Auth)
    requires a == AfterModuleLoad(Fresh(), Candidate(Some(Plain("m", [], [])), true, true))
    ensures var (r, a') := Swapped(a, "m", Candidate(Some(Plain("m", [], ["uz_publish"])), true, true));
            r == None && !Allows(a.slot, "m", "Call", "uz_publish") && Allows(a'.slot, "m", "Call", "uz_publish")
  {
  }

  /**
   The engine that a successful swap installs allows the module no effect it lacked before,
   and no call it lacked before exactly when the new `zenodo` list, which the subset checks
   do not read, stays inside the old callables.
   */
  lemma SwapCalls(a: Auth, name: string, c: Candidate)
    requires Swapped(a, name, c).0 == None && FromManifest(a.modules[name]).Some?
    ensures var was, next := FromManifest(a.modules[name]).value, Swapped(a, name, c).1.slot.engine;
            var who := a.modules[name].name;
            && (forall r :: Authorizes(next, who, "Effect", r) ==> Authorizes(was, who, "Effect", r))
            && ((forall r :: Authorizes(next, who, "Call", r) ==> Authorizes(was, who, "Call", r))
                <==> Elements(c.manifest.value.zenodo) <= Elements(a.modules[name].kernel) + Elements(a.modules[name].zenodo))
  {
    SwapGate(a, name, c);
    hide FirstOutside, Escalation, ParseLiquid;
    var was, next := a.modules[name], c.manifest.value;
    var before, after := FromManifest(was).value, FromManifest(next).value;
    forall r
      ensures Authorizes(after, was.name, "Call", r) <==> r in Elements(next.kernel) + Elements(next.zenodo)
      ensures Authorizes(before, was.name, "Call", r) <==> r in Elements(was.kernel) + Elements(was.zenodo)
    {
    }
    if forall r :: Authorizes(after, was.name, "Call", r) ==> Authorizes(before, was.name, "Call", r) {
      forall r | r in Elements(next.zenodo) ensures r in Elements(was.kernel) + Elements(was.zenodo) {
        assert Authorizes(after, was.name, "Call", r);
      }
    }
  }

  // ----- runs -----

  datatype Event =
    | Load(manifest: Option<Manifest>)
    | Ask
    | LoadModule(candidate: Candidate)
    | Swap(name: string, candidate: Candidate)

  function Step(a: Auth, e: Event): Auth {
    match e
    case Load(m) => AfterLoad(a, m)
    case Ask => AfterAsk(a)
    case LoadModule(c) => AfterModuleLoad(a, c)
    case Swap(n, c) => Swapped(a, n, c).1
  }

  function Run(a: Auth, es: seq<Event>): Auth {
    if es == [] then a else Step(Run(a, es[..|es| - 1]), es[|es| - 1])
  }

  ghost predicate AllNarrow(later: map<string, Manifest>, earlier: map<string, Manifest>) {
    later.Keys == earlier.Keys && forall n | n in earlier :: Narrows(later[n], earlier[n])
  }

  lemma StepNarrows(a: Auth, e: Event)
    requires !e.LoadModule?
    ensures AllNarrow(Step(a, e).modules, a.modules)
  {
    hide FirstOutside, FromManifest, Escalation, Merged;
    if e.Swap? {
      SwapGate(a, e.name, e.candidate);
    }
  }

  /** Over any run of swap attempts, loads and checks, the grants of every loaded module only shrink. */
  lemma {:induction false} GrantsNeverGrow(a: Auth, es: seq<Event>)
    requires forall i | 0 <= i < |es| :: !es[i].LoadModule?
    ensures AllNarrow(Run(a, es).modules, a.modules)
  {
    hide Step;
    if es != [] {
      var n := |es| - 1;
      GrantsNeverGrow(a, es[..n]);
      StepNarrows(Run(a, es[..n]), es[n]);
    }
  }

  /** The manifests handed to the loader during a run. */
  function Loads(es: seq<Event>): seq<Option<Manifest>> {
    if es == [] then []
    else
      var e := es[|es| - 1];
      Loads(es[..|es| - 1]) + if e.Load? then [e.manifest] else []
  }

  /** Whose engine is in the slot: nobody's, the loader's under the last name loaded, or one manifest's alone. */
  datatype Writer = Nobody | Loader(name: string) | Alone(m: Manifest)

  function LastWriter(es: seq<Event>): Writer {
    if es == [] then Nobody
    else
      var init, e := es[..|es| - 1], es[|es| - 1];
      match e
      case Load(m) => if Accepted(m) then Loader(m.value.name) else LastWriter(init)
      case Ask => LastWriter(init)
      case LoadModule(c) => if Accepted(c.manifest) then Alone(c.manifest.value) else LastWriter(init)
      case Swap(n, c) => if Reaches(Run(Fresh(), init), n, c) then Alone(c.manifest.value) else LastWriter(init)
  }

  /** What the slot and the principal hold, by who wrote last. */
  ghost predicate Written(a: Auth, w: Writer) {
    match w
    case Nobody => !a.slot.Installed? && a.principal == None
    case Loader(n) => a.slot == Installed(a.merged) && a.principal == Some(n)
    case Alone(m) => Accepted(Some(m)) && a.slot == Installed(FromManifest(m).value) && a.principal == Some(m.name)
  }

  lemma {:induction false} RunWrites(es: seq<Event>)
    ensures var a := Run(Fresh(), es); a.merged == LoadAll(Loads(es)) && Written(a, LastWriter(es))
  {
    hide Merged, FromManifest, FirstOutside, Escalation, Narrows;
    if es != [] {
      var init, e := es[..|es| - 1], es[|es| - 1];
      RunWrites(init);
      var a := Run(Fresh(), init);
      match e {
        case Load(m) =>
          assert Loads(es) == Loads(init) + [m] && Loads(es)[..|Loads(es)| - 1] == Loads(init);
          RefusedLoad(a.merged, m);
        case Ask => assert Loads(es) == Loads(init);
        case LoadModule(c) => assert Loads(es) == Loads(init);
        case Swap(n, c) =>
          assert Loads(es) == Loads(init);
          SwapGate(a, n, c);
      }
    }
  }

  /** The manifests that decide, given who wrote last. */
  ghost predicate Listed(es: seq<Event>, name: string, resource: string) {
    match LastWriter(es)
    case Nobody => false
    case Loader(_) => exists m :: m in Loads(es) && Lists(m, name, resource)
    case Alone(m) => Lists(Some(m), name, resource)
  }

  lemma AloneLists(m: Manifest, name: string, resource: string)
    requires Accepted(Some(m))
    ensures Authorizes(FromManifest(m).value, name, "Call", resource) <==> Lists(Some(m), name, resource)
    ensures Authorizes(FromManifest(m).value, name, "Effect", resource) <==> ListsEffect(Some(m), name, resource)
  {
  }

  /**
   Over any run of manifest loads, checks, module loads and swaps, `Call` is allowed exactly
   when a deciding manifest of that name lists the symbol: any accepted one if the loader
   wrote the slot last, the module's own if a module load or swap did, none before that.
   */
  lemma ChecksDecide(es: seq<Event>, name: string, resource: string)
    ensures Allows(Run(Fresh(), es).slot, name, "Call", resource) <==> Listed(es, name, resource)
  {
    hide Run, Loads, LastWriter, Authorizes, LoadAll, Lists, Accepted, FromManifest;
    RunWrites(es);
    LoadsDecide(Loads(es), name, resource);
    if LastWriter(es).Alone? {
      AloneLists(LastWriter(es).m, name, resource);
    }
  }

  ghost predicate EffectListed(es: seq<Event>, name: string, effect: string) {
    match LastWriter(es)
    case Nobody => false
    case Loader(_) => exists m :: m in Loads(es) && ListsEffect(m, name, effect)
    case Alone(m) => ListsEffect(Some(m), name, effect)
  }

  /** `Effect` is decided by the same manifests, and no other action is ever allowed. */
  lemma OtherChecksDecide(es: seq<Event>, name: string, action: string, resource: string)
    requires action != "Call"
    ensures Allows(Run(Fresh(), es).slot, name, action, resource) <==> action == "Effect" && EffectListed(es, name, resource)
  {
    hide Run, Loads, LastWriter, Authorizes, LoadAll, ListsEffect, Accepted, FromManifest;
    RunWrites(es);
    LoadsDecide(Loads(es), name, resource);
    if action != "Effect" && Run(Fresh(), es).slot.Installed? {
      OnlyTwoActions(Run(Fresh(), es).slot.engine, name, action, resource);
    }
    if LastWriter(es).Alone? {
      AloneLists(LastWriter(es).m, name, resource);
    }
  }

  /**
   The next accepted load puts the loader's merged engine back: whatever module loads and
   swaps had taken away is allowed again exactly when any manifest ever loaded lists it.
   */
  lemma LoadRestores(es: seq<Event>, m: Option<Manifest>, name: string, resource: string)
    requires Accepted(m)
    ensures Allows(Run(Fresh(), es + [Load(m)]).slot, name, "Call", resource) <==>
            Lists(m, name, resource) || exists k :: k in Loads(es) && Lists(k, name, resource)
  {
    hide Run, Lists, Accepted, Allows;
    var all := es + [Load(m)];
    ChecksDecide(all, name, resource);
    assert all[..|all| - 1] == es && all[|all| - 1] == Load(m);
    assert Loads(all) == Loads(es) + [m];
  }

  /** A grant that a swap removed comes back when an unrelated manifest is loaded. */
  lemma SwapUndoneByLoad()
    ensures var m := Plain("m", ["uk_a"], []);
            var es := [Load(Some(m)), LoadModule(Candidate(Some(m), true, true)), Swap("m", Candidate(Some(Plain("m", [], [])), true, true))];
            && !Allows(Run(Fresh(), es).slot, "m", "Call", "uk_a")
            && Allows(Run(Fresh(), es + [Load(Some(Plain("other", [], [])))]).slot, "m", "Call", "uk_a")
  {
    hide Run, Allows;
    var m, next := Plain("m", ["uk_a"], []), Plain("m", [], []);
    var e1, e2, e3 := Load(Some(m)), LoadModule(Candidate(Some(m), true, true)), Swap("m", Candidate(Some(next), true, true));
    var es := [e1, e2, e3];
    assert es[..2] == [e1, e2] && [e1, e2][..1] == [e1] && [e1][..0] == [];
    LoadedModule([e1], m);
    assert [e1] + [e2] == es[..2];
    SwapWrites(es[..2], "m", Candidate(Some(next), true, true));
    assert es[..2] + [e3] == es;
    ChecksDecide(es, "m", "uk_a");
    assert Lists(Some(m), "m", "uk_a") && Some(m) in Loads(es) by {
      assert Loads([e1]) == [Some(m)];
      assert Loads(es[..2]) == [Some(m)];
    }
    LoadRestores(es, Some(Plain("other", [], [])), "m", "uk_a");
  }

  lemma LoadedModule(es: seq<Event>, m: Manifest)
    requires Accepted(Some(m))
    ensures var a := Run(Fresh(), es + [LoadModule(Candidate(Some(m), true, true))]); m.name in a.modules && a.modules[m.name] == m
  {
    var all := es + [LoadModule(Candidate(Some(m), true, true))];
    assert all[..|all| - 1] == es;
  }

  lemma SwapWrites(es: seq<Event>, name: string, c: Candidate)
    requires Reaches(Run(Fresh(), es), name, c)
    ensures LastWriter(es + [Swap(name, c)]) == Alone(c.manifest.value)
  {
    var all := es + [Swap(name, c)];
    assert all[..|all| - 1] == es;
  }
}
