/** Manifests, the engine each one gives, and what merging them decides. */
module Grants {
  import opened Util
  import opened LiquidMode

  function ParseLiquid(s: Option<string>): Option<Liquid> {
    if s.None? || s.value == "off" then Some(Off)
    else if s.value == "optional" then Some(Optional)
    else if s.value == "required" then Some(Required)
    else None
  }

  /** A parsed `module.toml`, as far as authorization and swapping read it. */
  datatype Manifest = Manifest(name: string, kernel: seq<string>, zenodo: seq<string>, effects: seq<string>,
                               fs: seq<string>, net: seq<string>, liquid: Option<string>, qualifiers: seq<string>)

  type Table = map<string, set<string>>

  datatype Engine = Engine(grants: Table, effects: Table, liquid: Liquid, qualifiers: seq<string>)

  function Elements<T>(s: seq<T>): set<T> {
    set x | x in s
  }

  function NewEngine(): Engine {
    Engine(map[], map[], Off, [])
  }

  /** The engine of one manifest; a malformed liquid posture is an error. */
  function FromManifest(m: Manifest): Option<Engine> {
    var liquid :- ParseLiquid(m.liquid);
    Some(Engine(map[m.name := Elements(m.kernel) + Elements(m.zenodo)], map[m.name := Elements(m.effects)], liquid, m.qualifiers))
  }

  function Lookup(t: Table, key: string): set<string> {
    if key in t then t[key] else {}
  }

  // ----- merging -----

  function MergeTable(t: Table, u: Table): Table {
    map k | k in t.Keys + u.Keys :: Lookup(t, k) + Lookup(u, k)
  }

  function Stricter(a: Liquid, b: Liquid): Liquid {
    if a.Required? || b.Required? then Required
    else if a.Optional? || b.Optional? then Optional
    else Off
  }

  function AddAll(qs: seq<string>, more: seq<string>): seq<string> {
    if more == [] then qs
    else
      var init := AddAll(qs, more[..|more| - 1]);
      var q := more[|more| - 1];
      if q in init then init else init + [q]
  }

  function Merged(e: Engine, other: Engine): Engine {
    Engine(MergeTable(e.grants, other.grants),
           MergeTable(MergeTable(e.effects, map k | k in other.grants :: {}), other.effects),
           Stricter(e.liquid, other.liquid), AddAll(e.qualifiers, other.qualifiers))
  }

  /** The entries outside `todo` have been merged. */
  ghost predicate Partly(t: Table, u: Table, todo: set<string>, r: Table) {
    && r.Keys == t.Keys + (u.Keys - todo)
    && forall k | k in r :: r[k] == Lookup(t, k) + if k in todo then {} else Lookup(u, k)
  }

  lemma PartlyStep(t: Table, u: Table, todo: set<string>, r: Table, k: string)
    requires Partly(t, u, todo, r) && todo <= u.Keys && k in todo
    ensures Partly(t, u, todo - {k}, r[k := Lookup(r, k) + u[k]])
  {
    assert Lookup(r, k) == Lookup(t, k);
  }

  lemma PartlyDone(t: Table, u: Table, r: Table)
    requires Partly(t, u, {}, r)
    ensures r == MergeTable(t, u)
  {
  }

  /** Extend the table entry by entry, in whatever order the entries come. */
  method ExtendTable(t: Table, u: Table) returns (r: Table)
    ensures r == MergeTable(t, u)
  {
    r := t;
    var todo := u.Keys;
    assert Partly(t, u, todo, r);
    hide Partly, MergeTable;
    while todo != {}
      invariant todo <= u.Keys && Partly(t, u, todo, r)
    {
      var k :| k in todo;
      PartlyStep(t, u, todo, r, k);
      r := r[k := Lookup(r, k) + u[k]];
      todo := todo - {k};
    }
    PartlyDone(t, u, r);
  }

  method Merge(e: Engine, other: Engine) returns (r: Engine)
    ensures r == Merged(e, other)
  {
    var grants := ExtendTable(e.grants, other.grants);
    var touched := ExtendTable(e.effects, map k | k in other.grants :: {});
    var effects := ExtendTable(touched, other.effects);
    var qualifiers := e.qualifiers;
    for i := 0 to |other.qualifiers|
      invariant qualifiers == AddAll(e.qualifiers, other.qualifiers[..i])
    {
      assert other.qualifiers[..i + 1][..i] == other.qualifiers[..i];
      if other.qualifiers[i] !in qualifiers {
        qualifiers := qualifiers + [other.qualifiers[i]];
      }
    }
    assert other.qualifiers[..|other.qualifiers|] == other.qualifiers;
    r := Engine(grants, effects, Stricter(e.liquid, other.liquid), qualifiers);
  }

  // ----- decisions -----

  predicate Authorizes(e: Engine, principal: string, action: string, resource: string) {
    if action == "Call" then resource in Lookup(e.grants, principal)
    else if action == "Effect" then resource in Lookup(e.effects, principal)
    else false
  }

  // ----- what a sequence of loads decides -----

  function Loaded(e: Engine, m: Option<Manifest>): Engine {
    if m.None? || FromManifest(m.value).None? then e else Merged(e, FromManifest(m.value).value)
  }

  function LoadAll(ms: seq<Option<Manifest>>): Engine {
    if ms == [] then NewEngine() else Loaded(LoadAll(ms[..|ms| - 1]), ms[|ms| - 1])
  }

  predicate Accepted(m: Option<Manifest>) {
    m.Some? && FromManifest(m.value).Some?
  }

  predicate Lists(m: Option<Manifest>, name: string, resource: string) {
    Accepted(m) && m.value.name == name && (resource in m.value.kernel || resource in m.value.zenodo)
  }

  predicate ListsEffect(m: Option<Manifest>, name: string, effect: string) {
    Accepted(m) && m.value.name == name && effect in m.value.effects
  }

  /** The posture a load attempt asks for. */
  function AskedPosture(m: Option<Manifest>): Liquid {
    if Accepted(m) then FromManifest(m.value).value.liquid else Off
  }

  ghost predicate Strictest(ms: seq<Option<Manifest>>, liquid: Liquid) {
    && (forall m | m in ms :: Strictness(AskedPosture(m)) <= Strictness(liquid))
    && (liquid == Off || exists m :: m in ms && AskedPosture(m) == liquid)
  }

  lemma MergeDecides(t: Table, u: Table, name: string)
    ensures Lookup(MergeTable(t, u), name) == Lookup(t, name) + Lookup(u, name)
    ensures name in MergeTable(t, u) <==> name in t || name in u
  {
  }

  lemma LoadedDecides(e: Engine, m: Option<Manifest>, name: string, resource: string)
    ensures resource in Lookup(Loaded(e, m).grants, name) <==> resource in Lookup(e.grants, name) || Lists(m, name, resource)
    ensures resource in Lookup(Loaded(e, m).effects, name) <==> resource in Lookup(e.effects, name) || ListsEffect(m, name, resource)
    ensures name in Loaded(e, m).grants <==> name in e.grants || (Accepted(m) && m.value.name == name)
    ensures name in Loaded(e, m).effects <==> name in e.effects || (Accepted(m) && m.value.name == name)
  {
    hide ParseLiquid, AddAll, MergeTable;
    if Accepted(m) {
      var o := FromManifest(m.value).value;
      var blank: Table := map k | k in o.grants :: {};
      MergeDecides(e.grants, o.grants, name);
      MergeDecides(e.effects, blank, name);
      MergeDecides(MergeTable(e.effects, blank), o.effects, name);
    }
  }

  /**
   After any sequence of load attempts, `Call` is allowed exactly when some accepted manifest
   of that name lists the symbol, and `Effect` likewise; everything else is denied.
   */
  lemma {:induction false} LoadsDecide(ms: seq<Option<Manifest>>, name: string, resource: string)
    ensures Authorizes(LoadAll(ms), name, "Call", resource) <==> exists m :: m in ms && Lists(m, name, resource)
    ensures Authorizes(LoadAll(ms), name, "Effect", resource) <==> exists m :: m in ms && ListsEffect(m, name, resource)
    ensures name in LoadAll(ms).grants <==> exists m :: m in ms && Accepted(m) && m.value.name == name
    ensures LoadAll(ms).effects.Keys == LoadAll(ms).grants.Keys
  {
    hide Loaded, Lists, ListsEffect, Accepted;
    if ms != [] {
      var init, last := ms[..|ms| - 1], ms[|ms| - 1];
      assert ms == init + [last];
      LoadsDecide(init, name, resource);
      LoadedDecides(LoadAll(init), last, name, resource);
      forall k ensures k in LoadAll(ms).effects <==> k in LoadAll(ms).grants {
        LoadedDecides(LoadAll(init), last, k, resource);
      }
    }
  }

  /** An action that is neither a call nor an effect is never allowed. */
  lemma OnlyTwoActions(e: Engine, principal: string, action: string, resource: string)
    requires action != "Call" && action != "Effect"
    ensures !Authorizes(e, principal, action, resource)
  {
  }

  lemma RefusedLoad(e: Engine, m: Option<Manifest>)
    ensures !Accepted(m) ==> Loaded(e, m) == e
  {
  }

  /** The posture is the strictest that any accepted manifest asked for. */
  lemma {:induction false} PostureIsMaximum(ms: seq<Option<Manifest>>)
    ensures Strictest(ms, LoadAll(ms).liquid)
  {
    hide AskedPosture, Loaded;
    if ms != [] {
      var init, last := ms[..|ms| - 1], ms[|ms| - 1];
      assert ms == init + [last];
      PostureIsMaximum(init);
      LoadedLiquid(LoadAll(init), last);
      var l, before := LoadAll(ms).liquid, LoadAll(init).liquid;
      if l != Off && l == before {
        var m :| m in init && AskedPosture(m) == l;
        assert m in ms;
      }
    }
  }

  lemma LoadedLiquid(e: Engine, m: Option<Manifest>)
    ensures Loaded(e, m).liquid == Stricter(e.liquid, AskedPosture(m))
  {
  }

  /** A manifest is accepted exactly when its posture is absent, `off`, `optional` or `required`. */
  lemma AcceptedText(m: Manifest)
    ensures Accepted(Some(m)) <==>
            m.liquid in {None, Some("off"), Some("optional"), Some("required")}
    ensures Accepted(Some(m)) ==>
              && (AskedPosture(Some(m)) == Required <==> m.liquid == Some("required"))
              && (AskedPosture(Some(m)) == Optional <==> m.liquid == Some("optional"))
  {
  }

  ghost predicate Says(ms: seq<Option<Manifest>>, text: string) {
    exists m :: m in ms && m.Some? && m.value.liquid == Some(text)
  }

  /** After any loads the posture is required exactly when some manifest says `required`, and
      optional exactly when none does and some says `optional`. */
  lemma PostureText(ms: seq<Option<Manifest>>)
    ensures LoadAll(ms).liquid == Required <==> Says(ms, "required")
    ensures LoadAll(ms).liquid == Optional <==> !Says(ms, "required") && Says(ms, "optional")
  {
    PostureIsMaximum(ms);
    hide LoadAll, AskedPosture, Accepted;
    forall m | m in ms
      ensures m.Some? && m.value.liquid == Some("required") ==> AskedPosture(m) == Required
      ensures m.Some? && m.value.liquid == Some("optional") ==> AskedPosture(m) == Optional
      ensures AskedPosture(m) == Required ==> m.Some? && m.value.liquid == Some("required")
      ensures AskedPosture(m) == Optional ==> m.Some? && m.value.liquid == Some("optional")
    {
      AskedText(m);
    }
  }

  lemma AskedText(m: Option<Manifest>)
    ensures m.Some? && m.value.liquid == Some("required") <==> AskedPosture(m) == Required
    ensures m.Some? && m.value.liquid == Some("optional") <==> AskedPosture(m) == Optional
  {
    if m.Some? {
      AcceptedText(m.value);
    }
  }

  /** The merged qualifiers are those of the accepted manifests, each once. */
  lemma {:induction false} QualifiersMerge(ms: seq<Option<Manifest>>)
    ensures forall q :: q in LoadAll(ms).qualifiers <==> exists m :: m in ms && Accepted(m) && q in m.value.qualifiers
    ensures forall i, j | 0 <= i < j < |LoadAll(ms).qualifiers| :: LoadAll(ms).qualifiers[i] != LoadAll(ms).qualifiers[j]
  {
    hide MergeTable, AddAll, ParseLiquid;
    if ms != [] {
      var init, last := ms[..|ms| - 1], ms[|ms| - 1];
      assert ms == init + [last];
      QualifiersMerge(init);
      if Accepted(last) {
        AddedAll(LoadAll(init).qualifiers, last.value.qualifiers);
      }
    }
  }

  lemma {:induction false} AddedAll(qs: seq<string>, more: seq<string>)
    requires forall i, j | 0 <= i < j < |qs| :: qs[i] != qs[j]
    ensures forall q :: q in AddAll(qs, more) <==> q in qs || q in more
    ensures forall i, j | 0 <= i < j < |AddAll(qs, more)| :: AddAll(qs, more)[i] != AddAll(qs, more)[j]
  {
    if more != [] {
      AddedAll(qs, more[..|more| - 1]);
      assert more == more[..|more| - 1] + [more[|more| - 1]];
    }
  }

  /** Loading the same manifests in another order gives the same tables and posture. */
  lemma LoadOrderIrrelevant(ms: seq<Option<Manifest>>, ns: seq<Option<Manifest>>)
    requires forall m :: m in ms <==> m in ns
    ensures LoadAll(ms).grants == LoadAll(ns).grants
    ensures LoadAll(ms).effects == LoadAll(ns).effects
    ensures LoadAll(ms).liquid == LoadAll(ns).liquid
  {
    hide LoadAll, Lists, ListsEffect, FromManifest;
    var a, b := LoadAll(ms), LoadAll(ns);
    forall name ensures name in a.grants <==> name in b.grants {
      LoadsDecide(ms, name, "");
      LoadsDecide(ns, name, "");
    }
    assert a.grants.Keys == b.grants.Keys;
    forall name, resource
      ensures resource in Lookup(a.grants, name) <==> resource in Lookup(b.grants, name)
      ensures resource in Lookup(a.effects, name) <==> resource in Lookup(b.effects, name)
    {
      LoadsDecide(ms, name, resource);
      LoadsDecide(ns, name, resource);
    }
    LoadsDecide(ms, "", "");
    LoadsDecide(ns, "", "");
    SameTable(a.grants, b.grants);
    SameTable(a.effects, b.effects);
    PostureIsMaximum(ms);
    PostureIsMaximum(ns);
  }

  lemma SameTable(t: Table, u: Table)
    requires t.Keys == u.Keys
    requires forall k, r :: r in Lookup(t, k) <==> r in Lookup(u, k)
    ensures t == u
  {
    forall k | k in t ensures t[k] == u[k] {
      assert Lookup(t, k) == t[k] && Lookup(u, k) == u[k];
    }
  }
}
