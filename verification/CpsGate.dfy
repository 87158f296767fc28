/** The authorization gate every call passes while it is compiled (`check_call_permission`, `auth::check`). */
module CpsGate {
  import opened Util

  datatype Decision = Allow | Deny | Failure

  /** The process-wide engine slot and the deployment principal. */
  datatype Auth = Auth(engine: Option<(string, string, string) -> Decision>, deployment: Option<string>)

  /** What the compiler knows while it emits one function. */
  datatype Ctx = Ctx(auth: Auth, caller: string, moduleName: string)

  /** With no engine installed, deny-all is installed and answers. */
  predicate Check(a: Auth, principal: string, action: string, resource: string) {
    a.engine.Some? && a.engine.value(principal, action, resource) == Allow
  }

  predicate KernelName(f: string) {
    StartsWith(f, "uk_") || StartsWith(f, "uz_") || StartsWith(f, "rs_")
  }

  function Principal(c: Ctx): string {
    if c.auth.deployment.Some? && c.auth.deployment.value != "" then c.auth.deployment.value
    else if c.moduleName == "" then c.caller
    else c.moduleName
  }

  predicate Permitted(c: Ctx, f: string) {
    if StartsWith(f, "__") || StartsWith(f, "au_") || c.caller == f then true
    else if !StartsWith(f, "uk_") && !StartsWith(f, "uz_") && !StartsWith(f, "rs_") then true
    else Check(c.auth, Principal(c), "Call", f)
  }

  /** The gate, by what it lets through: a kernel name other than the caller's own needs a grant,
      and nothing else does. */
  lemma PermittedMeans(c: Ctx, f: string)
    ensures Permitted(c, f) <==> (KernelName(f) && f != c.caller ==> Check(c.auth, Principal(c), "Call", f))
  {
    if KernelName(f) {
      assert |f| >= 3 && f[1] != '_' && f[1] != 'u';
    }
  }
}
