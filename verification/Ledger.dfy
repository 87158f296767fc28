/** The proof ledger: rows updated in place by publish and refresh, under any backend. */
module Ledger {
  import opened Util

  datatype State = Queued | Verified | Published | Rejected | Failed

  datatype Proof = Proof(id: string, project: string, title: string, sha256: string, state: State,
                         mm0Proof: Option<string>, record: Option<nat>, doi: Option<string>, url: Option<string>,
                         log: Option<string>, detail: Option<string>,
                         submittedBy: string, submittedAt: nat, updatedAt: nat)

  predicate IsPending(s: State) {
    s.Queued? || s.Verified?
  }

  predicate CanMint(p: Proof) {
    p.state == Published && p.doi.Some?
  }

  // ----- replies of the backend -----

  datatype PublishReply = PublishReply(status: nat, proof: Option<string>, doi: Option<string>, record: Option<nat>,
                                       url: Option<string>, log: Option<string>, stage: Option<string>, error: Option<string>)

  datatype ProofReply = ProofReply(state: string, doi: Option<string>, record: Option<nat>, url: Option<string>, log: Option<string>)

  /** A submission: its author, its texts, and the hash function that addresses it. */
  datatype Submission = Submission(actor: string, project: string, title: string, mm0: string, mm1: string)

  function RecordId(sha: string -> string, s: Submission): string {
    sha(s.title + "\n" + s.mm0 + "\n" + s.mm1)
  }

  function OrElse<T>(a: Option<T>, b: Option<T>): Option<T> {
    if a.Some? then a else b
  }

  function Outcome(r: PublishReply): (State, Option<string>) {
    if r.status == 400 then (Rejected, if r.stage.Some? then Some("rejected at " + r.stage.value) else r.error)
    else if r.status == 200 && r.doi.Some? then (Published, None)
    else if r.status == 200 then (Verified, Some("mm0web verified the development but reported no deposit"))
    else if r.status == 202 then (Queued, None)
    else if r.status == 502 then (Verified, r.error)
    else (Failed, OrElse(r.error, Some("mm0web answered " + DecimalText(r.status))))
  }

  function NewProof(sha: string -> string, s: Submission, r: PublishReply, now: nat): Proof {
    var (state, detail) := Outcome(r);
    Proof(RecordId(sha, s), s.project, s.title, sha(s.mm0 + "\n" + s.mm1), state,
          r.proof, r.record, r.doi, r.url, r.log, detail, s.actor, now, now)
  }

  /** Which replies make which rows: a published one always carries a DOI and can be minted. */
  lemma ReplyStates(sha: string -> string, s: Submission, r: PublishReply, now: nat)
    ensures var p := NewProof(sha, s, r, now);
            && (p.state == Published <==> r.status == 200 && r.doi.Some?)
            && (CanMint(p) <==> p.state == Published)
            && (p.state == Rejected <==> r.status == 400)
            && (p.state == Queued <==> r.status == 202)
            && (p.state == Failed <==> r.status !in {200, 202, 400, 502})
            && (p.state == Failed ==> p.detail.Some?)
            && p.project == s.project && p.title == s.title && p.submittedBy == s.actor
            && p.mm0Proof == r.proof && p.record == r.record && p.doi == r.doi && p.url == r.url && p.log == r.log
            && p.submittedAt == now && p.updatedAt == now
  {
  }

  // ----- the store as a sequence of rows -----

  ghost predicate Distinct(rows: seq<Proof>) {
    forall i, j | 0 <= i < j < |rows| :: rows[i].id != rows[j].id
  }

  function Find(rows: seq<Proof>, id: string): (r: Option<nat>)
    ensures r.Some? ==> r.value < |rows| && rows[r.value].id == id && forall j | 0 <= j < r.value :: rows[j].id != id
    ensures r.None? ==> forall j | 0 <= j < |rows| :: rows[j].id != id
  {
    if rows == [] then None
    else if rows[0].id == id then Some(0)
    else
      var i :- Find(rows[1..], id);
      Some(i + 1)
  }

  function ById(rows: seq<Proof>, id: string): Option<Proof> {
    var i :- Find(rows, id);
    Some(rows[i])
  }

  function Without(rows: seq<Proof>, id: string): seq<Proof> {
    if rows == [] then []
    else
      var n := |rows| - 1;
      Without(rows[..n], id) + (if rows[n].id == id then [] else [rows[n]])
  }

  function PutRow(rows: seq<Proof>, p: Proof): seq<Proof> {
    [p] + Without(rows, p.id)
  }

  lemma {:induction false} WithoutKeeps(rows: seq<Proof>, id: string)
    ensures forall p :: p in Without(rows, id) <==> p in rows && p.id != id
    ensures Distinct(rows) ==> Distinct(Without(rows, id))
  {
    if rows != [] {
      var n := |rows| - 1;
      WithoutKeeps(rows[..n], id);
      assert rows == rows[..n] + [rows[n]];
      var w := Without(rows[..n], id);
      if Distinct(rows) {
        forall i | 0 <= i < |w| ensures w[i].id != rows[n].id {
          assert w[i] in rows[..n];
        }
      }
    }
  }

  lemma FindDistinct(rows: seq<Proof>, p: Proof)
    requires Distinct(rows) && p in rows
    ensures ById(rows, p.id) == Some(p)
  {
  }

  // ----- refresh -----

  type Query = (string, string, string)

  function Pending(rows: seq<Proof>): seq<Query> {
    if rows == [] then []
    else
      var n := |rows| - 1;
      Pending(rows[..n])
      + (if IsPending(rows[n].state) && rows[n].mm0Proof.Some? then [(rows[n].id, rows[n].project, rows[n].mm0Proof.value)] else [])
  }

  function NextState(s: string): Option<State> {
    if s == "published" then Some(Published)
    else if s == "publish-failed" then Some(Failed)
    else if s == "verified" then Some(Verified)
    else None
  }

  /** One reply folded into one row; the time changes only if something else did. */
  function Learn(p: Proof, r: ProofReply, now: nat): (Proof, bool) {
    var q := p.(state := OrElse(NextState(r.state), Some(p.state)).value,
                doi := OrElse(r.doi, p.doi), record := OrElse(r.record, p.record),
                url := OrElse(r.url, p.url), log := OrElse(r.log, p.log));
    if q == p then (p, false) else (q.(updatedAt := now), true)
  }

  function RefreshOne(rows: seq<Proof>, q: Query, reply: Option<ProofReply>, now: nat): (r: (seq<Proof>, bool))
    ensures |r.0| == |rows|
  {
    var at := Find(rows, q.0);
    if reply.None? || at.None? then (rows, false)
    else
      var (p, touched) := Learn(rows[at.value], reply.value, now);
      (rows[at.value := p], touched)
  }

  /** What the backend says to the n-th question of one refresh, and the clock then. */
  datatype Backend = Backend(ask: (nat, Query) -> Option<ProofReply>, clock: nat -> nat)

  /** The first `n` questions asked and folded in; the number of rows that changed. */
  function RefreshFirst(rows: seq<Proof>, qs: seq<Query>, n: nat, b: Backend): (r: (seq<Proof>, nat))
    requires n <= |qs|
    ensures |r.0| == |rows|
  {
    if n == 0 then (rows, 0)
    else
      var (before, changed) := RefreshFirst(rows, qs, n - 1, b);
      var (after, touched) := RefreshOne(before, qs[n - 1], b.ask(n - 1, qs[n - 1]), b.clock(n - 1));
      (after, changed + if touched then 1 else 0)
  }

  ghost predicate AskedFor(p: Proof, q: Query) {
    (p.state == Queued || p.state == Verified) && p.mm0Proof == Some(q.2) && p.id == q.0 && p.project == q.1
  }

  /** The backend is asked about exactly the queued and the verified rows that carry a proof id. */
  lemma {:induction false} AskedExactly(rows: seq<Proof>, q: Query)
    ensures q in Pending(rows) <==> exists i :: 0 <= i < |rows| && AskedFor(rows[i], q)
  {
    if rows != [] {
      var n := |rows| - 1;
      AskedExactly(rows[..n], q);
      if i :| 0 <= i < n && AskedFor(rows[i], q) {
        assert rows[..n][i] == rows[i];
      }
      if q in Pending(rows) && q !in Pending(rows[..n]) {
        assert AskedFor(rows[n], q);
      }
    }
  }

  /** Rows of the snapshot: every query names a pending row, and no row twice. */
  lemma {:induction false} PendingNames(rows: seq<Proof>)
    requires Distinct(rows)
    ensures forall q | q in Pending(rows) :: exists i :: 0 <= i < |rows| && rows[i].id == q.0 && IsPending(rows[i].state)
    ensures forall i, j | 0 <= i < j < |Pending(rows)| :: Pending(rows)[i].0 != Pending(rows)[j].0
  {
    if rows != [] {
      var n := |rows| - 1;
      var init := rows[..n];
      PendingNames(init);
      forall q | q in Pending(init) ensures q.0 != rows[n].id && exists i :: 0 <= i < |rows| && rows[i].id == q.0 && IsPending(rows[i].state) {
        var i :| 0 <= i < |init| && init[i].id == q.0 && IsPending(init[i].state);
        assert rows[i] == init[i];
      }
    }
  }

  /** Refreshing keeps every id in place and touches only rows that were asked about. */
  lemma {:induction false} RefreshTouches(rows: seq<Proof>, qs: seq<Query>, n: nat, b: Backend)
    requires n <= |qs| && Distinct(rows)
    ensures var after := RefreshFirst(rows, qs, n, b).0;
            forall i | 0 <= i < |rows| :: after[i].id == rows[i].id
    ensures var after := RefreshFirst(rows, qs, n, b).0;
            forall i | 0 <= i < |rows| && (forall j | 0 <= j < n :: qs[j].0 != rows[i].id) :: after[i] == rows[i]
  {
    if n > 0 {
      RefreshTouches(rows, qs, n - 1, b);
    }
  }

  function Refreshed(rows: seq<Proof>, b: Backend): (seq<Proof>, nat) {
    RefreshFirst(rows, Pending(rows), |Pending(rows)|, b)
  }

  /** A refresh leaves every row that was not pending exactly as it was, in its place. */
  lemma RefreshSparesSettled(rows: seq<Proof>, b: Backend)
    requires Distinct(rows)
    ensures var after := Refreshed(rows, b).0;
            && |after| == |rows| && Distinct(after)
            && (forall i | 0 <= i < |rows| :: after[i].id == rows[i].id)
            && (forall i | 0 <= i < |rows| && !IsPending(rows[i].state) :: after[i] == rows[i])
  {
    hide Refreshed, RefreshFirst, RefreshOne, Learn, Pending;
    PendingNames(rows);
    var qs := Pending(rows);
    RefreshTouches(rows, qs, |qs|, b);
    forall i | 0 <= i < |rows| && !IsPending(rows[i].state) ensures forall j | 0 <= j < |qs| :: qs[j].0 != rows[i].id {
      forall j | 0 <= j < |qs| ensures qs[j].0 != rows[i].id {
        assert qs[j] in qs;
      }
    }
    RefreshedIs(rows, b);
  }

  lemma RefreshedIs(rows: seq<Proof>, b: Backend)
    ensures Refreshed(rows, b) == RefreshFirst(rows, Pending(rows), |Pending(rows)|, b)
  {
  }

  // ----- the ledger, updated in place -----

  datatype PublishResult = Ok(proof: Proof) | Err(error: string)

  function NotConfigured(): string {
    "proof publishing is not configured on this exchange"
  }

  /** Publish as a function of the rows: the answer, and the rows afterwards. */
  function PublishRows(rows: seq<Proof>, configured: bool, sha: string -> string, s: Submission,
                      reply: Result<PublishReply>, saved: Option<string>, now: nat): (PublishResult, seq<Proof>)
  {
    var known := ById(rows, RecordId(sha, s));
    if known.Some? && known.value.state == Published then (Ok(known.value), rows)
    else if !configured then (Err(NotConfigured()), rows)
    else if reply.Bad? then (Err(reply.error), rows)
    else
      var p := NewProof(sha, s, reply.value, now);
      (if saved.None? then Ok(p) else Err(saved.value), PutRow(rows, p))
  }

  datatype Result<T> = Good(value: T) | Bad(error: string)

  class Store {
    var proofs: seq<Proof>
    var file: seq<Proof>
    const configured: bool

    constructor (configured: bool)
      ensures proofs == [] && file == [] && this.configured == configured
    {
      proofs, file := [], [];
      this.configured := configured;
    }

    /** The new row goes in front; a row already filed under its id gives way. */
    method Put(p: Proof)
      modifies this`proofs
      ensures proofs == PutRow(old(proofs), p)
    {
      var kept: seq<Proof> := [];
      for i := 0 to |proofs|
        invariant proofs == old(proofs) && kept == Without(proofs[..i], p.id)
      {
        assert proofs[..i + 1][..i] == proofs[..i];
        if proofs[i].id != p.id {
          kept := kept + [proofs[i]];
        }
      }
      assert proofs[..|proofs|] == proofs;
      proofs := [p] + kept;
    }

    /** The file is replaced as a whole, or not at all when writing fails. */
    method Save(error: Option<string>)
      modifies this`file
      ensures file == if error.None? then proofs else old(file)
    {
      if error.None? {
        file := proofs;
      }
    }

    /** A restart finds what the file holds. */
    method Load()
      modifies this`proofs
      ensures proofs == file
    {
      proofs := file;
    }

    /**
     Submit a development. `reply` is the backend's answer, `saved` the error of writing the
     file, if any: the row stays in memory either way.
     */
    method Publish(sha: string -> string, s: Submission, reply: Result<PublishReply>, saved: Option<string>, now: nat) returns (r: PublishResult)
      modifies this`proofs, this`file
      ensures (r, proofs) == PublishRows(old(proofs), configured, sha, s, reply, saved, now)
      ensures file == if Writes(old(proofs), configured, DoPublish(sha, s, reply, saved, now)) && saved.None? then proofs else old(file)
    {
      var known := ById(proofs, RecordId(sha, s));
      if known.Some? && known.value.state == Published {
        return Ok(known.value);
      }
      if !configured {
        return Err(NotConfigured());
      }
      if reply.Bad? {
        return Err(reply.error);
      }
      var p := NewProof(sha, s, reply.value, now);
      Put(p);
      Save(saved);
      r := if saved.None? then Ok(p) else Err(saved.value);
    }

    /**
     Ask about every pending row of a snapshot and fold the answers in, one at a time. `saved`
     is the error of writing the file, if any, which happens only when a row changed.
     */
    method Refresh(b: Backend, saved: Option<string>) returns (r: Result<nat>)
      modifies this`proofs, this`file
      ensures proofs == if configured then Refreshed(old(proofs), b).0 else old(proofs)
      ensures file == if Writes(old(proofs), configured, DoRefresh(b, saved)) && saved.None? then proofs else old(file)
      ensures var changed := if configured then Refreshed(old(proofs), b).1 else 0;
              r == if changed > 0 && saved.Some? then Bad(saved.value) else Good(changed)
    {
      if !configured {
        return Good(0);
      }
      var pending := Pending(proofs);
      var changed := 0;
      for n := 0 to |pending|
        invariant (proofs, changed) == RefreshFirst(old(proofs), pending, n, b) && file == old(file)
      {
        var reply := b.ask(n, pending[n]);
        var at := Find(proofs, pending[n].0);
        if reply.Some? && at.Some? {
          var p, touched := Fold(proofs[at.value], reply.value, b.clock(n));
          proofs := proofs[at.value := p];
          if touched {
            changed := changed + 1;
          }
        }
      }
      if changed > 0 {
        Save(saved);
        if saved.Some? {
          return Bad(saved.value);
        }
      }
      return Good(changed);
    }

    /** (published, pending, failed or rejected); together they count every row. */
    method Counts() returns (published: nat, pending: nat, failed: nat)
      ensures published + pending + failed == |proofs|
      ensures published == Tally(proofs, (s: State) => s.Published?)
      ensures pending == Tally(proofs, (s: State) => IsPending(s))
      ensures failed == Tally(proofs, (s: State) => s.Rejected? || s.Failed?)
    {
      published, pending, failed := 0, 0, 0;
      for i := 0 to |proofs|
        invariant published + pending + failed == i
        invariant published == Tally(proofs[..i], (s: State) => s.Published?)
        invariant pending == Tally(proofs[..i], (s: State) => IsPending(s))
        invariant failed == Tally(proofs[..i], (s: State) => s.Rejected? || s.Failed?)
      {
        assert proofs[..i + 1][..i] == proofs[..i];
        match proofs[i].state {
          case Published => published := published + 1;
          case Queued => pending := pending + 1;
          case Verified => pending := pending + 1;
          case Rejected => failed := failed + 1;
          case Failed => failed := failed + 1;
        }
      }
      assert proofs[..|proofs|] == proofs;
    }
  }

  function Tally(rows: seq<Proof>, which: State -> bool): nat {
    if rows == [] then 0
    else Tally(rows[..|rows| - 1], which) + if which(rows[|rows| - 1].state) then 1 else 0
  }

  /** The field-by-field update of one row. */
  method Fold(p0: Proof, reply: ProofReply, now: nat) returns (p: Proof, touched: bool)
    ensures (p, touched) == Learn(p0, reply, now)
  {
    p, touched := p0, false;
    var next := NextState(reply.state);
    if next.Some? && p.state != next.value {
      p, touched := p.(state := next.value), true;
    }
    if reply.doi.Some? && p.doi != reply.doi {
      p, touched := p.(doi := reply.doi), true;
    }
    if reply.record.Some? && p.record != reply.record {
      p, touched := p.(record := reply.record), true;
    }
    if reply.url.Some? && p.url != reply.url {
      p, touched := p.(url := reply.url), true;
    }
    if reply.log.Some? && p.log != reply.log {
      p, touched := p.(log := reply.log), true;
    }
    if touched {
      p := p.(updatedAt := now);
    }
  }

  // ----- runs -----

  datatype Event =
    | DoPublish(sha: string -> string, submission: Submission, reply: Result<PublishReply>, saved: Option<string>, now: nat)
    | DoRefresh(backend: Backend, saved: Option<string>)

  function Step(rows: seq<Proof>, configured: bool, e: Event): seq<Proof> {
    match e
    case DoPublish(sha, s, reply, saved, now) => PublishRows(rows, configured, sha, s, reply, saved, now).1
    case DoRefresh(b, _) => if configured then Refreshed(rows, b).0 else rows
  }

  /** The step gets as far as writing the file. */
  predicate Writes(rows: seq<Proof>, configured: bool, e: Event) {
    match e
    case DoPublish(sha, s, reply, _, _) =>
      var known := ById(rows, RecordId(sha, s));
      !(known.Some? && known.value.state == Published) && configured && reply.Good?
    case DoRefresh(b, _) => configured && Refreshed(rows, b).1 > 0
  }

  function Run(rows: seq<Proof>, configured: bool, es: seq<Event>): seq<Proof> {
    if es == [] then rows else Step(Run(rows, configured, es[..|es| - 1]), configured, es[|es| - 1])
  }

  /** `later` holds every published row of `rows` unchanged, and a row for every id of `rows`. */
  ghost predicate Extends(rows: seq<Proof>, later: seq<Proof>) {
    && (forall p | p in rows && p.state == Published :: p in later)
    && (forall p | p in rows :: ById(later, p.id).Some?)
  }

  lemma PutExtends(rows: seq<Proof>, p: Proof)
    requires Distinct(rows) && (ById(rows, p.id).Some? ==> ById(rows, p.id).value.state != Published)
    ensures Distinct(PutRow(rows, p)) && Extends(rows, PutRow(rows, p))
  {
    WithoutKeeps(rows, p.id);
    var later := PutRow(rows, p);
    forall q | q in rows ensures (q.state == Published ==> q in later) && ById(later, q.id).Some? {
      FindDistinct(rows, q);
      if q.id == p.id {
        assert later[0].id == q.id;
      } else {
        assert q in later;
        var i :| 0 <= i < |later| && later[i] == q;
      }
    }
  }

  lemma RefreshExtends(rows: seq<Proof>, b: Backend)
    requires Distinct(rows)
    ensures Distinct(Refreshed(rows, b).0) && Extends(rows, Refreshed(rows, b).0)
  {
    hide Refreshed;
    RefreshSparesSettled(rows, b);
    var later := Refreshed(rows, b).0;
    forall q | q in rows ensures (q.state == Published ==> q in later) && ById(later, q.id).Some? {
      var i :| 0 <= i < |rows| && rows[i] == q;
      assert later[i].id == q.id;
    }
  }

  /** Each publish and each refresh keeps ids distinct and published rows as they are. */
  lemma StepExtends(rows: seq<Proof>, configured: bool, e: Event)
    requires Distinct(rows)
    ensures Distinct(Step(rows, configured, e)) && Extends(rows, Step(rows, configured, e))
  {
    hide Refreshed;
    ExtendsReflexive(rows);
    if e.DoRefresh? {
      RefreshExtends(rows, e.backend);
    } else if Step(rows, configured, e) != rows {
      PutExtends(rows, NewProof(e.sha, e.submission, e.reply.value, e.now));
    }
  }

  lemma ExtendsReflexive(rows: seq<Proof>)
    ensures Extends(rows, rows)
  {
    forall q | q in rows ensures ById(rows, q.id).Some? {
      var i :| 0 <= i < |rows| && rows[i] == q;
    }
  }

  lemma ExtendsTransitive(a: seq<Proof>, b: seq<Proof>, c: seq<Proof>)
    requires Extends(a, b) && Extends(b, c)
    ensures Extends(a, c)
  {
    forall q | q in a ensures ById(c, q.id).Some? {
      var p := ById(b, q.id).value;
      assert p in b;
    }
  }

  lemma {:induction false} RunExtends(rows: seq<Proof>, configured: bool, es: seq<Event>)
    requires Distinct(rows)
    ensures Distinct(Run(rows, configured, es)) && Extends(rows, Run(rows, configured, es))
  {
    hide Step, Extends, Distinct;
    if es == [] {
      ExtendsReflexive(rows);
    } else {
      var mid := Run(rows, configured, es[..|es| - 1]);
      RunExtends(rows, configured, es[..|es| - 1]);
      StepExtends(mid, configured, es[|es| - 1]);
      ExtendsTransitive(rows, mid, Step(mid, configured, es[|es| - 1]));
    }
  }

  /**
   From an empty store, over any run: ids stay distinct, a published row stays findable and
   unchanged through every continuation, so what can be minted once can be minted forever
   against the same DOI.
   */
  lemma MintableForever(configured: bool, first: seq<Event>, more: seq<Event>, id: string)
    ensures var rows := Run([], configured, first);
            var later := Run(rows, configured, more);
            && Distinct(rows) && Distinct(later)
            && (ById(rows, id).Some? && ById(rows, id).value.state == Published ==> ById(later, id) == ById(rows, id))
            && (ById(rows, id).Some? ==>
                  (CanMint(ById(rows, id).value) <==> ById(rows, id).value.state == Published && ById(rows, id).value.doi.Some?))
            && (ById(rows, id).Some? && CanMint(ById(rows, id).value) ==>
                  ById(later, id).Some? && CanMint(ById(later, id).value) && ById(later, id).value.doi == ById(rows, id).value.doi)
  {
    hide Run;
    RunExtends([], configured, first);
    var rows := Run([], configured, first);
    RunExtends(rows, configured, more);
    var later := Run(rows, configured, more);
    if ById(rows, id).Some? && ById(rows, id).value.state == Published {
      var p := ById(rows, id).value;
      assert p in rows && p.id == id;
      FindDistinct(later, p);
    }
  }

  // ----- rows that can never be minted -----

  /** Row `id` is published without a DOI. */
  predicate Stranded(rows: seq<Proof>, id: string) {
    var p := ById(rows, id);
    p.Some? && p.value.state == Published && p.value.doi == None
  }

  /** Question `n` of the refresh is about `id`, and the answer is a publication without a DOI. */
  predicate PublishedBare(rows: seq<Proof>, b: Backend, id: string, n: nat) {
    && n < |Pending(rows)| && Pending(rows)[n].0 == id
    && var r := b.ask(n, Pending(rows)[n]); r.Some? && r.value.state == "published" && r.value.doi == None
  }

  /** The step is a refresh in which a row without a DOI is reported published, still without one. */
  ghost predicate Strands(rows: seq<Proof>, configured: bool, e: Event, id: string) {
    && configured && e.DoRefresh?
    && ById(rows, id).Some? && ById(rows, id).value.doi == None
    && exists n :: PublishedBare(rows, e.backend, id, n)
  }

  /** The row asked about in question `n` ends as that answer folded into it. */
  lemma {:induction false} RefreshExact(rows: seq<Proof>, qs: seq<Query>, m: nat, b: Backend, n: nat, i: nat)
    requires n < m <= |qs| && i < |rows| && Distinct(rows) && qs[n].0 == rows[i].id
    requires forall j, k | 0 <= j < k < |qs| :: qs[j].0 != qs[k].0
    ensures var r := b.ask(n, qs[n]);
            RefreshFirst(rows, qs, m, b).0[i] == if r.Some? then Learn(rows[i], r.value, b.clock(n)).0 else rows[i]
  {
    RefreshTouches(rows, qs, m - 1, b);
    if n < m - 1 {
      RefreshExact(rows, qs, m - 1, b, n, i);
    } else {
      var before := RefreshFirst(rows, qs, m - 1, b).0;
      assert forall j | 0 <= j < n :: qs[j].0 != rows[i].id;
      assert before[i] == rows[i];
      assert forall k | 0 <= k < |rows| && k != i :: before[k].id != rows[i].id;
      assert Find(before, qs[n].0) == Some(i);
    }
  }

  /** Folding an answer in strands a pending row exactly when neither side has a DOI and the answer says published. */
  lemma LearnStrands(p: Proof, r: ProofReply, now: nat)
    requires IsPending(p.state)
    ensures var q := Learn(p, r, now).0;
            q.state == Published && q.doi == None <==> p.doi == None && r.state == "published" && r.doi == None
  {
  }

  /** What each answer makes of the row it is about: the state it names, and a DOI if it brings one. */
  lemma RefreshedRow(rows: seq<Proof>, b: Backend, n: nat, i: nat)
    requires Distinct(rows) && n < |Pending(rows)| && i < |rows| && Pending(rows)[n].0 == rows[i].id
    ensures var p, q, r := rows[i], Refreshed(rows, b).0[i], b.ask(n, Pending(rows)[n]);
            && (r.None? ==> q == p)
            && (r.Some? ==>
                  && q.doi == (if r.value.doi.Some? then r.value.doi else p.doi)
                  && q.record == (if r.value.record.Some? then r.value.record else p.record)
                  && q.url == (if r.value.url.Some? then r.value.url else p.url)
                  && q.log == (if r.value.log.Some? then r.value.log else p.log)
                  && q.updatedAt == (if q.(updatedAt := p.updatedAt) == p then p.updatedAt else b.clock(n))
                  && (q.id, q.project, q.title, q.sha256, q.mm0Proof) == (p.id, p.project, p.title, p.sha256, p.mm0Proof)
                  && (q.detail, q.submittedBy, q.submittedAt) == (p.detail, p.submittedBy, p.submittedAt)
                  && (r.value.state == "published" ==> q.state == Published)
                  && (r.value.state == "publish-failed" ==> q.state == Failed)
                  && (r.value.state == "verified" ==> q.state == Verified)
                  && (r.value.state !in {"published", "publish-failed", "verified"} ==> q.state == p.state))
  {
    PendingNames(rows);
    RefreshExact(rows, Pending(rows), |Pending(rows)|, b, n, i);
    RefreshedIs(rows, b);
    hide Refreshed, RefreshFirst, Pending;
  }

  lemma {:induction false} PendingIn(rows: seq<Proof>, q: Query)
    requires q in Pending(rows)
    ensures exists i :: 0 <= i < |rows| && rows[i].id == q.0 && IsPending(rows[i].state)
  {
    var n := |rows| - 1;
    if q in Pending(rows[..n]) {
      PendingIn(rows[..n], q);
      var i :| 0 <= i < n && rows[..n][i].id == q.0 && IsPending(rows[..n][i].state);
      assert rows[i].id == q.0;
    } else {
      assert rows[n].id == q.0 && IsPending(rows[n].state);
    }
  }

  lemma RefreshStrands(rows: seq<Proof>, b: Backend, saved: Option<string>, id: string)
    requires Distinct(rows)
    ensures Stranded(Refreshed(rows, b).0, id) <==> Stranded(rows, id) || Strands(rows, true, DoRefresh(b, saved), id)
  {
    hide Refreshed, RefreshFirst, Learn, Pending;
    RefreshSparesSettled(rows, b);
    var later := Refreshed(rows, b).0;
    SameIndex(rows, later, id);
    var at := Find(rows, id);
    if at.Some? {
      var i := at.value;
      if !IsPending(rows[i].state) {
        forall n: nat ensures !PublishedBare(rows, b, id, n) {
          if PublishedBare(rows, b, id, n) {
            NotAsked(rows, i, n);
          }
        }
      } else {
        PendingStrands(rows, b, i);
      }
    }
  }

  /** Rows that correspond by place and id are found at the same place. */
  lemma SameIndex(rows: seq<Proof>, later: seq<Proof>, id: string)
    requires |rows| == |later| && forall i | 0 <= i < |rows| :: later[i].id == rows[i].id
    ensures Find(later, id) == Find(rows, id)
  {
    var a, b := Find(rows, id), Find(later, id);
    if a.Some? {
      assert later[a.value].id == id;
    }
    if b.Some? {
      assert rows[b.value].id == id;
    }
  }

  lemma NotAsked(rows: seq<Proof>, i: nat, n: nat)
    requires Distinct(rows) && i < |rows| && !IsPending(rows[i].state) && n < |Pending(rows)|
    ensures Pending(rows)[n].0 != rows[i].id
  {
    PendingIn(rows, Pending(rows)[n]);
  }

  lemma PendingStrands(rows: seq<Proof>, b: Backend, i: nat)
    requires Distinct(rows) && i < |rows| && IsPending(rows[i].state)
    ensures var p := Refreshed(rows, b).0[i];
            p.state == Published && p.doi == None <==> rows[i].doi == None && exists n :: PublishedBare(rows, b, rows[i].id, n)
  {
    hide RefreshFirst, Learn, Pending, Refreshed;
    var qs, id := Pending(rows), rows[i].id;
    RefreshedIs(rows, b);
    PendingNames(rows);
    if n :| 0 <= n < |qs| && qs[n].0 == id {
      RefreshExact(rows, qs, |qs|, b, n, i);
      var r := b.ask(n, qs[n]);
      if r.Some? {
        LearnStrands(rows[i], r.value, b.clock(n));
      }
      forall m: nat | PublishedBare(rows, b, id, m) ensures m == n {
      }
      assert PublishedBare(rows, b, id, n) <==> r.Some? && r.value.state == "published" && r.value.doi == None;
    } else {
      RefreshTouches(rows, qs, |qs|, b);
      assert forall j | 0 <= j < |qs| :: qs[j].0 != id;
    }
  }

  /** A step strands a row exactly when it is such a refresh; publishing never does, and nothing undoes it. */
  lemma StepStrands(rows: seq<Proof>, configured: bool, e: Event, id: string)
    requires Distinct(rows)
    ensures Stranded(Step(rows, configured, e), id) <==> Stranded(rows, id) || Strands(rows, configured, e, id)
  {
    hide Refreshed;
    if e.DoRefresh? {
      RefreshStrands(rows, e.backend, e.saved, id);
    } else if Step(rows, configured, e) != rows {
      var p := NewProof(e.sha, e.submission, e.reply.value, e.now);
      PutElsewhere(rows, p, id);
      ReplyStates(e.sha, e.submission, e.reply.value, e.now);
    }
  }

  lemma PutElsewhere(rows: seq<Proof>, p: Proof, id: string)
    requires Distinct(rows)
    ensures ById(PutRow(rows, p), id) == if id == p.id then Some(p) else ById(rows, id)
  {
    WithoutKeeps(rows, p.id);
    var later := PutRow(rows, p);
    assert later[0] == p;
    if id != p.id {
      var q := ById(rows, id);
      if q.Some? {
        assert q.value in Without(rows, p.id);
        assert q.value in later;
        PutDistinct(rows, p);
        FindDistinct(later, q.value);
      } else {
        forall i | 0 <= i < |later| ensures later[i].id != id {
          assert later[i] in later;
          assert i > 0 ==> later[i] in Without(rows, p.id);
        }
      }
    }
  }

  lemma PutDistinct(rows: seq<Proof>, p: Proof)
    requires Distinct(rows)
    ensures Distinct(PutRow(rows, p))
  {
    WithoutKeeps(rows, p.id);
    var w := Without(rows, p.id);
    forall i | 0 <= i < |w| ensures w[i].id != p.id {
      assert w[i] in w;
    }
  }

  /** Step `k` of the run strands the row. */
  ghost predicate StrandsAt(configured: bool, es: seq<Event>, id: string, k: nat) {
    k < |es| && Strands(Run([], configured, es[..k]), configured, es[k], id)
  }

  lemma StrandsEarlier(configured: bool, es: seq<Event>, id: string, k: nat)
    requires k + 1 < |es|
    ensures StrandsAt(configured, es, id, k) <==> StrandsAt(configured, es[..|es| - 1], id, k)
  {
    hide Strands, Run;
    assert es[..|es| - 1][..k] == es[..k];
  }

  /**
   Over any run from an empty store, a row ends published without a DOI, never to be minted,
   exactly when at some refresh of the run it had no DOI and was reported published without one.
   */
  lemma {:induction false} StrandedExactly(configured: bool, es: seq<Event>, id: string)
    ensures Stranded(Run([], configured, es), id) <==> exists k: nat :: StrandsAt(configured, es, id, k)
  {
    hide StrandsAt, Stranded, Step, Distinct;
    if es == [] {
      NothingStranded(configured, id);
    } else {
      var n, init := |es| - 1, es[..|es| - 1];
      StrandedExactly(configured, init, id);
      LastStrands(configured, es, id);
      if k: nat :| StrandsAt(configured, init, id, k) {
        StrandsBound(configured, init, id, k);
        StrandsEarlier(configured, es, id, k);
      }
      if k: nat :| StrandsAt(configured, es, id, k) {
        StrandsBound(configured, es, id, k);
        if k < n {
          StrandsEarlier(configured, es, id, k);
        }
      }
    }
  }

  lemma LastStrands(configured: bool, es: seq<Event>, id: string)
    requires es != []
    ensures Stranded(Run([], configured, es), id) <==>
            Stranded(Run([], configured, es[..|es| - 1]), id) || StrandsAt(configured, es, id, |es| - 1)
  {
    hide Strands, Stranded, Step, Distinct;
    var init := es[..|es| - 1];
    RunDistinct(configured, init);
    StepStrands(Run([], configured, init), configured, es[|es| - 1], id);
  }

  lemma StrandsBound(configured: bool, es: seq<Event>, id: string, k: nat)
    requires StrandsAt(configured, es, id, k)
    ensures k < |es|
  {
  }

  lemma NothingStranded(configured: bool, id: string)
    ensures !Stranded(Run([], configured, []), id) && forall k: nat :: !StrandsAt(configured, [], id, k)
  {
  }

  lemma RunDistinct(configured: bool, es: seq<Event>)
    ensures Distinct(Run([], configured, es))
  {
    RunExtends([], configured, es);
  }

  /** The smallest run that strands a row: queued on submission, then reported published without a DOI. */
  function StrandingRun(sha: string -> string, s: Submission, now: nat): seq<Event> {
    [DoPublish(sha, s, Good(PublishReply(202, Some("p"), None, None, None, None, None, None)), None, now),
     DoRefresh(Backend((n: nat, q: Query) => Some(ProofReply("published", None, None, None, None)), (n: nat) => now), None)]
  }

  /** A first submission that is not archived yet: one row. */
  lemma FirstRow(e: Event)
    requires e.DoPublish? && e.reply.Good?
    ensures Run([], true, [e]) == [NewProof(e.sha, e.submission, e.reply.value, e.now)]
  {
    assert [e][..0] == [] && Run([], true, []) == [];
    hide NewProof, RecordId;
    var p := NewProof(e.sha, e.submission, e.reply.value, e.now);
    assert PutRow([], p) == [p];
  }

  lemma OnePending(p: Proof)
    requires IsPending(p.state) && p.mm0Proof.Some?
    ensures Pending([p]) == [(p.id, p.project, p.mm0Proof.value)]
  {
    assert [p][..0] == [];
  }

  lemma StrandingHappens(sha: string -> string, s: Submission, now: nat)
    ensures Stranded(Run([], true, StrandingRun(sha, s, now)), RecordId(sha, s))
  {
    var es, id := StrandingRun(sha, s, now), RecordId(sha, s);
    var p := NewProof(sha, s, es[0].reply.value, now);
    assert p.state == Queued && p.doi == None && p.id == id && p.mm0Proof == Some("p");
    FirstRow(es[0]);
    OnePending(p);
    hide Run, NewProof, RecordId, Pending, Stranded;
    assert es[..1] == [es[0]];
    assert PublishedBare([p], es[1].backend, id, 0);
    assert ById([p], id) == Some(p);
    assert StrandsAt(true, es, id, 1);
    StrandedExactly(true, es, id);
  }
}
