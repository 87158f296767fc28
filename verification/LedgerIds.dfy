/** Which submissions share a ledger row: ids are hashes of the texts joined by newlines. */
module LedgerIds {
  import opened Util
  import opened Ledger

  ghost predicate Injective(sha: string -> string) {
    forall x, y :: sha(x) == sha(y) ==> x == y
  }

  function Newlines(s: string): nat {
    if s == "" then 0 else (if s[0] == '\n' then 1 else 0) + Newlines(s[1..])
  }

  lemma {:induction false} NewlinesConcat(a: string, b: string)
    ensures Newlines(a + b) == Newlines(a) + Newlines(b)
  {
    if a == "" {
      assert a + b == b;
    } else {
      assert (a + b)[1..] == a[1..] + b;
      NewlinesConcat(a[1..], b);
    }
  }

  /** The same texts, as opposed to texts that only join to the same string. */
  predicate SameTexts(s: Submission, t: Submission) {
    s.title == t.title && s.mm0 == t.mm0 && s.mm1 == t.mm1
  }

  /** Two cuts of one string, each in front of a newline, agree when as many newlines come before. */
  lemma SameCut(a: string, b: string, a': string, b': string)
    requires a + "\n" + b == a' + "\n" + b' && Newlines(a) == Newlines(a')
    ensures a == a' && b == b'
  {
    if |a| < |a'| {
      ShorterCut(a, b, a', b');
    } else if |a'| < |a| {
      ShorterCut(a', b', a, b);
    }
    var s, t := a + "\n" + b, a' + "\n" + b';
    assert s[..|a|] == a && t[..|a'|] == a' && s[|a| + 1..] == b && t[|a'| + 1..] == b';
  }

  lemma ShorterCut(a: string, b: string, a': string, b': string)
    requires a + "\n" + b == a' + "\n" + b' && |a| < |a'|
    ensures Newlines(a) < Newlines(a')
  {
    var s, t := a + "\n" + b, a' + "\n" + b';
    var mid := a'[|a| + 1..];
    assert a' == t[..|a'|] && s[..|a'|] == a + "\n" + mid by {
      assert s[..|a'|][..|a| + 1] == a + "\n";
      assert s[..|a'|][|a| + 1..] == t[..|a'|][|a| + 1..];
    }
    NewlinesConcat(a + "\n", mid);
    NewlinesConcat(a, "\n");
    assert Newlines("\n") == 1;
  }

  /** With a hash that never collides, two submissions share an id exactly when their title, mm0
      and mm1, joined by newlines, are one string. */
  lemma SharedId(sha: string -> string, s: Submission, t: Submission)
    requires Injective(sha)
    ensures RecordId(sha, s) == RecordId(sha, t) <==>
            s.title + "\n" + s.mm0 + "\n" + s.mm1 == t.title + "\n" + t.mm0 + "\n" + t.mm1
  {
  }

  /** Submissions that share an id are the same texts exactly when title and mm0 hold as many
      newlines in one as in the other. */
  lemma SharedIdExactly(sha: string -> string, s: Submission, t: Submission)
    requires Injective(sha) && RecordId(sha, s) == RecordId(sha, t)
    ensures SameTexts(s, t) <==> Newlines(s.title) == Newlines(t.title) && Newlines(s.mm0) == Newlines(t.mm0)
  {
    SharedId(sha, s, t);
    hide RecordId, Injective;
    if Newlines(s.title) == Newlines(t.title) && Newlines(s.mm0) == Newlines(t.mm0) {
      var x, y := s.mm0 + "\n" + s.mm1, t.mm0 + "\n" + t.mm1;
      assert s.title + "\n" + s.mm0 + "\n" + s.mm1 == s.title + "\n" + x;
      assert t.title + "\n" + t.mm0 + "\n" + t.mm1 == t.title + "\n" + y;
      SameCut(s.title, x, t.title, y);
      SameCut(s.mm0, s.mm1, t.mm0, t.mm1);
    }
  }

  /** Two developments with one id under every hash. */
  lemma SharedIdHappens(sha: string -> string, mm1: string)
    ensures var s, t := Submission("", "", "a\nb", "c", mm1), Submission("", "", "a", "b\nc", mm1);
            RecordId(sha, s) == RecordId(sha, t) && !SameTexts(s, t)
  {
    assert "a\nb" + "\n" + "c" == "a" + "\n" + "b\nc";
  }

  // ----- over runs -----

  /** The row carries the id, the title and the text hash of the submission. */
  predicate MadeBy(sha: string -> string, p: Proof, s: Submission) {
    p.id == sha(s.title + "\n" + s.mm0 + "\n" + s.mm1) && p.title == s.title && p.sha256 == sha(s.mm0 + "\n" + s.mm1)
  }

  ghost predicate OneHash(sha: string -> string, es: seq<Event>) {
    forall i | 0 <= i < |es| :: es[i].DoPublish? ==> es[i].sha == sha
  }

  /** Some submission of the run made the row. */
  ghost predicate Submitted(sha: string -> string, es: seq<Event>, p: Proof) {
    exists i :: 0 <= i < |es| && es[i].DoPublish? && MadeBy(sha, p, es[i].submission)
  }

  lemma LearnMade(sha: string -> string, p: Proof, r: ProofReply, now: nat, s: Submission)
    ensures MadeBy(sha, Learn(p, r, now).0, s) <==> MadeBy(sha, p, s)
  {
  }

  /** Each refreshed row was made by whatever made it before. */
  lemma {:induction false} RefreshMade(sha: string -> string, rows: seq<Proof>, qs: seq<Query>, n: nat, b: Backend, i: nat, s: Submission)
    requires n <= |qs| && i < |rows|
    ensures MadeBy(sha, RefreshFirst(rows, qs, n, b).0[i], s) <==> MadeBy(sha, rows[i], s)
  {
    hide MadeBy, Learn;
    if n > 0 {
      RefreshMade(sha, rows, qs, n - 1, b, i, s);
      var before := RefreshFirst(rows, qs, n - 1, b).0;
      var at, reply := Find(before, qs[n - 1].0), b.ask(n - 1, qs[n - 1]);
      if at == Some(i) && reply.Some? {
        LearnMade(sha, before[i], reply.value, b.clock(n - 1), s);
      }
    }
  }

  lemma StepMade(sha: string -> string, rows: seq<Proof>, configured: bool, es: seq<Event>, e: Event, p: Proof)
    requires (e.DoPublish? ==> e.sha == sha) && (forall q | q in rows :: Submitted(sha, es, q)) && p in Step(rows, configured, e)
    ensures Submitted(sha, es + [e], p)
  {
    var all := es + [e];
    assert forall i | 0 <= i < |es| :: all[i] == es[i];
    hide MadeBy;
    if e.DoRefresh? && configured {
      var qs := Pending(rows);
      var i :| 0 <= i < |rows| && Refreshed(rows, e.backend).0[i] == p;
      assert Submitted(sha, es, rows[i]);
      var j :| 0 <= j < |es| && es[j].DoPublish? && MadeBy(sha, rows[i], es[j].submission);
      RefreshMade(sha, rows, qs, |qs|, e.backend, i, es[j].submission);
      assert all[j] == es[j];
    } else if p in rows {
      assert Submitted(sha, es, p);
      var j :| 0 <= j < |es| && es[j].DoPublish? && MadeBy(sha, p, es[j].submission);
      assert all[j] == es[j];
    } else {
      var made := NewProof(e.sha, e.submission, e.reply.value, e.now);
      WithoutKeeps(rows, made.id);
      assert p == made;
      NewMade(sha, e.submission, e.reply.value, e.now);
      assert all[|es|] == e;
    }
  }

  lemma NewMade(sha: string -> string, s: Submission, r: PublishReply, now: nat)
    ensures MadeBy(sha, NewProof(sha, s, r, now), s)
  {
  }

  lemma {:induction false} RunMade(sha: string -> string, configured: bool, es: seq<Event>)
    requires OneHash(sha, es)
    ensures forall p | p in Run([], configured, es) :: Submitted(sha, es, p)
  {
    hide Submitted, Step;
    if es != [] {
      var n := |es| - 1;
      RunMade(sha, configured, es[..n]);
      assert es == es[..n] + [es[n]];
      forall p | p in Run([], configured, es) ensures Submitted(sha, es, p) {
        StepMade(sha, Run([], configured, es[..n]), configured, es[..n], es[n], p);
      }
    }
  }

  /**
   Over any run with a hash that never collides: the row found for a submission, which is then
   returned or replaced, was made by a submission of the run whose joined texts are the same
   string; and it is a row of the very same texts exactly when title and mm0 of the two hold as
   many newlines.
   */
  lemma KnownRowIsOwn(sha: string -> string, configured: bool, es: seq<Event>, t: Submission)
    requires Injective(sha) && OneHash(sha, es) && ById(Run([], configured, es), RecordId(sha, t)).Some?
    ensures var p := ById(Run([], configured, es), RecordId(sha, t)).value;
            exists i :: 0 <= i < |es| && es[i].DoPublish? && MadeBy(sha, p, es[i].submission) &&
              (SameTexts(es[i].submission, t) <==>
                 Newlines(es[i].submission.title) == Newlines(t.title) && Newlines(es[i].submission.mm0) == Newlines(t.mm0))
  {
    RunMade(sha, configured, es);
    var rows := Run([], configured, es);
    hide Run;
    var p := ById(rows, RecordId(sha, t)).value;
    assert p in rows;
    var i :| 0 <= i < |es| && es[i].DoPublish? && MadeBy(sha, p, es[i].submission);
    var s := es[i].submission;
    assert RecordId(sha, s) == RecordId(sha, t);
    SharedIdExactly(sha, s, t);
  }
}
