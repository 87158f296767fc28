/** The proof ledger across restarts: which rows survive when a write may fail. */
module LedgerFile {
  import opened Util
  import opened Ledger

  /** The rows in memory and the rows in the file. */
  datatype Disk = Disk(rows: seq<Proof>, file: seq<Proof>)

  datatype Action = Do(e: Event) | Restart

  /** The action leaves the file holding what memory holds. */
  predicate Saves(d: Disk, configured: bool, a: Action) {
    a.Do? && Writes(d.rows, configured, a.e) && a.e.saved.None?
  }

  function Act(d: Disk, configured: bool, a: Action): Disk {
    match a
    case Do(e) =>
      var rows := Step(d.rows, configured, e);
      Disk(rows, if Saves(d, configured, a) then rows else d.file)
    case Restart => Disk(d.file, d.file)
  }

  function Acts(d: Disk, configured: bool, acts: seq<Action>): Disk {
    if acts == [] then d else Act(Acts(d, configured, acts[..|acts| - 1]), configured, acts[|acts| - 1])
  }

  function Empty(): Disk {
    Disk([], [])
  }

  // ----- the file is the last save -----

  /** The length of the run up to its last save, or zero. */
  function LastSave(configured: bool, acts: seq<Action>): (n: nat)
    ensures n <= |acts|
  {
    if acts == [] then 0
    else
      var init := acts[..|acts| - 1];
      if Saves(Acts(Empty(), configured, init), configured, acts[|acts| - 1]) then |acts| else LastSave(configured, init)
  }

  /** Over any run with restarts, a restart brings back exactly the rows of the last save. */
  lemma {:induction false} RestartExact(configured: bool, acts: seq<Action>)
    ensures Acts(Empty(), configured, acts + [Restart]).rows == Acts(Empty(), configured, acts[..LastSave(configured, acts)]).rows
  {
    FileIsLastSave(configured, acts);
    assert (acts + [Restart])[..|acts|] == acts;
  }

  lemma {:induction false} FileIsLastSave(configured: bool, acts: seq<Action>)
    ensures Acts(Empty(), configured, acts).file == Acts(Empty(), configured, acts[..LastSave(configured, acts)]).rows
  {
    hide Saves, Step;
    if acts != [] {
      var n := |acts| - 1;
      FileIsLastSave(configured, acts[..n]);
      if Saves(Acts(Empty(), configured, acts[..n]), configured, acts[n]) {
        assert acts[..|acts|] == acts;
        SavesAreSteps(Acts(Empty(), configured, acts[..n]), configured, acts[n]);
      } else {
        assert acts[..n][..LastSave(configured, acts[..n])] == acts[..LastSave(configured, acts[..n])];
      }
    }
  }

  lemma SavesAreSteps(d: Disk, configured: bool, a: Action)
    requires Saves(d, configured, a)
    ensures Act(d, configured, a).file == Act(d, configured, a).rows
  {
  }

  // ----- what survives -----

  ghost predicate Sound(d: Disk) {
    Distinct(d.rows) && Distinct(d.file)
  }

  lemma ActSound(d: Disk, configured: bool, a: Action)
    requires Sound(d)
    ensures Sound(Act(d, configured, a))
    ensures forall p | p in d.rows && p in d.file && p.state == Published ::
              p in Act(d, configured, a).rows && p in Act(d, configured, a).file
  {
    hide Step, Saves, Distinct;
    if a.Do? {
      StepExtends(d.rows, configured, a.e);
    }
  }

  lemma {:induction false} ActsSound(d: Disk, configured: bool, acts: seq<Action>)
    requires Sound(d)
    ensures Sound(Acts(d, configured, acts))
    ensures forall p | p in d.rows && p in d.file && p.state == Published ::
              p in Acts(d, configured, acts).rows && p in Acts(d, configured, acts).file
  {
    hide Sound, Act;
    if acts != [] {
      ActsSound(d, configured, acts[..|acts| - 1]);
      ActSound(Acts(d, configured, acts[..|acts| - 1]), configured, acts[|acts| - 1]);
    }
  }

  /** The row is there after every continuation of the run. */
  ghost predicate Survives(d: Disk, configured: bool, p: Proof) {
    forall more :: p in Acts(d, configured, more).rows
  }

  /**
   After any run, with failed writes and restarts anywhere, a published row survives every
   continuation exactly when it has been written to the file.
   */
  lemma SurvivesExactly(configured: bool, acts: seq<Action>, p: Proof)
    requires p in Acts(Empty(), configured, acts).rows && p.state == Published
    ensures var d := Acts(Empty(), configured, acts); Survives(d, configured, p) <==> p in d.file
  {
    ActsSound(Empty(), configured, acts);
    var d := Acts(Empty(), configured, acts);
    if p in d.file {
      forall more ensures p in Acts(d, configured, more).rows {
        ActsSound(d, configured, more);
      }
    } else {
      assert [Restart][..0] == [] && Acts(d, configured, []) == d;
      assert p !in Acts(d, configured, [Restart]).rows;
    }
  }

  /** A published row whose write failed is gone after a restart. */
  lemma FailedSaveLoses(sha: string -> string, s: Submission, doi: string, now: nat)
    ensures var e := DoPublish(sha, s, Good(PublishReply(200, None, Some(doi), None, None, None, None, None)), Some("disk full"), now);
            var d := Acts(Empty(), true, [Do(e)]);
            && ById(d.rows, RecordId(sha, s)).Some? && CanMint(ById(d.rows, RecordId(sha, s)).value)
            && Acts(Empty(), true, [Do(e), Restart]).rows == []
  {
    var e := DoPublish(sha, s, Good(PublishReply(200, None, Some(doi), None, None, None, None, None)), Some("disk full"), now);
    var p := NewProof(sha, s, e.reply.value, now);
    assert p.id == RecordId(sha, s) && CanMint(p);
    assert [Do(e)][..0] == [] && [Do(e), Restart][..1] == [Do(e)];
    hide NewProof, RecordId;
    assert Step([], true, e) == PutRow([], p);
    assert PutRow([], p) == [p];
  }
}
