/** The whole life of an operation on Windows: the runs of `WindowsProtocol` with the cleanups
    that are permitted in between, each of them stopped anywhere. What cleanup has taken away
    from a state, a state of a run without cleanup still has. */
module WindowsLife {
  import opened Records
  import opened Volumes
  import opened WindowsProtocol

  ghost predicate Life(p: View, run: seq<View>, effects: seq<Effect>) {
    && PreparedView(p)
    && |run| == |effects| + 1 && run[0] == p
    && forall i | 0 <= i < |effects| :: Leads(run[i], effects[i], run[i + 1])
  }

  /** `v` is `w` without some of its hidden entries. Before a decision only the backup can
      be gone, and the staged result of an operation that was still prepared. */
  ghost predicate CleanedFrom(p: View, w: View, v: View) {
    && SameVisible(w, v) && v.record == w.record && v.record.Some?
    && v.backup in {w.backup, None}
    && if Decided(v.Phase()) then v.stage in {w.stage, None} && v.quarantine in {w.quarantine, None}
       else v.quarantine == w.quarantine && (v.stage == w.stage || Unstaged(p, w, v))
  }

  ghost predicate Unstaged(p: View, w: View, v: View)
    requires v.record.Some?
  {
    && v.stage.None? && w.stage == p.stage && v.record.value.operation in {Write, MakeDirectory}
    && v.Phase() in {Prepared, TargetQuarantining, TargetQuarantined}
  }

  ghost predicate Shadow(p: View, w: View, v: View)
    requires PreparedView(p)
  {
    Inv(p, w) && CleanedFrom(p, w, v)
  }

  /** The path of an overwrite is empty. */
  ghost predicate PathEmpty(p: View, v: View)
    requires PreparedView(p)
  {
    p.record.value.Overwrites() && v.target.None? && v.destination == p.destination
  }

  /** The record is gone. */
  ghost predicate Ended(p: View, v: View)
    requires PreparedView(p)
  {
    v.record.None? && (Before(p, v) || After(p, v) || PathEmpty(p, v))
  }

  ghost predicate Good(p: View, v: View)
    requires PreparedView(p)
  {
    Ended(p, v) || exists w :: Shadow(p, w, v)
  }

  // ---------------------------------------------------------------- one effect

  lemma ShadowSeen(p: View, w: View, v: View)
    requires PreparedView(p) && Shadow(p, w, v)
    ensures Before(p, v) || After(p, v) || PathEmpty(p, v)
    ensures v.Phase() == Prepared ==> Before(p, v)
    ensures !Decided(v.Phase()) ==> Conserved(p, v)
  {
    var shape :| shape in ShapesIn(w.record.value) && HasShape(p, w, shape);
  }

  lemma CleaningKeeps(p: View, w: View, v: View, e: Effect)
    requires PreparedView(p) && Shadow(p, w, v) && Permitted(v, e) && CleaningEffect(e)
    ensures if e in {DropRecord, DropBlindly} then Ended(p, Apply(v, e)) else Shadow(p, w, Apply(v, e))
  {
    ShadowSeen(p, w, v);
    var shape :| shape in ShapesIn(w.record.value) && HasShape(p, w, shape);
  }

  /** What cleanup has taken away enables nothing. */
  lemma ShadowEnables(p: View, w: View, v: View, e: Effect)
    requires PreparedView(p) && Shadow(p, w, v) && Enabled(v, e) && !CleaningEffect(e)
    ensures Enabled(w, e)
  {
    var shape :| shape in ShapesIn(w.record.value) && HasShape(p, w, shape);
  }

  lemma EffectKeeps(p: View, w: View, v: View, e: Effect)
    requires PreparedView(p) && Shadow(p, w, v) && Enabled(v, e) && !CleaningEffect(e)
    ensures Enabled(w, e) && Shadow(p, Apply(w, e), Apply(v, e))
  {
    ShadowEnables(p, w, v, e);
    Inductive(p, w, e);
    EffectCleans(p, w, v, e);
  }

  lemma EffectCleans(p: View, w: View, v: View, e: Effect)
    requires PreparedView(p) && Shadow(p, w, v) && Enabled(v, e) && Enabled(w, e) && !CleaningEffect(e)
    ensures CleanedFrom(p, Apply(w, e), Apply(v, e))
  {
    var shape :| shape in ShapesIn(w.record.value) && HasShape(p, w, shape);
  }

  lemma GoodStays(p: View, v: View, e: Effect)
    requires PreparedView(p) && Good(p, v) && Permitted(v, e)
    ensures Good(p, Apply(v, e))
  {
    var w :| Shadow(p, w, v);
    if CleaningEffect(e) {
      CleaningKeeps(p, w, v, e);
    } else {
      EffectKeeps(p, w, v, e);
    }
  }

  // ---------------------------------------------------------------- whole lives

  lemma LeadsAt(p: View, run: seq<View>, effects: seq<Effect>, i: nat)
    requires Life(p, run, effects) && i < |effects|
    ensures Permitted(run[i], effects[i]) && run[i + 1] == Apply(run[i], effects[i])
  {
  }

  lemma {:induction false} LifeIsGood(p: View, run: seq<View>, effects: seq<Effect>, i: nat)
    requires Life(p, run, effects) && i < |run|
    ensures Good(p, run[i])
  {
    if i == 0 {
      PreparedIsGood(p);
      assert Shadow(p, p, p);
    } else {
      LifeIsGood(p, run, effects, i - 1);
      LeadsAt(p, run, effects, i - 1);
      GoodStays(p, run[i - 1], effects[i - 1]);
    }
  }

  /** After the record nothing is dropped. */
  lemma DroppedLast(p: View, run: seq<View>, effects: seq<Effect>, i: nat)
    requires Life(p, run, effects) && i < |run| && run[i].record.None?
    ensures i > 0 && effects[i - 1] == if run[i].NothingHidden() then DropRecord else DropBlindly
    ensures forall j | 0 <= j < i - 1 :: effects[j] != DropBlindly
  {
    LeadsAt(p, run, effects, i - 1);
    forall j | 0 <= j < i - 1
      ensures effects[j] != DropBlindly
    {
      LeadsAt(p, run, effects, j);
      LeadsAt(p, run, effects, j + 1);
    }
  }

  /** With cleanups in between, too, the user sees the old tree, the new one, or an empty
      path in the middle of an overwrite; before a decision the original is conserved; and
      something hidden outlives the record exactly when a cleanup dropped it blindly. */
  lemma LifeIsSafe(p: View, run: seq<View>, effects: seq<Effect>, i: nat)
    requires Life(p, run, effects) && i < |run|
    ensures Before(p, run[i]) || After(p, run[i]) || PathEmpty(p, run[i])
    ensures run[i].record.Some? && !Decided(run[i].Phase()) ==> Conserved(p, run[i])
    ensures run[i].record.Some? && run[i].Phase() == Prepared ==> Before(p, run[i])
    ensures run[i].record.None? ==>
              (run[i].NothingHidden() <==> forall j | 0 <= j < i :: effects[j] != DropBlindly)
  {
    LifeIsGood(p, run, effects, i);
    if run[i].record.None? {
      DroppedLast(p, run, effects, i);
    }
    if !Ended(p, run[i]) {
      var w :| Shadow(p, w, run[i]);
      ShadowSeen(p, w, run[i]);
    }
  }

  /** A record turns into `committed` over the new tree exactly where a reconcile would have
      answered so; only one that looks at nothing or fails to see something can be wrong. */
  lemma CommitHere(p: View, v: View, e: Effect)
    requires PreparedView(p) && Good(p, v) && Enabled(v, e) && (e == ConcludeCommit || Unseeing(e))
    ensures After(p, v) <==> Reconciled(v) == AnsweredCommitted
    ensures e == ConcludeCommit ==> After(p, v)
  {
    var w :| Shadow(p, w, v);
    var shape :| shape in ShapesIn(w.record.value) && HasShape(p, w, shape);
  }

  /** Likewise for `rolledBack`; only a rollback that skips its undo can be wrong. */
  lemma RollbackHere(p: View, v: View, e: Effect)
    requires PreparedView(p) && Good(p, v) && Enabled(v, e) && e in {ConcludeRollback, SkipRollback}
    ensures Before(p, v) <==> !MustUndo(v)
    ensures e == ConcludeRollback ==> Before(p, v)
  {
    var w :| Shadow(p, w, v);
    var shape :| shape in ShapesIn(w.record.value) && HasShape(p, w, shape);
  }

  predicate Wrong(v: View, e: Effect) {
    && v.record.Some?
    && ((Unseeing(e) && Reconciled(v) != AnsweredCommitted) || (e == SkipRollback && MustUndo(v)))
  }

  /** The record tells the truth. */
  ghost predicate Truthful(p: View, v: View)
    requires PreparedView(p)
  {
    (SaysCommitted(v) ==> After(p, v)) && (SaysRolledBack(v) ==> Before(p, v))
  }

  lemma TruthStays(p: View, v: View, e: Effect)
    requires PreparedView(p) && Good(p, v) && Permitted(v, e) && Truthful(p, v)
    ensures Truthful(p, Apply(v, e)) <==> !Wrong(v, e)
  {
    if e == ConcludeCommit || Unseeing(e) {
      CommitHere(p, v, e);
    } else if e in {ConcludeRollback, SkipRollback} {
      RollbackHere(p, v, e);
    }
  }

  lemma {:induction false} TruthfulSoFar(p: View, run: seq<View>, effects: seq<Effect>, i: nat)
    requires Life(p, run, effects) && i < |run|
    requires forall j | 0 <= j < i :: !Wrong(run[j], effects[j])
    ensures Truthful(p, run[i])
  {
    if i > 0 {
      TruthfulSoFar(p, run, effects, i - 1);
      LifeIsGood(p, run, effects, i - 1);
      LeadsAt(p, run, effects, i - 1);
      TruthStays(p, run[i - 1], effects[i - 1]);
    }
  }

  /** In every state of a life the record tells the truth about what the user sees exactly
      when nothing was committed unseen that was not installed, and no rollback skipped an
      undo that was due. */
  lemma TruthfulExactlyWhen(p: View, run: seq<View>, effects: seq<Effect>)
    requires Life(p, run, effects)
    ensures (forall i | 0 <= i < |run| :: Truthful(p, run[i]))
       <==> (forall i | 0 <= i < |effects| :: !Wrong(run[i], effects[i]))
  {
    if forall i | 0 <= i < |run| :: Truthful(p, run[i]) {
      forall i | 0 <= i < |effects|
        ensures !Wrong(run[i], effects[i])
      {
        LifeIsGood(p, run, effects, i);
        LeadsAt(p, run, effects, i);
        TruthStays(p, run[i], effects[i]);
        assert Truthful(p, run[i + 1]);
      }
    }
    if forall i | 0 <= i < |effects| :: !Wrong(run[i], effects[i]) {
      forall i | 0 <= i < |run|
        ensures Truthful(p, run[i])
      {
        TruthfulSoFar(p, run, effects, i);
      }
    }
  }

  // ---------------------------------------------------------------- two lives

  /** A prepared deletion of `original` with a backup copy of it. */
  function DeletionOf(original: Node, copy: Node): (p: View)
    requires original.File? && copy.File? && copy.digest == original.digest
    ensures PreparedView(p)
  {
    var record := Record("token", Delete, "notes.md", None, false, ClaimOf(original),
                         NO_CLAIM, ClaimOf(copy), Prepared);
    View(Some(record), Some(original), None, None, None, Some(copy))
  }

  lemma Longer(p: View, run: seq<View>, effects: seq<Effect>, e: Effect)
    requires Life(p, run, effects) && Permitted(run[|run| - 1], e)
    ensures Life(p, run + [Apply(run[|run| - 1], e)], effects + [e])
  {
  }

  /** The first half of the commit of a deletion: the file is in `<id>.stage`. */
  lemma AwayLife(original: Node, copy: Node) returns (p: View, run: seq<View>, effects: seq<Effect>)
    requires original.File? && copy.File? && copy.digest == original.digest
    ensures Life(p, run, effects) && p == DeletionOf(original, copy)
    ensures run[|run| - 1] == p.WithPhase(TargetQuarantining).(target := None, stage := Some(original))
  {
    p := DeletionOf(original, copy);
    run, effects := [p], [];
    Longer(p, run, effects, BeginQuarantine);
    run, effects := run + [p.WithPhase(TargetQuarantining)], effects + [BeginQuarantine];
    Longer(p, run, effects, QuarantineEffect);
    run := run + [p.WithPhase(TargetQuarantining).(target := None, stage := Some(original))];
    effects := effects + [QuarantineEffect];
  }

  /** A deletion is taken back while `<id>.stage` cannot be opened: the record says
      `rolledBack`, and the cleanup that is then permitted deletes the file and its copy. */
  lemma SkippedRollbackCanLoseTheFile() returns (p: View, run: seq<View>, effects: seq<Effect>)
    ensures Life(p, run, effects) && IsFile(p.target)
    ensures var last := run[|run| - 1]; SaysRolledBack(last) && last.target.None? && last.NothingHidden()
  {
    p, run, effects := AwayLife(File(7, 70), File(8, 70));
    var skipped := run[|run| - 1].WithPhase(RolledBack);
    Longer(p, run, effects, SkipRollback);
    run, effects := run + [skipped], effects + [SkipRollback];
    Longer(p, run, effects, DropStage);
    run, effects := run + [skipped.(stage := None)], effects + [DropStage];
    Longer(p, run, effects, DropBackup);
    run, effects := run + [skipped.(stage := None, backup := None)], effects + [DropBackup];
  }

  /** The cleanup of a committed deletion cannot open `<id>.stage`: the record is gone, and
      the deleted file stays in the hidden directory; every later cleanup is refused. */
  lemma CleanupCanLeaveTheFile() returns (p: View, run: seq<View>, effects: seq<Effect>)
    ensures Life(p, run, effects) && IsFile(p.target)
    ensures var last := run[|run| - 1]; last.record.None? && last.target.None? && last.stage == p.target
  {
    p, run, effects := AwayLife(File(7, 70), File(8, 70));
    var committed := run[|run| - 1].WithPhase(Committed);
    Longer(p, run, effects, ConcludeCommit);
    run, effects := run + [committed], effects + [ConcludeCommit];
    Longer(p, run, effects, DropBackup);
    run, effects := run + [committed.(backup := None)], effects + [DropBackup];
    Longer(p, run, effects, DropBlindly);
    run, effects := run + [committed.(backup := None, record := None)], effects + [DropBlindly];
  }

  /** A file has two names, and the first is to be moved to the second. A reconcile that
      fails to open the first takes the second for the result. */
  lemma MisreadCommitCanBeWrong() returns (p: View, run: seq<View>, effects: seq<Effect>)
    ensures Life(p, run, effects) && IsFile(p.target) && p.destination == p.target
    ensures var last := run[|run| - 1]; SaysCommitted(last) && SameVisible(last, p) && !After(p, last)
  {
    var file := File(7, 70);
    var record := Record("token", Move, "a.md", Some("b.md"), false, ClaimOf(file),
                         NO_CLAIM, ClaimOf(File(8, 70)), Prepared);
    p := View(Some(record), Some(file), Some(file), None, None, Some(File(8, 70)));
    run, effects := [p], [];
    Longer(p, run, effects, MisreadCommit);
    run, effects := run + [p.WithPhase(Committed)], effects + [MisreadCommit];
  }
}
