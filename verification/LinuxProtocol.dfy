/** The crash-recoverable file mutation of the Linux runner, seen from one operation:
    the entries it may touch, its durable record, and the single durable effects
    (persist, rename, exchange, unlink) its handlers perform. A process may stop after
    any effect, so a run is any sequence of effects. */
module LinuxProtocol {
  import opened Records
  import opened Volumes

  /** The directory entries one operation may touch: the path, the destination of a
      move, and `<id>.stage` and `<id>.backup` in the hidden directory. */
  datatype Entry = Target | Destination | Stage | Backup

  /** Everything one operation can read or change. `destination` stays `None` unless
      the operation is a move. */
  datatype View = View(
    record: Option<Record>,
    target: Slot,
    destination: Slot,
    stage: Slot,
    backup: Slot)
  {
    function At(entry: Entry): Slot {
      match entry
      case Target => target
      case Destination => destination
      case Stage => stage
      case Backup => backup
    }

    function With(entry: Entry, slot: Slot): View {
      match entry
      case Target => this.(target := slot)
      case Destination => this.(destination := slot)
      case Stage => this.(stage := slot)
      case Backup => this.(backup := slot)
    }

    /** The phase on disk. */
    function Phase(): Phase
      requires record.Some?
    {
      record.value.phase
    }

    /** Persisting a phase replaces the record and nothing else. */
    function WithPhase(phase: Phase): View
      requires record.Some?
    {
      this.(record := Some(record.value.(phase := phase)))
    }
  }

  /** The transition check in SaveOperationState. */
  predicate Forward(current: Phase, next: Phase) {
    || current == next
    || next == Committed
    || next == RolledBack
    || (current == Prepared && next in {TargetQuarantining, StageInstalling})
    || (current == TargetQuarantining && next == TargetQuarantined)
    || (current == TargetQuarantined && next == StageInstalling)
  }

  /** The phase HandleCommit persists before it touches the visible tree. */
  function InFlight(r: Record): Phase {
    if r.operation == Delete || (r.operation == Write && !r.expectMissing)
    then TargetQuarantining
    else StageInstalling
  }

  // ---------------------------------------------------------------- durable effects

  /** What HandleCommit has confirmed before it persists the in-flight phase. That nothing
      is at the path of a creation it leaves to the rename: a file it failed to open looks
      like none. */
  predicate MayBegin(v: View)
    requires v.record.Some?
  {
    var r := v.record.value;
    match r.operation
    case Write =>
      && IsFile(v.stage) && SameIdentity(v.stage, r.staged)
      && (r.expectMissing || Proof(v.target, r.expected))
    case Delete => Proof(v.target, r.expected)
    case Move => r.destination.Some? && Proof(v.target, r.expected)
    case MakeDirectory => IsDirectory(v.stage) && SameIdentity(v.stage, r.staged)
  }

  /** The renames refuse an occupied name unless they exchange two entries. */
  predicate MayRename(v: View)
    requires v.record.Some?
  {
    var r := v.record.value;
    match r.operation
    case Write => r.expectMissing ==> v.target.None?
    case Delete => v.stage.None?
    case Move => v.destination.None?
    case MakeDirectory => v.target.None?
  }

  /** The one rename that makes the operation visible. */
  function Rename(v: View): View
    requires v.record.Some?
  {
    var r := v.record.value;
    match r.operation
    case Write =>
      if r.expectMissing
      then v.(target := v.stage, stage := None)
      else v.(target := v.stage, stage := v.target)
    case Delete => v.(target := None, stage := v.target)
    case Move => v.(target := None, destination := v.target)
    case MakeDirectory => v.(target := v.stage, stage := None)
  }

  /** What HandleReconcile takes as evidence that the rename happened. */
  predicate EffectSeen(v: View)
    requires v.record.Some?
  {
    var r := v.record.value;
    match r.operation
    case Write => Proof(v.target, r.staged)
    case Delete => v.target.None? && Proof(v.stage, r.expected)
    case Move => v.target.None? && r.destination.Some? && Proof(v.destination, r.expected)
    case MakeDirectory => IsDirectory(v.target) && SameIdentity(v.target, r.staged)
  }

  /** What HandleReconcile takes as evidence that nothing happened. */
  predicate UntouchedSeen(v: View)
    requires v.record.Some?
  {
    if v.record.value.expectMissing then v.target.None?
    else Proof(v.target, v.record.value.expected)
  }

  /** The answer of HandleReconcile to the state it finds. */
  function Reconciled(v: View): Answer
    requires v.record.Some?
  {
    if v.Phase() == RolledBack then AnsweredRolledBack
    else if EffectSeen(v) then AnsweredCommitted
    else if UntouchedSeen(v) then AnsweredNotCommitted
    else AnsweredIndeterminate
  }

  /** What HandleRollback can undo: the visible effect together with whatever it needs
      to put the old entry back. */
  predicate MustUndo(v: View)
    requires v.record.Some?
  {
    var r := v.record.value;
    match r.operation
    case Write =>
      if r.expectMissing then Proof(v.target, r.staged)
      else Proof(v.stage, r.expected) && (v.target.None? || Proof(v.target, r.staged))
    case Delete => v.target.None? && Proof(v.stage, r.expected)
    case Move => v.target.None? && r.destination.Some? && Proof(v.destination, r.expected)
    case MakeDirectory => IsDirectory(v.target) && SameIdentity(v.target, r.staged)
  }

  /** The exchange of an overwrite has happened, as far as HandleCommit knows: it does not
      look at the content of the staged file. */
  predicate Exchanged(v: View)
    requires v.record.Some?
  {
    var r := v.record.value;
    && r.Overwrites() && v.Phase() == TargetQuarantining
    && IsFile(v.target) && SameIdentity(v.target, r.staged) && Proof(v.stage, r.expected)
  }

  /** One unlink, rename or exchange that takes the visible effect back. */
  function Undo(v: View): View
    requires v.record.Some?
  {
    var r := v.record.value;
    match r.operation
    case Write =>
      if r.expectMissing then v.(target := None)
      else v.(target := v.stage, stage := v.target)  // an exchange, or a rename to a free name
    case Delete => v.(target := v.stage, stage := None)
    case Move => v.(target := v.destination, destination := None)
    case MakeDirectory => v.(target := None)
  }

  /** When HandleRollback goes on to persist `rolledBack`. */
  predicate MayConcludeRollback(v: View)
    requires v.record.Some?
  {
    var r := v.record.value;
    || v.Phase() == Prepared
    || (if r.operation == Write && !r.expectMissing then Proof(v.target, r.expected)
        else !MustUndo(v) && (r.operation == Move ==> r.destination.Some?))
  }

  /** What a record that HandleCommit or HandleReconcile turns into `committed` shows.
      After its own rename HandleCommit does not look at the content again. */
  predicate MayConcludeCommit(v: View)
    requires v.record.Some?
  {
    || EffectSeen(v)
    || (v.record.value.operation == Write && v.record.value.expectMissing
        && v.Phase() == StageInstalling
        && IsFile(v.target) && SameIdentity(v.target, v.record.value.staged))
    || Exchanged(v)
  }

  /** The durable effects, each with what its handler has checked before it. */
  datatype Effect =
    | BeginCommit
    | RenameEffect
    | ConcludeCommit
    | UndoEffect
    | ConcludeRollback
    | DropStage
    | DropBackup
    | DropRecord

  predicate Enabled(v: View, e: Effect) {
    v.record.Some? &&
    var r := v.record.value;
    match e
    case BeginCommit => r.phase == Prepared && MayBegin(v)
    case RenameEffect => r.phase == InFlight(r) && MayBegin(v) && MayRename(v)
    case ConcludeCommit => !Decided(r.phase) && MayConcludeCommit(v)
    case UndoEffect => !Settled(r.phase) && (MustUndo(v) || Exchanged(v))
    case ConcludeRollback => !Decided(r.phase) && MayConcludeRollback(v)
    case DropStage => v.stage.Some?
    case DropBackup => v.backup.Some? && v.stage.None?
    case DropRecord => v.stage.None? && v.backup.None?
  }

  function Apply(v: View, e: Effect): View
    requires Enabled(v, e)
  {
    match e
    case BeginCommit => v.WithPhase(InFlight(v.record.value))
    case RenameEffect => Rename(v)
    case ConcludeCommit => v.WithPhase(Committed)
    case UndoEffect => Undo(v)
    case ConcludeRollback => v.WithPhase(RolledBack)
    case DropStage => v.(stage := None)
    case DropBackup => v.(backup := None)
    case DropRecord => v.(record := None)
  }

  predicate CleaningEffect(e: Effect) {
    e in {DropStage, DropBackup, DropRecord}
  }

  /** HandleCleanup does not look at the phase; its caller acknowledges an outcome only
      once the operation is settled. */
  predicate Permitted(v: View, e: Effect) {
    Enabled(v, e) && (CleaningEffect(e) ==> Settled(v.Phase()))
  }

  ghost predicate Next(v: View, w: View) {
    exists e :: Permitted(v, e) && w == Apply(v, e)
  }

  // ---------------------------------------------------------------- the invariant

  /** What HandlePrepare leaves behind. */
  ghost predicate PreparedView(p: View) {
    p.record.Some? &&
    var r := p.record.value;
    && r.phase == Prepared
    && r.destination.Some? == (r.operation == Move)
    && (r.destination.None? ==> p.destination.None?)
    && (if r.expectMissing then p.target.None?
        else Proof(p.target, r.expected)
             || (r.operation == MakeDirectory && IsDirectory(p.target) && SameIdentity(p.target, r.expected)))
    && match r.operation
       case Write => Proof(p.stage, r.staged) && p.backup.None? && Fresh(p, p.stage.value.id)
       case MakeDirectory =>
         IsDirectory(p.stage) && SameIdentity(p.stage, r.staged) && p.backup.None?
         && Fresh(p, p.stage.value.id)
       case _ => p.stage.None? && Proof(p.backup, r.backup)
  }

  /** A newly created file shares its identity with no older entry. */
  ghost predicate Fresh(p: View, id: Identity) {
    && (p.target.Some? ==> p.target.value.id != id)
    && (p.destination.Some? ==> p.destination.value.id != id)
  }

  ghost predicate SameVisible(v: View, w: View) {
    v.target == w.target && v.destination == w.destination
  }

  /** The visible tree is exactly what HandlePrepare found. */
  ghost predicate Before(p: View, v: View) {
    SameVisible(p, v)
  }

  /** The visible tree is exactly what the operation asked for. */
  ghost predicate After(p: View, v: View)
    requires p.record.Some?
  {
    match p.record.value.operation
    case Write => v.target == p.stage && v.destination == p.destination
    case MakeDirectory => v.target == p.stage && v.destination == p.destination
    case Delete => p.target.Some? && v.target.None? && v.destination == p.destination
    case Move => v.target.None? && IsFile(v.destination) && Proof(v.destination, p.record.value.expected)
                 && (p.target.Some? ==> v.destination == p.target)
                 && (p.target.None? ==> v.destination == p.destination)
  }

  ghost predicate KeptOrDropped(v: Slot, w: Slot) {
    w == v || w.None?
  }

  /** Where the phase allows the slots to be. */
  ghost predicate Inv(p: View, v: View)
    requires PreparedView(p)
  {
    var r := p.record.value;
    if v.record.None? then
      v.stage.None? && v.backup.None? && (Before(p, v) || After(p, v))
    else
      && v.record.value == r.(phase := v.Phase())
      && match v.Phase()
         case Prepared =>
           Before(p, v) && KeptOrDropped(p.stage, v.stage) && KeptOrDropped(p.backup, v.backup)
         case Committed =>
           && After(p, v) && KeptOrDropped(Rename(p).stage, v.stage) && KeptOrDropped(p.backup, v.backup)
           && (r.operation != Move ==> MayRename(p))
         case RolledBack =>
           Before(p, v) && KeptOrDropped(p.stage, v.stage) && KeptOrDropped(p.backup, v.backup)
         case _ =>
           && v.Phase() == InFlight(r) && MayBegin(p)
           && KeptOrDropped(p.backup, v.backup)
           && (|| (SameVisible(p, v) && KeptOrDropped(p.stage, v.stage))
               || (MayRename(p) && SameVisible(Rename(p), v) && v.stage == Rename(p).stage)
               || (MayRename(p) && SameVisible(p, v) && v.stage == Rename(p).stage && p.target.None?))
  }

  lemma PreparedIsGood(p: View)
    requires PreparedView(p)
    ensures Inv(p, p)
  {
  }

  lemma Inductive(p: View, v: View, e: Effect)
    requires PreparedView(p) && Inv(p, v) && Permitted(v, e)
    ensures Inv(p, Apply(v, e))
  {
  }

  // ---------------------------------------------------------------- whole runs

  /** Any sequence of durable effects: the calls may be commit, reconcile, rollback and
      cleanup in any order, and each may stop after any effect. */
  ghost predicate Run(p: View, run: seq<View>) {
    && PreparedView(p)
    && |run| > 0 && run[0] == p
    && forall i | 0 <= i < |run| - 1 :: Next(run[i], run[i + 1])
  }

  lemma {:induction false} RunIsGood(p: View, run: seq<View>, i: nat)
    requires Run(p, run) && i < |run|
    ensures Inv(p, run[i])
  {
    if i == 0 {
      PreparedIsGood(p);
    } else {
      RunIsGood(p, run, i - 1);
      assert Next(run[i - 1], run[i - 1 + 1]);
      var e :| Permitted(run[i - 1], e) && run[i] == Apply(run[i - 1], e);
      Inductive(p, run[i - 1], e);
    }
  }

  /** At every moment of every run the visible tree is exactly what it was or exactly
      what was asked for, and the record says which. */
  lemma Atomicity(p: View, run: seq<View>, i: nat)
    requires Run(p, run) && i < |run|
    ensures Before(p, run[i]) || After(p, run[i])
    ensures run[i].record.Some? && run[i].Phase() in {Prepared, RolledBack} ==> Before(p, run[i])
    ensures run[i].record.Some? && run[i].Phase() == Committed ==> After(p, run[i])
    ensures run[i].record.Some? ==> run[i].record.value.(phase := Prepared) == p.record.value
    ensures run[i].record.None? ==> run[i].stage.None? && run[i].backup.None?
  {
    RunIsGood(p, run, i);
  }

  lemma DecisionKept(p: View, v: View, w: View)
    requires PreparedView(p) && Inv(p, v) && Next(v, w)
    requires v.record.None? || Decided(v.Phase())
    ensures SameVisible(v, w)
    ensures w.record.None? || (v.record.Some? && w.Phase() == v.Phase())
  {
    var e :| Permitted(v, e) && w == Apply(v, e);
    if v.record.Some? {
      assert e !in {BeginCommit, ConcludeCommit, ConcludeRollback, UndoEffect};
    }
  }

  /** `committed` and `rolledBack` are final, although `Forward` lets a record pass from
      either to the other: the phase and the visible tree never change again. */
  lemma {:induction false} DecisionIsFinal(p: View, run: seq<View>, i: nat, j: nat)
    requires Run(p, run) && i <= j < |run|
    requires run[i].record.Some? && Decided(run[i].Phase())
    ensures Forward(Committed, RolledBack) && Forward(RolledBack, Committed)
    ensures SameVisible(run[i], run[j])
    ensures run[j].record.Some? ==> run[j].Phase() == run[i].Phase()
  {
    if i < j {
      DecisionIsFinal(p, run, i, j - 1);
      RunIsGood(p, run, j - 1);
      assert Next(run[j - 1], run[j - 1 + 1]);
      DecisionKept(p, run[j - 1], run[j]);
    }
  }

  /** The transition check of the save never gets in the way: whatever phase a handler
      persists in a reachable state follows from the one on disk. */
  lemma GuardNeverRefuses(p: View, v: View, e: Effect)
    requires PreparedView(p) && Inv(p, v) && Permitted(v, e)
    ensures Apply(v, e).record.Some? ==>
              Forward(v.Phase(), Apply(v, e).Phase()) && Apply(v, e).record.value.token == v.record.value.token
  {
  }

  // ---------------------------------------------------------------- reconcile and rollback

  /** HandleReconcile tells the truth about every state a run can reach. It cannot tell
      only about a directory that was asked for where one already existed, and about a
      deletion whose quarantined file cleanup has already dropped. */
  lemma ReconcileIsExact(p: View, v: View)
    requires PreparedView(p) && Inv(p, v) && v.record.Some?
    ensures Reconciled(v) == AnsweredRolledBack <==> v.Phase() == RolledBack
    ensures Reconciled(v) == AnsweredCommitted
       <==> v.Phase() != RolledBack && After(p, v) && (v.record.value.operation == Delete ==> v.stage.Some?)
    ensures Reconciled(v) == AnsweredNotCommitted
       <==> v.Phase() != RolledBack && Before(p, v) && !After(p, v)
            && (v.record.value.operation == MakeDirectory && !v.record.value.expectMissing ==> IsFile(p.target))
    ensures Reconciled(v) == AnsweredIndeterminate
       <==> v.Phase() != RolledBack &&
            (|| (v.record.value.operation == MakeDirectory && IsDirectory(p.target))
             || (v.record.value.operation == Delete && v.Phase() == Committed && v.stage.None?))
  {
    var r := v.record.value;
    assert r == p.record.value.(phase := v.Phase());
    match r.operation
    case Write =>
    case Move =>
    case Delete =>
    case MakeDirectory =>
  }

  /** What an uninterrupted HandleRollback makes of a state. */
  ghost predicate RollbackRestores(p: View, v: View)
    requires v.record.Some?
  {
    var w := if v.Phase() != Prepared && MustUndo(v) then Undo(v) else v;
    MayConcludeRollback(w) && Before(p, w)
  }

  /** From every undecided state, the middle of an earlier rollback included, rollback
      goes through and puts the old tree back. */
  lemma RollbackAlwaysRestores(p: View, v: View)
    requires PreparedView(p) && Inv(p, v) && v.record.Some? && !Decided(v.Phase())
    ensures RollbackRestores(p, v)
    ensures v.Phase() == Prepared || MustUndo(v) || MayConcludeRollback(v)
  {
  }

  /** A commit of a freshly prepared operation goes through unless the request itself
      rules the rename out, and then delivers what was asked for. */
  lemma CommitDelivers(p: View)
    requires PreparedView(p)
    ensures MayBegin(p) && MayRename(p)
       <==> match p.record.value.operation
            case Write => true
            case Delete => !p.record.value.expectMissing
            case Move => !p.record.value.expectMissing && p.destination.None?
            case MakeDirectory => p.record.value.expectMissing
    ensures MayBegin(p) && MayRename(p) ==>
              After(p, Rename(p)) && !Before(p, Rename(p)) && EffectSeen(Rename(p).WithPhase(InFlight(p.record.value)))
  {
  }

  // ---------------------------------------------------------------- reads that fail

  /** A rollback that fails to see what there is to undo skips the undo, flushes, and
      persists `rolledBack` all the same. Of an overwrite it refuses instead. */
  predicate Skips(v: View, w: View) {
    && v.record.Some? && !Settled(v.Phase()) && MustUndo(v) && !v.record.value.Overwrites()
    && w == v.WithPhase(RolledBack)
  }

  ghost predicate NextOrSkip(v: View, w: View) {
    Next(v, w) || Skips(v, w)
  }

  /** A run in which reads may fail. */
  ghost predicate LooseRun(p: View, run: seq<View>) {
    && PreparedView(p)
    && |run| > 0 && run[0] == p
    && forall i | 0 <= i < |run| - 1 :: NextOrSkip(run[i], run[i + 1])
  }

  /** What a skipped undo leaves. */
  ghost predicate Skipped(p: View, v: View)
    requires PreparedView(p)
  {
    && v.record == Some(p.record.value.(phase := RolledBack)) && After(p, v) && !Before(p, v)
    && KeptOrDropped(Rename(p).stage, v.stage) && KeptOrDropped(p.backup, v.backup)
  }

  lemma SkipLeads(p: View, v: View, w: View)
    requires PreparedView(p) && Inv(p, v) && Skips(v, w)
    ensures Skipped(p, w) && !Next(v, w)
  {
    forall e | Permitted(v, e)
      ensures w != Apply(v, e)
    {
      assert e == ConcludeCommit ==> Apply(v, e).Phase() == Committed;
    }
  }

  lemma SkippedStays(p: View, v: View, w: View)
    requires PreparedView(p) && Skipped(p, v) && NextOrSkip(v, w)
    ensures Skipped(p, w) || Inv(p, w)
    ensures w.record.Some? ==> Skipped(p, w)
  {
  }

  /** Even then the visible tree is the old or the new one, and a record that says
      `committed` is right. */
  lemma {:induction false} LooseRunIsGood(p: View, run: seq<View>, i: nat)
    requires LooseRun(p, run) && i < |run|
    ensures Inv(p, run[i]) || Skipped(p, run[i])
    ensures Before(p, run[i]) || After(p, run[i])
    ensures run[i].record.Some? && run[i].Phase() == Committed ==> After(p, run[i])
  {
    if i == 0 {
      PreparedIsGood(p);
    } else {
      LooseRunIsGood(p, run, i - 1);
      assert NextOrSkip(run[i - 1], run[i - 1 + 1]);
      LooseStep(p, run[i - 1], run[i]);
    }
  }

  lemma LooseStep(p: View, v: View, w: View)
    requires PreparedView(p) && (Inv(p, v) || Skipped(p, v)) && NextOrSkip(v, w)
    ensures Inv(p, w) || Skipped(p, w)
  {
    if Skipped(p, v) {
      SkippedStays(p, v, w);
    } else if Skips(v, w) {
      SkipLeads(p, v, w);
    } else {
      var e :| Permitted(v, e) && w == Apply(v, e);
      Inductive(p, v, e);
    }
  }

  predicate SaysRolledBack(v: View) {
    v.record.Some? && v.Phase() == RolledBack
  }

  /** `rolledBack` means the old tree in every state of a run exactly when no rollback
      skipped an undo because a read failed. */
  lemma RolledBackMeansRestoredExactlyWhen(p: View, run: seq<View>)
    requires LooseRun(p, run)
    ensures (forall i | 0 <= i < |run| :: SaysRolledBack(run[i]) ==> Before(p, run[i]))
       <==> (forall i | 0 <= i < |run| - 1 :: !Skips(run[i], run[i + 1]))
  {
    if i: nat :| i < |run| - 1 && Skips(run[i], run[i + 1]) {
      LooseRunIsGood(p, run, i);
      SkipLeads(p, run[i], run[i + 1]);
      assert SaysRolledBack(run[i + 1]);
    } else {
      assert Run(p, run);
      forall i | 0 <= i < |run| && SaysRolledBack(run[i])
        ensures Before(p, run[i])
      {
        RunIsGood(p, run, i);
      }
    }
  }

  /** A deletion is taken back while `<id>.stage` cannot be opened: the record says
      `rolledBack`, and the cleanup that is then permitted deletes the file and its copy. */
  lemma SkippedUndoCanLoseTheFile() returns (p: View, run: seq<View>)
    ensures LooseRun(p, run) && IsFile(p.target)
    ensures var last := run[|run| - 1];
            SaysRolledBack(last) && last.target.None? && last.stage.None? && last.backup.None?
  {
    var file := File(7, 70);
    p := DeletionOf(file, File(8, 70));
    var begun := p.WithPhase(TargetQuarantining);
    var quarantined := begun.(target := None, stage := Some(file));
    var skipped := quarantined.WithPhase(RolledBack);
    var dropped := skipped.(stage := None);
    assert Permitted(p, BeginCommit) && Permitted(begun, RenameEffect);
    assert Permitted(skipped, DropStage) && Permitted(dropped, DropBackup);
    assert Skips(quarantined, skipped);
    run := [p, begun, quarantined, skipped, dropped, dropped.(backup := None)];
    assert Next(p, begun) && Next(begun, quarantined);
    assert Next(skipped, dropped) && Next(dropped, dropped.(backup := None));
  }

  function DeletionOf(file: Node, backup: Node): (p: View)
    requires file.File? && backup.File?
    ensures backup.digest == file.digest ==> PreparedView(p)
  {
    var record := Record("token", Delete, "notes.md", None, false, ClaimOf(file), NO_CLAIM, ClaimOf(backup), Prepared);
    View(Some(record), Some(file), None, None, Some(backup))
  }

  /** A file at the path of a creation that HandlePrepare failed to see stays there. */
  lemma OccupiedPathIsKept(v: View, e: Effect)
    requires Enabled(v, e) && v.record.value.expectMissing && v.record.value.operation in {Write, MakeDirectory}
    requires v.target.Some? && v.record.value.staged.id != Some(v.target.value.id)
    ensures Apply(v, e).target == v.target
  {
  }

  // ---------------------------------------------------------------- cleanup at the wrong time

  /** A cleanup that deletes the displaced original of an operation in flight. */
  predicate DropsOriginal(v: View, e: Effect) {
    && e == DropStage && v.record.Some? && !Settled(v.Phase())
    && !v.record.value.expectMissing && Proof(v.stage, v.record.value.expected)
  }

  /** A run whose caller cleans up whenever it likes. */
  ghost predicate WildRun(p: View, run: seq<View>, effects: seq<Effect>) {
    && PreparedView(p) && |run| == |effects| + 1 && run[0] == p
    && forall i | 0 <= i < |effects| :: Enabled(run[i], effects[i]) && run[i + 1] == Apply(run[i], effects[i])
  }

  ghost predicate Recoverable(p: View, v: View) {
    v.record.Some? && !Decided(v.Phase()) ==> RollbackRestores(p, v)
  }

  lemma WildStep(p: View, v: View, e: Effect)
    requires PreparedView(p) && Inv(p, v) && Enabled(v, e)
    ensures !DropsOriginal(v, e) ==> Inv(p, Apply(v, e))
    ensures DropsOriginal(v, e) ==> !Recoverable(p, Apply(v, e))
  {
    if Permitted(v, e) {
      Inductive(p, v, e);
    }
  }

  lemma {:induction false} WildRunIsGood(p: View, run: seq<View>, effects: seq<Effect>, i: nat)
    requires WildRun(p, run, effects) && i < |run|
    requires forall j | 0 <= j < i :: !DropsOriginal(run[j], effects[j])
    ensures Inv(p, run[i]) && Recoverable(p, run[i])
  {
    if i == 0 {
      PreparedIsGood(p);
    } else {
      WildRunIsGood(p, run, effects, i - 1);
      WildStep(p, run[i - 1], effects[i - 1]);
      assert run[i - 1 + 1] == Apply(run[i - 1], effects[i - 1]);
    }
    if run[i].record.Some? && !Decided(run[i].Phase()) {
      RollbackAlwaysRestores(p, run[i]);
    }
  }

  lemma {:induction false} RecoverableDropsNothing(p: View, run: seq<View>, effects: seq<Effect>, i: nat)
    requires WildRun(p, run, effects) && i <= |effects|
    requires forall j | 0 <= j < |run| :: Recoverable(p, run[j])
    ensures forall j | 0 <= j < i :: !DropsOriginal(run[j], effects[j])
  {
    if i > 0 {
      RecoverableDropsNothing(p, run, effects, i - 1);
      WildRunIsGood(p, run, effects, i - 1);
      WildStep(p, run[i - 1], effects[i - 1]);
      assert run[i - 1 + 1] == Apply(run[i - 1], effects[i - 1]);
    }
  }

  /** Whenever the caller cleans up, every undecided state of the run can still be rolled
      back to the old tree exactly when no cleanup deleted the displaced original of an
      operation in flight. */
  lemma EarlyCleanupIsHarmlessExactlyWhen(p: View, run: seq<View>, effects: seq<Effect>)
    requires WildRun(p, run, effects)
    ensures (forall i | 0 <= i < |run| :: Recoverable(p, run[i]))
       <==> (forall i | 0 <= i < |effects| :: !DropsOriginal(run[i], effects[i]))
  {
    if forall i | 0 <= i < |run| :: Recoverable(p, run[i]) {
      RecoverableDropsNothing(p, run, effects, |effects|);
    }
    if forall i | 0 <= i < |effects| :: !DropsOriginal(run[i], effects[i]) {
      forall i | 0 <= i < |run|
        ensures Recoverable(p, run[i])
      {
        WildRunIsGood(p, run, effects, i);
      }
    }
  }

  /** Without the caller's discipline cleanup followed by rollback reports `rolledBack`
      for a file that is gone. */
  lemma EarlyCleanupCanLoseTheFile() returns (p: View, run: seq<View>, effects: seq<Effect>)
    ensures WildRun(p, run, effects) && IsFile(p.target)
    ensures var last := run[|run| - 1];
            SaysRolledBack(last) && last.target.None? && last.stage.None? && last.backup.None?
  {
    var file := File(7, 70);
    p := DeletionOf(file, File(8, 70));
    var begun := p.WithPhase(TargetQuarantining);
    var quarantined := begun.(target := None, stage := Some(file));
    var dropped := quarantined.(stage := None);
    var bare := dropped.(backup := None);
    run := [p, begun, quarantined, dropped, bare, bare.WithPhase(RolledBack)];
    effects := [BeginCommit, RenameEffect, DropStage, DropBackup, ConcludeRollback];
  }
}
