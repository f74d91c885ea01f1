/** The same file mutation on Windows, where nothing exchanges two names: an overwrite
    moves the original to `<id>.old` and then the staged file to the path, so between the
    two renames the path is empty. A commit may be entered again in the middle. */
module WindowsProtocol {
  import opened Records
  import opened Volumes

  /** The path, the destination of a move, and `<id>.stage`, `<id>.old`, `<id>.backup`. */
  datatype Entry = Target | Destination | Stage | Old | Backup

  datatype View = View(
    record: Option<Record>,
    target: Slot,
    destination: Slot,
    stage: Slot,
    quarantine: Slot,
    backup: Slot)
  {
    function At(entry: Entry): Slot {
      match entry
      case Target => target
      case Destination => destination
      case Stage => stage
      case Old => quarantine
      case Backup => backup
    }

    function With(entry: Entry, slot: Slot): View {
      match entry
      case Target => this.(target := slot)
      case Destination => this.(destination := slot)
      case Stage => this.(stage := slot)
      case Old => this.(quarantine := slot)
      case Backup => this.(backup := slot)
    }

    /** Nothing of the operation is left in the hidden directory, the record aside. */
    predicate NothingHidden() {
      stage.None? && backup.None? && quarantine.None?
    }

    function Phase(): Phase
      requires record.Some?
    {
      record.value.phase
    }

    function WithPhase(phase: Phase): View
      requires record.Some?
    {
      this.(record := Some(record.value.(phase := phase)))
    }
  }

  // ---------------------------------------------------------------- durable effects

  /** Before the original is moved away. */
  predicate MayQuarantine(v: View)
    requires v.record.Some?
  {
    var r := v.record.value;
    && Proof(v.target, r.expected)
    && ((r.Overwrites() && !IsFile(v.quarantine)) || (r.operation == Delete && v.stage.None?))
  }

  function Quarantine(v: View): View
    requires v.record.Some?
  {
    if v.record.value.operation == Delete then v.(target := None, stage := v.target)
    else v.(target := None, quarantine := v.target)
  }

  /** The original is where the quarantine put it. */
  predicate Quarantined(v: View)
    requires v.record.Some?
  {
    var r := v.record.value;
    && !IsFile(v.target)
    && (|| (r.operation == Write && Proof(v.quarantine, r.expected))
        || (r.operation == Delete && Proof(v.stage, r.expected)))
  }

  /** Before the result is moved to its place. */
  predicate MayInstall(v: View)
    requires v.record.Some?
  {
    var r := v.record.value;
    match r.operation
    case Write => Proof(v.stage, r.staged) && !IsFile(v.target)
    case Move => r.destination.Some? && Proof(v.target, r.expected) && v.destination.None?
    case MakeDirectory => IsDirectory(v.stage) && SameIdentity(v.stage, r.staged) && v.target.None?
    case Delete => false
  }

  function Install(v: View): View
    requires v.record.Some?
  {
    if v.record.value.operation == Move then v.(target := None, destination := v.target)
    else v.(target := v.stage, stage := None)
  }

  /** What HandleReconcile takes as evidence that the operation is complete. */
  predicate EffectSeen(v: View)
    requires v.record.Some?
  {
    var r := v.record.value;
    match r.operation
    case Write => Proof(v.target, r.staged) && !IsFile(v.stage) && (r.expectMissing || Proof(v.quarantine, r.expected))
    case Delete => !IsFile(v.target) && Proof(v.stage, r.expected)
    case Move => r.destination.Some? && !IsFile(v.target) && Proof(v.destination, r.expected)
    case MakeDirectory =>
      IsDirectory(v.target) && SameIdentity(v.target, r.staged) && !IsDirectory(v.stage)
  }

  /** What HandleReconcile takes as evidence that the operation has not happened. */
  predicate UntouchedSeen(v: View)
    requires v.record.Some?
  {
    var r := v.record.value;
    match r.operation
    case Write =>
      && Proof(v.stage, r.staged)
      && (if r.expectMissing then !IsFile(v.target)
          else || (Proof(v.target, r.expected) && !IsFile(v.quarantine))
               || (!IsFile(v.target) && Proof(v.quarantine, r.expected)))
    case Delete => Proof(v.target, r.expected) && !IsFile(v.stage)
    case Move => r.destination.Some? && Proof(v.target, r.expected) && !IsFile(v.destination)
    case MakeDirectory =>
      !IsDirectory(v.target) && IsDirectory(v.stage) && SameIdentity(v.stage, r.staged)
  }

  function Reconciled(v: View): Answer
    requires v.record.Some?
  {
    if v.Phase() == RolledBack then AnsweredRolledBack
    else if EffectSeen(v) then AnsweredCommitted
    else if UntouchedSeen(v) then AnsweredNotCommitted
    else AnsweredIndeterminate
  }

  /** Rollback deletes an installed result before anything is put back. */
  predicate MustRemove(v: View)
    requires v.record.Some?
  {
    var r := v.record.value;
    match r.operation
    case Write => Proof(v.target, r.staged) && (r.expectMissing || Proof(v.quarantine, r.expected))
    case MakeDirectory => IsDirectory(v.target) && SameIdentity(v.target, r.staged)
    case _ => false
  }

  /** Where the original waits to be put back. */
  predicate MustRestore(v: View)
    requires v.record.Some?
  {
    var r := v.record.value;
    match r.operation
    case Write => !r.expectMissing && v.target.None? && Proof(v.quarantine, r.expected)
    case Delete => v.target.None? && Proof(v.stage, r.expected)
    case Move => v.target.None? && r.destination.Some? && Proof(v.destination, r.expected)
    case MakeDirectory => false
  }

  function Restore(v: View): View
    requires v.record.Some?
  {
    match v.record.value.operation
    case Write => v.(target := v.quarantine, quarantine := None)
    case Delete => v.(target := v.stage, stage := None)
    case Move => v.(target := v.destination, destination := None)
    case MakeDirectory => v
  }

  /** When HandleRollback persists `rolledBack`. */
  predicate MayConcludeRollback(v: View)
    requires v.record.Some?
  {
    var r := v.record.value;
    && !MustRemove(v) && !MustRestore(v)
    && match r.operation
       case Write =>
         if r.expectMissing then !IsFile(v.target) else Proof(v.target, r.expected) && !Proof(v.quarantine, r.expected)
       case Delete => if IsFile(v.target) then Proof(v.target, r.expected) else !Proof(v.stage, r.expected)
       case Move =>
         && r.destination.Some?
         && if IsFile(v.target) then Proof(v.target, r.expected) else !Proof(v.destination, r.expected)
       case MakeDirectory => !IsDirectory(v.target)
  }

  /** What the record shows when HandleCommit or HandleReconcile turns it into
      `committed`. After its own rename HandleCommit does not look at `.old` again. */
  predicate MayConcludeCommit(v: View)
    requires v.record.Some?
  {
    || EffectSeen(v)
    || (v.record.value.operation == Write && v.Phase() == StageInstalling
        && Proof(v.target, v.record.value.staged) && v.stage.None?)
  }

  /** What HandleReconcile has proved when it takes the operation for complete. That the
      other names are free it does not prove: what does not open looks like nothing. */
  predicate EffectSupported(v: View)
    requires v.record.Some?
  {
    var r := v.record.value;
    match r.operation
    case Write => Proof(v.target, r.staged) && (r.expectMissing || Proof(v.quarantine, r.expected))
    case Delete => Proof(v.stage, r.expected)
    case Move => r.destination.Some? && Proof(v.destination, r.expected)
    case MakeDirectory => IsDirectory(v.target) && SameIdentity(v.target, r.staged)
  }

  /** And when it takes it for not begun or not finished. */
  predicate UntouchedSupported(v: View)
    requires v.record.Some?
  {
    var r := v.record.value;
    match r.operation
    case Write =>
      Proof(v.stage, r.staged) && (r.expectMissing || Proof(v.target, r.expected) || Proof(v.quarantine, r.expected))
    case Delete => Proof(v.target, r.expected)
    case Move => Proof(v.target, r.expected)
    case MakeDirectory => IsDirectory(v.stage) && SameIdentity(v.stage, r.staged)
  }

  /** In this phase HandleCommit goes straight to `committed` and looks at nothing. */
  predicate Blind(r: Record) {
    r.phase == if r.operation == Delete then TargetQuarantined else StageInstalling
  }

  /** The durable effects. `SkipRollback` is a rollback that fails to open or to hash what it
      would have to undo: it skips the undo and persists `rolledBack` all the same. Of an
      overwrite it does so only with the original at its path. `MisreadCommit` is a reconcile
      that fails to open what speaks against `committed`. Cleanup deletes stage, backup
      and `.old` in this order, but passes over what it fails to open; `DropBlindly` is a
      cleanup that deletes the record over something it has passed over. */
  datatype Effect =
    | BeginQuarantine
    | QuarantineEffect
    | NoteQuarantined
    | BeginInstall
    | InstallEffect
    | ConcludeCommit
    | BlindCommit
    | MisreadCommit
    | RemoveEffect
    | RestoreEffect
    | ConcludeRollback
    | SkipRollback
    | DropStage
    | DropBackup
    | DropOld
    | DropRecord
    | DropBlindly

  /** What a commit has confirmed before it persists a phase. That a name is free it leaves
      to the rename: a file it failed to open looks like none. */
  predicate Confirmed(v: View, e: Effect)
    requires v.record.Some?
  {
    var r := v.record.value;
    match e
    case BeginQuarantine => Proof(v.target, r.expected) && (r.Overwrites() || r.operation == Delete)
    case NoteQuarantined =>
      (r.operation == Write && Proof(v.quarantine, r.expected)) || (r.operation == Delete && Proof(v.stage, r.expected))
    case _ => if r.operation == Write then Proof(v.stage, r.staged) else MayInstall(v)
  }

  predicate Enabled(v: View, e: Effect) {
    v.record.Some? &&
    var r := v.record.value;
    match e
    case BeginQuarantine => r.phase == Prepared && Confirmed(v, e)
    case QuarantineEffect =>
      r.phase == TargetQuarantining && MayQuarantine(v) && (r.Overwrites() ==> v.quarantine.None?)
    case NoteQuarantined => r.phase == TargetQuarantining && Confirmed(v, e)
    case BeginInstall => r.phase == (if r.Overwrites() then TargetQuarantined else Prepared) && Confirmed(v, e)
    case InstallEffect =>
      r.phase == StageInstalling && MayInstall(v) && (r.operation == Write ==> v.target.None?)
    case ConcludeCommit => !Decided(r.phase) && MayConcludeCommit(v)
    case BlindCommit => Blind(r)
    case MisreadCommit => !Decided(r.phase) && EffectSupported(v)
    case RemoveEffect => !Decided(r.phase) && MustRemove(v)
    case RestoreEffect => !Decided(r.phase) && MustRestore(v)
    case ConcludeRollback => !Decided(r.phase) && MayConcludeRollback(v)
    case SkipRollback => !Decided(r.phase) && (r.Overwrites() ==> Proof(v.target, r.expected))
    case DropStage => v.stage.Some?
    case DropBackup => v.backup.Some?
    case DropOld => v.quarantine.Some?
    case DropRecord => v.NothingHidden()
    case DropBlindly => !v.NothingHidden()
  }

  function Apply(v: View, e: Effect): View
    requires Enabled(v, e)
  {
    match e
    case BeginQuarantine => v.WithPhase(TargetQuarantining)
    case QuarantineEffect => Quarantine(v)
    case NoteQuarantined => v.WithPhase(TargetQuarantined)
    case BeginInstall => v.WithPhase(StageInstalling)
    case InstallEffect => Install(v)
    case ConcludeCommit => v.WithPhase(Committed)
    case BlindCommit => v.WithPhase(Committed)
    case MisreadCommit => v.WithPhase(Committed)
    case RemoveEffect => v.(target := None)
    case RestoreEffect => Restore(v)
    case ConcludeRollback => v.WithPhase(RolledBack)
    case SkipRollback => v.WithPhase(RolledBack)
    case DropStage => v.(stage := None)
    case DropBackup => v.(backup := None)
    case DropOld => v.(quarantine := None)
    case DropRecord => v.(record := None)
    case DropBlindly => v.(record := None)
  }

  predicate CleaningEffect(e: Effect) {
    e in {DropStage, DropBackup, DropOld, DropRecord, DropBlindly}
  }

  /** The caller acknowledges an outcome, and cleans up, only once it is settled. */
  predicate Permitted(v: View, e: Effect) {
    Enabled(v, e) && (CleaningEffect(e) ==> Settled(v.Phase()))
  }

  predicate Leads(v: View, e: Effect, w: View) {
    Permitted(v, e) && w == Apply(v, e)
  }

  /** One effect of a commit, a reconcile or a rollback. */
  ghost predicate Next(v: View, w: View) {
    exists e :: Leads(v, e, w) && !CleaningEffect(e)
  }

  // ---------------------------------------------------------------- the invariant

  ghost predicate Fresh(p: View, id: Identity) {
    && (p.target.Some? ==> p.target.value.id != id)
    && (p.destination.Some? ==> p.destination.value.id != id)
  }

  /** What HandlePrepare leaves behind. */
  ghost predicate PreparedView(p: View) {
    p.record.Some? &&
    var r := p.record.value;
    && r.phase == Prepared
    && r.destination.Some? == (r.operation == Move)
    && (r.destination.None? ==> p.destination.None?)
    && p.quarantine.None?
    && (if r.expectMissing then p.target.None?
        else Proof(p.target, r.expected)
             || (r.operation in {Write, MakeDirectory} && IsDirectory(p.target) && SameIdentity(p.target, r.expected)))
    && match r.operation
       case Write => Proof(p.stage, r.staged) && p.backup.None? && Fresh(p, p.stage.value.id)
       case MakeDirectory =>
         IsDirectory(p.stage) && SameIdentity(p.stage, r.staged) && p.backup.None?
         && Fresh(p, p.stage.value.id)
       case _ => !r.expectMissing && p.stage.None? && Proof(p.backup, r.backup)
  }

  ghost predicate SameVisible(v: View, w: View) {
    v.target == w.target && v.destination == w.destination
  }

  /** The visible tree is exactly what HandlePrepare found. */
  ghost predicate Before(p: View, v: View) {
    SameVisible(p, v)
  }

  /** The visible tree is exactly what the operation asked for. */
  ghost predicate After(p: View, v: View)
    requires p.record.Some?
  {
    match p.record.value.operation
    case Write => v.target == p.stage && v.destination == p.destination
    case MakeDirectory => v.target == p.stage && v.destination == p.destination
    case Delete => v.target.None? && v.destination == p.destination
    case Move => v.target.None? && v.destination == p.target
  }

  /** Where the entries are, the record and the backup aside: everything as prepared;
      the original in quarantine; the operation complete; the installed result deleted
      by a rollback; and the original put back after that. */
  datatype Shape = Intact | Away | Complete | Emptied | Returned

  ghost predicate HasShape(p: View, v: View, shape: Shape)
    requires PreparedView(p)
  {
    var r := p.record.value;
    && (shape != Intact && r.Overwrites() ==> IsFile(p.target))
    && match shape
    case Intact => SameVisible(p, v) && v.stage == p.stage && v.quarantine.None?
    case Away =>
      && r.Overwrites() && v.target.None? && v.destination == p.destination
      && v.stage == p.stage && v.quarantine == p.target
    case Complete =>
      && After(p, v)
      && v.stage == (if r.operation == Delete then p.target else None)
      && v.quarantine == (if r.Overwrites() then p.target else None)
      && (r.operation == Move ==> p.destination.None?)
      && (r.operation == MakeDirectory || r.Creates() ==> p.target.None?)
    case Emptied =>
      && (r.Overwrites() || ((r.Creates() || r.operation == MakeDirectory) && p.target.None?))
      && v.target.None? && v.destination == p.destination
      && v.stage.None? && v.quarantine == (if r.Overwrites() then p.target else None)
    case Returned => r.Overwrites() && SameVisible(p, v) && v.stage.None? && v.quarantine.None?
  }

  /** Which shapes a phase allows before cleanup begins. */
  function ShapesIn(r: Record): set<Shape> {
    match r.phase
    case Prepared => {Intact}
    case TargetQuarantining | TargetQuarantined =>
      if r.Overwrites() then {Intact, Away} else if r.operation == Delete then {Intact, Complete} else {}
    case StageInstalling => if r.operation == Delete then {} else {Intact, Away, Complete, Emptied, Returned}
    case Committed => {Intact, Away, Complete, Emptied, Returned}
    case RolledBack => if r.Overwrites() then {Intact, Returned} else {Intact, Complete, Emptied}
  }

  ghost predicate Shaped(p: View, v: View)
    requires PreparedView(p) && v.record.Some?
  {
    exists shape :: shape in ShapesIn(v.record.value) && HasShape(p, v, shape)
  }

  /** Before cleanup begins. */
  ghost predicate Inv(p: View, v: View)
    requires PreparedView(p)
  {
    && v.record == Some(p.record.value.(phase := if v.record.Some? then v.Phase() else Prepared))
    && v.backup == p.backup
    && Shaped(p, v)
    && (v.Phase() in {TargetQuarantining, TargetQuarantined} ==> IsFile(p.target))
  }

  lemma PreparedIsGood(p: View)
    requires PreparedView(p)
    ensures Inv(p, p)
  {
    assert HasShape(p, p, Intact);
  }

  lemma PersistKeeps(p: View, v: View, e: Effect)
    requires PreparedView(p) && Inv(p, v) && Enabled(v, e)
    requires e in {BeginQuarantine, NoteQuarantined, BeginInstall}
    ensures Inv(p, Apply(v, e))
  {
    var shape :| shape in ShapesIn(v.record.value) && HasShape(p, v, shape);
    assert HasShape(p, Apply(v, e), shape);
  }

  lemma DecisionKeeps(p: View, v: View, e: Effect)
    requires PreparedView(p) && Inv(p, v) && Enabled(v, e)
    requires e in {ConcludeCommit, BlindCommit, MisreadCommit, ConcludeRollback, SkipRollback}
    ensures Inv(p, Apply(v, e))
  {
    var shape :| shape in ShapesIn(v.record.value) && HasShape(p, v, shape);
    assert HasShape(p, Apply(v, e), shape);
  }

  lemma ForwardKeeps(p: View, v: View, e: Effect)
    requires PreparedView(p) && Inv(p, v) && Enabled(v, e) && e in {QuarantineEffect, InstallEffect}
    ensures Inv(p, Apply(v, e))
  {
    var shape :| shape in ShapesIn(v.record.value) && HasShape(p, v, shape);
    var next := if e == QuarantineEffect && v.record.value.Overwrites() then Away else Complete;
    assert HasShape(p, Apply(v, e), next);
  }

  lemma BackwardKeeps(p: View, v: View, e: Effect)
    requires PreparedView(p) && Inv(p, v) && Enabled(v, e) && e in {RemoveEffect, RestoreEffect}
    ensures Inv(p, Apply(v, e))
  {
    var shape :| shape in ShapesIn(v.record.value) && HasShape(p, v, shape);
    var next := if e == RemoveEffect then Emptied else if shape == Emptied then Returned else Intact;
    assert HasShape(p, Apply(v, e), next);
  }

  lemma Inductive(p: View, v: View, e: Effect)
    requires PreparedView(p) && Inv(p, v) && Enabled(v, e) && !CleaningEffect(e)
    ensures Inv(p, Apply(v, e))
  {
    if Moving(e) {
      MovingKeeps(p, v, e);
    } else {
      RecordingKeeps(p, v, e);
    }
  }

  predicate Moving(e: Effect) {
    e in {QuarantineEffect, InstallEffect, RemoveEffect, RestoreEffect}
  }

  lemma MovingKeeps(p: View, v: View, e: Effect)
    requires PreparedView(p) && Inv(p, v) && Enabled(v, e) && Moving(e)
    ensures Inv(p, Apply(v, e))
  {
    if e in {QuarantineEffect, InstallEffect} {
      ForwardKeeps(p, v, e);
    } else {
      BackwardKeeps(p, v, e);
    }
  }

  lemma RecordingKeeps(p: View, v: View, e: Effect)
    requires PreparedView(p) && Inv(p, v) && Enabled(v, e) && !Moving(e) && !CleaningEffect(e)
    ensures Inv(p, Apply(v, e))
  {
    if e in {BeginQuarantine, NoteQuarantined, BeginInstall} {
      PersistKeeps(p, v, e);
    } else {
      DecisionKeeps(p, v, e);
    }
  }

  // ---------------------------------------------------------------- whole runs

  /** A run with the effects that made it: commit, reconcile and rollback in any order,
      each stopped anywhere and entered again; no cleanup yet (`WindowsLife` has it). */
  ghost predicate Run(p: View, run: seq<View>, effects: seq<Effect>) {
    && PreparedView(p)
    && |run| == |effects| + 1 && run[0] == p
    && forall i | 0 <= i < |effects| ::
         Enabled(run[i], effects[i]) && !CleaningEffect(effects[i]) && run[i + 1] == Apply(run[i], effects[i])
  }

  lemma StepAt(p: View, run: seq<View>, effects: seq<Effect>, i: nat)
    requires Run(p, run, effects) && i < |effects|
    ensures Enabled(run[i], effects[i]) && !CleaningEffect(effects[i]) && run[i + 1] == Apply(run[i], effects[i])
  {
  }

  lemma {:induction false} RunIsGood(p: View, run: seq<View>, effects: seq<Effect>, i: nat)
    requires Run(p, run, effects) && i < |run|
    ensures Inv(p, run[i])
  {
    if i == 0 {
      PreparedIsGood(p);
    } else {
      RunIsGood(p, run, effects, i - 1);
      StepAt(p, run, effects, i - 1);
      Inductive(p, run[i - 1], effects[i - 1]);
    }
  }

  /** The original is in exactly one place, and that place is known. */
  ghost predicate Conserved(p: View, v: View)
    requires PreparedView(p)
  {
    var r := p.record.value;
    match r.operation
    case Write => r.expectMissing || (v.target == p.target <==> v.quarantine != p.target)
    case Delete => (v.target == p.target && v.stage.None?) || (v.target.None? && v.stage == p.target)
    case Move =>
      || (v.target == p.target && v.destination == p.destination)
      || (v.target.None? && v.destination == p.target && p.destination.None?)
    case MakeDirectory => p.target.Some? ==> v.target == p.target
  }

  /** Between the two renames of an overwrite the path is empty. */
  ghost predicate Gap(p: View, v: View)
    requires PreparedView(p)
  {
    p.record.value.Overwrites() && v.target.None? && v.quarantine == p.target && v.destination == p.destination
  }

  lemma Conservation(p: View, run: seq<View>, effects: seq<Effect>, i: nat)
    requires Run(p, run, effects) && i < |run|
    ensures Conserved(p, run[i])
    ensures Before(p, run[i]) || After(p, run[i]) || Gap(p, run[i])
    ensures run[i].record.Some? && run[i].record.value.(phase := Prepared) == p.record.value
    ensures run[i].Phase() == Prepared ==> Before(p, run[i])
  {
    RunIsGood(p, run, effects, i);
  }

  /** What an uninterrupted HandleRollback makes of a state: delete the installed result,
      put the original back. */
  function RolledBackFrom(v: View): View
    requires v.record.Some?
  {
    var emptied := if MustRemove(v) then v.(target := None) else v;
    if MustRestore(emptied) then Restore(emptied) else emptied
  }

  /** From every undecided state, however often rollback was interrupted before, it goes
      through and puts the old tree back, unless a directory already took the path when
      the operation was prepared: then it refuses. */
  lemma RollbackAlwaysRestores(p: View, v: View)
    requires PreparedView(p) && Inv(p, v) && !Decided(v.Phase())
    ensures Before(p, RolledBackFrom(v))
    ensures MayConcludeRollback(RolledBackFrom(v)) <==> !IsDirectory(p.target)
  {
    var shape :| shape in ShapesIn(v.record.value) && HasShape(p, v, shape);
  }

  /** A directory already takes the path, or a file the destination. */
  ghost predicate Occupied(p: View) {
    IsDirectory(p.target) || IsFile(p.destination)
  }

  /** HandleReconcile tells the truth before cleanup. It cannot tell only once a rollback
      has deleted the installed result, or where the result's place was taken. */
  lemma ReconcileIsExact(p: View, v: View)
    requires PreparedView(p) && Inv(p, v)
    ensures Reconciled(v) == AnsweredRolledBack <==> v.Phase() == RolledBack
    ensures v.Phase() != RolledBack ==> (Reconciled(v) == AnsweredCommitted <==> HasShape(p, v, Complete))
    ensures v.Phase() != RolledBack ==> (Reconciled(v) == AnsweredNotCommitted <==> NotYet(p, v))
    ensures v.Phase() != RolledBack ==> (Reconciled(v) == AnsweredIndeterminate <==> Unclear(p, v))
  {
    var shape :| shape in ShapesIn(v.record.value) && HasShape(p, v, shape);
  }

  ghost predicate NotYet(p: View, v: View)
    requires PreparedView(p)
  {
    HasShape(p, v, Away) || (HasShape(p, v, Intact) && !Occupied(p))
  }

  ghost predicate Unclear(p: View, v: View)
    requires PreparedView(p)
  {
    HasShape(p, v, Emptied) || HasShape(p, v, Returned) || (HasShape(p, v, Intact) && Occupied(p))
  }

  predicate SaysCommitted(v: View) {
    v.record.Some? && v.Phase() == Committed
  }

  /** A commit that looks at nothing, or a reconcile that failed to see something. */
  predicate Unseeing(e: Effect) {
    e in {BlindCommit, MisreadCommit}
  }

  /** `committed` means installed in every state of a run exactly when no commit was
      entered again, in a phase where it looks at nothing, and no reconcile misread, while
      a HandleReconcile that sees everything would not have answered `committed`. */
  lemma CommittedMeansInstalledExactlyWhen(p: View, run: seq<View>, effects: seq<Effect>)
    requires Run(p, run, effects)
    ensures (forall i | 0 <= i < |run| :: SaysCommitted(run[i]) ==> HasShape(p, run[i], Complete))
       <==> (forall i | 0 <= i < |effects| :: Unseeing(effects[i]) ==> Reconciled(run[i]) == AnsweredCommitted)
  {
    forall i | 0 <= i < |run|
      ensures Inv(p, run[i])
    {
      RunIsGood(p, run, effects, i);
    }
    if forall i | 0 <= i < |run| :: SaysCommitted(run[i]) ==> HasShape(p, run[i], Complete) {
      forall i | 0 <= i < |effects| && Unseeing(effects[i])
        ensures Reconciled(run[i]) == AnsweredCommitted
      {
        assert SaysCommitted(run[i + 1]);
        assert HasShape(p, run[i], Complete);
        ReconcileIsExact(p, run[i]);
      }
    }
    if forall i | 0 <= i < |effects| :: Unseeing(effects[i]) ==> Reconciled(run[i]) == AnsweredCommitted {
      forall i | 0 <= i < |run| && SaysCommitted(run[i])
        ensures HasShape(p, run[i], Complete)
      {
        CommittedSoFar(p, run, effects, i);
      }
    }
  }

  lemma {:induction false} CommittedSoFar(p: View, run: seq<View>, effects: seq<Effect>, i: nat)
    requires Run(p, run, effects) && i < |run| && SaysCommitted(run[i])
    requires forall j | 0 <= j < i :: Unseeing(effects[j]) ==> Reconciled(run[j]) == AnsweredCommitted
    ensures HasShape(p, run[i], Complete)
  {
    var v, e := run[i - 1], effects[i - 1];
    RunIsGood(p, run, effects, i - 1);
    StepAt(p, run, effects, i - 1);
    assert e == ConcludeCommit || Unseeing(e);
    CommittedHere(p, v, e);
  }

  lemma CommittedHere(p: View, v: View, e: Effect)
    requires PreparedView(p) && Inv(p, v) && Enabled(v, e)
    requires e == ConcludeCommit || (Unseeing(e) && Reconciled(v) == AnsweredCommitted)
    ensures HasShape(p, Apply(v, e), Complete)
  {
    var shape :| shape in ShapesIn(v.record.value) && HasShape(p, v, shape);
  }

  predicate SaysRolledBack(v: View) {
    v.record.Some? && v.Phase() == RolledBack
  }

  /** There is a result to remove or an original to put back. */
  predicate MustUndo(v: View)
    requires v.record.Some?
  {
    MustRemove(v) || MustRestore(v)
  }

  lemma NothingToUndoExactlyBefore(p: View, v: View)
    requires PreparedView(p) && Inv(p, v)
    ensures Before(p, v) ==> !MustUndo(v)
    ensures !p.record.value.Overwrites() && !MustUndo(v) ==> Before(p, v)
  {
    var shape :| shape in ShapesIn(v.record.value) && HasShape(p, v, shape);
  }

  /** `rolledBack` means the old tree in every state of a run exactly when no rollback
      that failed to read something skipped an undo. */
  lemma RolledBackMeansRestoredExactlyWhen(p: View, run: seq<View>, effects: seq<Effect>)
    requires Run(p, run, effects)
    ensures (forall i | 0 <= i < |run| :: SaysRolledBack(run[i]) ==> Before(p, run[i]))
       <==> (forall i | 0 <= i < |effects| :: effects[i] == SkipRollback ==> !MustUndo(run[i]))
  {
    forall i | 0 <= i < |run|
      ensures Inv(p, run[i])
    {
      RunIsGood(p, run, effects, i);
    }
    if forall i | 0 <= i < |run| :: SaysRolledBack(run[i]) ==> Before(p, run[i]) {
      forall i | 0 <= i < |effects| && effects[i] == SkipRollback
        ensures !MustUndo(run[i])
      {
        assert SaysRolledBack(run[i + 1]);
        NothingToUndoExactlyBefore(p, run[i]);
      }
    }
    if forall i | 0 <= i < |effects| :: effects[i] == SkipRollback ==> !MustUndo(run[i]) {
      forall i | 0 <= i < |run| && SaysRolledBack(run[i])
        ensures Before(p, run[i])
      {
        RolledBackSoFar(p, run, effects, i);
      }
    }
  }

  lemma RolledBackSoFar(p: View, run: seq<View>, effects: seq<Effect>, i: nat)
    requires Run(p, run, effects) && i < |run| && SaysRolledBack(run[i])
    requires forall j | 0 <= j < i :: effects[j] == SkipRollback ==> !MustUndo(run[j])
    ensures Before(p, run[i])
  {
    var v, e := run[i - 1], effects[i - 1];
    RunIsGood(p, run, effects, i - 1);
    StepAt(p, run, effects, i - 1);
    assert e in {ConcludeRollback, SkipRollback};
    RolledBackHere(p, v, e);
  }

  lemma RolledBackHere(p: View, v: View, e: Effect)
    requires PreparedView(p) && Inv(p, v) && Enabled(v, e) && !Decided(v.Phase())
    requires e == ConcludeRollback || (e == SkipRollback && !MustUndo(v))
    ensures Before(p, v)
  {
    if p.record.value.Overwrites() {
      var shape :| shape in ShapesIn(v.record.value) && HasShape(p, v, shape);
    } else {
      NothingToUndoExactlyBefore(p, v);
    }
  }

  /** Entered again after a stop between persisting `stageInstalling` and the rename,
      commit reports success for an overwrite that left the path empty. */
  lemma BlindCommitCanLeaveAGap() returns (p: View, run: seq<View>, effects: seq<Effect>)
    ensures Run(p, run, effects) && IsFile(p.target)
    ensures SaysCommitted(run[|run| - 1]) && Gap(p, run[|run| - 1])
  {
    var original, result := File(7, 70), File(8, 80);
    var record := Record("token", Write, "notes.md", None, false, ClaimOf(original),
                         ClaimOf(result), NO_CLAIM, Prepared);
    p := View(Some(record), Some(original), None, Some(result), None, None);
    var v1 := p.WithPhase(TargetQuarantining);
    var v2 := v1.(target := None, quarantine := Some(original));
    var v3 := v2.WithPhase(TargetQuarantined);
    var v4 := v3.WithPhase(StageInstalling);
    run := [p, v1, v2, v3, v4, v4.WithPhase(Committed)];
    effects := [BeginQuarantine, QuarantineEffect, NoteQuarantined, BeginInstall, BlindCommit];
  }

  /** The cleanup that follows such a commit removes the only copy of the original and
      of the result. */
  lemma CleanupAfterAGapLosesTheFile(p: View, v: View) returns (w: View)
    requires PreparedView(p) && Inv(p, v) && SaysCommitted(v) && Gap(p, v)
    ensures v.stage.Some? ==> Leads(v, DropStage, v.(stage := None))
    ensures Leads(v.(stage := None), DropOld, w)
    ensures w.target.None? && w.stage.None? && w.quarantine.None? && w.backup.None?
  {
    w := v.(stage := None, quarantine := None);
  }

  /** The same happens to a deletion whose rollback was interrupted after the original
      was back: a commit entered then reports success with the file still in place. */
  lemma BlindDeleteCanKeepTheFile() returns (p: View, run: seq<View>, effects: seq<Effect>)
    ensures Run(p, run, effects) && p.record.value.operation == Delete
    ensures SaysCommitted(run[|run| - 1]) && run[|run| - 1].target == p.target && IsFile(p.target)
  {
    var original := File(7, 70);
    var record := Record("token", Delete, "notes.md", None, false, ClaimOf(original),
                         NO_CLAIM, ClaimOf(File(8, 70)), Prepared);
    p := View(Some(record), Some(original), None, None, None, Some(File(8, 70)));
    var away := p.(target := None, stage := Some(original));
    run := [p, p.WithPhase(TargetQuarantining), away.WithPhase(TargetQuarantining), away.WithPhase(TargetQuarantined),
            p.WithPhase(TargetQuarantined), p.WithPhase(Committed)];
    effects := [BeginQuarantine, QuarantineEffect, NoteQuarantined, RestoreEffect, BlindCommit];
  }
}
