/** The same file mutation on Android, where a document provider moves and renames one
    document at a time. Each step is announced in the record before it is taken.
    Document ids are stable across moves and renames, nobody else touches the documents,
    and so their contents, and the hash checks, never change. Other documents may hold
    names on the way of an operation; they keep them. */
module SafProtocol {
  import opened Volumes

  /** `write_file` and `apply_patch` create or overwrite. */
  datatype Kind = Overwrite | Create | Delete | Move | MakeDirectory

  datatype Phase =
    | Prepared
    | OverwriteQuarantining | OverwriteQuarantined | OverwriteQuarantineRenaming | OverwriteQuarantineRenamed
    | OverwriteStageMoving | OverwriteStageMoved | OverwriteStageRenaming | OverwriteStageRenamed
    | CreateMoving | CreateMoved | CreateRenaming | CreateRenamed
    | DeleteMoving | DeleteQuarantined | DeleteRenaming | DeleteMoved
    | MoveMoving | MoveMoved | MoveRenaming | MoveRenamed
    | Committed | RolledBack
    | RollbackStageMoving | RollbackStageMoved | RollbackOldMoving | RollbackOldMoved
    | RollbackDeleteMoving | RollbackDeleteMoved | RollbackOldRenaming | RollbackOldRenamed

  /** The directory of the path, the directory of the destination, and the hidden one. */
  datatype Dir = Home | Away | HiddenDir

  /** The last part of the path, that of the destination, `<id>.stage` and `<id>.old`. */
  datatype Name = Own | Theirs | StageName | OldName

  datatype Spot = Spot(dir: Dir, name: Name)

  /** A move may stay in one directory, or keep the name. `transitTaken` tells that another
      document in the directory of the destination has the name of the path, and
      `hiddenTaken` that one in the hidden directory has it. */
  datatype Operation = Operation(
    kind: Kind,
    sameDirectory: bool,
    sameName: bool,
    transitTaken: bool,
    hiddenTaken: bool)
  {
    /** Another document has this name. */
    predicate Taken(spot: Spot) {
      || (transitTaken && !sameDirectory && spot == Spot(Away, Own))
      || (hiddenTaken && spot == Spot(HiddenDir, Own))
    }

    /** What `prepare` checks of a move: something else is where it goes, and nothing there. */
    predicate Admitted() {
      kind == Move ==> Destination() != PATH && !Taken(Destination())
    }

    /** No document is in the way of a commit: it moves the original under its own name
        before it renames it. */
    predicate Completable() {
      && (kind in {Overwrite, Delete} ==> !hiddenTaken)
      && (kind == Move ==> !sameDirectory && (sameName || !transitTaken))
    }

    function Destination(): Spot {
      Spot(DestinationDir(), if sameName then Own else Theirs)
    }

    function DestinationDir(): Dir {
      if sameDirectory then Home else Away
    }

    predicate Makes() {
      kind in {Create, MakeDirectory}
    }

    predicate HasSource() {
      kind in {Overwrite, Delete, Move}
    }

    predicate HasStage() {
      kind in {Overwrite, Create, MakeDirectory}
    }
  }

  const PATH := Spot(Home, Own)
  const STAGED := Spot(HiddenDir, StageName)
  const QUARANTINE := Spot(HiddenDir, OldName)

  /** Where the original and the staged document are, and the phase on disk. `moved`
      tells whether the record carries a `movedUri`. */
  datatype View = View(
    op: Operation,
    phase: Phase,
    source: Option<Spot>,
    stage: Option<Spot>,
    moved: bool)
  {
    predicate Free(spot: Spot) {
      source != Some(spot) && stage != Some(spot) && !op.Taken(spot)
    }

    predicate SourceIn(dir: Dir) {
      source.Some? && source.value.dir == dir
    }

    predicate StageIn(dir: Dir) {
      stage.Some? && stage.value.dir == dir
    }

    /** Persisting a phase; two of them record where the document went as well. */
    function WithPhase(p: Phase): View {
      this.(phase := p, moved := moved || p in {CreateMoved, MoveMoved})
    }
  }

  datatype Answer = AnsweredRolledBack | AnsweredCommitted | AnsweredNotCommitted | AnsweredIndeterminate

  predicate Decided(phase: Phase) {
    phase in {Committed, RolledBack}
  }

  predicate Terminal(phase: Phase) {
    phase in {Committed, RolledBack, CreateRenamed, OverwriteStageRenamed, DeleteMoved, MoveRenamed}
  }

  /** `load` refuses a record whose staged document is nowhere, unless the phase says that
      it may be gone. */
  predicate Loadable(v: View) {
    Terminal(v.phase) || !v.op.HasStage() || v.stage.Some?
  }

  // ---------------------------------------------------------------- reconcile

  function ReconcileOverwrite(v: View): Answer {
    if v.stage == Some(PATH) then
      if v.SourceIn(HiddenDir) then AnsweredCommitted else AnsweredIndeterminate
    else if v.source == Some(PATH) then AnsweredNotCommitted
    else if v.SourceIn(Home) then AnsweredNotCommitted
    else if v.SourceIn(HiddenDir) && v.stage.Some? then AnsweredNotCommitted
    else AnsweredIndeterminate
  }

  function ReconcileCreate(v: View): Answer {
    if v.stage == Some(PATH) then AnsweredCommitted
    else if v.stage.Some? || v.moved then AnsweredNotCommitted
    else AnsweredIndeterminate
  }

  function ReconcileDelete(v: View): Answer {
    if v.source == Some(PATH) then AnsweredNotCommitted
    else if !v.SourceIn(HiddenDir) then AnsweredIndeterminate
    else if v.source == Some(QUARANTINE) then AnsweredCommitted
    else AnsweredNotCommitted
  }

  function ReconcileMove(v: View): Answer {
    if v.source == Some(v.op.Destination()) then AnsweredCommitted
    else if v.source == Some(PATH) then AnsweredNotCommitted
    else if v.moved || v.SourceIn(v.op.DestinationDir()) then AnsweredNotCommitted
    else AnsweredIndeterminate
  }

  function Reconciled(v: View): Answer {
    if v.phase == RolledBack then AnsweredRolledBack
    else match v.op.kind
      case Overwrite => ReconcileOverwrite(v)
      case Delete => ReconcileDelete(v)
      case Move => ReconcileMove(v)
      case _ => ReconcileCreate(v)
  }

  // ---------------------------------------------------------------- durable effects

  datatype Effect =
    | Announce(next: Phase)
    | ShiftSource(to: Dir)
    | NameSource(name: Name)
    | ShiftStage(to: Dir)
    | NameStage(name: Name)
    | DeleteStage

  /** When a handler persists a phase: what it has just seen or done. */
  predicate MayAnnounce(v: View, next: Phase) {
    var undecided := Reconciled(v) == AnsweredNotCommitted;
    match next
    case Prepared => false
    case OverwriteQuarantining => v.op.kind == Overwrite && undecided && v.source == Some(PATH)
    case OverwriteQuarantined => v.phase == OverwriteQuarantining && v.source == Some(Spot(HiddenDir, Own))
    case OverwriteQuarantineRenaming => v.phase == OverwriteQuarantined
    case OverwriteQuarantineRenamed => v.phase == OverwriteQuarantineRenaming && v.source == Some(QUARANTINE)
    case OverwriteStageMoving => v.phase == OverwriteQuarantineRenamed && v.source == Some(QUARANTINE)
    case OverwriteStageMoved => v.phase == OverwriteStageMoving && v.stage == Some(Spot(Home, StageName))
    case OverwriteStageRenaming => v.phase == OverwriteStageMoved
    case OverwriteStageRenamed => v.phase in {OverwriteStageRenaming, OverwriteStageRenamed} && v.stage == Some(PATH)
    case CreateMoving => v.op.Makes() && undecided && v.Free(PATH)
    case CreateMoved => v.phase == CreateMoving && v.stage == Some(Spot(Home, StageName))
    case CreateRenaming => v.phase == CreateMoved
    case CreateRenamed => v.phase in {CreateRenaming, CreateRenamed} && v.stage == Some(PATH)
    case DeleteMoving => v.op.kind == Delete && undecided && v.source == Some(PATH)
    case DeleteQuarantined => v.phase == DeleteMoving && v.source == Some(Spot(HiddenDir, Own))
    case DeleteRenaming => v.phase == DeleteQuarantined
    case DeleteMoved => v.phase == DeleteRenaming && v.source == Some(QUARANTINE)
    case MoveMoving => v.op.kind == Move && undecided && v.source == Some(PATH) && v.Free(v.op.Destination())
    case MoveMoved =>
      v.phase == MoveMoving && v.source == Some(Spot(v.op.DestinationDir(), Own)) && v.source != Some(PATH)
    case MoveRenaming => v.phase == MoveMoved
    case MoveRenamed => v.phase == MoveRenaming && v.source == Some(v.op.Destination())
    case Committed => Reconciled(v) == AnsweredCommitted
    case RolledBack => undecided && (v.op.HasSource() ==> v.source == Some(PATH)) && (v.op.Makes() ==> v.stage.None?)
    case RollbackStageMoving => v.op.kind == Overwrite && undecided && v.Free(PATH) && v.StageIn(Home)
    case RollbackStageMoved => v.phase == RollbackStageMoving && v.StageIn(HiddenDir)
    case RollbackOldMoving =>
      v.op.kind == Overwrite && undecided && v.Free(PATH) && v.SourceIn(HiddenDir) && !v.StageIn(Home)
    case RollbackOldMoved => v.phase == RollbackOldMoving && v.SourceIn(Home)
    case RollbackDeleteMoving => v.op.kind == Delete && undecided && v.Free(PATH) && v.SourceIn(HiddenDir)
    case RollbackDeleteMoved => v.phase == RollbackDeleteMoving && v.SourceIn(Home)
    case RollbackOldRenaming =>
      v.op.kind in {Overwrite, Delete} && undecided && v.SourceIn(Home) && !v.StageIn(Home)
    case RollbackOldRenamed => v.phase == RollbackOldRenaming && v.source == Some(PATH)
  }

  predicate MayShiftSource(v: View, to: Dir) {
    && v.source.Some? && v.Free(Spot(to, v.source.value.name))
    && (|| (to == HiddenDir && v.phase in {OverwriteQuarantining, DeleteMoving} && v.source == Some(PATH))
        || (to == v.op.DestinationDir() && v.phase == MoveMoving && v.source == Some(PATH))
        || (to == Home && v.phase in {RollbackOldMoving, RollbackDeleteMoving} && v.SourceIn(HiddenDir) && v.Free(PATH))
        || (to == Home && v.op.kind == Move && Reconciled(v) == AnsweredNotCommitted
            && v.Free(PATH) && v.SourceIn(v.op.DestinationDir())))
  }

  predicate MayNameSource(v: View, name: Name) {
    && v.source.Some? && v.Free(Spot(v.source.value.dir, name))
    && (|| (name == OldName && v.phase in {OverwriteQuarantineRenaming, DeleteRenaming} && v.SourceIn(HiddenDir))
        || (name == v.op.Destination().name && v.phase == MoveRenaming
            && v.source == Some(Spot(v.op.DestinationDir(), Own)))
        || (name == Own && v.phase == RollbackOldRenaming && v.SourceIn(Home)))
  }

  predicate MayShiftStage(v: View, to: Dir) {
    && v.stage.Some? && v.Free(Spot(to, v.stage.value.name))
    && (|| (to == Home && v.phase in {OverwriteStageMoving, CreateMoving} && v.StageIn(HiddenDir)
            && (v.op.kind == Overwrite ==> v.source == Some(QUARANTINE)))
        || (to == HiddenDir && v.phase == RollbackStageMoving && v.StageIn(Home)))
  }

  predicate MayNameStage(v: View, name: Name) {
    && name == Own && v.Free(PATH)
    && v.phase in {OverwriteStageRenaming, CreateRenaming} && v.stage == Some(Spot(Home, StageName))
  }

  predicate MayDeleteStage(v: View) {
    v.op.Makes() && Reconciled(v) == AnsweredNotCommitted && v.stage.Some?
  }

  predicate Enabled(v: View, e: Effect) {
    && !Decided(v.phase)
    && match e
       case Announce(next) =>
         // After the stage was deleted only the outcome is left to persist.
         MayAnnounce(v, next) || (next == RolledBack && v.op.Makes() && v.stage.None?)
       case ShiftSource(to) => MayShiftSource(v, to)
       case NameSource(name) => MayNameSource(v, name)
       case ShiftStage(to) => MayShiftStage(v, to)
       case NameStage(name) => MayNameStage(v, name)
       case DeleteStage => MayDeleteStage(v)
  }

  function Apply(v: View, e: Effect): View
    requires Enabled(v, e)
  {
    match e
    case Announce(next) => v.WithPhase(next)
    case ShiftSource(to) => v.(source := Some(Spot(to, v.source.value.name)))
    case NameSource(name) => v.(source := Some(Spot(v.source.value.dir, name)))
    case ShiftStage(to) => v.(stage := Some(Spot(to, v.stage.value.name)))
    case NameStage(name) => v.(stage := Some(Spot(v.stage.value.dir, name)))
    case DeleteStage => v.(stage := None)
  }

  ghost predicate Next(v: View, w: View) {
    exists e :: Enabled(v, e) && w == Apply(v, e)
  }

  // ---------------------------------------------------------------- the invariant

  /** What `prepare` leaves behind. */
  predicate PreparedView(v: View) {
    && v.phase == Prepared && !v.moved
    && v.source == (if v.op.HasSource() then Some(PATH) else None)
    && v.stage == (if v.op.HasStage() then Some(STAGED) else None)
    && v.op.Admitted()
  }

  /** The path, and the destination of a move, are as `prepare` found them. */
  predicate Before(v: View) {
    !v.StageIn(Home) && v.source == if v.op.HasSource() then Some(PATH) else None
  }

  /** The operation is complete. */
  predicate After(v: View) {
    match v.op.kind
    case Overwrite => v.source == Some(QUARANTINE) && v.stage == Some(PATH)
    case Delete => v.source == Some(QUARANTINE)
    case Move => v.source == Some(v.op.Destination())
    case _ => v.stage == Some(PATH)
  }

  /** Every arrangement of the two documents a run can reach. */
  predicate Arranged(v: View) {
    var home, hidden := Some(Spot(Home, StageName)), Some(STAGED);
    match v.op.kind
    case Overwrite =>
      || (v.stage == hidden
          && v.source in {Some(PATH), Some(Spot(HiddenDir, Own)), Some(QUARANTINE), Some(Spot(Home, OldName))})
      || (v.stage in {home, Some(PATH)} && v.source == Some(QUARANTINE))
    case Delete => v.stage.None? && v.source in {Some(PATH), Some(Spot(HiddenDir, Own)), Some(QUARANTINE)}
    case Move =>
      v.stage.None? && v.source in {Some(PATH), Some(Spot(v.op.DestinationDir(), Own)), Some(v.op.Destination())}
    case _ => v.source.None? && v.stage in {hidden, home, Some(PATH), None}
  }

  /** The phases one kind of operation goes through. */
  predicate Fits(phase: Phase, kind: Kind) {
    || phase in {Prepared, Committed, RolledBack}
    || match kind
       case Overwrite =>
         phase in {OverwriteQuarantining, OverwriteQuarantined, OverwriteQuarantineRenaming,
                   OverwriteQuarantineRenamed, OverwriteStageMoving, OverwriteStageMoved,
                   OverwriteStageRenaming, OverwriteStageRenamed, RollbackStageMoving, RollbackStageMoved,
                   RollbackOldMoving, RollbackOldMoved, RollbackOldRenaming, RollbackOldRenamed}
       case Delete =>
         phase in {DeleteMoving, DeleteQuarantined, DeleteRenaming, DeleteMoved, RollbackDeleteMoving,
                   RollbackDeleteMoved, RollbackOldRenaming, RollbackOldRenamed}
       case Move => phase in {MoveMoving, MoveMoved, MoveRenaming, MoveRenamed}
       case _ => phase in {CreateMoving, CreateMoved, CreateRenaming, CreateRenamed}
  }

  predicate Inv(v: View) {
    && Arranged(v) && Fits(v.phase, v.op.kind) && v.op.Admitted()
    && (v.source.Some? ==> !v.op.Taken(v.source.value))
    && (v.op.kind == Move && v.op.sameDirectory ==> v.phase !in {MoveMoved, MoveRenaming})
    && (v.phase == Committed ==> After(v))
    && (v.phase in {Prepared, RolledBack} ==> Before(v))
    && (v.phase == RolledBack && v.op.Makes() ==> v.stage.None?)
    && (v.phase in {CreateRenamed, OverwriteStageRenamed, DeleteMoved, MoveRenamed} ==> After(v))
    && (v.phase in {RollbackOldMoving, RollbackOldRenaming} && v.op.kind == Overwrite ==> v.stage == Some(STAGED))
    && (v.phase in {RollbackDeleteMoving, RollbackOldRenaming} ==> v.op.kind == Delete ==> v.source != Some(QUARANTINE))
    && (v.phase == RollbackStageMoving ==> v.stage != Some(PATH))
    && (v.phase in {OverwriteStageMoved, OverwriteStageRenaming, RollbackStageMoving} ==> v.source == Some(QUARANTINE))
  }

  lemma PreparedIsGood(v: View)
    requires PreparedView(v)
    ensures Inv(v) && Before(v)
  {
  }

  lemma OverwriteKeeps(v: View, e: Effect)
    requires Inv(v) && Enabled(v, e) && v.op.kind == Overwrite
    ensures Inv(Apply(v, e))
  {
    if e.Announce? {
      OverwriteAnnounced(v, e.next);
    } else {
      OverwriteTaken(v, e);
    }
  }

  lemma OverwriteAnnounced(v: View, next: Phase)
    requires Inv(v) && Enabled(v, Announce(next)) && v.op.kind == Overwrite
    ensures Inv(v.WithPhase(next))
  {
  }

  lemma OverwriteTaken(v: View, e: Effect)
    requires Inv(v) && Enabled(v, e) && v.op.kind == Overwrite && !e.Announce?
    ensures Inv(Apply(v, e))
  {
  }

  lemma DeleteKeeps(v: View, e: Effect)
    requires Inv(v) && Enabled(v, e) && v.op.kind == Delete
    ensures Inv(Apply(v, e))
  {
  }

  lemma MoveKeeps(v: View, e: Effect)
    requires Inv(v) && Enabled(v, e) && v.op.kind == Move
    ensures Inv(Apply(v, e))
  {
  }

  lemma CreateKeeps(v: View, e: Effect)
    requires Inv(v) && Enabled(v, e) && v.op.Makes()
    ensures Inv(Apply(v, e))
  {
  }

  lemma Inductive(v: View, e: Effect)
    requires Inv(v) && Enabled(v, e)
    ensures Inv(Apply(v, e)) && Apply(v, e).op == v.op
  {
    match v.op.kind
    case Overwrite => OverwriteKeeps(v, e);
    case Delete => DeleteKeeps(v, e);
    case Move => MoveKeeps(v, e);
    case _ => CreateKeeps(v, e);
  }

  // ---------------------------------------------------------------- whole runs

  /** Commits, reconciles and rollbacks in any order, each stopped anywhere. */
  ghost predicate Run(run: seq<View>) {
    && |run| > 0 && PreparedView(run[0])
    && forall i | 0 <= i < |run| - 1 :: Next(run[i], run[i + 1])
  }

  lemma StepAt(run: seq<View>, i: nat) returns (e: Effect)
    requires Run(run) && i < |run| - 1
    ensures Enabled(run[i], e) && run[i + 1] == Apply(run[i], e)
  {
    assert Next(run[i], run[i + 1]);
    e :| Enabled(run[i], e) && run[i + 1] == Apply(run[i], e);
  }

  /** In every state of every run the original is at one of the places listed, never under
      a name that another document has, and not at its path together with the staged
      document; the outcome on record is the true one. */
  lemma {:induction false} WholeRun(run: seq<View>, i: nat)
    requires Run(run) && i < |run|
    ensures Inv(run[i]) && run[i].op == run[0].op
    ensures run[i].op.HasSource() <==> run[i].source.Some?
    ensures run[i].source.Some? ==>
              run[i].source.value in {PATH, Spot(HiddenDir, Own), QUARANTINE, Spot(Home, OldName),
                                      Spot(run[i].op.DestinationDir(), Own), run[i].op.Destination()}
    ensures run[i].source.Some? ==> !run[i].op.Taken(run[i].source.value)
    ensures !(run[i].source == Some(PATH) && run[i].stage == Some(PATH))
    ensures run[i].phase == Committed ==> After(run[i])
    ensures run[i].phase in {Prepared, RolledBack} ==> Before(run[i])
  {
    if i > 0 {
      WholeRun(run, i - 1);
      var e := StepAt(run, i - 1);
      Inductive(run[i - 1], e);
    }
    PreparedPhaseIsUntouched(run, i);
  }

  /** Only `prepare` writes the phase `prepared`; while it stands, at most the staged
      document of a creation has been deleted. */
  lemma {:induction false} PreparedPhaseIsUntouched(run: seq<View>, i: nat)
    requires Run(run) && i < |run|
    ensures run[i].phase == Prepared ==>
              run[i] == run[0] || (run[0].op.Makes() && run[i] == run[0].(stage := None))
  {
    if i > 0 {
      PreparedPhaseIsUntouched(run, i - 1);
      var e := StepAt(run, i - 1);
    }
  }

  /** A complete operation stays complete. */
  lemma AfterStays(v: View, e: Effect)
    requires Inv(v) && After(v) && Enabled(v, e)
    ensures After(Apply(v, e))
  {
  }

  /** A decision is persisted on top of an undecided record and moves nothing. */
  lemma DecisionReplaces(run: seq<View>, i: nat)
    requires Run(run) && i < |run| && Decided(run[i].phase)
    ensures i > 0 && !Decided(run[i - 1].phase) && run[i] == run[i - 1].WithPhase(run[i].phase)
  {
    if i > 0 {
      assert Next(run[i - 1], run[i - 1 + 1]);
    }
  }

  /** The phases in which the original is in the hidden directory for certain. */
  predicate Quarantined(phase: Phase) {
    phase in {OverwriteQuarantined, OverwriteQuarantineRenaming, OverwriteQuarantineRenamed, OverwriteStageMoving,
              OverwriteStageMoved, OverwriteStageRenaming, RollbackStageMoving, RollbackStageMoved,
              DeleteQuarantined, DeleteRenaming}
  }

  /** The phases in which one move of the original is announced: it has happened or not. */
  predicate MoveAnnounced(phase: Phase) {
    phase in {OverwriteQuarantining, DeleteMoving, RollbackOldMoving, RollbackDeleteMoving}
  }

  /** An incomplete overwrite or deletion has its original in the hidden directory in these
      phases only. */
  predicate Placed(v: View) {
    && (Quarantined(v.phase) ==> v.SourceIn(HiddenDir))
    && (v.SourceIn(HiddenDir) && !After(v) ==> Quarantined(v.phase) || MoveAnnounced(v.phase))
  }

  lemma PlacedKeeps(v: View, e: Effect)
    requires Inv(v) && Placed(v) && Enabled(v, e)
    ensures Placed(Apply(v, e))
  {
  }

  /** The phase on record tells where the original of an incomplete operation is, but for
      the move it announces. */
  lemma {:induction false} PhaseTellsWhere(run: seq<View>, i: nat)
    requires Run(run) && i < |run|
    ensures Placed(run[i])
  {
    if i == 0 {
      PreparedIsPlaced(run[0]);
    } else {
      PhaseTellsWhere(run, i - 1);
      WholeRun(run, i - 1);
      var e := StepAt(run, i - 1);
      PlacedNext(run[i - 1], e, run[i]);
    }
  }

  lemma PlacedNext(v: View, e: Effect, w: View)
    requires Inv(v) && Placed(v) && Enabled(v, e) && w == Apply(v, e)
    ensures Placed(w)
  {
    PlacedKeeps(v, e);
  }

  lemma PreparedIsPlaced(v: View)
    requires PreparedView(v)
    ensures Placed(v)
  {
  }

  /** Nothing has moved since `prepare`. */
  predicate Unmoved(v: View) {
    && v.source == Some(PATH) && v.phase != Committed
    && v.stage == if v.op.kind == Overwrite then Some(STAGED) else None
  }

  lemma BlockedStays(v: View, e: Effect)
    requires Inv(v) && Unmoved(v) && !v.op.Completable() && Enabled(v, e)
    ensures Unmoved(Apply(v, e))
  {
    assert !After(v);
  }

  /** With a document in the way, or within one directory, no run of an overwrite, a
      deletion or a move gets anywhere: the original stays at its path. */
  lemma {:induction false} BlockedNeverMoves(run: seq<View>, i: nat)
    requires Run(run) && i < |run| && !run[0].op.Completable()
    ensures run[i].op == run[0].op && Unmoved(run[i]) && !After(run[i])
  {
    if i > 0 {
      BlockedNeverMoves(run, i - 1);
      WholeRun(run, i - 1);
      var e := StepAt(run, i - 1);
      BlockedStays(run[i - 1], e);
    }
    WholeRun(run, i);
  }

  /** Moving `a/notes.md` to `b/todo.md` while `b` has another `notes.md`: `prepare` accepts
      it, for `b/todo.md` is free, and no run moves the file. */
  lemma MoveCanBeBlocked() returns (v: View)
    ensures PreparedView(v) && v.op == Operation(Move, false, false, true, false)
    ensures forall run: seq<View>, i: nat | Run(run) && run[0] == v && i < |run| ::
              run[i].source == Some(PATH) && !After(run[i])
  {
    v := View(Operation(Move, false, false, true, false), Prepared, Some(PATH), None, false);
    forall run: seq<View>, i: nat | Run(run) && run[0] == v && i < |run|
      ensures run[i].source == Some(PATH) && !After(run[i])
    {
      BlockedNeverMoves(run, i);
    }
  }

  /** A move to another name in one directory is accepted and blocked in the same way. */
  lemma MoveInOneDirectoryIsBlocked() returns (v: View)
    ensures PreparedView(v) && v.op == Operation(Move, true, false, false, false)
    ensures forall run: seq<View>, i: nat | Run(run) && run[0] == v && i < |run| ::
              run[i].source == Some(PATH) && !After(run[i])
  {
    v := View(Operation(Move, true, false, false, false), Prepared, Some(PATH), None, false);
    forall run: seq<View>, i: nat | Run(run) && run[0] == v && i < |run|
      ensures run[i].source == Some(PATH) && !After(run[i])
    {
      BlockedNeverMoves(run, i);
    }
  }

  /** Where `load` accepts a reachable record, reconcile is never in doubt and answers
      `committed` exactly when the operation is complete. */
  lemma ReconcileIsExact(v: View)
    requires Inv(v) && Loadable(v) && v.phase != RolledBack
    ensures Reconciled(v) == AnsweredCommitted <==> After(v)
    ensures Reconciled(v) == AnsweredNotCommitted <==> !After(v)
  {
  }

  /** `load` accepts every reachable record but one kind: a creation whose rollback was
      stopped after it deleted the staged document and before it persisted `rolledBack`.
      That record is refused for good. */
  lemma LoadableExactlyWhen(v: View)
    requires Inv(v)
    ensures Loadable(v) <==> v.op.HasSource() || v.stage.Some? || v.phase == RolledBack
    ensures !Decided(v.phase) && Enabled(v, DeleteStage) ==> !Loadable(Apply(v, DeleteStage))
  {
  }

  lemma CreationCanGetStuck() returns (run: seq<View>)
    ensures Run(run) && run[0].op.kind == Create
    ensures !Loadable(run[|run| - 1]) && !Decided(run[|run| - 1].phase)
  {
    var v := View(Operation(Create, false, false, false, false), Prepared, None, Some(STAGED), false);
    assert Enabled(v, DeleteStage);
    run := [v, v.(stage := None)];
  }

  /** What an uninterrupted rollback of a state that is not complete ends with. */
  function RolledBackFrom(v: View): View {
    v.(phase := RolledBack,
       source := if v.op.HasSource() then Some(PATH) else v.source,
       stage := if v.op.Makes() then None else if v.op.kind == Overwrite then Some(STAGED) else v.stage)
  }

  lemma RolledBackIsBefore(v: View)
    requires Inv(v)
    ensures Before(RolledBackFrom(v)) && Inv(RolledBackFrom(v)) && Loadable(RolledBackFrom(v))
  {
  }
}
