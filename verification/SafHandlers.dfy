/** The Android handlers, step by step. A record is persisted through the slot store,
    which makes each persist atomic; a provider moves, renames or deletes one document. */
module SafHandlers {
  import opened Volumes
  import opened SafProtocol

  datatype Error =
    | InvalidPreparedReceipt
    | StaleTarget
    | DestinationExists
    | AlreadyCommitted
    | MutationIndeterminate

  datatype Reply = Done | Refused(error: Error)

  /** Every durable state is one effect of the operation after the state before it. */
  ghost predicate Steps(trail: seq<View>) {
    forall i | 0 <= i < |trail| - 1 :: Next(trail[i], trail[i + 1])
  }

  lemma {:induction false} StepsStayGood(trail: seq<View>, i: nat)
    requires i < |trail| && Steps(trail) && Inv(trail[0])
    ensures Inv(trail[i])
  {
    if i > 0 {
      StepsStayGood(trail, i - 1);
      assert Next(trail[i - 1], trail[i - 1 + 1]);
      var e :| Enabled(trail[i - 1], e) && trail[i] == Apply(trail[i - 1], e);
      Inductive(trail[i - 1], e);
    }
  }

  /** The documents and the record of one operation. */
  class Session {
    var view: View

    /** Whether a persist or a provider call can fail. */
    const fails: bool

    /** The state in which the session found the operation. */
    const start: View

    /** Every state that has been durable since then, the present one last: a process
        that stops leaves one of these. */
    ghost var trail: seq<View>

    ghost predicate Valid()
      reads this
    {
      trail != [] && trail[0] == start && trail[|trail| - 1] == view && Steps(trail) && Inv(start)
    }

    constructor (view: View, fails: bool)
      requires Inv(view)
      ensures Valid() && this.view == view && this.fails == fails
    {
      this.view, this.start, this.fails := view, view, fails;
      trail := [view];
    }

    lemma Good()
      requires Valid()
      ensures Inv(view)
    {
      StepsStayGood(trail, |trail| - 1);
    }

    /** One durable effect, which may fail before or after it happened. */
    method Take(ghost effect: Effect, next: View) returns (ok: bool)
      requires Valid()
      requires Enabled(view, effect) && next == Apply(view, effect)
      modifies this`view, this`trail
      ensures Valid() && view.op == old(view).op
      ensures view in {old(view), next}
      ensures ok ==> view == next
      ensures !fails ==> ok
    {
      ok := true;
      if fails {
        ok := *;
        if !ok {
          return;
        }
      }
      ghost var before := trail;
      view := next;
      trail := trail + [next];
      forall i | 0 <= i < |trail| - 1
        ensures Next(trail[i], trail[i + 1])
      {
        if i == |before| - 1 {
          assert Enabled(trail[i], effect);
        } else {
          assert Next(before[i], before[i + 1]);
        }
      }
      if fails {
        ok := *;
      }
    }

    method Persist(phase: Phase) returns (ok: bool)
      requires Valid()
      requires Enabled(view, Announce(phase))
      modifies this`view, this`trail
      ensures Valid() && view.op == old(view).op
      ensures view in {old(view), old(view).WithPhase(phase)}
      ensures ok ==> view == old(view).WithPhase(phase)
      ensures !fails ==> ok
    {
      ok := Take(Announce(phase), view.WithPhase(phase));
    }

    /** moveDocument or renameDocument: refused where the name is taken, and nothing to do
        for a document that has the name already. */
    method Perform(step: Effect) returns (ok: bool)
      requires Valid() && Moves(view, step)
      requires Room(view, step) ==> Enabled(view, step)
      modifies this`view, this`trail
      ensures Valid() && view.op == old(view).op
      ensures view in {old(view), Moved(old(view), step)}
      ensures ok ==> Possible(old(view), step) && view == Moved(old(view), step)
      ensures !fails ==> (ok <==> Possible(old(view), step))
      ensures !Possible(old(view), step) ==> view == old(view)
    {
      if !Room(view, step) {
        return Settled(view, step);
      }
      ok := Take(step, Moved(view, step));
    }

    method PerformAndRecord(step: Effect, done: Phase) returns (ok: bool)
      requires Valid() && Moves(view, step) && Recordable(view, step, done)
      modifies this`view, this`trail
      ensures Valid() && view.op == old(view).op
      ensures ok ==> Possible(old(view), step) && view == Moved(old(view), step).WithPhase(done)
      ensures !fails ==> (ok <==> Possible(old(view), step))
      ensures !Possible(old(view), step) ==> view == old(view)
    {
      ok := Perform(step);
      if !ok { return; }
      ok := Persist(done);
    }

    /** Announce a step, take it, and record that it was taken. */
    method Carry(announced: Phase, step: Effect, done: Phase) returns (ok: bool)
      requires Valid() && Moves(view, step) && Carriable(view, announced, step, done)
      modifies this`view, this`trail
      ensures Valid() && view.op == old(view).op
      ensures ok ==> Possible(old(view), step)
                     && view == Moved(old(view), step).WithPhase(announced).WithPhase(done)
      ensures !fails ==> (ok <==> Possible(old(view), step))
      ensures !Possible(old(view), step) ==> view in {old(view), old(view).WithPhase(announced)}
    {
      PhaseMovesNothing(view, announced, step);
      ok := Persist(announced);
      if !ok { return; }
      ok := PerformAndRecord(step, done);
    }
  }

  // ---------------------------------------------------------------- provider calls

  predicate Moves(v: View, step: Effect) {
    match step
    case ShiftSource(_) => v.source.Some?
    case NameSource(_) => v.source.Some?
    case ShiftStage(_) => v.stage.Some?
    case NameStage(_) => v.stage.Some?
    case _ => false
  }

  /** Where a move or a rename takes its document. */
  function Goal(v: View, step: Effect): Spot
    requires Moves(v, step)
  {
    match step
    case ShiftSource(to) => Spot(to, v.source.value.name)
    case NameSource(name) => Spot(v.source.value.dir, name)
    case ShiftStage(to) => Spot(to, v.stage.value.name)
    case NameStage(name) => Spot(v.stage.value.dir, name)
  }

  function Moved(v: View, step: Effect): View
    requires Moves(v, step)
  {
    if step.ShiftSource? || step.NameSource? then v.(source := Some(Goal(v, step)))
    else v.(stage := Some(Goal(v, step)))
  }

  predicate Room(v: View, step: Effect)
    requires Moves(v, step)
  {
    v.Free(Goal(v, step))
  }

  /** renameDocument to the name a document already has. */
  predicate Settled(v: View, step: Effect)
    requires Moves(v, step)
  {
    (step.NameSource? || step.NameStage?) && Moved(v, step) == v
  }

  predicate Possible(v: View, step: Effect)
    requires Moves(v, step)
  {
    Room(v, step) || Settled(v, step)
  }

  lemma PhaseMovesNothing(v: View, phase: Phase, step: Effect)
    requires Moves(v, step)
    ensures Moves(v.WithPhase(phase), step)
    ensures Possible(v.WithPhase(phase), step) <==> Possible(v, step)
    ensures Moved(v.WithPhase(phase), step) == Moved(v, step).WithPhase(phase)
  {
  }

  predicate Recordable(v: View, step: Effect, done: Phase)
    requires Moves(v, step)
  {
    && (Room(v, step) ==> Enabled(v, step))
    && (Possible(v, step) ==> Enabled(Moved(v, step), Announce(done)))
  }

  /** The step may be announced, taken and recorded, one after the other. */
  predicate Carriable(v: View, announced: Phase, step: Effect, done: Phase)
    requires Moves(v, step)
  {
    Enabled(v, Announce(announced)) && Recordable(v.WithPhase(announced), step, done)
  }

  // ---------------------------------------------------------------- reconcile

  /** Reconcile answers for the arrangement it finds and records a completed operation. */
  method ReconcileLoaded(s: Session) returns (ok: bool, answer: Answer)
    requires s.Valid()
    modifies s`view, s`trail
    ensures s.Valid() && s.view.op == old(s.view).op
    ensures answer == Reconciled(old(s.view))
    ensures answer != AnsweredCommitted ==> ok && s.view == old(s.view)
    ensures s.view in {old(s.view), old(s.view).WithPhase(Committed)}
    ensures ok && answer == AnsweredCommitted ==> s.view == old(s.view).WithPhase(Committed)
    ensures !s.fails ==> ok
  {
    ok, answer := true, Reconciled(s.view);
    if answer == AnsweredCommitted && s.view.phase != Committed {
      ok := s.Persist(Committed);
    }
  }

  // ---------------------------------------------------------------- commit

  /** Where commitOverwrite, commitDelete, commitCreate and commitMove leave the documents. */
  function Finished(v: View): View {
    match v.op.kind
    case Overwrite => v.(source := Some(QUARANTINE), stage := Some(PATH))
    case Delete => v.(source := Some(QUARANTINE))
    case Move => v.(source := Some(v.op.Destination()), moved := true)
    case _ => v.(stage := Some(PATH), moved := true)
  }

  /** Nothing was decided and the original, if there is one, is still at its path. */
  predicate Untouched(v: View) {
    && !Decided(v.phase)
    && (v.op.HasSource() ==> v.source == Some(PATH))
    && (v.op.kind == Overwrite ==> v.stage == Some(STAGED))
    && (v.op.kind in {Delete, Move} ==> v.stage.None?)
    && v.op.Admitted()
    && (v.op.Makes() ==> v.source.None? && v.stage in {Some(STAGED), Some(Spot(Home, StageName))})
  }

  lemma QuarantineCanBeCarried(v: View)
    requires Untouched(v) && v.op.kind == Overwrite
    ensures Carriable(v, OverwriteQuarantining, ShiftSource(HiddenDir), OverwriteQuarantined)
    ensures Possible(v, ShiftSource(HiddenDir)) <==> Movable(v)
  {
  }

  lemma QuarantineCanBeNamed(v: View)
    requires v.op.kind == Overwrite && v.phase == OverwriteQuarantined
    requires v.source == Some(Spot(HiddenDir, Own)) && v.stage == Some(STAGED)
    ensures Carriable(v, OverwriteQuarantineRenaming, NameSource(OldName), OverwriteQuarantineRenamed)
    ensures Possible(v, NameSource(OldName))
  {
  }

  lemma PublishingCanBeCarried(v: View)
    requires v.op.kind == Overwrite && v.phase == OverwriteQuarantineRenamed
    requires v.source == Some(QUARANTINE) && v.stage == Some(STAGED)
    ensures Carriable(v, OverwriteStageMoving, ShiftStage(Home), OverwriteStageMoved)
  {
  }

  lemma PublishedCanBeCarried(v: View)
    requires v.op.kind == Overwrite && v.phase == OverwriteStageMoved
    requires v.source == Some(QUARANTINE) && v.stage == Some(Spot(Home, StageName))
    ensures Carriable(v, OverwriteStageRenaming, NameStage(Own), OverwriteStageRenamed)
  {
  }

  lemma DeleteCanBeCarried(v: View)
    requires Untouched(v) && v.op.kind == Delete
    ensures Carriable(v, DeleteMoving, ShiftSource(HiddenDir), DeleteQuarantined)
    ensures Possible(v, ShiftSource(HiddenDir)) <==> Movable(v)
  {
  }

  lemma DeletedCanBeNamed(v: View)
    requires v.op.kind == Delete && v.phase == DeleteQuarantined
    requires v.source == Some(Spot(HiddenDir, Own)) && v.stage.None?
    ensures Carriable(v, DeleteRenaming, NameSource(OldName), DeleteMoved)
    ensures Possible(v, NameSource(OldName))
  {
  }

  lemma CreateCanBeCarried(v: View)
    requires Untouched(v) && v.op.Makes()
    ensures Carriable(v, CreateMoving, ShiftStage(Home), CreateMoved)
    ensures Possible(v, ShiftStage(Home)) <==> Movable(v)
  {
  }

  lemma CreatedCanBeCarried(v: View)
    requires v.op.Makes() && v.phase == CreateMoved && v.source.None? && v.stage == Some(Spot(Home, StageName))
    ensures Carriable(v, CreateRenaming, NameStage(Own), CreateRenamed)
  {
  }

  lemma MoveCanBeCarried(v: View)
    requires Untouched(v) && v.op.kind == Move
    ensures Carriable(v, MoveMoving, ShiftSource(v.op.DestinationDir()), MoveMoved)
    ensures Possible(v, ShiftSource(v.op.DestinationDir())) <==> Movable(v)
  {
  }

  lemma MovedCanBeCarried(v: View)
    requires v.op.kind == Move && v.phase == MoveMoved && !v.op.sameDirectory && v.op.Admitted()
    requires v.source == Some(Spot(Away, Own)) && v.stage.None?
    ensures Carriable(v, MoveRenaming, NameSource(v.op.Destination().name), MoveRenamed)
  {
  }

  /** The original goes to the hidden directory under its own name first, so another
      document of that name there stops the commit before anything has moved. */
  method CommitOverwrite(s: Session) returns (ok: bool)
    requires s.Valid() && Untouched(s.view) && s.view.op.kind == Overwrite
    modifies s`view, s`trail
    ensures s.Valid() && s.view.op == old(s.view).op
    ensures ok ==> s.view == Finished(old(s.view)).(phase := OverwriteStageRenamed)
    ensures ok ==> Movable(old(s.view))
    ensures !s.fails ==> (ok <==> Movable(old(s.view)))
    ensures !Movable(old(s.view)) ==> s.view in {old(s.view), old(s.view).WithPhase(OverwriteQuarantining)}
  {
    QuarantineCanBeCarried(s.view);
    ok := s.Carry(OverwriteQuarantining, ShiftSource(HiddenDir), OverwriteQuarantined);
    if !ok { return; }
    ok := NameQuarantined(s);
    if !ok { return; }
    ok := PublishStage(s);
  }

  method NameQuarantined(s: Session) returns (ok: bool)
    requires s.Valid() && s.view.op.kind == Overwrite && s.view.phase == OverwriteQuarantined
    requires s.view.source == Some(Spot(HiddenDir, Own)) && s.view.stage == Some(STAGED)
    modifies s`view, s`trail
    ensures s.Valid() && s.view.op == old(s.view).op
    ensures ok ==> s.view == old(s.view).(source := Some(QUARANTINE), phase := OverwriteQuarantineRenamed)
    ensures !s.fails ==> ok
  {
    QuarantineCanBeNamed(s.view);
    ok := s.Carry(OverwriteQuarantineRenaming, NameSource(OldName), OverwriteQuarantineRenamed);
  }

  /** The second half of commitOverwrite: the staged document takes the path. */
  method PublishStage(s: Session) returns (ok: bool)
    requires s.Valid() && s.view.op.kind == Overwrite && s.view.phase == OverwriteQuarantineRenamed
    requires s.view.source == Some(QUARANTINE) && s.view.stage == Some(STAGED)
    modifies s`view, s`trail
    ensures s.Valid() && s.view.op == old(s.view).op
    ensures ok ==> s.view == old(s.view).(stage := Some(PATH), phase := OverwriteStageRenamed)
    ensures !s.fails ==> ok
  {
    PublishingCanBeCarried(s.view);
    ok := s.Carry(OverwriteStageMoving, ShiftStage(Home), OverwriteStageMoved);
    if !ok { return; }
    ok := NamePublished(s);
  }

  method NamePublished(s: Session) returns (ok: bool)
    requires s.Valid() && s.view.op.kind == Overwrite && s.view.phase == OverwriteStageMoved
    requires s.view.source == Some(QUARANTINE) && s.view.stage == Some(Spot(Home, StageName))
    modifies s`view, s`trail
    ensures s.Valid() && s.view.op == old(s.view).op
    ensures ok ==> s.view == old(s.view).(stage := Some(PATH), phase := OverwriteStageRenamed)
    ensures !s.fails ==> ok
  {
    PublishedCanBeCarried(s.view);
    ok := s.Carry(OverwriteStageRenaming, NameStage(Own), OverwriteStageRenamed);
    if !ok { return; }
    ok := s.Persist(OverwriteStageRenamed);
  }

  /** The same holds of a deletion. */
  method CommitDelete(s: Session) returns (ok: bool)
    requires s.Valid() && Untouched(s.view) && s.view.op.kind == Delete
    modifies s`view, s`trail
    ensures s.Valid() && s.view.op == old(s.view).op
    ensures ok ==> s.view == Finished(old(s.view)).(phase := DeleteMoved)
    ensures ok ==> Movable(old(s.view))
    ensures !s.fails ==> (ok <==> Movable(old(s.view)))
    ensures !Movable(old(s.view)) ==> s.view in {old(s.view), old(s.view).WithPhase(DeleteMoving)}
  {
    DeleteCanBeCarried(s.view);
    ok := s.Carry(DeleteMoving, ShiftSource(HiddenDir), DeleteQuarantined);
    if !ok { return; }
    DeletedCanBeNamed(s.view);
    ok := s.Carry(DeleteRenaming, NameSource(OldName), DeleteMoved);
  }

  /** A staged document that an earlier commit already moved cannot be moved again. */
  method CommitCreate(s: Session) returns (ok: bool)
    requires s.Valid() && Untouched(s.view) && s.view.op.Makes()
    modifies s`view, s`trail
    ensures s.Valid() && s.view.op == old(s.view).op
    ensures ok ==> s.view == Finished(old(s.view)).(phase := CreateRenamed)
    ensures ok ==> Movable(old(s.view))
    ensures !s.fails ==> (ok <==> Movable(old(s.view)))
  {
    CreateCanBeCarried(s.view);
    ok := s.Carry(CreateMoving, ShiftStage(Home), CreateMoved);
    if !ok { return; }
    ok := NameCreated(s);
  }

  /** The second half of commitCreate. */
  method NameCreated(s: Session) returns (ok: bool)
    requires s.Valid() && s.view.op.Makes() && s.view.phase == CreateMoved
    requires s.view.source.None? && s.view.stage == Some(Spot(Home, StageName))
    modifies s`view, s`trail
    ensures s.Valid() && s.view.op == old(s.view).op
    ensures ok ==> s.view == old(s.view).(stage := Some(PATH), phase := CreateRenamed)
    ensures !s.fails ==> ok
  {
    CreatedCanBeCarried(s.view);
    ok := s.Carry(CreateRenaming, NameStage(Own), CreateRenamed);
    if !ok { return; }
    ok := s.Persist(CreateRenamed);
  }

  /** A provider cannot move a document into the directory it is in, nor to where another
      one has its name, so a move within one directory, or past a document with the name
      of the path, fails with the document untouched. */
  method CommitMove(s: Session) returns (ok: bool)
    requires s.Valid() && Untouched(s.view) && s.view.op.kind == Move
    modifies s`view, s`trail
    ensures s.Valid() && s.view.op == old(s.view).op
    ensures ok ==> s.view == Finished(old(s.view)).(phase := MoveRenamed)
    ensures ok ==> Movable(old(s.view))
    ensures !s.fails ==> (ok <==> Movable(old(s.view)))
    ensures !Movable(old(s.view)) ==> s.view in {old(s.view), old(s.view).WithPhase(MoveMoving)}
  {
    MoveCanBeCarried(s.view);
    ok := s.Carry(MoveMoving, ShiftSource(s.view.op.DestinationDir()), MoveMoved);
    if !ok { return; }
    MovedCanBeCarried(s.view);
    ok := s.Carry(MoveRenaming, NameSource(s.view.op.Destination().name), MoveRenamed);
  }

  /** Where the last phase of a commit is persisted, reconcile agrees that it is complete. */
  lemma FinishedIsComplete(v: View, phase: Phase)
    requires Untouched(v) && phase in {OverwriteStageRenamed, DeleteMoved, MoveRenamed, CreateRenamed}
    ensures Enabled(Finished(v).(phase := phase), Announce(Committed))
  {
  }

  method CommitUntouched(s: Session) returns (ok: bool)
    requires s.Valid() && Untouched(s.view)
    modifies s`view, s`trail
    ensures s.Valid() && s.view.op == old(s.view).op
    ensures ok ==> Movable(old(s.view)) && s.view == Finished(old(s.view)).(phase := Committed)
    ensures !s.fails ==> (ok <==> Movable(old(s.view)))
  {
    ghost var v := s.view;
    match s.view.op.kind {
      case Overwrite => ok := CommitOverwrite(s);
      case Delete => ok := CommitDelete(s);
      case Move => ok := CommitMove(s);
      case _ => ok := CommitCreate(s);
    }
    if ok {
      FinishedIsComplete(v, s.view.phase);
      ok := s.Persist(Committed);
    }
  }

  /** The provider can make the moves of a commit. */
  predicate Movable(v: View) {
    (v.op.Makes() ==> v.StageIn(HiddenDir)) && v.op.Completable()
  }

  /** When a commit that meets no failure completes the operation. */
  predicate Committable(v: View) {
    && Loadable(v) && v.phase != RolledBack
    && (After(v) || ((v.op.HasSource() ==> v.source == Some(PATH)) && Movable(v)))
  }

  /** What was asked for has happened: the old document is in quarantine, and the new or the
      moved one at its place. */
  predicate Arrived(v: View) {
    match v.op.kind
    case Overwrite => v.stage == Some(Spot(Home, Own)) && v.source == Some(Spot(HiddenDir, OldName))
    case Delete => v.source == Some(Spot(HiddenDir, OldName))
    case Move =>
      v.source == Some(Spot(if v.op.sameDirectory then Home else Away, if v.op.sameName then Own else Theirs))
    case _ => v.stage == Some(Spot(Home, Own))
  }

  /** Commit completes an operation that is untouched, or confirms one that is complete;
      anything in between it refuses and leaves to rollback. */
  method HandleCommit(s: Session) returns (reply: Reply)
    requires s.Valid()
    modifies s`view, s`trail
    ensures s.Valid() && Inv(s.view) && s.view.op == old(s.view).op
    ensures !Loadable(old(s.view)) ==> reply == Refused(InvalidPreparedReceipt) && s.view == old(s.view)
    ensures Decided(old(s.view).phase) ==>
              s.view == old(s.view) && (reply.Done? <==> old(s.view).phase == Committed)
    ensures reply.Done? ==>
              && Committable(old(s.view))
              && s.view == (if After(old(s.view)) then old(s.view) else Finished(old(s.view))).(phase := Committed)
    ensures !s.fails ==> (reply.Done? <==> Committable(old(s.view)))
    // Where the documents are after a success, and when it comes.
    ensures reply.Done? ==> s.view.phase == Committed && Arrived(s.view)
    ensures !s.fails ==>
              var v := old(s.view);
              (reply.Done? <==>
                v.phase != RolledBack &&
                (|| Arrived(v)
                 || match v.op.kind
                    case Overwrite => v.source == Some(PATH) && !v.op.hiddenTaken
                    case Delete => v.source == Some(PATH) && !v.op.hiddenTaken
                    case Move =>
                      v.source == Some(PATH) && !v.op.sameDirectory && (v.op.sameName || !v.op.transitTaken)
                    case _ => v.stage == Some(STAGED)))
    ensures !s.fails && PreparedView(old(s.view)) ==>
              (reply.Done? <==>
                match old(s.view).op.kind
                case Overwrite => !old(s.view).op.hiddenTaken
                case Delete => !old(s.view).op.hiddenTaken
                case Move =>
                  !old(s.view).op.sameDirectory && (old(s.view).op.sameName || !old(s.view).op.transitTaken)
                case _ => true)
  {
    s.Good();
    if !Loadable(s.view) {
      return Refused(InvalidPreparedReceipt);
    }
    if s.view.phase == Committed {
      return Done;
    }
    ReconcileWhenLoadable(s.view);
    var ok, answer := ReconcileLoaded(s);
    s.Good();
    if answer == AnsweredCommitted {
      return if ok then Done else Refused(MutationIndeterminate);
    }
    if answer == AnsweredRolledBack {
      return Refused(InvalidPreparedReceipt);
    }
    if s.view.op.HasSource() && s.view.source != Some(PATH) {
      return Refused(StaleTarget);
    }
    ok := CommitUntouched(s);
    s.Good();
    reply := if ok then Done else Refused(MutationIndeterminate);
  }

  lemma ReconcileWhenLoadable(v: View)
    requires Inv(v) && Loadable(v)
    ensures v.phase != RolledBack ==> Reconciled(v) == if After(v) then AnsweredCommitted else AnsweredNotCommitted
  {
    if v.phase != RolledBack {
      ReconcileIsExact(v);
    }
  }

  // ---------------------------------------------------------------- rollback

  /** What restoring the original needs: it is known where it is, and its path is free. */
  predicate Restorable(v: View) {
    && !Decided(v.phase) && v.op.kind in {Overwrite, Delete}
    && v.stage == (if v.op.kind == Overwrite then Some(STAGED) else None)
    && v.source.Some?
    && v.source.value in {Spot(HiddenDir, Own), QUARANTINE, Spot(Home, OldName)}
    && (v.op.kind == Delete ==> v.source == Some(Spot(HiddenDir, Own)))
  }

  /** The original is back in its directory, under its own or its quarantine name. */
  predicate Returned(v: View) {
    && !Decided(v.phase) && v.op.kind in {Overwrite, Delete}
    && v.stage == (if v.op.kind == Overwrite then Some(STAGED) else None)
    && (v.source == Some(PATH) || (v.op.kind == Overwrite && v.source == Some(Spot(Home, OldName))))
  }

  lemma ReturnCanBeCarried(v: View)
    requires Restorable(v) && v.SourceIn(HiddenDir)
    ensures v.op.kind == Overwrite ==> Carriable(v, RollbackOldMoving, ShiftSource(Home), RollbackOldMoved)
    ensures v.op.kind == Delete ==> Carriable(v, RollbackDeleteMoving, ShiftSource(Home), RollbackDeleteMoved)
    ensures Possible(v, ShiftSource(Home)) && Returned(Moved(v, ShiftSource(Home)))
  {
  }

  lemma RenamingCanBeCarried(v: View)
    requires Returned(v)
    ensures Possible(v, NameSource(Own))
    ensures Carriable(v, RollbackOldRenaming, NameSource(Own), RollbackOldRenamed)
  {
  }

  /** The original goes from the hidden directory, or from under its quarantine name, back
      to its own path. */
  method RestoreQuarantined(s: Session, moving: Phase, movedTo: Phase) returns (ok: bool)
    requires s.Valid() && Restorable(s.view)
    requires (moving, movedTo) == if s.view.op.kind == Overwrite then (RollbackOldMoving, RollbackOldMoved)
                                  else (RollbackDeleteMoving, RollbackDeleteMoved)
    modifies s`view, s`trail
    ensures s.Valid() && s.view.op == old(s.view).op
    ensures ok ==> s.view == old(s.view).(source := Some(PATH), phase := RollbackOldRenamed)
    ensures !s.fails ==> ok
  {
    if s.view.SourceIn(HiddenDir) {
      ReturnCanBeCarried(s.view);
      ok := s.Carry(moving, ShiftSource(Home), movedTo);
      if !ok { return; }
    }
    ok := NameRestored(s);
  }

  /** The second half of restoreQuarantined. */
  method NameRestored(s: Session) returns (ok: bool)
    requires s.Valid() && Returned(s.view)
    modifies s`view, s`trail
    ensures s.Valid() && s.view.op == old(s.view).op
    ensures ok ==> s.view == old(s.view).(source := Some(PATH), phase := RollbackOldRenamed)
    ensures !s.fails ==> ok
  {
    RenamingCanBeCarried(s.view);
    ok := s.Carry(RollbackOldRenaming, NameSource(Own), RollbackOldRenamed);
  }

  method RollbackOverwrite(s: Session) returns (ok: bool)
    requires s.Valid() && Inv(s.view) && s.view.op.kind == Overwrite && !Decided(s.view.phase) && !After(s.view)
    modifies s`view, s`trail
    ensures s.Valid() && s.view.op == old(s.view).op
    ensures ok ==> !Decided(s.view.phase) && s.view.(phase := RolledBack) == RolledBackFrom(old(s.view))
    ensures !s.fails ==> ok
  {
    if s.view.source == Some(PATH) {
      return true;
    }
    if s.view.StageIn(Home) {
      ok := s.Carry(RollbackStageMoving, ShiftStage(HiddenDir), RollbackStageMoved);
      if !ok { return; }
    }
    ok := RestoreQuarantined(s, RollbackOldMoving, RollbackOldMoved);
  }

  method RollbackDelete(s: Session) returns (ok: bool)
    requires s.Valid() && Inv(s.view) && s.view.op.kind == Delete && !Decided(s.view.phase) && !After(s.view)
    modifies s`view, s`trail
    ensures s.Valid() && s.view.op == old(s.view).op
    ensures ok ==> !Decided(s.view.phase) && s.view.(phase := RolledBack) == RolledBackFrom(old(s.view))
    ensures !s.fails ==> ok
  {
    if s.view.source == Some(PATH) {
      return true;
    }
    ok := RestoreQuarantined(s, RollbackDeleteMoving, RollbackDeleteMoved);
  }

  /** Rollback of a move is not announced: the document goes straight back. */
  method RollbackMove(s: Session) returns (ok: bool)
    requires s.Valid() && Inv(s.view) && s.view.op.kind == Move && !Decided(s.view.phase) && !After(s.view)
    modifies s`view, s`trail
    ensures s.Valid() && s.view.op == old(s.view).op
    ensures ok ==> !Decided(s.view.phase) && s.view.(phase := RolledBack) == RolledBackFrom(old(s.view))
    ensures !s.fails ==> ok
  {
    if s.view.source == Some(PATH) {
      return true;
    }
    ok := s.Perform(ShiftSource(Home));
    if !ok { return; }
    ok := s.Perform(NameSource(Own));
  }

  /** Rollback of a creation deletes the staged document wherever it is. */
  method RollbackCreate(s: Session) returns (ok: bool)
    requires s.Valid() && Inv(s.view) && s.view.op.Makes() && !Decided(s.view.phase) && !After(s.view)
    requires s.view.stage.Some?
    modifies s`view, s`trail
    ensures s.Valid() && s.view.op == old(s.view).op
    ensures ok ==> !Decided(s.view.phase) && s.view.(phase := RolledBack) == RolledBackFrom(old(s.view))
    ensures !s.fails ==> ok
  {
    ok := s.Take(DeleteStage, s.view.(stage := None));
  }

  /** Where a rollback has put everything back, the outcome may be recorded. */
  lemma RolledBackIsRecordable(v: View, w: View)
    requires Inv(v) && !After(v) && !Decided(w.phase) && w.(phase := RolledBack) == RolledBackFrom(v)
    ensures Enabled(w, Announce(RolledBack)) && w.WithPhase(RolledBack) == RolledBackFrom(v)
  {
  }

  /** Put everything back and record it. */
  method RollbackIncomplete(s: Session) returns (ok: bool)
    requires s.Valid() && Inv(s.view) && Loadable(s.view) && !Decided(s.view.phase) && !After(s.view)
    modifies s`view, s`trail
    ensures s.Valid() && s.view.op == old(s.view).op
    ensures ok ==> s.view == RolledBackFrom(old(s.view))
    ensures !s.fails ==> ok
  {
    ghost var v := s.view;
    match s.view.op.kind {
      case Overwrite => ok := RollbackOverwrite(s);
      case Delete => ok := RollbackDelete(s);
      case Move => ok := RollbackMove(s);
      case _ => ok := RollbackCreate(s);
    }
    if ok {
      RolledBackIsRecordable(v, s.view);
      ok := s.Persist(RolledBack);
    }
  }

  /** From every stop point of a commit or of an earlier rollback that `load` accepts,
      rollback either puts everything back and records it, or refuses with
      `already_committed`, and it refuses so exactly when the operation is complete. */
  method HandleRollback(s: Session) returns (reply: Reply)
    requires s.Valid()
    modifies s`view, s`trail
    ensures s.Valid() && Inv(s.view) && s.view.op == old(s.view).op
    ensures !Loadable(old(s.view)) ==> reply == Refused(InvalidPreparedReceipt) && s.view == old(s.view)
    ensures old(s.view).phase == RolledBack ==> reply.Done? && s.view == old(s.view)
    ensures reply.Done? && old(s.view).phase != RolledBack ==> s.view == RolledBackFrom(old(s.view)) && Before(s.view)
    ensures reply == Refused(AlreadyCommitted) ==> After(s.view) && s.view == old(s.view).(phase := Committed)
    ensures Loadable(old(s.view)) && !s.fails && old(s.view).phase != RolledBack ==>
              reply == if After(old(s.view)) then Refused(AlreadyCommitted) else Done
    // Where the documents are after a success, and when it comes.
    ensures reply.Done? ==>
              && s.view.phase == RolledBack
              && match s.view.op.kind
                 case Overwrite => s.view.source == Some(Spot(Home, Own)) && !s.view.StageIn(Home)
                 case Delete => s.view.source == Some(Spot(Home, Own))
                 case Move => s.view.source == Some(Spot(Home, Own))
                 case _ => s.view.stage.None?
    ensures reply == Refused(AlreadyCommitted) ==> Arrived(old(s.view))
    ensures !s.fails && (old(s.view).op.kind in {Create, MakeDirectory} ==> old(s.view).stage.Some?) ==>
              (reply.Done? <==> !Arrived(old(s.view)))
  {
    s.Good();
    if !Loadable(s.view) {
      return Refused(InvalidPreparedReceipt);
    }
    if s.view.phase == RolledBack {
      return Done;
    }
    ReconcileWhenLoadable(s.view);
    RolledBackIsBefore(s.view);
    var ok, answer := ReconcileLoaded(s);
    s.Good();
    if !ok {
      return Refused(MutationIndeterminate);
    }
    if s.view.phase == Committed {
      return Refused(AlreadyCommitted);
    }
    ok := RollbackIncomplete(s);
    s.Good();
    reply := if ok then Done else Refused(MutationIndeterminate);
  }
}
