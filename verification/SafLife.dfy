/** The whole life of an Android operation: calls that are stopped anywhere, and cleanups
    of a prepared or decided operation that are stopped anywhere as well. Cleanup deletes
    the slot `a` before the slot `b`. Records of odd generations are in `a`, so after a
    decision of an odd generation the next call may load the record it replaced. */
module SafLife {
  import opened Volumes
  import opened SafProtocol
  import Cleanup = SafCleanup

  /** An operation, and the generation of its record. */
  datatype Moment = Moment(view: View, generation: nat)

  /** A persist writes the next generation. */
  function Advanced(m: Moment, e: Effect): Moment
    requires Enabled(m.view, e)
  {
    Moment(Apply(m.view, e), m.generation + if e.Announce? then 1 else 0)
  }

  ghost predicate Steps(trail: seq<Moment>) {
    forall i | 0 <= i < |trail| - 1 :: StepTo(trail[i], trail[i + 1])
  }

  ghost predicate StepTo(m: Moment, n: Moment) {
    exists e :: Enabled(m.view, e) && n == Advanced(m, e)
  }

  /** A call: `load` accepts the record, and then durable effects follow. */
  ghost predicate Called(m: Moment, n: Moment) {
    Loadable(m.view) && exists trail :: CallTrail(trail, m, n)
  }

  ghost predicate CallTrail(trail: seq<Moment>, m: Moment, n: Moment) {
    trail != [] && trail[0] == m && trail[|trail| - 1] == n && Steps(trail)
  }

  /** `u` carries the record that the decision of `v` replaced. */
  predicate Replaced(u: View, v: View) {
    && Inv(u) && !Decided(u.phase) && Decided(v.phase)
    && Inv(u.WithPhase(v.phase)) && Cleanup.SameVisible(u, v)
  }

  /** `w` is what cleanup left of `u`, with the same record. */
  predicate Left(u: View, w: View) {
    Cleanup.SameVisible(u, w) && w.phase == u.phase && w.moved == u.moved
  }

  /** A cleanup of a prepared or decided operation, stopped anywhere: whatever is left of
      the hidden documents with the same record, or nothing of them with the record that
      the decision replaced. */
  ghost predicate Swept(m: Moment, n: Moment) {
    && m.view.phase in {Prepared, Committed, RolledBack} && Cleanup.SameVisible(m.view, n.view)
    && ((n.generation == m.generation && Left(m.view, n.view)) || CameBack(m, n))
  }

  ghost predicate CameBack(m: Moment, n: Moment) {
    && m.generation % 2 == 1 && n.generation + 1 == m.generation
    && !n.view.SourceIn(HiddenDir) && !n.view.StageIn(HiddenDir)
    && exists u :: Replaced(u, m.view) && Left(u, n.view)
  }

  ghost predicate Follows(m: Moment, n: Moment) {
    Called(m, n) || Swept(m, n)
  }

  ghost predicate Life(life: seq<Moment>) {
    && |life| > 0 && PreparedView(life[0].view) && life[0].generation == 1
    && forall i | 0 <= i < |life| - 1 :: Follows(life[i], life[i + 1])
  }

  /** The user sees the new tree. */
  predicate Delivered(v: View) {
    match v.op.kind
    case Overwrite => v.stage == Some(PATH) && !v.SourceIn(Home)
    case Delete => !v.SourceIn(Home)
    case Move => v.source == Some(v.op.Destination())
    case _ => v.stage == Some(PATH)
  }

  /** A completed overwrite or deletion whose original was cleaned up. */
  predicate Gone(v: View) {
    && v.source.None? && v.phase !in {Prepared, RolledBack, RollbackStageMoving}
    && ((v.op.kind == Overwrite && v.stage == Some(PATH)) || (v.op.kind == Delete && v.stage.None?))
  }

  /** An overwrite that left the path alone and whose staged document was cleaned up. */
  predicate Unstaged(v: View) {
    && v.op.kind == Overwrite && v.source == Some(PATH) && v.stage.None?
    && (v.phase == RolledBack || !Terminal(v.phase))
  }

  predicate Good(v: View) {
    Inv(v) || Gone(v) || Unstaged(v)
  }

  predicate Complete(v: View) {
    (Inv(v) && After(v)) || Gone(v)
  }

  lemma GoneStays(v: View, e: Effect)
    requires Gone(v) && Enabled(v, e)
    ensures Gone(Apply(v, e))
  {
    assert Reconciled(v) == AnsweredIndeterminate;
  }

  lemma StepAt(trail: seq<Moment>, i: nat) returns (e: Effect)
    requires Steps(trail) && i < |trail| - 1
    ensures Enabled(trail[i].view, e) && trail[i + 1] == Advanced(trail[i], e)
  {
    assert StepTo(trail[i], trail[i + 1]);
    e :| Enabled(trail[i].view, e) && trail[i + 1] == Advanced(trail[i], e);
  }

  /** `v` is no worse than `u`, where the call began. */
  predicate Keeps(u: View, v: View) {
    && v.op == u.op && Good(v) && (Complete(u) ==> Complete(v))
    && (Inv(u) ==> Inv(v)) && (Gone(u) ==> Gone(v)) && (Unstaged(u) ==> v == u)
  }

  lemma EffectKeeps(u: View, v: View, e: Effect)
    requires Good(u) && Loadable(u) && Keeps(u, v) && Enabled(v, e)
    ensures Keeps(u, Apply(v, e))
  {
    if Gone(u) {
      GoneStays(v, e);
    } else if Inv(u) {
      Inductive(v, e);
      if After(v) {
        AfterStays(v, e);
      }
    }
  }

  /** Within a call no state is left that is worse than the first. */
  lemma {:induction false} CallStays(trail: seq<Moment>, i: nat)
    requires i < |trail| && Steps(trail) && Good(trail[0].view) && Loadable(trail[0].view)
    ensures Keeps(trail[0].view, trail[i].view)
  {
    if i > 0 {
      CallStays(trail, i - 1);
      var e := StepAt(trail, i - 1);
      EffectKeeps(trail[0].view, trail[i - 1].view, e);
    }
  }

  lemma LeftOfGood(u: View, w: View)
    requires Inv(u) && (After(u) || Before(u)) && Left(u, w)
    requires u.phase == Prepared || Decided(u.phase) || Inv(u.WithPhase(Committed)) || Inv(u.WithPhase(RolledBack))
    ensures Good(w) && (After(u) ==> Complete(w))
  {
  }

  lemma LeftStays(v: View, w: View)
    requires Good(v) && Left(v, w) && v.phase in {Prepared, Committed, RolledBack}
    ensures Good(w) && (Complete(v) ==> Complete(w))
  {
    if Inv(v) {
      LeftOfGood(v, w);
    }
  }

  lemma ReplacedStays(u: View, v: View, w: View)
    requires Good(v) && Replaced(u, v) && Left(u, w)
    ensures Good(w) && (Complete(v) ==> Complete(w))
  {
    LeftOfGood(u, w);
    if Complete(v) {
      assert v.phase != RolledBack;
    }
  }

  lemma SweptStays(m: Moment, n: Moment)
    requires Good(m.view) && Swept(m, n)
    ensures Good(n.view) && n.view.op == m.view.op && (Complete(m.view) ==> Complete(n.view))
  {
    if Left(m.view, n.view) {
      LeftStays(m.view, n.view);
    } else {
      var u :| Replaced(u, m.view) && Left(u, n.view);
      ReplacedStays(u, m.view, n.view);
    }
  }

  lemma FollowsStays(m: Moment, n: Moment)
    requires Good(m.view) && Follows(m, n)
    ensures Good(n.view) && n.view.op == m.view.op && (Complete(m.view) ==> Complete(n.view))
  {
    if Called(m, n) {
      var trail :| CallTrail(trail, m, n);
      CallStays(trail, |trail| - 1);
    } else {
      SweptStays(m, n);
    }
  }

  /** Through all calls and all permitted cleanups, however they are stopped: a prepared or
      rolled back record means the old tree, a committed one the new tree, and the original
      is nowhere only once the new tree is there. */
  lemma {:induction false} LifeIsSafe(life: seq<Moment>, i: nat)
    requires Life(life) && i < |life|
    ensures Good(life[i].view) && life[i].view.op == life[0].view.op
    ensures life[i].view.phase in {Prepared, RolledBack} ==> Before(life[i].view)
    ensures life[i].view.phase == Committed ==> Delivered(life[i].view) && Complete(life[i].view)
    ensures life[i].view.op.HasSource() && life[i].view.source.None? ==> Delivered(life[i].view)
  {
    if i > 0 {
      LifeIsSafe(life, i - 1);
      assert Follows(life[i - 1], life[i - 1 + 1]);
      FollowsStays(life[i - 1], life[i]);
    }
  }

  /** Whatever follows a commit, the record before the decision included, the new tree
      stays. */
  lemma {:induction false} CommitIsFinal(life: seq<Moment>, i: nat, j: nat)
    requires Life(life) && i <= j < |life| && life[i].view.phase == Committed
    ensures Complete(life[j].view) && Delivered(life[j].view)
  {
    if i < j {
      CommitIsFinal(life, i, j - 1);
      CompleteIsDelivered(life[j - 1].view);
      assert Follows(life[j - 1], life[j - 1 + 1]);
      FollowsStays(life[j - 1], life[j]);
    } else {
      LifeIsSafe(life, j);
    }
    CompleteIsDelivered(life[j].view);
  }

  lemma CompleteIsDelivered(v: View)
    requires Complete(v)
    ensures Good(v) && Delivered(v)
  {
  }

  /** Every moment of a cleanup that finds the record `d.Loaded()`, in the slot of its
      generation, and in the other slot, if there is something, the record the decision
      replaced, is a `Swept` of it. */
  lemma CleanupIsSwept(d: Cleanup.Disk, e: Cleanup.Disk, u: View, generation: nat)
    requires d.Recorded() && e.Recorded() && Cleanup.SweptFrom(d, e)
    requires d.Loaded().phase in {Prepared, Committed, RolledBack}
    requires d.a.Some? && d.b.Some? ==>
               && Replaced(u, d.Loaded()) && d.aIsNewer == (generation % 2 == 1)
               && (if d.aIsNewer then d.b else d.a) == Some(Cleanup.Record(u.phase, u.moved))
    ensures e.Current() == d.Current() ==> Swept(Moment(d.Loaded(), generation), Moment(e.Loaded(), generation))
    ensures e.Current() != d.Current() ==>
              generation > 0 && Swept(Moment(d.Loaded(), generation), Moment(e.Loaded(), generation - 1))
  {
    if e.Current() != d.Current() {
      assert d.aIsNewer && e.Current() == Cleanup.Record(u.phase, u.moved);
      assert Left(u, e.Loaded());
    }
  }

  /** What a decision leaves in the other slot is the record it replaced. */
  lemma DecisionIsReplaced(run: seq<View>, i: nat)
    requires Run(run) && i < |run| && Decided(run[i].phase)
    ensures i > 0 && Replaced(run[i - 1], run[i])
  {
    DecisionReplaces(run, i);
    WholeRun(run, i);
    WholeRun(run, i - 1);
  }

  /** A rollback of these can be followed by a commit. */
  predicate Undoable(op: Operation) {
    op.kind in {Delete, Move} && op.Completable()
  }

  /** The old tree is there, and whatever call comes next leaves it. */
  predicate Restored(v: View) {
    && Good(v) && Before(v) && v.phase != Committed
    && (v.phase == RolledBack || !Loadable(v) || (v.op.kind in {Delete, Move} && !v.op.Completable()))
  }

  /** A call is accepted and gets nowhere. */
  predicate Steady(v: View) {
    Restored(v) && Loadable(v)
  }

  lemma SteadyStays(v: View, e: Effect)
    requires Steady(v) && Enabled(v, e)
    ensures Steady(Apply(v, e))
  {
    BlockedStays(v, e);
    Inductive(v, e);
  }

  lemma {:induction false} SteadyCallStays(trail: seq<Moment>, i: nat)
    requires i < |trail| && Steps(trail) && Steady(trail[0].view)
    ensures Steady(trail[i].view)
  {
    if i > 0 {
      SteadyCallStays(trail, i - 1);
      var e := StepAt(trail, i - 1);
      SteadyStays(trail[i - 1].view, e);
    }
  }

  lemma RestoredSweptStays(m: Moment, n: Moment)
    requires Restored(m.view) && Swept(m, n)
    requires !Undoable(m.view.op)
    ensures Restored(n.view)
  {
    SweptStays(m, n);
    if !Left(m.view, n.view) {
      var u :| Replaced(u, m.view) && Left(u, n.view);
      assert Before(u);
    }
  }

  lemma {:induction false} RollbackIsFinal(life: seq<Moment>, i: nat, j: nat)
    requires Life(life) && i <= j < |life| && life[i].view.phase == RolledBack && !Undoable(life[0].view.op)
    ensures Restored(life[j].view) && life[j].view.op == life[0].view.op
  {
    LifeIsSafe(life, j);
    if i < j {
      RollbackIsFinal(life, i, j - 1);
      var m, n := life[j - 1], life[j - 1 + 1];
      assert Follows(m, n);
      if Called(m, n) {
        var trail :| CallTrail(trail, m, n);
        CallStays(trail, |trail| - 1);
        SteadyCallStays(trail, |trail| - 1);
      } else {
        RestoredSweptStays(m, n);
      }
    }
  }

  /** A rolled back operation that changes the tree after all. */
  ghost predicate UndoneIn(life: seq<Moment>, v: View) {
    && Life(life) && life[0].view == v
    && exists i, j | 0 <= i < j < |life| :: life[i].view.phase == RolledBack && !Before(life[j].view)
  }

  /** Once rolled back means the old tree for good, exactly for the operations that are not
      a deletion or a move that can be carried out. */
  lemma RollbackIsFinalExactlyWhen(v: View)
    requires PreparedView(v)
    ensures (exists life :: UndoneIn(life, v)) <==> Undoable(v.op)
  {
    if Undoable(v.op) {
      var life := UndoneLife(v);
      assert UndoneIn(life, v);
    }
    forall life: seq<Moment> | UndoneIn(life, v)
      ensures Undoable(v.op)
    {
      var i: nat, j: nat :| i < j < |life| && life[i].view.phase == RolledBack && !Before(life[j].view);
      if !Undoable(v.op) {
        RollbackIsFinal(life, i, j);
      }
    }
  }

  /** A rollback is not as final as a commit: a deletion is announced, rolled back and
      cleaned up; the cleanup stops after it deleted the slot of the third record, and the
      next commit finds the second one and deletes the file. */
  lemma RolledBackCanBeCommitted() returns (life: seq<Moment>)
    ensures Life(life) && |life| == 4
    ensures life[1].view.phase == RolledBack && life[3].view.phase == Committed && Delivered(life[3].view)
  {
    var v := View(Operation(Delete, false, false, false, false), Prepared, Some(PATH), None, false);
    life := CommittedLife(v);
  }

  lemma CommittedLife(v: View) returns (life: seq<Moment>)
    requires PreparedView(v) && v.op.kind == Delete && v.op.Completable()
    ensures Life(life) && |life| == 4
    ensures life[1].view.phase == RolledBack && life[3].view.phase == Committed && Delivered(life[3].view)
  {
    RolledBackAgain(v);
    var committed := CommittedAfter(Announced(v));
    life := [Moment(v, 1), Moment(v.WithPhase(RolledBack), 3), Announced(v), committed];
    LifeOfFour(life);
  }

  lemma LifeOfFour(life: seq<Moment>)
    requires |life| == 4 && PreparedView(life[0].view) && life[0].generation == 1
    requires Follows(life[0], life[1]) && Follows(life[1], life[2]) && Follows(life[2], life[3])
    ensures Life(life)
  {
  }

  /** A deletion that was announced, rolled back, and left by its cleanup with the record
      of the announcement. */
  lemma RolledBackAgain(v: View)
    requires PreparedView(v) && v.op.kind in {Delete, Move}
    ensures Called(Moment(v, 1), Moment(v.WithPhase(RolledBack), 3))
    ensures Swept(Moment(v.WithPhase(RolledBack), 3), Announced(v))
  {
    var m, u := Moment(v, 1), Announced(v);
    AnnouncedMay(v);
    assert CallTrail([m], m, m);
    Extended([m], m, m, Announce(u.view.phase));
    Extended([m] + [u], m, u, Announce(RolledBack));
  }

  lemma AnnouncedMay(v: View)
    requires PreparedView(v) && v.op.kind in {Delete, Move}
    ensures Enabled(v, Announce(Announced(v).view.phase)) && Enabled(Announced(v).view, Announce(RolledBack))
    ensures Replaced(Announced(v).view, v.WithPhase(RolledBack)) && Left(Announced(v).view, Announced(v).view)
  {
  }

  /** The first step of a commit has been announced, in the second record. */
  function Announced(v: View): Moment {
    Moment(v.WithPhase(if v.op.kind == Delete then DeleteMoving else MoveMoving), 2)
  }

  /** The file leaves its path although the operation had been rolled back. */
  lemma UndoneLife(v: View) returns (life: seq<Moment>)
    requires PreparedView(v) && Undoable(v.op)
    ensures UndoneIn(life, v)
  {
    RolledBackAgain(v);
    var u, to := Announced(v), if v.op.kind == Delete then HiddenDir else v.op.DestinationDir();
    assert CallTrail([u], u, u);
    Extended([u], u, u, ShiftSource(to));
    life := [Moment(v, 1), Moment(v.WithPhase(RolledBack), 3), u,
             u.(view := u.view.(source := Some(Spot(to, Own))))];
    assert Called(life[2], life[3]);
    LifeOfFour(life);
    assert life[1].view.phase == RolledBack && !Before(life[3].view);
  }

  lemma Extended(trail: seq<Moment>, m: Moment, n: Moment, e: Effect)
    requires CallTrail(trail, m, n) && Enabled(n.view, e)
    ensures CallTrail(trail + [Advanced(n, e)], m, Advanced(n, e))
  {
    var longer := trail + [Advanced(n, e)];
    forall i | 0 <= i < |longer| - 1
      ensures StepTo(longer[i], longer[i + 1])
    {
      if i < |trail| - 1 {
        assert StepTo(trail[i], trail[i + 1]);
      }
    }
  }

  /** The rest of a commit that announced the deletion and was stopped. */
  lemma CommittedAfter(u: Moment) returns (w: Moment)
    requires Inv(u.view) && u.view.op.kind == Delete && u.view.op.Completable()
    requires u.view.phase == DeleteMoving && u.view.source == Some(PATH)
    ensures Called(u, w) && w.view == u.view.(source := Some(QUARANTINE), phase := Committed)
  {
    assert CallTrail([u], u, u);
    Extended([u], u, u, ShiftSource(HiddenDir));
    var hidden := Advanced(u, ShiftSource(HiddenDir));
    var trail, named := NamedTrail([u, hidden], u, hidden);
    w := Concluded(trail, u, named);
  }

  lemma NamedTrail(trail: seq<Moment>, u: Moment, hidden: Moment) returns (longer: seq<Moment>, named: Moment)
    requires CallTrail(trail, u, hidden) && hidden.view.op.kind == Delete && !hidden.view.op.Taken(QUARANTINE)
    requires hidden.view.phase == DeleteMoving && hidden.view.source == Some(Spot(HiddenDir, Own))
    requires hidden.view.stage.None?
    ensures CallTrail(longer, u, named)
    ensures named.view == hidden.view.(source := Some(QUARANTINE), phase := DeleteRenaming)
  {
    Extended(trail, u, hidden, Announce(DeleteQuarantined));
    var done := Advanced(hidden, Announce(DeleteQuarantined));
    Extended(trail + [done], u, done, Announce(DeleteRenaming));
    var renaming := Advanced(done, Announce(DeleteRenaming));
    Extended(trail + [done] + [renaming], u, renaming, NameSource(OldName));
    named := Advanced(renaming, NameSource(OldName));
    longer := trail + [done] + [renaming] + [named];
  }

  lemma Concluded(trail: seq<Moment>, u: Moment, named: Moment) returns (w: Moment)
    requires Loadable(u.view) && CallTrail(trail, u, named)
    requires named.view.op.kind == Delete && named.view.source == Some(QUARANTINE) && named.view.phase == DeleteRenaming
    ensures Called(u, w) && w.view == named.view.(phase := Committed)
  {
    Extended(trail, u, named, Announce(DeleteMoved));
    var moved := Advanced(named, Announce(DeleteMoved));
    Extended(trail + [moved], u, moved, Announce(Committed));
    w := Advanced(moved, Announce(Committed));
  }
}
