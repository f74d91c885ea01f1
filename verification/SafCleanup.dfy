/** The Android cleanup, one provider call at a time: hidden documents first, the two slots
    of the record last. It does not ask for the outcome before it deletes. */
module SafCleanup {
  import opened Volumes
  import opened SafProtocol

  datatype Error = MutationIndeterminate

  datatype Reply = Done | Refused(error: Error)

  datatype Record = Record(phase: Phase, moved: bool)

  /** The documents of an operation, its backup, and what its two record slots hold.
      `aIsNewer` tells which slot is the current record while both are there. */
  datatype Disk = Disk(view: View, backup: bool, a: Option<Record>, b: Option<Record>, aIsNewer: bool) {
    predicate Recorded() {
      a.Some? || b.Some?
    }

    /** The record load finds. */
    function Current(): Record
      requires Recorded()
    {
      if a.Some? && (b.None? || aIsNewer) then a.value else b.value
    }

    /** The operation as the next call finds it. */
    function Loaded(): View
      requires Recorded()
    {
      view.(phase := Current().phase, moved := Current().moved)
    }

    /** The same slots, or fewer of them. */
    predicate SlotsFrom(d: Disk) {
      a in {d.a, None} && b in {d.b, None} && aIsNewer == d.aIsNewer
    }

    /** Nothing of the operation is left in the hidden directory, the record aside. */
    predicate Swept() {
      !view.SourceIn(HiddenDir) && !view.StageIn(HiddenDir) && !backup
    }
  }

  /** What the user sees is as before, and a hidden document is as before or gone; the
      original may have been given its quarantine name. */
  predicate SameVisible(v: View, w: View) {
    && v.op == w.op
    && w.source in (if v.SourceIn(HiddenDir) then {v.source, Some(QUARANTINE), None} else {v.source})
    && w.stage in (if v.StageIn(HiddenDir) then {v.stage, None} else {v.stage})
  }

  /** Cleanup deletes a quarantined original whatever the outcome is. */
  function CleanedUp(v: View): View {
    v.(source := if v.op.kind in {Overwrite, Delete} && v.SourceIn(HiddenDir) then None else v.source,
       stage := if v.stage == Some(STAGED) then None else v.stage)
  }

  /** What is in the hidden directory has the names cleanup looks for. */
  predicate Sweepable(v: View) {
    && (v.StageIn(HiddenDir) ==> v.stage == Some(STAGED))
    && (v.SourceIn(HiddenDir) ==>
          v.op.kind in {Overwrite, Delete} && v.source in {Some(Spot(HiddenDir, Own)), Some(QUARANTINE)})
  }

  lemma ReachableIsSweepable(v: View)
    requires Inv(v)
    ensures Sweepable(v)
  {
  }

  /** A moment of a cleanup that started from `d`: nothing visible is different, no slot is
      gone while something is left to sweep, nor `b` before `a`, and a cleanup can start from
      here. */
  predicate SweptFrom(d: Disk, e: Disk) {
    && SameVisible(d.view, e.view) && Sweepable(e.view) && e.SlotsFrom(d)
    && (e.Recorded() || e.Swept()) && ((e.a, e.b) == (d.a, d.b) || e.Swept()) && (e.b != d.b ==> e.a.None?)
  }

  ghost predicate Sweeping(trail: seq<Disk>, d: Disk) {
    forall i | 0 <= i < |trail| :: SweptFrom(d, trail[i])
  }

  class Session {
    var disk: Disk

    /** Whether a provider call can fail. */
    const fails: bool

    /** Every state that has been durable, the present one last. */
    ghost var trail: seq<Disk>

    ghost predicate Valid()
      reads this
    {
      trail != [] && trail[|trail| - 1] == disk
    }

    constructor (disk: Disk, fails: bool)
      ensures Valid() && this.disk == disk && trail == [disk] && this.fails == fails
    {
      this.disk, this.fails := disk, fails;
      trail := [disk];
    }

    /** One provider call, which may fail before or after it had its effect. */
    method Take(next: Disk) returns (ok: bool)
      requires Valid()
      modifies this`disk, this`trail
      ensures Valid() && disk in {old(disk), next}
      ensures trail in {old(trail), old(trail) + [next]}
      ensures ok ==> disk == next
      ensures !fails ==> ok
    {
      ok := true;
      if fails {
        ok := *;
        if !ok {
          return;
        }
      }
      disk := next;
      trail := trail + [next];
      if fails {
        ok := *;
      }
    }

    /** One call of a cleanup that started from `d`. */
    method Sweep(next: Disk, ghost d: Disk) returns (ok: bool)
      requires Valid() && Sweeping(trail, d) && SweptFrom(d, next)
      modifies this`disk, this`trail
      ensures Valid() && Sweeping(trail, d) && disk in {old(disk), next}
      ensures ok ==> disk == next
      ensures !fails ==> ok
    {
      ok := Take(next);
    }
  }

  /** The staged document and the backup. */
  method DeleteByName(s: Session, ghost d: Disk) returns (ok: bool)
    requires s.Valid() && s.disk.Recorded() && Sweeping(s.trail, d) && Sweepable(s.disk.view)
    modifies s`disk, s`trail
    ensures s.Valid() && s.disk.Recorded() && Sweeping(s.trail, d)
    ensures s.disk.a == old(s.disk).a && s.disk.b == old(s.disk).b && s.disk.aIsNewer == old(s.disk).aIsNewer
    ensures s.disk.view in {old(s.disk).view, old(s.disk).view.(stage := None)}
    ensures ok ==> s.disk == old(s.disk).(view := s.disk.view, backup := false) && !s.disk.view.StageIn(HiddenDir)
    ensures s.disk.view.stage == old(s.disk).view.stage || old(s.disk).view.stage == Some(STAGED)
    ensures !s.fails ==> ok
  {
    ok := true;
    if s.disk.view.stage == Some(STAGED) {
      ok := s.Sweep(s.disk.(view := s.disk.view.(stage := None)), d);
      if !ok { return; }
    }
    if s.disk.backup {
      ok := s.Sweep(s.disk.(backup := false), d);
    }
  }

  /** The quarantined original: outside a committed operation it is given its quarantine
      name first, and then it is deleted. */
  method DeleteQuarantined(s: Session, ghost d: Disk) returns (ok: bool)
    requires s.Valid() && s.disk.Recorded() && Sweeping(s.trail, d)
    requires s.disk.view.SourceIn(HiddenDir) && Sweepable(s.disk.view)
    modifies s`disk, s`trail
    ensures s.Valid() && s.disk.Recorded() && Sweeping(s.trail, d)
    ensures s.disk == old(s.disk).(view := old(s.disk).view.(source := s.disk.view.source))
    ensures ok ==> s.disk.view.source.None?
    ensures !s.fails ==> ok
  {
    if s.disk.Current().phase != Committed && s.disk.view.source != Some(QUARANTINE) {
      ok := s.Sweep(s.disk.(view := s.disk.view.(source := Some(QUARANTINE))), d);
      if !ok { return; }
    }
    ok := s.Sweep(s.disk.(view := s.disk.view.(source := None)), d);
  }

  /** Both slots, once everything else is gone. */
  method DeleteSlots(s: Session, ghost d: Disk) returns (ok: bool)
    requires s.Valid() && s.disk.Swept() && Sweeping(s.trail, d)
    modifies s`disk, s`trail
    ensures s.Valid() && Sweeping(s.trail, d) && s.disk.view == old(s.disk).view && s.disk.Swept()
    ensures ok ==> !s.disk.Recorded()
    ensures !s.fails ==> ok
  {
    ok := true;
    if s.disk.a.Some? {
      ok := s.Sweep(s.disk.(a := None), d);
      if !ok { return; }
    }
    if s.disk.b.Some? {
      ok := s.Sweep(s.disk.(b := None), d);
    }
  }

  /** Cleanup never changes what is visible, and never loses the record before the rest; it
      can be repeated from wherever it stopped, and once it goes through nothing is left. */
  method HandleCleanup(s: Session) returns (reply: Reply)
    requires s.Valid() && s.trail == [s.disk] && Sweepable(s.disk.view)
    modifies s`disk, s`trail
    ensures s.Valid()
    ensures old(s.disk).Recorded() ==> Sweeping(s.trail, old(s.disk))
    ensures !old(s.disk).Recorded() ==>
              s.disk == old(s.disk) && (reply.Done? <==> old(s.disk).Swept())
    ensures reply.Done? ==> !s.disk.Recorded() && s.disk.Swept()
    ensures reply.Done? && old(s.disk).Recorded() ==> s.disk.view == CleanedUp(old(s.disk).view)
    ensures reply.Done? && old(s.disk).Recorded() ==>
              var v, w := old(s.disk).view, s.disk.view;
              && s.disk.a.None? && s.disk.b.None? && !s.disk.backup
              && w.op == v.op && w.phase == v.phase && w.moved == v.moved
              && w.source == (if v.source.Some? && v.source.value.dir == HiddenDir then None else v.source)
              && w.stage == (if v.stage.Some? && v.stage.value.dir == HiddenDir then None else v.stage)
    ensures !s.fails && old(s.disk).Recorded() ==> reply.Done?
  {
    if !s.disk.Recorded() {
      return if s.disk.Swept() then Done else Refused(MutationIndeterminate);
    }
    ghost var d := s.disk;
    var ok := DeleteByName(s, d);
    if ok && s.disk.view.op.kind in {Overwrite, Delete} && s.disk.view.SourceIn(HiddenDir) {
      ok := DeleteQuarantined(s, d);
    }
    if ok {
      ok := DeleteSlots(s, d);
    }
    reply := if ok then Done else Refused(MutationIndeterminate);
  }

  /** The old content exists nowhere any more although the operation is not complete. */
  predicate LosesTheOriginal(v: View) {
    v.op.HasSource() && !After(v) && CleanedUp(v).source.None?
  }

  /** Cleanup loses the original of an incomplete operation exactly where reconcile answers
      `notCommitted` for an overwrite or a deletion and the directory of the path has the
      original no more, under its own name or its quarantine name. Everywhere else it leaves
      what the user sees, and keeps the original or the new content in its place. */
  lemma CleanupLosesTheOriginalExactlyWhen(v: View)
    requires Inv(v) && v.op.HasSource()
    ensures LosesTheOriginal(v) <==> Reconciled(v) == AnsweredNotCommitted && v.op.kind != Move && !v.SourceIn(Home)
    ensures SameVisible(v, CleanedUp(v))
    ensures !LosesTheOriginal(v) ==> CleanedUp(v).source == v.source || After(v)
    ensures After(v) && v.op.kind == Overwrite ==> CleanedUp(v).stage == Some(PATH)
    ensures After(v) && v.op.kind == Move ==> CleanedUp(v).source == Some(v.op.Destination())
  {
  }

  /** What the phase on record tells of it: cleanup is fatal for every incomplete operation
      in these phases, may be fatal while one move of the original is announced, and is
      harmless in all other phases. */
  lemma {:induction false} CleanupByPhase(run: seq<View>, i: nat)
    requires Run(run) && i < |run| && run[i].op.HasSource()
    ensures Quarantined(run[i].phase) ==>
              (LosesTheOriginal(run[i]) <==> Reconciled(run[i]) == AnsweredNotCommitted)
    ensures !Quarantined(run[i].phase) && !MoveAnnounced(run[i].phase) ==> !LosesTheOriginal(run[i])
  {
    WholeRun(run, i);
    PhaseTellsWhere(run, i);
    CleanupLosesTheOriginalExactlyWhen(run[i]);
  }

  /** A deletion stopped after its first move, then cleaned up: the file is nowhere. */
  lemma CleanupCanLoseTheOriginal() returns (run: seq<View>)
    ensures Run(run) && run[0].op.kind == Delete && run[0].source == Some(PATH)
    ensures LosesTheOriginal(run[|run| - 1]) && !Decided(run[|run| - 1].phase)
  {
    var v := View(Operation(Delete, false, false, false, false), Prepared, Some(PATH), None, false);
    var announced := v.WithPhase(DeleteMoving);
    assert Enabled(v, Announce(DeleteMoving));
    assert Enabled(announced, ShiftSource(HiddenDir));
    run := [v, announced, announced.(source := Some(Spot(HiddenDir, Own)))];
  }
}
