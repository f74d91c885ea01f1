/** The handlers of the Windows runner, step by step over the entries of one operation. */
module WindowsHandlers {
  import opened Records
  import opened Runners
  import opened Volumes
  import opened WindowsProtocol

  /** Every pair of neighbours from `first` on is one effect of the operation. */
  ghost predicate Steps(trail: seq<View>, first: nat) {
    forall i | first <= i < |trail| - 1 :: Next(trail[i], trail[i + 1])
  }

  lemma Extend(before: seq<View>, first: nat, v: View, effect: Effect)
    requires first < |before| && Steps(before, first)
    requires Leads(before[|before| - 1], effect, v) && !CleaningEffect(effect)
    ensures Steps(before + [v], first)
  {
    var trail := before + [v];
    forall i | first <= i < |trail| - 1
      ensures Next(trail[i], trail[i + 1])
    {
      if i < |before| - 1 {
        assert Next(before[i], before[i + 1]);
      } else {
        assert Leads(trail[i], effect, trail[i + 1]);
      }
    }
  }

  /** The disk as one operation sees it. Other processes cannot rename or delete what a
      handler holds open, so nobody else writes while a handler runs. */
  class Session {
    var disk: View

    /** Whether a read or a durable step can fail. */
    const fails: bool

    /** Every state that has been durable, the present one last. */
    ghost var trail: seq<View>

    /** Whether a read has failed to see what it was asked about. */
    ghost var misread: bool

    ghost predicate Valid()
      reads this
    {
      trail != [] && trail[|trail| - 1] == disk
    }

    twostate predicate Became(v: View)
      reads this
    {
      disk == v && trail == old(trail) + [v]
    }

    twostate predicate Unchanged()
      reads this
    {
      disk == old(disk) && trail == old(trail)
    }

    constructor (disk: View, fails: bool)
      ensures Valid() && this.disk == disk && trail == [disk] && this.fails == fails
    {
      this.disk, this.fails := disk, fails;
      trail, misread := [disk], false;
    }

    /** A read, which may fail to see what is so. */
    method Confirm(fact: bool) returns (seen: bool)
      modifies this`misread
      ensures seen ==> fact
      ensures misread == (old(misread) || seen != fact)
      ensures !fails ==> seen == fact
    {
      seen := Look(fact, fails);
      misread := misread || seen != fact;
    }

    function Load(token: string): (found: Option<Record>)
      reads this
      ensures found.Some? <==> disk.record.Some? && disk.record.value.token == token
      ensures found.Some? ==> found == disk.record
    {
      if disk.record.Some? && disk.record.value.token == token then disk.record else None
    }

    method LoadState(token: string) returns (found: Option<Record>)
      modifies this`misread
      ensures found in {Load(token), None}
      ensures misread == (old(misread) || found != Load(token))
      ensures !fails ==> found == Load(token)
    {
      var loaded := Confirm(Load(token).Some?);
      found := if loaded then Load(token) else None;
    }

    /** SaveOperationState replaces whatever record there is; it checks no phase. */
    method Save(record: Record) returns (ok: bool)
      requires Valid()
      modifies this`disk, this`trail
      ensures Valid()
      ensures Unchanged() || Became(old(disk).(record := Some(record)))
      ensures ok ==> disk.record == Some(record) && !Unchanged()
      ensures !fails ==> ok
    {
      ok := Attempt(fails);
      if !ok {
        return;
      }
      disk := disk.(record := Some(record));
      trail := trail + [disk];
      ok := Attempt(fails);
    }

    /** RenameDurable: a rename that replaces nothing, and the flush of both directories.
        A failed flush is reported although the rename happened. */
    method RenameDurable(from: Entry, to: Entry) returns (ok: bool)
      requires Valid() && disk.At(from).Some? && from != to
      modifies this`disk, this`trail
      ensures Valid()
      ensures Unchanged() || (old(disk).At(to).None? && Became(old(disk).With(to, old(disk).At(from)).With(from, None)))
      ensures ok ==> !Unchanged()
      ensures !fails ==> ok == old(disk).At(to).None? && (!ok ==> Unchanged())
    {
      ok := Attempt(fails);
      if !ok || disk.At(to).Some? {
        return false;
      }
      disk := disk.With(to, disk.At(from)).With(from, None);
      trail := trail + [disk];
      ok := Attempt(fails);
    }

    /** DeleteNode on an open handle. */
    method DeleteNode(entry: Entry) returns (ok: bool)
      requires Valid() && disk.At(entry).Some?
      modifies this`disk, this`trail
      ensures Valid()
      ensures !ok ==> Unchanged()
      ensures ok ==> Became(old(disk).With(entry, None))
      ensures !fails ==> ok
    {
      ok := Attempt(fails);
      if ok {
        disk := disk.With(entry, None);
        trail := trail + [disk];
      }
    }

    /** DeleteOperationState. */
    method DeleteState() returns (ok: bool)
      requires Valid()
      modifies this`disk, this`trail
      ensures Valid()
      ensures !ok ==> Unchanged()
      ensures ok ==> Became(old(disk).(record := None))
      ensures !fails ==> ok
    {
      ok := Attempt(fails);
      if ok {
        disk := disk.(record := None);
        trail := trail + [disk];
      }
    }
  }

  /** What every part of a handler keeps up. */
  ghost predicate Going(s: Session, record: Record, first: nat)
    reads s
  {
    s.Valid() && first < |s.trail| && Steps(s.trail, first) && s.disk.record == Some(record)
  }

  method Persist(s: Session, record: Record, phase: Phase, ghost first: nat, ghost effect: Effect)
    returns (ok: bool, next: Record)
    requires Going(s, record, first)
    requires Leads(s.disk, effect, s.disk.WithPhase(phase)) && !CleaningEffect(effect)
    modifies s`disk, s`trail
    ensures next == record.(phase := phase)
    ensures Going(s, next, first) || Going(s, record, first)
    ensures s.disk in {old(s.disk), old(s.disk).WithPhase(phase)}
    ensures ok ==> Going(s, next, first) && s.disk == old(s.disk).WithPhase(phase)
    ensures !s.fails ==> ok
  {
    next := record.(phase := phase);
    ok := s.Save(next);
    if s.trail != old(s.trail) {
      Extend(old(s.trail), first, s.disk, effect);
    }
  }

  /** A rename as one effect of the operation. */
  method Rename(s: Session, from: Entry, to: Entry, record: Record, ghost first: nat, ghost effect: Effect)
    returns (ok: bool)
    requires Going(s, record, first) && s.disk.At(from).Some? && from != to
    requires !CleaningEffect(effect)
    requires s.disk.At(to).None? ==> Leads(s.disk, effect, s.disk.With(to, s.disk.At(from)).With(from, None))
    modifies s`disk, s`trail
    ensures Going(s, record, first)
    ensures s.disk in {old(s.disk), old(s.disk).With(to, old(s.disk).At(from)).With(from, None)}
    ensures s.disk != old(s.disk) ==> old(s.disk).At(to).None?
    ensures ok ==> old(s.disk).At(to).None? && s.disk == old(s.disk).With(to, old(s.disk).At(from)).With(from, None)
    ensures !s.fails ==> ok == old(s.disk).At(to).None?
  {
    ok := s.RenameDurable(from, to);
    if s.trail != old(s.trail) {
      Extend(old(s.trail), first, s.disk, effect);
    }
  }

  // ---------------------------------------------------------------- commit

  /** When a commit that meets no failure reports success. */
  predicate Committable(v: View)
    requires v.record.Some?
  {
    var r := v.record.value;
    || r.phase == Committed
    || Blind(r)
    || (r.Overwrites() && r.phase == Prepared && MayQuarantine(v) && v.quarantine.None? && Proof(v.stage, r.staged))
    || (r.Overwrites() && r.phase == TargetQuarantining && Quarantined(v) && v.target.None? && Proof(v.stage, r.staged))
    || (r.Overwrites() && r.phase == TargetQuarantined && MayInstall(v) && v.target.None?)
    || (!r.Overwrites() && r.phase == Prepared
        && if r.operation == Delete then MayQuarantine(v)
           else MayInstall(v) && (r.operation != Move ==> v.target.None?))
  }

  /** What such a commit leaves, the record aside. */
  function Finished(v: View): View
    requires v.record.Some?
  {
    var r := v.record.value;
    if r.phase == Committed || Blind(r) then v
    else if r.operation == Delete then Quarantine(v)
    else if r.Overwrites() && r.phase == Prepared then Install(Quarantine(v))
    else Install(v)
  }

  /** The original of an overwrite goes to quarantine, and the record says so. */
  method QuarantineTarget(s: Session, record: Record, ghost first: nat) returns (ok: bool, next: Record)
    requires Going(s, record, first) && record.phase == Prepared && record.Overwrites()
    modifies s`disk, s`trail, s`misread
    ensures Steps(s.trail, first) && s.Valid() && first < |s.trail|
    ensures ok ==> Going(s, next, first) && next == record.(phase := TargetQuarantined)
    ensures ok ==> s.disk == Quarantine(old(s.disk)).WithPhase(TargetQuarantined)
    ensures ok ==> MayQuarantine(old(s.disk)) && old(s.disk).quarantine.None?
    ensures !s.fails ==> ok == (MayQuarantine(old(s.disk)) && old(s.disk).quarantine.None?)
  {
    next := record;
    var expected := s.Confirm(Proof(s.disk.target, record.expected));
    var taken := s.Confirm(IsFile(s.disk.quarantine));
    if !expected || taken {
      return false, next;
    }
    ok, next := Persist(s, record, TargetQuarantining, first, BeginQuarantine);
    if !ok {
      return;
    }
    ok := Rename(s, Target, Old, next, first, QuarantineEffect);
    if ok {
      ok := s.Confirm(Proof(s.disk.quarantine, record.expected));
    }
    if !ok {
      return;
    }
    ok, next := Persist(s, next, TargetQuarantined, first, NoteQuarantined);
  }

  /** The staged file goes to the path. */
  method InstallStage(s: Session, record: Record, ghost first: nat) returns (ok: bool, next: Record)
    requires Going(s, record, first) && record.operation == Write
    requires record.phase == if record.expectMissing then Prepared else TargetQuarantined
    modifies s`disk, s`trail, s`misread
    ensures Steps(s.trail, first) && s.Valid() && first < |s.trail|
    ensures ok ==> Going(s, next, first) && next == record.(phase := StageInstalling)
    ensures ok ==> s.disk == Install(old(s.disk)).WithPhase(StageInstalling)
    ensures ok ==> MayInstall(old(s.disk)) && old(s.disk).target.None?
    ensures !s.fails ==> ok == (MayInstall(old(s.disk)) && old(s.disk).target.None?)
  {
    next := record;
    var staged := s.Confirm(Proof(s.disk.stage, record.staged));
    var taken := s.Confirm(IsFile(s.disk.target));
    if !staged || taken {
      return false, next;
    }
    ok, next := Persist(s, record, StageInstalling, first, BeginInstall);
    if !ok {
      return;
    }
    ok := Rename(s, Stage, Target, next, first, InstallEffect);
  }

  method CommitWrite(s: Session, record: Record, ghost first: nat) returns (ok: bool, next: Record, error: Error)
    requires Going(s, record, first) && record.operation == Write && !Decided(record.phase)
    modifies s`disk, s`trail, s`misread
    ensures Steps(s.trail, first) && s.Valid() && first < |s.trail|
    ensures ok ==> Going(s, next, first) && next == record.(phase := StageInstalling)
    ensures ok ==> Committable(old(s.disk)) && s.disk == Finished(old(s.disk)).WithPhase(StageInstalling)
    ensures !s.fails ==> ok == Committable(old(s.disk))
    ensures record.expectMissing && record.phase == Prepared && IsFile(old(s.disk).target) ==>
              !ok && (!s.fails ==> error == StaleTarget)
  {
    next, ok, error := record, true, MutationIndeterminate;
    if !record.expectMissing && record.phase == Prepared {
      ok, next := QuarantineTarget(s, record, first);
      if !ok {
        return;
      }
    } else if !record.expectMissing && record.phase == TargetQuarantining {
      var taken := s.Confirm(IsFile(s.disk.target));
      ok := s.Confirm(Proof(s.disk.quarantine, record.expected));
      if taken || !ok {
        ok := false;
        return;
      }
      ok, next := Persist(s, record, TargetQuarantined, first, NoteQuarantined);
      if !ok {
        return;
      }
    }
    if next.phase == (if record.expectMissing then Prepared else TargetQuarantined) {
      var taken := s.Confirm(record.expectMissing && IsFile(s.disk.target));
      if taken {
        error := StaleTarget;
      }
      ok, next := InstallStage(s, next, first);
    } else {
      ok, error := next.phase == StageInstalling, InvalidPreparedReceipt;
    }
  }

  method CommitDelete(s: Session, record: Record, ghost first: nat) returns (ok: bool, next: Record)
    requires Going(s, record, first) && record.operation == Delete && !Decided(record.phase)
    modifies s`disk, s`trail, s`misread
    ensures Steps(s.trail, first) && s.Valid() && first < |s.trail|
    ensures ok ==> Going(s, next, first) && next == record.(phase := TargetQuarantined)
    ensures ok ==> Committable(old(s.disk)) && s.disk == Finished(old(s.disk)).WithPhase(TargetQuarantined)
    ensures !s.fails ==> ok == Committable(old(s.disk))
  {
    next := record;
    if record.phase != Prepared {
      return record.phase == TargetQuarantined, next;
    }
    var expected := s.Confirm(Proof(s.disk.target, record.expected));
    var free := s.Confirm(s.disk.stage.None?);
    if !expected || !free {
      return false, next;
    }
    ok, next := Persist(s, record, TargetQuarantining, first, BeginQuarantine);
    if !ok {
      return;
    }
    ok := Rename(s, Target, Stage, next, first, QuarantineEffect);
    if ok {
      ok, next := Persist(s, next, TargetQuarantined, first, NoteQuarantined);
    }
  }

  method CommitMove(s: Session, record: Record, ghost first: nat) returns (ok: bool, next: Record)
    requires Going(s, record, first) && record.operation == Move && !Decided(record.phase)
    modifies s`disk, s`trail, s`misread
    ensures Steps(s.trail, first) && s.Valid() && first < |s.trail|
    ensures ok ==> Going(s, next, first) && next == record.(phase := StageInstalling)
    ensures ok ==> s.disk == Finished(old(s.disk)).WithPhase(StageInstalling)
    ensures ok ==> Committable(old(s.disk)) && record.destination.Some?
    ensures !s.fails ==> ok == (Committable(old(s.disk)) && record.destination.Some?)
  {
    next := record;
    if record.destination.None? {
      return false, next;
    }
    if record.phase != Prepared {
      return record.phase == StageInstalling, next;
    }
    var expected := s.Confirm(Proof(s.disk.target, record.expected));
    var free := s.Confirm(s.disk.destination.None?);
    if !expected || !free {
      return false, next;
    }
    ok, next := Persist(s, record, StageInstalling, first, BeginInstall);
    if !ok {
      return;
    }
    ok := Rename(s, Target, Destination, next, first, InstallEffect);
  }

  method CommitDirectory(s: Session, record: Record, ghost first: nat) returns (ok: bool, next: Record)
    requires Going(s, record, first) && record.operation == MakeDirectory && !Decided(record.phase)
    modifies s`disk, s`trail, s`misread
    ensures Steps(s.trail, first) && s.Valid() && first < |s.trail|
    ensures ok ==> Going(s, next, first) && next == record.(phase := StageInstalling)
    ensures ok ==> Committable(old(s.disk)) && s.disk == Finished(old(s.disk)).WithPhase(StageInstalling)
    ensures !s.fails ==> ok == Committable(old(s.disk))
  {
    next := record;
    if record.phase != Prepared {
      return record.phase == StageInstalling, next;
    }
    var staged := s.Confirm(IsDirectory(s.disk.stage) && SameIdentity(s.disk.stage, record.staged));
    var free := s.Confirm(s.disk.target.None?);
    if !staged || !free {
      return false, next;
    }
    ok, next := Persist(s, record, StageInstalling, first, BeginInstall);
    if !ok {
      return;
    }
    ok := Rename(s, Stage, Target, next, first, InstallEffect);
  }

  /** Commit takes only steps of the protocol, and without failures reports success
      exactly for the states it can finish. In a blind phase it finishes nothing. */
  method HandleCommit(s: Session, token: string) returns (reply: Reply)
    requires s.Valid()
    modifies s
    ensures s.Valid() && |old(s.trail)| <= |s.trail| && Steps(s.trail, |old(s.trail)| - 1)
    ensures old(s.Load(token)).None? ==> reply == Refused(InvalidPreparedReceipt) && s.disk == old(s.disk)
    ensures old(s.Load(token)).Some? ==>
              var v := old(s.disk);
              var r := v.record.value;
              var possible := Committable(v) && (r.operation == Move && r.phase != Committed ==> r.destination.Some?);
              && (reply.Done? ==> possible && s.disk == Finished(v).WithPhase(Committed))
              && (!s.fails ==> (reply.Done? <==> possible))
    // When it succeeds and what it leaves, entry by entry and phase by phase.
    ensures old(s.Load(token)).Some? ==>
              var v, r := old(s.disk), old(s.disk).record.value;
              var goal :=
                if r.phase == RolledBack then None
                else if r.phase == Committed then Some(v)
                else if r.operation == Move && r.destination.None? then None
                else if r.phase == (if r.operation == Delete then TargetQuarantined else StageInstalling) then Some(v)
                else match r.operation
                  case Write =>
                    if !Proof(v.stage, r.staged) then None
                    else if r.expectMissing then
                      if r.phase == Prepared && v.target.None? then Some(v.(target := v.stage, stage := None)) else None
                    else if r.phase == Prepared && Proof(v.target, r.expected) && v.quarantine.None?
                    then Some(v.(target := v.stage, stage := None, quarantine := v.target))
                    else if && v.target.None?
                            && (|| (r.phase == TargetQuarantining && Proof(v.quarantine, r.expected))
                                || r.phase == TargetQuarantined)
                    then Some(v.(target := v.stage, stage := None))
                    else None
                  case Delete =>
                    if r.phase == Prepared && Proof(v.target, r.expected) && v.stage.None?
                    then Some(v.(target := None, stage := v.target)) else None
                  case Move =>
                    if r.phase == Prepared && Proof(v.target, r.expected) && v.destination.None?
                    then Some(v.(target := None, destination := v.target)) else None
                  case MakeDirectory =>
                    if r.phase == Prepared && IsDirectory(v.stage) && SameIdentity(v.stage, r.staged) && v.target.None?
                    then Some(v.(target := v.stage, stage := None)) else None;
              && (reply.Done? ==> goal.Some? && s.disk == goal.value.WithPhase(Committed))
              && (!s.fails ==> (reply.Done? <==> goal.Some?))
  {
    s.misread := false;
    ghost var first := |s.trail| - 1;
    var loaded := s.LoadState(token);
    if loaded.None? {
      return Refused(InvalidPreparedReceipt);
    }
    var record := loaded.value;
    if record.phase == Committed {
      return Done;
    }
    if record.phase == RolledBack {
      return Refused(if record.operation == Write then InvalidPreparedReceipt else MutationIndeterminate);
    }
    var ok, next;
    var error := MutationIndeterminate;
    match record.operation {
      case Write => ok, next, error := CommitWrite(s, record, first);
      case Delete => ok, next := CommitDelete(s, record, first);
      case Move => ok, next := CommitMove(s, record, first);
      case MakeDirectory => ok, next := CommitDirectory(s, record, first);
    }
    if !ok {
      return Refused(error);
    }
    ok := Conclude(s, next, Blind(record), first);
    reply := if ok then Done else Refused(MutationIndeterminate);
  }

  /** The last step of HandleCommit, after its own rename or, blindly, without one. */
  method Conclude(s: Session, record: Record, ghost blind: bool, ghost first: nat) returns (ok: bool)
    requires Going(s, record, first)
    requires if blind then Blind(record) else !Decided(record.phase) && MayConcludeCommit(s.disk)
    modifies s`disk, s`trail
    ensures s.Valid() && first < |s.trail| && Steps(s.trail, first)
    ensures ok ==> s.disk == old(s.disk).WithPhase(Committed)
    ensures !s.fails ==> ok
  {
    var next;
    ok, next := Persist(s, record, Committed, first, if blind then BlindCommit else ConcludeCommit);
  }

  // ---------------------------------------------------------------- recovery

  /** In `targetQuarantining` HandleReconcile answers only if the original is where one of
      the two renames has it. */
  predicate Answerable(v: View)
    requires v.record.Some?
  {
    v.Phase() == TargetQuarantining && v.record.value.operation == Write ==>
      Quarantined(v) || (Proof(v.target, v.record.value.expected) && !IsFile(v.quarantine))
  }

  /** The refusal in `targetQuarantining` never happens to a reachable state. */
  lemma ReachableIsAnswerable(p: View, v: View)
    requires PreparedView(p) && Inv(p, v)
    ensures Answerable(v)
  {
    var shape :| shape in ShapesIn(v.record.value) && HasShape(p, v, shape);
  }

  /** So in every state of every run HandleReconcile answers, unless something fails, and
      what it answers is exactly the truth. */
  lemma ReconcileAnswersTheTruth(p: View, run: seq<View>, effects: seq<Effect>, i: nat)
    requires Run(p, run, effects) && i < |run|
    ensures run[i].record.Some? && Answerable(run[i])
    ensures Reconciled(run[i]) == AnsweredRolledBack <==> run[i].Phase() == RolledBack
    ensures run[i].Phase() != RolledBack ==>
              && (Reconciled(run[i]) == AnsweredCommitted <==> HasShape(p, run[i], Complete))
              && (Reconciled(run[i]) == AnsweredNotCommitted <==> NotYet(p, run[i]))
              && (Reconciled(run[i]) == AnsweredIndeterminate <==> Unclear(p, run[i]))
  {
    RunIsGood(p, run, effects, i);
    ReachableIsAnswerable(p, run[i]);
    ReconcileIsExact(p, run[i]);
  }

  /** The first part of HandleReconcile: catch up with a quarantine that was not noted. */
  method NoteQuarantine(s: Session, record: Record, ghost first: nat) returns (ok: bool, next: Record)
    requires Going(s, record, first)
    modifies s`disk, s`trail, s`misread
    ensures s.Valid() && first < |s.trail| && Steps(s.trail, first)
    ensures s.disk in {old(s.disk), old(s.disk).WithPhase(TargetQuarantined)}
    ensures s.disk != old(s.disk) ==>
              record.phase == TargetQuarantining && Proof(old(s.disk).quarantine, record.expected)
    ensures s.disk != old(s.disk) && !s.misread ==> Quarantined(old(s.disk))
    ensures ok ==> Going(s, next, first) && next in {record, record.(phase := TargetQuarantined)}
    ensures ok && !s.misread ==> Answerable(old(s.disk))
    ensures (old(s.misread) ==> s.misread) && (!s.fails ==> s.misread == old(s.misread))
    ensures !s.fails ==> ok == Answerable(old(s.disk))
  {
    next, ok := record, true;
    if record.phase == TargetQuarantining && record.operation == Write {
      var target := s.Confirm(IsFile(s.disk.target));
      var original := s.Confirm(Proof(s.disk.quarantine, record.expected));
      if !target && original {
        ok, next := Persist(s, record, TargetQuarantined, first, NoteQuarantined);
      } else {
        var expected := s.Confirm(Proof(s.disk.target, record.expected));
        var taken := s.Confirm(IsFile(s.disk.quarantine));
        ok := expected && !taken;
      }
    }
  }

  /** The proofs that support an answer; that something else is absent needs no proof, for
      what does not open counts as absent. */
  predicate Supported(v: View, answer: Answer)
    requires v.record.Some?
  {
    match answer
    case AnsweredRolledBack => v.Phase() == RolledBack
    case AnsweredCommitted => v.Phase() != RolledBack && EffectSupported(v)
    case AnsweredNotCommitted => v.Phase() != RolledBack && UntouchedSupported(v)
    case AnsweredIndeterminate => v.Phase() != RolledBack
  }

  /** A supported answer about a reachable state is true, whatever reads failed, but for one
      case: a move to a name that the same file has already counts as done. */
  lemma SupportedIsTrue(p: View, v: View, answer: Answer)
    requires PreparedView(p) && Inv(p, v) && Supported(v, answer)
    ensures answer == AnsweredCommitted ==> HasShape(p, v, Complete) || AlreadyThere(p, v)
    ensures answer == AnsweredNotCommitted ==> HasShape(p, v, Intact) || HasShape(p, v, Away)
  {
    var shape :| shape in ShapesIn(v.record.value) && HasShape(p, v, shape);
  }

  /** The destination of an untouched move is another name of the same file. */
  ghost predicate AlreadyThere(p: View, v: View)
    requires PreparedView(p)
  {
    p.record.value.operation == Move && Proof(p.destination, p.record.value.expected) && HasShape(p, v, Intact)
  }

  /** Whether the operation is seen to have happened. */
  method SeesEffect(s: Session, record: Record) returns (committed: bool)
    requires s.disk.record == Some(record) && (record.operation == Move ==> record.destination.Some?)
    modifies s`misread
    ensures committed ==> EffectSupported(s.disk)
    ensures !s.misread ==> committed == EffectSeen(s.disk)
    ensures (old(s.misread) ==> s.misread) && (!s.fails ==> s.misread == old(s.misread))
    ensures !s.fails ==> committed == EffectSeen(s.disk)
  {
    var proven, taken, original;
    match record.operation {
      case Write =>
        proven := s.Confirm(Proof(s.disk.target, record.staged));
        taken := s.Confirm(IsFile(s.disk.stage));
        original := s.Confirm(Proof(s.disk.quarantine, record.expected));
        committed := proven && !taken && (record.expectMissing || original);
      case Delete =>
        taken := s.Confirm(IsFile(s.disk.target));
        proven := s.Confirm(Proof(s.disk.stage, record.expected));
        committed := !taken && proven;
      case Move =>
        taken := s.Confirm(IsFile(s.disk.target));
        proven := s.Confirm(Proof(s.disk.destination, record.expected));
        committed := !taken && proven;
      case MakeDirectory =>
        proven := s.Confirm(IsDirectory(s.disk.target) && SameIdentity(s.disk.target, record.staged));
        taken := s.Confirm(IsDirectory(s.disk.stage));
        committed := proven && !taken;
    }
  }

  /** Whether nothing is seen to have happened. */
  method SeesNothing(s: Session, record: Record) returns (before: bool)
    requires s.disk.record == Some(record) && (record.operation == Move ==> record.destination.Some?)
    modifies s`misread
    ensures before ==> UntouchedSupported(s.disk)
    ensures !s.misread ==> before == UntouchedSeen(s.disk)
    ensures (old(s.misread) ==> s.misread) && (!s.fails ==> s.misread == old(s.misread))
    ensures !s.fails ==> before == UntouchedSeen(s.disk)
  {
    match record.operation {
      case Write => before := SeesNoWrite(s, record);
      case Delete =>
        var proven := s.Confirm(Proof(s.disk.target, record.expected));
        var taken := s.Confirm(IsFile(s.disk.stage));
        before := proven && !taken;
      case Move =>
        var proven := s.Confirm(Proof(s.disk.target, record.expected));
        var taken := s.Confirm(IsFile(s.disk.destination));
        before := proven && !taken;
      case MakeDirectory =>
        var taken := s.Confirm(IsDirectory(s.disk.target));
        var proven := s.Confirm(IsDirectory(s.disk.stage) && SameIdentity(s.disk.stage, record.staged));
        before := !taken && proven;
    }
  }

  method SeesNoWrite(s: Session, record: Record) returns (before: bool)
    requires s.disk.record == Some(record) && record.operation == Write
    modifies s`misread
    ensures before ==> UntouchedSupported(s.disk)
    ensures !s.misread ==> before == UntouchedSeen(s.disk)
    ensures (old(s.misread) ==> s.misread) && (!s.fails ==> s.misread == old(s.misread))
    ensures !s.fails ==> before == UntouchedSeen(s.disk)
  {
    var staged := s.Confirm(Proof(s.disk.stage, record.staged));
    var taken := s.Confirm(IsFile(s.disk.target));
    if record.expectMissing {
      return !taken && staged;
    }
    var expected := s.Confirm(Proof(s.disk.target, record.expected));
    var quarantined := s.Confirm(IsFile(s.disk.quarantine));
    var original := s.Confirm(Proof(s.disk.quarantine, record.expected));
    before := staged && ((expected && !quarantined) || (!taken && original));
  }

  /** The entries prove that the operation happened. */
  predicate ResultProven(v: View)
    requires v.record.Some?
  {
    var r := v.record.value;
    match r.operation
    case Write => Proof(v.target, r.staged) && (r.expectMissing || Proof(v.quarantine, r.expected))
    case Delete => Proof(v.stage, r.expected)
    case Move => r.destination.Some? && Proof(v.destination, r.expected)
    case MakeDirectory => IsDirectory(v.target) && SameIdentity(v.target, r.staged)
  }

  /** And nothing is where it was taken from. */
  predicate ResultThere(v: View)
    requires v.record.Some?
  {
    && ResultProven(v)
    && match v.record.value.operation
       case Write => !IsFile(v.stage)
       case MakeDirectory => !IsDirectory(v.stage)
       case _ => !IsFile(v.target)
  }

  /** The entries are as before the operation; an overwritten file may be aside. */
  predicate OriginalThere(v: View)
    requires v.record.Some?
  {
    var r := v.record.value;
    match r.operation
    case Write =>
      && Proof(v.stage, r.staged)
      && if r.expectMissing then !IsFile(v.target)
         else (Proof(v.target, r.expected) && !IsFile(v.quarantine))
              || (!IsFile(v.target) && Proof(v.quarantine, r.expected))
    case Delete => Proof(v.target, r.expected) && !IsFile(v.stage)
    case Move => r.destination.Some? && Proof(v.target, r.expected) && !IsFile(v.destination)
    case MakeDirectory => !IsDirectory(v.target) && IsDirectory(v.stage) && SameIdentity(v.stage, r.staged)
  }

  /** What the answers say, from the entries alone. */
  lemma AnswersAre(v: View)
    requires v.record.Some? && v.Phase() != RolledBack
    ensures Supported(v, AnsweredCommitted) ==> ResultProven(v)
    ensures Answerable(v) ==>
              && (Reconciled(v) == AnsweredCommitted <==> ResultThere(v))
              && (Reconciled(v) == AnsweredNotCommitted <==> OriginalThere(v) && !ResultThere(v))
  {
  }


  /** Reconcile answers for the state it finds. If a read fails, it still gives no answer
      without the proofs for it. */
  method HandleReconcile(s: Session, token: string) returns (reply: Reconciliation)
    requires s.Valid()
    modifies s
    ensures s.Valid() && |old(s.trail)| <= |s.trail| && Steps(s.trail, |old(s.trail)| - 1)
    ensures old(s.Load(token)).None? ==> reply == NotAnswered(InvalidPreparedReceipt) && s.disk == old(s.disk)
    ensures old(s.Load(token)).Some? ==>
              var v := old(s.disk);
              && (reply.Answered? ==> Supported(v, reply.answer))
              && (reply.Answered? && !s.misread ==> Answerable(v) && reply.answer == Reconciled(v))
              && (!s.fails ==> !s.misread && (reply.Answered? <==> Answerable(v)))
              && (reply == Answered(AnsweredCommitted) ==> s.disk == v.WithPhase(Committed))
              && (s.disk in {v, v.WithPhase(TargetQuarantined)}
                  || (Supported(v, AnsweredCommitted) && s.disk == v.WithPhase(Committed)))
    // What each answer says of the entries.
    ensures old(s.Load(token)).Some? && old(s.disk).Phase() != RolledBack && reply.Answered? ==>
              var v := old(s.disk);
              && (reply.answer == AnsweredCommitted ==> ResultProven(v))
              && (!s.misread ==> (reply.answer == AnsweredCommitted <==> ResultThere(v)))
              && (!s.misread ==> (reply.answer == AnsweredNotCommitted <==> OriginalThere(v) && !ResultThere(v)))
  {
    s.misread := false;
    ghost var first := |s.trail| - 1;
    var loaded := s.LoadState(token);
    if loaded.None? {
      return NotAnswered(InvalidPreparedReceipt);
    }
    if loaded.value.phase == RolledBack {
      return Answered(AnsweredRolledBack);
    }
    AnswersAre(s.disk);
    reply := ReconcileLoaded(s, loaded.value, first);
  }

  /** What the entries say of a record that is not rolled back. */
  method ReconcileLoaded(s: Session, record: Record, ghost first: nat) returns (reply: Reconciliation)
    requires s.Valid() && first < |s.trail| && Steps(s.trail, first)
    requires s.disk.record == Some(record) && record.phase != RolledBack && !s.misread
    modifies s
    ensures s.Valid() && first < |s.trail| && Steps(s.trail, first)
    ensures var v := old(s.disk);
            && (reply.Answered? ==> Supported(v, reply.answer))
            && (reply.Answered? && !s.misread ==> Answerable(v) && reply.answer == Reconciled(v))
            && (!s.fails ==> !s.misread && (reply.Answered? <==> Answerable(v)))
            && (reply == Answered(AnsweredCommitted) ==> s.disk == v.WithPhase(Committed))
            && (s.disk in {v, v.WithPhase(TargetQuarantined)}
                || (Supported(v, AnsweredCommitted) && s.disk == v.WithPhase(Committed)))
  {
    var ok, next := NoteQuarantine(s, record, first);
    if !ok {
      return NotAnswered(MutationIndeterminate);
    }
    if record.operation == Move && record.destination.None? {
      return Answered(AnsweredIndeterminate);
    }
    var committed := SeesEffect(s, next);
    if !committed {
      var before := SeesNothing(s, next);
      return Answered(if before then AnsweredNotCommitted else AnsweredIndeterminate);
    }
    if next.phase != Committed {
      ghost var effect := if MayConcludeCommit(s.disk) then ConcludeCommit else MisreadCommit;
      ok, next := Persist(s, next, Committed, first, effect);
      if !ok {
        return NotAnswered(MutationIndeterminate);
      }
    }
    reply := Answered(AnsweredCommitted);
  }

  /** Delete an installed result; the flush after it may fail. */
  method RemoveResult(s: Session, record: Record, ghost first: nat) returns (ok: bool)
    requires Going(s, record, first) && !Decided(record.phase)
    modifies s`disk, s`trail
    ensures Going(s, record, first)
    ensures s.disk in {old(s.disk), if MustRemove(old(s.disk)) then old(s.disk).(target := None) else old(s.disk)}
    ensures ok ==> MustRemove(old(s.disk)) ==> s.disk == old(s.disk).(target := None)
    ensures !s.fails ==> ok
  {
    ok := true;
    if MustRemove(s.disk) {
      ok := s.DeleteNode(Target);
      if ok {
        Extend(old(s.trail), first, s.disk, RemoveEffect);
        ok := Attempt(s.fails);
      }
    }
  }

  /** Put the original back from where the record says it waits. */
  method RestoreOriginal(s: Session, record: Record, from: Entry, ghost first: nat) returns (ok: bool)
    requires Going(s, record, first) && !Decided(record.phase)
    requires from == match record.operation case Write => Old case Move => Destination case _ => Stage
    requires record.operation == Write ==> !record.expectMissing
    requires record.operation == Move ==> record.destination.Some?
    requires record.operation != MakeDirectory && Proof(s.disk.At(from), record.expected)
    modifies s`disk, s`trail
    ensures Going(s, record, first)
    ensures s.disk in {old(s.disk), if MustRestore(old(s.disk)) then Restore(old(s.disk)) else old(s.disk)}
    ensures ok ==> MustRestore(old(s.disk)) && s.disk == Restore(old(s.disk))
    ensures !s.fails ==> ok == MustRestore(old(s.disk))
  {
    ok := Rename(s, from, Target, record, first, RestoreEffect);
  }

  /** Rollback touches nothing at the path but the result it installed. */
  predicate Yields(target: Slot, record: Record) {
    target.None? || Proof(target, record.staged) || (IsDirectory(target) && SameIdentity(target, record.staged))
  }

  /** A creation: delete the result, if it is there to be seen. */
  method UndoCreate(s: Session, record: Record, ghost first: nat) returns (ok: bool)
    requires !s.misread && Going(s, record, first) && !Decided(record.phase) && record.Creates()
    modifies s`disk, s`trail, s`misread
    ensures Going(s, record, first) && Undone(old(s.disk), s.disk, ok, s.misread)
    ensures s.disk.target == old(s.disk).target || Yields(old(s.disk).target, record)
    ensures !s.fails ==> s.misread == old(s.misread) && (ok <==> MayConcludeRollback(RolledBackFrom(old(s.disk))))
  {
    var installed := s.Confirm(Proof(s.disk.target, record.staged));
    if installed {
      ok := RemoveResult(s, record, first);
    } else {
      var taken := s.Confirm(IsFile(s.disk.target));
      ok := !taken;
    }
  }

  /** An overwrite: delete the result and put the original back. */
  method UndoOverwrite(s: Session, record: Record, ghost first: nat) returns (ok: bool)
    requires !s.misread && Going(s, record, first) && !Decided(record.phase) && record.Overwrites()
    modifies s`disk, s`trail, s`misread
    ensures Going(s, record, first) && Undone(old(s.disk), s.disk, ok, s.misread)
    ensures s.disk.target == old(s.disk).target || Yields(old(s.disk).target, record)
    ensures !s.fails ==> s.misread == old(s.misread) && (ok <==> MayConcludeRollback(RolledBackFrom(old(s.disk))))
  {
    var original := s.Confirm(Proof(s.disk.quarantine, record.expected));
    if !original {
      ok := s.Confirm(Proof(s.disk.target, record.expected));
      return;
    }
    var installed := s.Confirm(Proof(s.disk.target, record.staged));
    if installed {
      ok := RemoveResult(s, record, first);
    } else {
      var taken := s.Confirm(IsFile(s.disk.target));
      ok := !taken;
    }
    if ok {
      ok := RestoreOriginal(s, record, Old, first);
    }
  }

  /** A deletion or a move: put the original back, if it is there to be seen. */
  method UndoAway(s: Session, record: Record, from: Entry, ghost first: nat) returns (ok: bool)
    requires !s.misread && Going(s, record, first) && !Decided(record.phase) && record.operation in {Delete, Move}
    requires from == if record.operation == Move then Destination else Stage
    requires record.operation == Move ==> record.destination.Some?
    modifies s`disk, s`trail, s`misread
    ensures Going(s, record, first) && Undone(old(s.disk), s.disk, ok, s.misread)
    ensures s.disk.target == old(s.disk).target || Yields(old(s.disk).target, record)
    ensures !s.fails ==> s.misread == old(s.misread) && (ok <==> MayConcludeRollback(RolledBackFrom(old(s.disk))))
  {
    var taken := s.Confirm(IsFile(s.disk.target));
    if taken {
      ok := s.Confirm(Proof(s.disk.target, record.expected));
      return;
    }
    var original := s.Confirm(Proof(s.disk.At(from), record.expected));
    ok := true;
    if original {
      ok := RestoreOriginal(s, record, from, first);
    }
  }

  method UndoDirectory(s: Session, record: Record, ghost first: nat) returns (ok: bool)
    requires !s.misread && Going(s, record, first) && !Decided(record.phase) && record.operation == MakeDirectory
    modifies s`disk, s`trail, s`misread
    ensures Going(s, record, first) && Undone(old(s.disk), s.disk, ok, s.misread)
    ensures s.disk.target == old(s.disk).target || Yields(old(s.disk).target, record)
    ensures !s.fails ==> s.misread == old(s.misread) && (ok <==> MayConcludeRollback(RolledBackFrom(old(s.disk))))
  {
    var directory := s.Confirm(IsDirectory(s.disk.target));
    ok := !directory || SameIdentity(s.disk.target, record.staged);
    if directory && ok {
      ok := RemoveResult(s, record, first);
    }
  }

  /** A rollback that goes on to persist `rolledBack` has undone what is visible, or has
      changed nothing because a read failed; to an overwrite that happens only with the
      original at its path. An undo that was due is left out exactly if a read failed. */
  predicate Undone(v: View, w: View, ok: bool, misread: bool)
    requires v.record.Some?
  {
    && w.record == v.record
    && (ok ==> || (MayConcludeRollback(w) && w == RolledBackFrom(v))
               || (misread && w == v && (v.record.value.Overwrites() ==> Proof(v.target, v.record.value.expected))))
    && (ok && MustUndo(v) && v.record.value.TellsApart() ==> (misread <==> w == v))
  }

  /** A rollback that replies Done has restored the old tree exactly when no read failed
      while there was something to undo. */
  lemma RestoredExactlyWhenSeen(p: View, v: View, w: View, misread: bool)
    requires PreparedView(p) && Inv(p, v) && !Decided(v.Phase()) && Undone(v, w, true, misread)
    ensures Before(p, w) <==> !(misread && MustUndo(v))
  {
    RollbackAlwaysRestores(p, v);
    NothingToUndoExactlyBefore(p, v);
    ClaimsTellApart(p, v);
  }

  lemma ClaimsTellApart(p: View, v: View)
    requires PreparedView(p) && Inv(p, v)
    ensures v.record.value.TellsApart()
  {
  }

  method UndoVisible(s: Session, record: Record, ghost first: nat) returns (ok: bool)
    requires !s.misread && Going(s, record, first) && !Decided(record.phase)
    modifies s`disk, s`trail, s`misread
    ensures Going(s, record, first)
    ensures Undone(old(s.disk), s.disk, ok, s.misread)
    ensures s.disk.target == old(s.disk).target || Yields(old(s.disk).target, record)
    ensures !s.fails ==> s.misread == old(s.misread) && (ok <==> MayConcludeRollback(RolledBackFrom(old(s.disk))))
  {
    match record.operation {
      case Write =>
        if record.expectMissing {
          ok := UndoCreate(s, record, first);
        } else {
          ok := UndoOverwrite(s, record, first);
        }
      case Delete => ok := UndoAway(s, record, Stage, first);
      case Move =>
        ok := false;
        if record.destination.Some? {
          ok := UndoAway(s, record, Destination, first);
        }
      case MakeDirectory => ok := UndoDirectory(s, record, first);
    }
  }

  /** Rollback deletes the installed result, puts the original back and records it. */
  method HandleRollback(s: Session, token: string) returns (reply: Reply)
    requires s.Valid()
    modifies s
    ensures s.Valid() && |old(s.trail)| <= |s.trail| && Steps(s.trail, |old(s.trail)| - 1)
    ensures old(s.Load(token)).None? ==> reply == Refused(InvalidPreparedReceipt) && s.disk == old(s.disk)
    ensures old(s.Load(token)).Some? && Decided(old(s.disk).Phase()) ==>
              && s.disk == old(s.disk) && (reply.Done? ==> old(s.disk).Phase() == RolledBack)
              && (!s.misread ==> reply == if old(s.disk).Phase() == RolledBack then Done else Refused(AlreadyCommitted))
              && (!s.fails ==> !s.misread)
    ensures old(s.Load(token)).Some? && !Decided(old(s.disk).Phase()) ==>
              var v, w := old(s.disk), RolledBackFrom(old(s.disk));
              && (reply.Done? ==> SaysRolledBack(s.disk) && Undone(v, s.disk.WithPhase(v.Phase()), true, s.misread))
              && (!s.fails ==> !s.misread && (reply.Done? <==> MayConcludeRollback(w)))
    // When it succeeds and what it leaves, entry by entry; at the path it touches nothing but
    // the result.
    ensures old(s.Load(token)).Some? && !Decided(old(s.disk).Phase()) ==>
              var v, r := old(s.disk), old(s.disk).record.value;
              var free := v.target.None? || Proof(v.target, r.staged);
              var goal :=
                match r.operation
                case Write =>
                  if r.expectMissing then
                    if Proof(v.target, r.staged) then Some(v.(target := None))
                    else if IsFile(v.target) then None else Some(v)
                  else if Proof(v.quarantine, r.expected) then
                    if free then Some(v.(target := v.quarantine, quarantine := None)) else None
                  else if Proof(v.target, r.expected) then Some(v) else None
                case Delete =>
                  if IsFile(v.target) then if Proof(v.target, r.expected) then Some(v) else None
                  else if !Proof(v.stage, r.expected) then Some(v)
                  else if v.target.None? then Some(v.(target := v.stage, stage := None)) else None
                case Move =>
                  if r.destination.None? then None
                  else if IsFile(v.target) then if Proof(v.target, r.expected) then Some(v) else None
                  else if !Proof(v.destination, r.expected) then Some(v)
                  else if v.target.None? then Some(v.(target := v.destination, destination := None)) else None
                case MakeDirectory =>
                  if !IsDirectory(v.target) then Some(v)
                  else if SameIdentity(v.target, r.staged) then Some(v.(target := None)) else None;
              && (s.disk.target == v.target || v.target.None? || Proof(v.target, r.staged)
                  || (IsDirectory(v.target) && SameIdentity(v.target, r.staged)))
              && (reply.Done? && !s.misread ==> goal.Some? && s.disk == goal.value.WithPhase(RolledBack))
              && (!s.fails ==> (reply.Done? <==> goal.Some?))
  {
    s.misread := false;
    ghost var first := |s.trail| - 1;
    var loaded := s.LoadState(token);
    if loaded.None? {
      return Refused(InvalidPreparedReceipt);
    }
    var record := loaded.value;
    if record.phase == RolledBack {
      return Done;
    }
    if record.phase == Committed {
      return Refused(AlreadyCommitted);
    }
    var ok := UndoVisible(s, record, first);
    if ok {
      ghost var effect := if MayConcludeRollback(s.disk) then ConcludeRollback else SkipRollback;
      ok, record := Persist(s, record, RolledBack, first, effect);
    }
    reply := if ok then Done else Refused(MutationIndeterminate);
  }

  // ---------------------------------------------------------------- cleanup and prepare

  /** The hidden entries are of the kind HandleCleanup opens. */
  predicate Cleanable(v: View)
    requires v.record.Some?
  {
    && (v.stage.Some? ==> v.stage.value.Directory? == (v.record.value.operation == MakeDirectory))
    && (v.backup.Some? ==> v.backup.value.File?) && (v.quarantine.Some? ==> v.quarantine.value.File?)
  }

  /** From `first` on nothing visible differs from `v`, and no state lacks the record
      while a hidden entry is left. */
  ghost predicate Cleaning(trail: seq<View>, first: nat, v: View) {
    forall i | first <= i < |trail| ::
      && SameVisible(trail[i], v)
      && (trail[i].record.None? ==> trail[i].NothingHidden())
  }

  ghost predicate CleanNext(v: View, w: View) {
    exists e :: Leads(v, e, w) && CleaningEffect(e)
  }

  /** Every pair of neighbours from `first` on is one effect of a permitted cleanup. */
  ghost predicate CleanSteps(trail: seq<View>, first: nat) {
    forall i | first <= i < |trail| - 1 :: CleanNext(trail[i], trail[i + 1])
  }

  lemma ExtendCleanly(before: seq<View>, first: nat, v: View, effect: Effect)
    requires first < |before| && CleanSteps(before, first)
    requires Leads(before[|before| - 1], effect, v) && CleaningEffect(effect)
    ensures CleanSteps(before + [v], first)
  {
    var trail := before + [v];
    forall i | first <= i < |trail| - 1
      ensures CleanNext(trail[i], trail[i + 1])
    {
      if i < |before| - 1 {
        assert CleanNext(before[i], before[i + 1]);
      } else {
        assert Leads(trail[i], effect, trail[i + 1]);
      }
    }
  }

  method RemoveIfPresent(s: Session, entry: Entry, directory: bool, ghost first: nat) returns (ok: bool)
    requires s.Valid() && first < |s.trail| && Cleaning(s.trail, first, s.disk)
    requires s.disk.record.Some? && entry in {Stage, Backup, Old}
    requires Settled(s.disk.Phase()) ==> CleanSteps(s.trail, first)
    modifies s`disk, s`trail, s`misread
    ensures s.Valid() && |old(s.trail)| <= |s.trail| && Cleaning(s.trail, first, s.disk)
    ensures s.disk in {old(s.disk), old(s.disk).With(entry, None)}
    ensures var slot := old(s.disk).At(entry);
            ok && !s.misread && (slot.Some? ==> slot.value.Directory? == directory) ==>
              s.disk == old(s.disk).With(entry, None)
    ensures Settled(s.disk.Phase()) ==> CleanSteps(s.trail, first)
    ensures (old(s.misread) ==> s.misread) && (!s.fails ==> s.misread == old(s.misread))
    ensures s.misread && !old(s.misread) ==> s.disk == old(s.disk) && s.disk.At(entry).Some?
    ensures !s.fails ==> ok
  {
    ok := true;
    var slot := s.disk.At(entry);
    var isThere := s.Confirm(slot.Some? && slot.value.Directory? == directory);
    if isThere {
      ok := s.DeleteNode(entry);
      if ok && Settled(s.disk.Phase()) {
        ExtendCleanly(old(s.trail), first, s.disk,
                      match entry case Stage => DropStage case Backup => DropBackup case _ => DropOld);
      }
    }
  }

  /** Stage, backup and `.old`, in this order. */
  method RemoveHidden(s: Session, record: Record, ghost first: nat) returns (ok: bool)
    requires s.Valid() && first < |s.trail| && Cleaning(s.trail, first, s.disk) && !s.misread
    requires s.disk.record == Some(record) && (Settled(record.phase) ==> CleanSteps(s.trail, first))
    modifies s`disk, s`trail, s`misread
    ensures s.Valid() && |old(s.trail)| <= |s.trail| && Cleaning(s.trail, first, s.disk)
    ensures s.disk.record == old(s.disk).record && SameVisible(s.disk, old(s.disk))
    ensures Settled(record.phase) ==> CleanSteps(s.trail, first)
    ensures ok && Cleanable(old(s.disk)) ==> (s.misread <==> !s.disk.NothingHidden())
    ensures !s.fails ==> ok && !s.misread
  {
    ok := RemoveIfPresent(s, Stage, record.operation == MakeDirectory, first);
    if ok {
      ok := RemoveIfPresent(s, Backup, false, first);
    }
    if ok {
      ok := RemoveIfPresent(s, Old, false, first);
    }
  }

  /** Cleanup never touches the visible tree and removes the record last. What it fails to
      open it leaves behind, and removes the record all the same: it reports success with
      something left exactly when it failed to see it. */
  method HandleCleanup(s: Session, token: string) returns (reply: Reply)
    requires s.Valid()
    modifies s
    ensures s.Valid() && |old(s.trail)| <= |s.trail| && SameVisible(old(s.disk), s.disk)
    ensures old(s.Load(token)).None? ==> s.disk == old(s.disk) && reply in {Done, Refused(InvalidPreparedReceipt)}
    ensures old(s.Load(token)).None? ==>
              && (reply.Done? ==> s.disk.record.None? && s.disk.NothingHidden())
              && (!s.fails ==> (reply.Done? <==> s.disk.record.None? && s.disk.NothingHidden()))
    ensures old(s.disk).record.Some? && Settled(old(s.disk).Phase()) ==> CleanSteps(s.trail, |old(s.trail)| - 1)
    ensures old(s.Load(token)).Some? && !s.fails ==> reply.Done? && !s.misread
    ensures old(s.Load(token)).Some? && reply.Done? ==> s.disk.record.None?
    ensures old(s.disk).record.Some? && Cleanable(old(s.disk)) && !s.misread ==>
              Cleaning(s.trail, |old(s.trail)| - 1, old(s.disk))
    ensures old(s.Load(token)).Some? && Cleanable(old(s.disk)) && reply.Done? ==>
              (s.misread <==> !s.disk.NothingHidden())
    ensures old(s.Load(token)).Some? && Cleanable(old(s.disk)) && reply.Done? && !s.misread ==>
              s.disk == View(None, old(s.disk).target, old(s.disk).destination, None, None, None)
  {
    s.misread := false;
    var loaded := s.LoadState(token);
    if loaded.None? {
      var missing := s.Confirm(s.disk.record.None? && s.disk.NothingHidden());
      return if missing then Done else Refused(InvalidPreparedReceipt);
    }
    ghost var first := |s.trail| - 1;
    var ok := RemoveHidden(s, loaded.value, first);
    if !ok {
      return Refused(MutationIndeterminate);
    }
    ghost var trail, effect := s.trail, if s.disk.NothingHidden() then DropRecord else DropBlindly;
    ok := s.DeleteState();
    if ok && Settled(loaded.value.phase) {
      ExtendCleanly(trail, first, s.disk, effect);
    }
    reply := if ok then Done else Refused(MutationIndeterminate);
  }

  /** No reachable state keeps cleanup from opening what it has to remove. */
  lemma CleanupIsNeverBlocked(p: View, v: View)
    requires PreparedView(p) && Inv(p, v)
    ensures Cleanable(v)
  {
    var shape :| shape in ShapesIn(v.record.value) && HasShape(p, v, shape);
  }

  /** Whatever a commit, reconcile or rollback makes durable, a process that stops there
      leaves a state from which the next call starts with the invariant again. */
  lemma {:induction false} StepsStayGood(p: View, trail: seq<View>, first: nat, i: nat)
    requires PreparedView(p) && Steps(trail, first) && first <= i < |trail|
    requires Inv(p, trail[first])
    ensures Inv(p, trail[i])
  {
    if first < i {
      StepsStayGood(p, trail, first, i - 1);
      var e := StepAt(trail, first, i - 1);
      Inductive(p, trail[i - 1], e);
    }
  }

  lemma StepAt(trail: seq<View>, first: nat, i: nat) returns (e: Effect)
    requires Steps(trail, first) && first <= i < |trail| - 1
    ensures Enabled(trail[i], e) && !CleaningEffect(e) && trail[i + 1] == Apply(trail[i], e)
  {
    assert Next(trail[i], trail[i + 1]);
    e :| Leads(trail[i], e, trail[i + 1]) && !CleaningEffect(e);
  }

  /** What the caller asks HandlePrepare to do; `bytes` is the content to write. */
  datatype Request = Request(
    operation: Operation,
    path: string,
    destination: Option<string>,
    expectMissing: bool,
    expected: Claim,
    bytes: Option<Digest>)

  /** The target is what the caller says it saw. A directory is expected without a hash. */
  predicate Expected(target: Slot, q: Request) {
    if q.expectMissing then target.None?
    else target.Some? && SameIdentity(target, q.expected)
         && if target.value.Directory? then q.expected.digest.None? else Proof(target, q.expected)
  }

  predicate Preparable(v: View, q: Request) {
    && (q.operation == Move) == q.destination.Some?
    && v.stage.None? && v.backup.None? && v.quarantine.None?
    && Expected(v.target, q)
    && match q.operation
       case Write => q.bytes.Some?
       case MakeDirectory => true
       case _ => IsFile(v.target)
  }

  /** What HandlePrepare writes into the hidden directory for a request: the staged
      result, or a copy of the target. `id` is the identity of the new entry. */
  function Staging(v: View, q: Request, token: string, id: Identity): View
    requires Preparable(v, q)
  {
    var r := Record(token, q.operation, q.path, q.destination, q.expectMissing, q.expected,
                    NO_CLAIM, NO_CLAIM, Prepared);
    match q.operation
    case Write =>
      var file := File(id, q.bytes.value);
      v.(stage := Some(file), record := Some(r.(staged := ClaimOf(file))))
    case MakeDirectory =>
      v.(stage := Some(Directory(id)), record := Some(r.(staged := Claim(Some(id), None))))
    case _ =>
      var file := File(id, v.target.value.digest);
      v.(backup := Some(file), record := Some(r.(backup := ClaimOf(file))))
  }

  /** WriteFileExact or CreateDirectoryW in the hidden directory: the new entry is `node`,
      or after a failed write a file of any content, which the handler deletes again. */
  method StageEntry(s: Session, entry: Entry, node: Node) returns (ok: bool)
    requires s.Valid() && entry in {Stage, Backup} && s.disk.At(entry).None?
    modifies s`disk, s`trail
    ensures s.Valid() && Hiding(s.trail, |old(s.trail)| - 1, s.disk) && old(s.trail) <= s.trail
    ensures ok ==> s.disk == old(s.disk).With(entry, Some(node))
    ensures !s.fails ==> ok
    ensures SameVisible(old(s.disk), s.disk) && s.disk.record == old(s.disk).record
  {
    ok := Attempt(s.fails);
    if !ok {
      return;
    }
    ok := Attempt(s.fails);
    var left := node;
    if !ok && node.File? {
      var torn: Digest := *;
      left := File(node.id, torn);
    }
    s.disk := s.disk.With(entry, Some(left));
    s.trail := s.trail + [s.disk];
    if !ok && node.File? {
      var deleted := s.DeleteNode(entry);
    }
  }

  /** From `first` on nothing visible differs from `v`. */
  ghost predicate Hiding(trail: seq<View>, first: nat, v: View) {
    forall i | first <= i < |trail| :: SameVisible(trail[i], v)
  }

  /** Prepare touches nothing visible. It refuses when a read fails. If nothing fails, it
      succeeds exactly when the request fits the session, and then leaves the staged entry
      and the record. */
  method HandlePrepare(s: Session, q: Request, token: string, id: Identity) returns (reply: Reply)
    requires s.Valid()
    modifies s`disk, s`trail
    ensures s.Valid() && old(s.trail) <= s.trail && Hiding(s.trail, |old(s.trail)| - 1, old(s.disk))
    ensures reply.Done? ==> Preparable(old(s.disk), q) && s.disk == Staging(old(s.disk), q, token, id)
    ensures !s.fails ==> (reply.Done? <==> Preparable(old(s.disk), q))
    ensures !s.fails && reply.Refused? ==> s.disk == old(s.disk)
    // What is staged, and what the record says of it and of the request.
    ensures reply.Done? ==>
              s.disk.record.Some? &&
              var v, r := old(s.disk), s.disk.record.value;
              && SameVisible(s.disk, v) && s.disk.quarantine.None?
              && r.token == token && r.operation == q.operation && r.path == q.path && r.destination == q.destination
              && r.expectMissing == q.expectMissing && r.expected == q.expected && r.phase == Prepared
              && match q.operation
                 case Write =>
                   && s.disk.backup.None? && q.bytes.Some? && s.disk.stage == Some(File(id, q.bytes.value))
                   && r.staged == Claim(Some(id), q.bytes)
                 case MakeDirectory =>
                   s.disk.backup.None? && s.disk.stage == Some(Directory(id)) && r.staged.id == Some(id)
                 case _ =>
                   && s.disk.stage.None? && IsFile(v.target) && s.disk.backup == Some(File(id, v.target.value.digest))
                   && r.backup == Claim(Some(id), Some(v.target.value.digest))
    // When it succeeds, from the entries and the request alone.
    ensures !s.fails ==>
              var v := old(s.disk);
              (reply.Done? <==>
                && v.stage.None? && v.backup.None? && v.quarantine.None?
                && (q.operation == Move <==> q.destination.Some?) && (q.operation == Write ==> q.bytes.Some?)
                && match v.target
                   case None => q.expectMissing && q.operation in {Write, MakeDirectory}
                   case Some(File(at, digest)) => !q.expectMissing && q.expected == Claim(Some(at), Some(digest))
                   case Some(Directory(at)) =>
                     !q.expectMissing && q.expected == Claim(Some(at), None) && q.operation in {Write, MakeDirectory})
  {
    if (q.operation == Move) != q.destination.Some? {
      return Refused(InvalidArgument);
    }
    var read := Attempt(s.fails);
    if !read {
      return Refused(StaleTarget);
    }
    if s.disk.stage.Some? || s.disk.backup.Some? || s.disk.quarantine.Some? {
      return Refused(OperationExists);
    }
    if !Expected(s.disk.target, q) {
      return Refused(StaleTarget);
    }
    if q.operation == Write && q.bytes.None? {
      return Refused(MutationIndeterminate);
    }
    if q.operation in {Move, Delete} && !IsFile(s.disk.target) {
      return Refused(if IsDirectory(s.disk.target) then Unsupported else StaleTarget);
    }
    ghost var v := s.disk;
    var next := Staging(s.disk, q, token, id);
    var entry := if q.operation in {Write, MakeDirectory} then Stage else Backup;
    var ok := StageEntry(s, entry, next.At(entry).value);
    if !ok {
      return Refused(MutationIndeterminate);
    }
    ok := s.Save(next.record.value);
    if ok {
      return Done;
    }
    if s.disk.At(entry).Some? {
      var deleted := s.DeleteNode(entry);
    }
    reply := Refused(MutationIndeterminate);
  }

  /** The record and the entry HandlePrepare leaves start the protocol: the invariant
      holds, nothing visible changed, and a commit can go through unless the result's
      place is taken. */
  lemma PreparedStartsTheProtocol(v: View, q: Request, token: string, id: Identity)
    requires Preparable(v, q) && (q.destination.None? ==> v.destination.None?)
    requires (v.target.Some? ==> v.target.value.id != id) && (v.destination.Some? ==> v.destination.value.id != id)
    ensures PreparedView(Staging(v, q, token, id)) && Inv(Staging(v, q, token, id), Staging(v, q, token, id))
    ensures Before(v, Staging(v, q, token, id))
    ensures Committable(Staging(v, q, token, id))
       <==> match q.operation
            case Write => !IsDirectory(v.target)
            case Delete => true
            case Move => v.destination.None?
            case MakeDirectory => v.target.None?
    ensures Committable(Staging(v, q, token, id)) ==>
              After(Staging(v, q, token, id), Finished(Staging(v, q, token, id)))
  {
    PreparedIsGood(Staging(v, q, token, id));
  }
}
