/** The handlers of the Linux runner, step by step over the disk of a session. */
module LinuxHandlers {
  import opened Records
  import opened Runners
  import opened Volumes
  import opened LinuxProtocol
  import opened LinuxSession

  /** Persist a phase as the given effect of the protocol. */
  method Persist(s: Session, record: Record, phase: Phase, ghost first: nat, ghost effect: Effect, ghost alone: bool)
    returns (ok: bool, next: Record)
    requires s.Valid() && first < |s.trail|
    requires s.disk.record == Some(record)
    requires alone ==> Steps(s.trail, first)
    requires alone ==> Permitted(s.disk, effect) && Apply(s.disk, effect) == s.disk.WithPhase(phase)
    modifies s`disk, s`trail
    ensures next == record.(phase := phase)
    ensures s.Valid() && old(s.trail) <= s.trail
    ensures s.disk == old(s.disk) || s.disk == old(s.disk).WithPhase(phase)
    ensures alone ==> Steps(s.trail, first)
    ensures ok ==> s.disk == old(s.disk).WithPhase(phase)
    ensures !s.fails ==> (ok <==> Forward(record.phase, phase)) && (!ok ==> s.disk == old(s.disk))
  {
    next := record.(phase := phase);
    ok := s.Save(next);
    if alone && s.trail != old(s.trail) {
      Extend(old(s.trail), first, s.disk, effect);
    }
  }

  /** What HandleCommit's part for one operation promises, other writers included. */
  twostate predicate Committing(s: Session, record: Record, first: nat, reply: Reply)
    requires old(s.disk).record == Some(record)
    reads s
  {
    var v := old(s.disk).With(Target, s.theirs);
    && s.Valid() && first < |s.trail| && old(s.trail) <= s.trail
    && (s.quiet ==> s.theirs == old(s.disk).target && Steps(s.trail, first))
    // The rename moved exactly what it was meant to move, whatever others did before it.
    && (reply.Done? ==>
          && MayBegin(v) && MayRename(v)
          && s.disk == Rename(v).WithPhase(InFlight(record)))
    // A commit that gives up leaves every entry as others left it.
    && (reply.Refused? && !s.fails ==> s.disk in {v, v.WithPhase(InFlight(record))})
    && (s.quiet && !s.fails ==> (reply.Done? <==> MayBegin(old(s.disk)) && MayRename(old(s.disk))))
  }

  /** Persist the in-flight phase; from then on others may change the path. */
  method Announce(s: Session, record: Record, ghost first: nat) returns (ok: bool, next: Record)
    requires s.Valid() && first < |s.trail| && s.theirs == s.disk.target
    requires s.disk.record == Some(record) && record.phase == Prepared
    requires s.quiet ==> Steps(s.trail, first) && MayBegin(s.disk)
    modifies s
    ensures next == record.(phase := InFlight(record))
    ensures s.Valid() && first < |s.trail| && old(s.trail) <= s.trail && (s.quiet ==> Steps(s.trail, first))
    ensures ok ==> s.disk == old(s.disk).WithPhase(InFlight(record)).With(Target, s.theirs)
    ensures !ok ==> s.theirs == old(s.theirs) && s.disk in {old(s.disk), old(s.disk).WithPhase(InFlight(record))}
    ensures s.quiet ==> s.theirs == old(s.theirs)
    ensures !s.fails ==> ok
  {
    ok, next := Persist(s, record, InFlight(record), first, BeginCommit, s.quiet);
    if ok {
      s.GiveWay();
    }
  }

  /** The displaced original is not the expected one, or cannot be read: swap it back. */
  method ExchangeBack(s: Session, ghost first: nat)
    requires s.Valid() && first < |s.trail| && s.disk.record.Some?
    requires s.quiet ==> Steps(s.trail, first) && Exchanged(s.disk)
    modifies s`disk, s`trail
    ensures s.Valid() && first < |s.trail| && old(s.trail) <= s.trail && (s.quiet ==> Steps(s.trail, first))
    ensures !s.fails && old(s.disk).stage.Some? && old(s.disk).target.Some? ==>
              s.disk == old(s.disk).(stage := old(s.disk).target, target := old(s.disk).stage)
  {
    var ok := s.Exchange(Stage, Target);
    if ok && s.quiet {
      Extend(old(s.trail), first, s.disk, UndoEffect);
    }
  }

  /** The same for a file that was moved away. */
  method MoveBack(s: Session, from: Entry, ghost first: nat)
    requires s.Valid() && first < |s.trail| && s.disk.record.Some? && from in {Stage, Destination}
    requires from == if s.disk.record.value.operation == Delete then Stage else Destination
    requires s.quiet ==> Steps(s.trail, first) && MustUndo(s.disk) && !Settled(s.disk.Phase())
                         && s.disk.record.value.operation in {Delete, Move}
    modifies s`disk, s`trail
    ensures s.Valid() && first < |s.trail| && old(s.trail) <= s.trail && (s.quiet ==> Steps(s.trail, first))
    ensures !s.fails && old(s.disk).At(from).Some? && old(s.disk).target.None? ==>
              s.disk == old(s.disk).(target := old(s.disk).At(from)).With(from, None)
  {
    var ok := s.RenameNoReplace(from, Target);
    if ok && s.quiet {
      Extend(old(s.trail), first, s.disk, UndoEffect);
    }
  }

  method CommitOverwrite(s: Session, record: Record, ghost first: nat) returns (reply: Reply, next: Record)
    requires s.Valid() && first < |s.trail| && s.theirs == s.disk.target
    requires s.disk.record == Some(record) && record.phase == Prepared
    requires record.operation == Write && !record.expectMissing
    requires s.quiet ==> Steps(s.trail, first)
    modifies s
    ensures Committing(s, record, first, reply)
    ensures reply.Done? ==> next == record.(phase := InFlight(record))
    ensures reply.Done? ==> Proof(s.theirs, record.expected) && s.disk.stage == s.theirs
    ensures reply.Done? ==> s.disk.target == old(s.disk).stage && SameIdentity(s.disk.target, record.staged)
    ensures reply == Refused(StaleTarget) ==> s.disk == old(s.disk)
    ensures !s.fails && IsFile(old(s.disk).stage) && SameIdentity(old(s.disk).stage, record.staged) ==>
              (reply == Refused(StaleTarget) <==> !Proof(old(s.disk).target, record.expected))
  {
    next := record;
    var ok := s.Confirm(IsFile(s.disk.stage) && SameIdentity(s.disk.stage, record.staged));
    if !ok {
      return Refused(MutationIndeterminate), next;
    }
    ok := s.Confirm(Proof(s.disk.target, record.expected));
    if !ok {
      return Refused(StaleTarget), next;
    }
    ok, next := Announce(s, record, first);
    if !ok {
      return Refused(MutationIndeterminate), next;
    }
    ghost var trail := s.trail;
    ok := s.Exchange(Stage, Target);
    if ok && s.quiet {
      Extend(trail, first, s.disk, RenameEffect);
    }
    var flushed := Attempt(s.fails);
    if !ok || !flushed {
      return Refused(MutationIndeterminate), next;
    }
    ok := s.Confirm(Proof(s.disk.stage, record.expected));
    if !ok {
      ExchangeBack(s, first);
      return Refused(MutationIndeterminate), next;
    }
    return Done, next;
  }

  method CommitCreate(s: Session, record: Record, ghost first: nat) returns (reply: Reply, next: Record)
    requires s.Valid() && first < |s.trail| && s.theirs == s.disk.target
    requires s.disk.record == Some(record) && record.phase == Prepared
    requires record.operation == Write && record.expectMissing
    requires s.quiet ==> Steps(s.trail, first)
    modifies s
    ensures Committing(s, record, first, reply)
    ensures reply.Done? ==> next == record.(phase := InFlight(record))
    ensures reply.Done? ==> s.theirs.None? && s.disk.stage.None?
    ensures reply.Done? ==> s.disk.target == old(s.disk).stage && SameIdentity(s.disk.target, record.staged)
    ensures reply == Refused(StaleTarget) ==> s.disk == old(s.disk)
    ensures !s.fails && IsFile(old(s.disk).stage) && SameIdentity(old(s.disk).stage, record.staged) ==>
              (reply == Refused(StaleTarget) <==> IsFile(old(s.disk).target))
  {
    next := record;
    var ok := s.Confirm(IsFile(s.disk.stage) && SameIdentity(s.disk.stage, record.staged));
    if !ok {
      return Refused(MutationIndeterminate), next;
    }
    ok := s.Confirm(IsFile(s.disk.target));
    if ok {
      return Refused(StaleTarget), next;
    }
    ok, next := Announce(s, record, first);
    if !ok {
      return Refused(MutationIndeterminate), next;
    }
    ghost var trail := s.trail;
    ok := s.RenameNoReplace(Stage, Target);
    if ok && s.quiet {
      Extend(trail, first, s.disk, RenameEffect);
    }
    var flushed := Attempt(s.fails);
    reply := if ok && flushed then Done else Refused(MutationIndeterminate);
  }

  method CommitDelete(s: Session, record: Record, ghost first: nat) returns (reply: Reply, next: Record)
    requires s.Valid() && first < |s.trail| && s.theirs == s.disk.target
    requires s.disk.record == Some(record) && record.phase == Prepared
    requires record.operation == Delete
    requires s.quiet ==> Steps(s.trail, first)
    modifies s
    ensures Committing(s, record, first, reply)
    ensures reply.Done? ==> next == record.(phase := InFlight(record))
    ensures reply.Done? ==> Proof(s.disk.stage, record.expected) && s.disk.stage == s.theirs && s.disk.target.None?
    ensures !s.fails && !Proof(old(s.disk).target, record.expected) ==> reply.Refused? && s.disk == old(s.disk)
  {
    next := record;
    var ok := s.Confirm(Proof(s.disk.target, record.expected));
    if !ok {
      return Refused(MutationIndeterminate), next;
    }
    ok, next := Announce(s, record, first);
    if !ok {
      return Refused(MutationIndeterminate), next;
    }
    ghost var trail := s.trail;
    ok := s.RenameNoReplace(Target, Stage);
    if ok && s.quiet {
      Extend(trail, first, s.disk, RenameEffect);
    }
    var flushed := Attempt(s.fails);
    if !ok || !flushed {
      return Refused(MutationIndeterminate), next;
    }
    ok := s.Confirm(Proof(s.disk.stage, record.expected));
    if !ok {
      MoveBack(s, Stage, first);
      return Refused(MutationIndeterminate), next;
    }
    return Done, next;
  }

  method CommitMove(s: Session, record: Record, ghost first: nat) returns (reply: Reply, next: Record)
    requires s.Valid() && first < |s.trail| && s.theirs == s.disk.target
    requires s.disk.record == Some(record) && record.phase == Prepared
    requires record.operation == Move
    requires s.quiet ==> Steps(s.trail, first)
    modifies s
    ensures Committing(s, record, first, reply)
    ensures reply.Done? ==> next == record.(phase := InFlight(record))
    ensures reply.Done? ==> Proof(s.disk.destination, record.expected) && s.disk.destination == s.theirs
    ensures reply.Done? ==> s.disk.target.None? && old(s.disk).destination.None?
    ensures !s.fails && !Proof(old(s.disk).target, record.expected) ==> reply.Refused? && s.disk == old(s.disk)
  {
    next := record;
    var ok := s.Confirm(record.destination.Some? && Proof(s.disk.target, record.expected));
    if !ok {
      return Refused(MutationIndeterminate), next;
    }
    ok, next := Announce(s, record, first);
    if !ok {
      return Refused(MutationIndeterminate), next;
    }
    ghost var trail := s.trail;
    ok := s.RenameNoReplace(Target, Destination);
    if ok && s.quiet {
      Extend(trail, first, s.disk, RenameEffect);
    }
    var flushed := Attempt(s.fails);
    if !ok || !flushed {
      return Refused(MutationIndeterminate), next;
    }
    ok := s.Confirm(Proof(s.disk.destination, record.expected));
    if !ok {
      MoveBack(s, Destination, first);
      return Refused(MutationIndeterminate), next;
    }
    return Done, next;
  }

  method CommitDirectory(s: Session, record: Record, ghost first: nat) returns (reply: Reply, next: Record)
    requires s.Valid() && first < |s.trail| && s.theirs == s.disk.target
    requires s.disk.record == Some(record) && record.phase == Prepared
    requires record.operation == MakeDirectory
    requires s.quiet ==> Steps(s.trail, first)
    modifies s
    ensures Committing(s, record, first, reply)
    ensures reply.Done? ==> next == record.(phase := InFlight(record))
    ensures reply.Done? ==> s.theirs.None? && s.disk.stage.None?
    ensures reply.Done? ==> s.disk.target == old(s.disk).stage && IsDirectory(s.disk.target)
    ensures reply.Done? ==> SameIdentity(s.disk.target, record.staged)
    ensures !s.fails && !(IsDirectory(old(s.disk).stage) && SameIdentity(old(s.disk).stage, record.staged)) ==>
              reply.Refused? && s.disk == old(s.disk)
  {
    next := record;
    var ok := s.Confirm(IsDirectory(s.disk.stage) && SameIdentity(s.disk.stage, record.staged));
    if !ok {
      return Refused(MutationIndeterminate), next;
    }
    ok, next := Announce(s, record, first);
    if !ok {
      return Refused(MutationIndeterminate), next;
    }
    ghost var trail := s.trail;
    ok := s.RenameNoReplace(Stage, Target);
    if ok && s.quiet {
      Extend(trail, first, s.disk, RenameEffect);
    }
    var flushed := Attempt(s.fails);
    reply := if ok && flushed then Done else Refused(MutationIndeterminate);
  }

  method MakeVisible(s: Session, record: Record, ghost first: nat) returns (reply: Reply, next: Record)
    requires s.Valid() && first < |s.trail| && s.theirs == s.disk.target
    requires s.disk.record == Some(record) && record.phase == Prepared
    requires s.quiet ==> Steps(s.trail, first)
    modifies s
    ensures Committing(s, record, first, reply)
    ensures reply.Done? ==> next == record.(phase := InFlight(record))
  {
    match record.operation {
      case Write =>
        if record.expectMissing {
          reply, next := CommitCreate(s, record, first);
        } else {
          reply, next := CommitOverwrite(s, record, first);
        }
      case Delete => reply, next := CommitDelete(s, record, first);
      case Move => reply, next := CommitMove(s, record, first);
      case MakeDirectory => reply, next := CommitDirectory(s, record, first);
    }
  }

  /** Commit is a compare-and-swap on the path. If it reports success, the entry it
      displaced is the expected one, whatever others did up to the rename; if it gives up,
      the entry others left is still at the path. Alone, it takes only steps of the
      protocol, and without failures it succeeds exactly when the checks allow it. */
  method HandleCommit(s: Session, token: string) returns (reply: Reply)
    requires s.Valid()
    modifies s
    ensures s.Valid() && old(s.trail) <= s.trail
    ensures s.quiet ==> Steps(s.trail, |old(s.trail)| - 1)
    ensures old(s.Load(token)).None? ==> reply == Refused(InvalidPreparedReceipt) && s.disk == old(s.disk)
    ensures old(s.Load(token)).Some? && old(s.disk).Phase() != Prepared ==>
              && s.disk == old(s.disk)
              && (reply.Done? ==> old(s.disk).Phase() == Committed)
              && (!s.fails ==>
                    reply == if old(s.disk).Phase() == Committed then Done else Refused(InvalidPreparedReceipt))
    ensures old(s.Load(token)).Some? && old(s.disk).Phase() == Prepared ==>
              var v := old(s.disk).With(Target, s.theirs);
              && (s.quiet ==> v == old(s.disk))
              && (reply.Done? ==> MayBegin(v) && MayRename(v) && s.disk == Rename(v).WithPhase(Committed))
              && (reply.Refused? && !s.fails ==> s.disk in {v, v.WithPhase(InFlight(v.record.value))})
              && (s.quiet && !s.fails ==> (reply.Done? <==> MayBegin(v) && MayRename(v)))
    // What success means, entry by entry, whoever else wrote before the rename.
    ensures old(s.Load(token)).Some? && old(s.disk).Phase() == Prepared && reply.Done? ==>
              var v, r := old(s.disk), old(s.disk).record.value;
              && s.disk.record == Some(r.(phase := Committed)) && s.disk.backup == v.backup
              && match r.operation
                 case Write =>
                   && SameIdentity(v.stage, r.staged) && s.disk.target == v.stage && IsFile(v.stage)
                   && s.disk.stage == s.theirs && s.disk.destination == v.destination
                   && (if r.expectMissing then s.theirs.None? else Proof(s.theirs, r.expected))
                 case Delete =>
                   && Proof(s.theirs, r.expected) && s.disk.stage == s.theirs && v.stage.None?
                   && s.disk.target.None? && s.disk.destination == v.destination
                 case Move =>
                   && Proof(s.theirs, r.expected) && s.disk.destination == s.theirs && v.destination.None?
                   && s.disk.target.None? && s.disk.stage == v.stage
                 case MakeDirectory =>
                   && SameIdentity(v.stage, r.staged) && s.disk.target == v.stage && IsDirectory(v.stage)
                   && s.theirs.None? && s.disk.stage.None? && s.disk.destination == v.destination
    // When it comes, if nobody else writes and nothing fails.
    ensures old(s.Load(token)).Some? && old(s.disk).Phase() == Prepared && s.quiet && !s.fails ==>
              var v, r := old(s.disk), old(s.disk).record.value;
              (reply.Done? <==>
                match r.operation
                case Write =>
                  && IsFile(v.stage) && SameIdentity(v.stage, r.staged)
                  && (if r.expectMissing then v.target.None? else Proof(v.target, r.expected))
                case Delete => Proof(v.target, r.expected) && v.stage.None?
                case Move => r.destination.Some? && Proof(v.target, r.expected) && v.destination.None?
                case MakeDirectory => IsDirectory(v.stage) && SameIdentity(v.stage, r.staged) && v.target.None?)
  {
    s.theirs := s.disk.target;
    ghost var first := |s.trail| - 1;
    var loaded := s.LoadState(token);
    if loaded.None? {
      return Refused(InvalidPreparedReceipt);
    }
    var record := loaded.value;
    if record.phase == Committed {
      return Done;
    }
    if record.phase != Prepared {
      return Refused(InvalidPreparedReceipt);
    }
    var next;
    reply, next := MakeVisible(s, record, first);
    if reply.Done? {
      var ok;
      ok, next := Persist(s, next, Committed, first, ConcludeCommit, s.quiet);
      if !ok {
        return Refused(MutationIndeterminate);
      }
    }
  }

  /** What is seen supports the answer; `indeterminate` needs no support. */
  predicate Supported(v: View, answer: Answer)
    requires v.record.Some?
  {
    match answer
    case AnsweredRolledBack => v.Phase() == RolledBack
    case AnsweredCommitted => v.Phase() != RolledBack && EffectSeen(v)
    case AnsweredNotCommitted => v.Phase() != RolledBack && UntouchedSeen(v)
    case AnsweredIndeterminate => v.Phase() != RolledBack
  }

  /** Whether the operation is seen to have happened. */
  method SeesEffect(s: Session, record: Record) returns (committed: bool)
    requires s.Valid() && s.disk.record == Some(record)
    modifies s`misread
    ensures s.Valid()
    ensures committed ==> EffectSeen(s.disk)
    ensures !s.misread || !s.fails ==> committed == EffectSeen(s.disk)
    ensures !s.fails ==> s.misread == old(s.misread)
  {
    match record.operation {
      case Write => committed := s.Confirm(Proof(s.disk.target, record.staged));
      case Delete =>
        committed := s.Confirm(s.disk.target.None?);
        if committed {
          committed := s.Confirm(Proof(s.disk.stage, record.expected));
        }
      case Move =>
        committed := s.Confirm(s.disk.target.None?);
        if committed {
          committed := s.Confirm(record.destination.Some? && Proof(s.disk.destination, record.expected));
        }
      case MakeDirectory =>
        committed := s.Confirm(IsDirectory(s.disk.target) && SameIdentity(s.disk.target, record.staged));
    }
  }

  /** Reconcile answers for the state it finds, and turns a finished operation's record
      into `committed`. If a read fails it may answer `indeterminate`, but no answer
      without the evidence for it. */
  method HandleReconcile(s: Session, token: string) returns (reply: Reconciliation)
    requires s.Valid()
    modifies s
    ensures s.Valid() && old(s.trail) <= s.trail && Steps(s.trail, |old(s.trail)| - 1)
    ensures old(s.Load(token)).None? ==> reply == NotAnswered(InvalidPreparedReceipt) && s.disk == old(s.disk)
    ensures old(s.Load(token)).Some? ==>
              && (reply.Answered? ==> Supported(old(s.disk), reply.answer))
              && (reply.Answered? && !s.misread ==> reply.answer == Reconciled(old(s.disk)))
              && (!s.fails ==> reply.Answered? && !s.misread)
              && (if reply == Answered(AnsweredCommitted) then s.disk == old(s.disk).WithPhase(Committed)
                  else s.disk in {old(s.disk), old(s.disk).WithPhase(Committed)})
              && (Reconciled(old(s.disk)) != AnsweredCommitted ==> s.disk == old(s.disk))
    // What each answer says of the entries.
    ensures old(s.Load(token)).Some? && old(s.disk).Phase() != RolledBack && reply.Answered? ==>
              var v, r := old(s.disk), old(s.disk).record.value;
              var happened :=
                match r.operation
                case Write => Proof(v.target, r.staged)
                case Delete => v.target.None? && Proof(v.stage, r.expected)
                case Move => v.target.None? && r.destination.Some? && Proof(v.destination, r.expected)
                case MakeDirectory => IsDirectory(v.target) && SameIdentity(v.target, r.staged);
              var untouched := if r.expectMissing then v.target.None? else Proof(v.target, r.expected);
              && (reply.answer == AnsweredCommitted ==> happened)
              && (reply.answer == AnsweredNotCommitted ==> untouched)
              && (!s.misread ==> (reply.answer == AnsweredCommitted <==> happened))
              && (!s.misread ==> (reply.answer == AnsweredNotCommitted <==> untouched && !happened))
  {
    s.misread := false;
    var loaded := s.LoadState(token);
    if loaded.None? {
      return NotAnswered(InvalidPreparedReceipt);
    }
    var record := loaded.value;
    if record.phase == RolledBack {
      return Answered(AnsweredRolledBack);
    }
    var committed := SeesEffect(s, record);
    if committed {
      if record.phase != Committed {
        ghost var first := |s.trail| - 1;
        var ok, _ := Persist(s, record, Committed, first, ConcludeCommit, true);
        if !ok {
          return NotAnswered(MutationIndeterminate);
        }
      }
      return Answered(AnsweredCommitted);
    }
    var untouched := if record.expectMissing then s.disk.target.None? else Proof(s.disk.target, record.expected);
    var before := s.Confirm(untouched);
    return Answered(if before then AnsweredNotCommitted else AnsweredIndeterminate);
  }

  /** What rollback of an overwrite does with what it sees; anything unclear it refuses. */
  method UndoOverwrite(s: Session, record: Record) returns (ok: bool)
    requires s.Valid() && s.disk.record == Some(record) && record.Overwrites()
    modifies s`disk, s`trail, s`misread
    ensures s.Valid() && (s.trail == old(s.trail) || s.trail == old(s.trail) + [s.disk])
    ensures s.trail == old(s.trail) ==> s.disk == old(s.disk)
    ensures s.trail != old(s.trail) ==> MustUndo(old(s.disk)) && s.disk == Undo(old(s.disk))
    ensures ok ==> s.trail != old(s.trail) || Proof(s.disk.target, record.expected)
    ensures ok && !old(s.misread) && MustUndo(old(s.disk)) && record.TellsApart() ==>
              !s.misread && s.trail != old(s.trail)
    ensures ok && !s.misread && MustUndo(old(s.disk)) ==> s.trail != old(s.trail)
    ensures !s.fails ==> s.misread == old(s.misread)
                         && (ok <==> MustUndo(old(s.disk)) || Proof(old(s.disk).target, record.expected))
  {
    var current := s.OpenFile(Target);
    var resultPresent, original := false, false;
    if current.Some? {
      resultPresent := s.Confirm(Proof(current, record.staged));
    }
    if resultPresent || current.None? {
      original := s.Confirm(Proof(s.disk.stage, record.expected));
    }
    if resultPresent && original {
      ok := s.Exchange(Stage, Target);
    } else if current.None? && original {
      ok := s.RenameNoReplace(Stage, Target);
    } else if current.Some? {
      ok := s.Confirm(Proof(current, record.expected));
    } else {
      ok := false;
    }
  }

  /** What rollback of anything else does: an undo it sees no need for it skips. */
  method UndoOther(s: Session, record: Record) returns (ok: bool)
    requires s.Valid() && s.disk.record == Some(record) && !record.Overwrites()
    requires record.operation == Move ==> record.destination.Some?
    modifies s`disk, s`trail, s`misread
    ensures s.Valid() && (s.trail == old(s.trail) || s.trail == old(s.trail) + [s.disk])
    ensures s.trail == old(s.trail) ==> s.disk == old(s.disk)
    ensures s.trail != old(s.trail) ==> MustUndo(old(s.disk)) && s.disk == Undo(old(s.disk))
    ensures ok && !old(s.misread) && MustUndo(old(s.disk)) ==> (s.misread <==> s.trail == old(s.trail))
    ensures old(s.misread) ==> s.misread
    ensures !s.fails ==> s.misread == old(s.misread) && ok
  {
    var seen;
    match record.operation {
      case Write =>
        seen := s.Confirm(Proof(s.disk.target, record.staged));
        ok := !seen;
        if seen {
          ok := s.Unlink(Target, false);
        }
      case Delete =>
        seen := s.Confirm(s.disk.target.None?);
        if seen {
          seen := s.Confirm(Proof(s.disk.stage, record.expected));
        }
        ok := !seen;
        if seen {
          ok := s.RenameNoReplace(Stage, Target);
        }
      case Move =>
        seen := s.Confirm(s.disk.target.None?);
        if seen {
          seen := s.Confirm(Proof(s.disk.destination, record.expected));
        }
        ok := !seen;
        if seen {
          ok := s.RenameNoReplace(Destination, Target);
        }
      case MakeDirectory =>
        seen := s.Confirm(IsDirectory(s.disk.target) && SameIdentity(s.disk.target, record.staged));
        ok := !seen;
        if seen {
          ok := s.Unlink(Target, true);
        }
    }
  }

  /** Take back the visible effect, if one is seen. */
  method UndoVisible(s: Session, record: Record, ghost first: nat) returns (reply: Reply)
    requires s.Valid() && first < |s.trail| && Steps(s.trail, first)
    requires s.disk.record == Some(record) && !Settled(record.phase)
    modifies s`disk, s`trail, s`misread
    ensures s.Valid() && old(s.trail) <= s.trail && Steps(s.trail, first)
    ensures s.disk == old(s.disk) || (MustUndo(old(s.disk)) && s.disk == Undo(old(s.disk)))
    ensures reply.Done? && (MustUndo(old(s.disk)) ==> s.disk == Undo(old(s.disk))) ==> MayConcludeRollback(s.disk)
    // An undo that is due is skipped if and only if a read failed, and never of an overwrite.
    ensures reply.Done? && !MayConcludeRollback(s.disk) ==>
              s.misread && s.disk == old(s.disk) && MustUndo(s.disk) && !record.Overwrites()
    ensures reply.Done? && !s.misread && MustUndo(old(s.disk)) ==> s.disk == Undo(old(s.disk))
    ensures reply.Done? && !old(s.misread) && MustUndo(old(s.disk)) && record.TellsApart() && s.misread ==>
              s.disk == old(s.disk) && !record.Overwrites()
    ensures !s.fails ==> s.misread == old(s.misread)
                         && (reply.Done? <==> MustUndo(old(s.disk)) || MayConcludeRollback(old(s.disk)))
  {
    ghost var trail := s.trail;
    if record.operation == Move && record.destination.None? {
      return Refused(InvalidPreparedReceipt);
    }
    var ok;
    if record.Overwrites() {
      ok := UndoOverwrite(s, record);
    } else {
      ok := UndoOther(s, record);
    }
    if s.trail != trail {
      Extend(trail, first, s.disk, UndoEffect);
    }
    if !ok {
      return Refused(MutationIndeterminate);
    }
    ok := Attempt(s.fails);
    reply := if ok then Done else Refused(MutationIndeterminate);
  }

  /** Persist `rolledBack`, be it true or not. */
  method ConcludeUndo(s: Session, record: Record, ghost first: nat) returns (ok: bool)
    requires s.Valid() && first < |s.trail| && Steps(s.trail, first)
    requires s.disk.record == Some(record) && !Decided(record.phase)
    requires MayConcludeRollback(s.disk) || Skips(s.disk, s.disk.WithPhase(RolledBack))
    modifies s`disk, s`trail
    ensures s.Valid() && old(s.trail) <= s.trail && LooseSteps(s.trail, first)
    ensures MayConcludeRollback(old(s.disk)) ==> Steps(s.trail, first)
    ensures s.disk in {old(s.disk), old(s.disk).WithPhase(RolledBack)}
    ensures ok ==> s.disk == old(s.disk).WithPhase(RolledBack)
    ensures !s.fails ==> ok
  {
    ghost var trail := s.trail;
    ok := s.Save(record.(phase := RolledBack));
    if s.trail != trail {
      if MayConcludeRollback(old(s.disk)) {
        Extend(trail, first, s.disk, ConcludeRollback);
      }
      ExtendLoosely(trail, first, s.disk);
    }
  }

  /** What HandleRollback does to the visible tree, if it sees what is there. */
  function RolledBackFrom(v: View): View
    requires v.record.Some?
  {
    if v.Phase() != Prepared && MustUndo(v) then Undo(v) else v
  }

  /** What a rollback that replies Done makes of an undecided operation: it undoes what is
      visible and records it, or skips an undo that is due and records it all the same.
      The second happens exactly if a read failed. */
  predicate RollbackLeaves(v: View, w: View, misread: bool)
    requires v.record.Some?
  {
    && (|| (MayConcludeRollback(RolledBackFrom(v)) && w == RolledBackFrom(v).WithPhase(RolledBack))
        || (misread && Skips(v, w)))
    && (MustUndo(v) && v.record.value.TellsApart() ==> (misread <==> Skips(v, w)))
  }

  /** Rollback of an undecided operation undoes what is visible and then records it;
      repeated, it changes nothing. */
  method HandleRollback(s: Session, token: string) returns (reply: Reply)
    requires s.Valid()
    modifies s
    ensures s.Valid() && old(s.trail) <= s.trail && LooseSteps(s.trail, |old(s.trail)| - 1)
    ensures !s.misread ==> Steps(s.trail, |old(s.trail)| - 1)
    ensures old(s.Load(token)).None? ==> reply == Refused(InvalidPreparedReceipt) && s.disk == old(s.disk)
    ensures old(s.Load(token)).Some? && Decided(old(s.disk).Phase()) ==>
              && s.disk == old(s.disk)
              && (!s.misread ==> reply == if old(s.disk).Phase() == RolledBack then Done else Refused(AlreadyCommitted))
              && (reply.Done? ==> old(s.disk).Phase() == RolledBack)
    ensures old(s.Load(token)).Some? && !Decided(old(s.disk).Phase()) ==>
              var v, w := old(s.disk), RolledBackFrom(old(s.disk));
              && (reply.Done? ==> RollbackLeaves(v, s.disk, s.misread))
              && (reply.Refused? ==> s.disk in {v, w, w.WithPhase(RolledBack)} || (s.misread && Skips(v, s.disk)))
              && (!s.fails ==> !s.misread)
              && (!s.fails ==> (reply.Done? <==> v.Phase() == Prepared || MustUndo(v) || MayConcludeRollback(v)))
    // What is undone, entry by entry; nothing else is ever touched.
    ensures old(s.Load(token)).Some? && !Decided(old(s.disk).Phase()) ==>
              var v, r := old(s.disk), old(s.disk).record.value;
              var w :=
                if r.phase == Prepared then v else
                match r.operation
                case Write =>
                  if r.expectMissing then if Proof(v.target, r.staged) then v.(target := None) else v
                  else if Proof(v.stage, r.expected) && (v.target.None? || Proof(v.target, r.staged))
                  then v.(target := v.stage, stage := v.target)
                  else v
                case Delete =>
                  if v.target.None? && Proof(v.stage, r.expected) then v.(target := v.stage, stage := None) else v
                case Move =>
                  if v.target.None? && r.destination.Some? && Proof(v.destination, r.expected)
                  then v.(target := v.destination, destination := None)
                  else v
                case MakeDirectory =>
                  if IsDirectory(v.target) && SameIdentity(v.target, r.staged) then v.(target := None) else v;
              && s.disk in {v, w, v.WithPhase(RolledBack), w.WithPhase(RolledBack)}
              && (reply.Done? && !s.misread ==> s.disk == w.WithPhase(RolledBack))
              && (!s.fails ==>
                    (reply.Done? <==>
                      && (r.Overwrites() && r.phase != Prepared ==> w != v || Proof(v.target, r.expected))
                      && (r.operation == Move && r.phase != Prepared ==> r.destination.Some?)))
  {
    s.misread := false;
    ghost var first := |s.trail| - 1;
    var loaded := s.LoadState(token);
    if loaded.None? {
      return Refused(InvalidPreparedReceipt);
    }
    var record := loaded.value;
    if record.phase == RolledBack {
      return Done;
    }
    if record.phase == Committed {
      return Refused(AlreadyCommitted);
    }
    if record.phase != Prepared {
      reply := UndoVisible(s, record, first);
      if reply.Refused? {
        return;
      }
    }
    var ok := ConcludeUndo(s, record, first);
    reply := if ok then Done else Refused(MutationIndeterminate);
  }

  /** A rollback that replies Done has restored the old tree exactly when no read failed
      while there was something to undo. */
  lemma RestoredExactlyWhenSeen(p: View, v: View, w: View, misread: bool)
    requires PreparedView(p) && Inv(p, v) && v.record.Some? && !Decided(v.Phase())
    requires RollbackLeaves(v, w, misread)
    ensures Before(p, w) <==> !(misread && MustUndo(v))
  {
    RollbackAlwaysRestores(p, v);
    if Skips(v, w) {
      SkipLeads(p, v, w);
    }
  }

  /** The hidden entries are of the kind HandleCleanup unlinks. */
  predicate Cleanable(v: View)
    requires v.record.Some?
  {
    && (v.stage.Some? ==> v.stage.value.Directory? == (v.record.value.operation == MakeDirectory))
    && (v.backup.Some? ==> v.backup.value.File?)
  }

  /** From `first` on nothing visible differs from `v`, and no state lacks the record
      while a hidden entry is left. */
  ghost predicate Cleaning(trail: seq<View>, first: nat, v: View) {
    forall i | first <= i < |trail| ::
      SameVisible(trail[i], v) && (trail[i].record.None? ==> trail[i].stage.None? && trail[i].backup.None?)
  }

  /** Nothing of the operation is in the hidden directory. */
  method NamesAreFree(s: Session) returns (free: bool)
    requires s.Valid()
    modifies s`misread
    ensures s.Valid()
    ensures free ==> s.disk.record.None? && s.disk.stage.None? && s.disk.backup.None?
    ensures !s.fails ==> free == (s.disk.record.None? && s.disk.stage.None? && s.disk.backup.None?)
  {
    free := s.Confirm(s.disk.record.None?);
    if free {
      free := s.Confirm(s.disk.stage.None?);
    }
    if free {
      free := s.Confirm(s.disk.backup.None?);
    }
  }

  /** RemoveIfPresent, as one effect of a cleanup. */
  method RemoveIfPresent(s: Session, entry: Entry, directory: bool, ghost first: nat, ghost effect: Effect,
                         ghost settled: bool)
    returns (ok: bool)
    requires s.Valid() && first < |s.trail|
    requires entry in {Stage, Backup} && effect == if entry == Stage then DropStage else DropBackup
    requires s.disk.record.Some? && settled == Settled(s.disk.Phase()) && (settled ==> Steps(s.trail, first))
    requires entry == Backup ==> s.disk.stage.None?
    requires Cleaning(s.trail, first, s.disk)
    modifies s`disk, s`trail, s`misread
    ensures |old(s.trail)| <= |s.trail| && Cleaning(s.trail, first, s.disk)
    ensures s.Valid() && (settled ==> Steps(s.trail, first))
    ensures s.disk in {old(s.disk), old(s.disk).With(entry, None)}
    ensures ok ==> s.disk == old(s.disk).With(entry, None)
    ensures !s.fails ==>
              (ok <==> (old(s.disk).At(entry).Some? ==> old(s.disk).At(entry).value.Directory? == directory))
  {
    var missing := s.Confirm(s.disk.At(entry).None?);
    if missing {
      return true;
    }
    ok := s.Unlink(entry, directory);
    if ok && settled {
      Extend(old(s.trail), first, s.disk, effect);
    }
  }

  /** Cleanup never touches the visible tree and removes the record last, so whatever it
      leaves behind is still described by a record. */
  method HandleCleanup(s: Session, token: string) returns (reply: Reply)
    requires s.Valid()
    modifies s
    ensures s.Valid() && |old(s.trail)| <= |s.trail|
    ensures old(s.disk).record.Some? && Settled(old(s.disk).Phase()) ==> Steps(s.trail, |old(s.trail)| - 1)
    ensures old(s.disk).record.Some? ==> Cleaning(s.trail, |old(s.trail)| - 1, old(s.disk))
    ensures old(s.disk).record.None? ==>
              && s.disk == old(s.disk)
              && (reply.Done? ==> s.disk.stage.None? && s.disk.backup.None?)
              && (!s.fails ==> (reply.Done? <==> s.disk.stage.None? && s.disk.backup.None?))
    ensures old(s.disk).record.Some? && old(s.Load(token)).None? ==>
              reply == Refused(InvalidPreparedReceipt) && s.disk == old(s.disk)
    ensures reply.Done? ==> s.disk == View(None, old(s.disk).target, old(s.disk).destination, None, None)
    ensures old(s.Load(token)).Some? && !s.fails ==> (reply.Done? <==> Cleanable(old(s.disk)))
  {
    var missing := s.Confirm(s.disk.record.None?);
    if missing {
      missing := NamesAreFree(s);
      return if missing then Done else Refused(MutationIndeterminate);
    }
    var loaded := s.LoadState(token);
    if loaded.None? {
      return Refused(InvalidPreparedReceipt);
    }
    var ok := RemoveAll(s, loaded.value);
    reply := if ok then Done else Refused(MutationIndeterminate);
  }

  /** Stage, backup and record, in this order. */
  method RemoveAll(s: Session, record: Record) returns (ok: bool)
    requires s.Valid() && s.disk.record == Some(record)
    modifies s
    ensures s.Valid() && |old(s.trail)| <= |s.trail|
    ensures Settled(record.phase) ==> Steps(s.trail, |old(s.trail)| - 1)
    ensures Cleaning(s.trail, |old(s.trail)| - 1, old(s.disk))
    ensures ok ==> s.disk == View(None, old(s.disk).target, old(s.disk).destination, None, None)
    ensures !s.fails ==> (ok <==> Cleanable(old(s.disk)))
  {
    ghost var first := |s.trail| - 1;
    ghost var settled := Settled(record.phase);
    ok := RemoveIfPresent(s, Stage, record.operation == MakeDirectory, first, DropStage, settled);
    if !ok {
      return;
    }
    ok := RemoveIfPresent(s, Backup, false, first, DropBackup, settled);
    if !ok {
      return;
    }
    ghost var trail := s.trail;
    ok := s.DeleteState();
    if s.trail != trail && settled {
      Extend(trail, first, s.disk, DropRecord);
    }
  }

  /** What the caller asks HandlePrepare to do. `empty` is the digest of no bytes. */
  datatype Request = Request(
    operation: Operation,
    path: string,
    destination: Option<string>,
    expectMissing: bool,
    expected: Claim,
    bytes: Option<Digest>,
    empty: Digest)

  /** The target is what the caller says it saw. */
  predicate Expected(target: Slot, q: Request) {
    if q.expectMissing then target.None?
    else target.Some? && SameIdentity(target, q.expected) && (target.value.File? ==> Proof(target, q.expected))
  }

  /** When HandlePrepare has nothing to object. */
  predicate Preparable(v: View, q: Request) {
    && (q.operation == Move) == q.destination.Some?
    && v.record.None? && v.stage.None? && v.backup.None?
    && Expected(v.target, q)
    && (IsDirectory(v.target) ==> q.operation == MakeDirectory)
    && (q.operation == Write ==> q.bytes.Some?)
  }

  /** Write the staged file, the backup copy of the target that was seen, or the staged
      directory. */
  method StageRequest(s: Session, q: Request, token: string, seen: Slot) returns (ok: bool, record: Record)
    requires s.Valid() && (q.destination.None? ==> s.disk.destination.None?)
    requires s.disk.record.None? && s.disk.stage.None? && s.disk.backup.None?
    requires q.operation == Write ==> q.bytes.Some?
    modifies s`disk, s`trail, s`nextIdentity
    ensures s.Valid() && (s.trail == old(s.trail) || s.trail == old(s.trail) + [s.disk])
    ensures SameVisible(old(s.disk), s.disk) && s.disk.record.None?
    ensures ok ==> s.trail == old(s.trail) + [s.disk] && Stranded(s.disk)
    ensures ok && Preparable(old(s.disk), q) ==> PreparedView(s.disk.(record := Some(record)))
    ensures ok ==> Requested(record, q, token, seen)
    ensures !s.fails ==> ok
  {
    record := Record(token, q.operation, q.path, q.destination, q.expectMissing, q.expected,
                     NO_CLAIM, NO_CLAIM, Prepared);
    var node;
    match q.operation {
      case Write =>
        ok, node := s.WriteExact(Stage, q.bytes.value);
        record := record.(staged := ClaimOf(node));
      case Move | Delete =>
        ok, node := s.WriteExact(Backup, if IsFile(seen) then seen.value.digest else q.empty);
        record := record.(backup := ClaimOf(node));
      case MakeDirectory =>
        ok, node := s.MakeDirectoryAt(Stage);
        record := record.(staged := Claim(Some(node.id), None));
    }
  }

  /** The record carries the caller's request and describes what was staged for it. */
  predicate Requested(r: Record, q: Request, token: string, target: Slot) {
    && r.token == token && r.operation == q.operation && r.path == q.path && r.phase == Prepared
    && r.destination == q.destination && r.expectMissing == q.expectMissing && r.expected == q.expected
    && (q.operation == Write ==> q.bytes.Some? && r.staged.digest == q.bytes)
    && (q.operation in {Move, Delete} ==>
          r.backup.digest == Some(if IsFile(target) then target.value.digest else q.empty))
  }

  /** What HandlePrepare sees at the path, and whether it is what the caller expects. */
  method Inspect(s: Session, q: Request) returns (ok: bool, seen: Slot)
    requires s.Valid()
    modifies s`misread
    ensures s.Valid() && seen in {s.disk.target, None}
    ensures !s.misread ==> seen == s.disk.target
    ensures ok ==> Expected(seen, q)
    ensures !s.fails ==> seen == s.disk.target && ok == Expected(seen, q)
  {
    seen := s.OpenFile(Target);
    if seen.None? {
      var directory := s.Confirm(IsDirectory(s.disk.target));
      if directory {
        seen := s.disk.target;
      }
    }
    ok := Expected(seen, q);
    if seen.Some? && !q.expectMissing {
      ok := s.Confirm(ok);
    }
  }

  /** HandlePrepare was asked to create something at a path where it failed to see what is
      there. The rename of the commit will refuse (`OccupiedPathIsKept`). */
  predicate Overlooked(v: View, q: Request) {
    q.expectMissing && v.target.Some?
  }

  /** When a request can be prepared, from the entries and the request alone. */
  predicate Admissible(v: View, q: Request) {
    && v.record.None? && v.stage.None? && v.backup.None?
    && (q.operation == Move <==> q.destination.Some?) && (q.operation == Write ==> q.bytes.Some?)
    && match v.target
       case None => q.expectMissing
       case Some(File(id, digest)) => !q.expectMissing && q.expected == Claim(Some(id), Some(digest))
       case Some(Directory(id)) =>
         !q.expectMissing && q.expected.id == Some(id) && q.operation == MakeDirectory
  }

  /** What is staged, and what the record says of it and of the request. */
  predicate StagedFor(v: View, w: View, q: Request, token: string) {
    w.record.Some? &&
    var r := w.record.value;
    && r.token == token && r.operation == q.operation && r.path == q.path && r.destination == q.destination
    && r.expectMissing == q.expectMissing && r.expected == q.expected && r.phase == Prepared
    && match q.operation
       case Write =>
         && w.backup.None? && IsFile(w.stage) && Some(w.stage.value.digest) == q.bytes
         && r.staged == ClaimOf(w.stage.value)
       case MakeDirectory => w.backup.None? && IsDirectory(w.stage) && SameIdentity(w.stage, r.staged)
       case _ =>
         && w.stage.None? && IsFile(w.backup) && r.backup == ClaimOf(w.backup.value)
         && w.backup.value.digest == if IsFile(v.target) then v.target.value.digest else q.empty
  }

  lemma AdmissibleIsPreparable(v: View, q: Request)
    ensures Admissible(v, q) <==> Preparable(v, q)
  {
  }

  lemma PreparedIsStaged(v: View, w: View, q: Request, token: string)
    requires PreparedView(w) && Requested(w.record.value, q, token, v.target)
    ensures StagedFor(v, w, q, token)
  {
  }


  /** Prepare touches nothing visible. If it succeeds, the record is `prepared`, carries
      the caller's request, and describes the staged result or the backup copy; without
      failures it succeeds exactly when the request fits the session. */
  method HandlePrepare(s: Session, q: Request, token: string) returns (reply: Reply)
    requires s.Valid() && (q.destination.None? ==> s.disk.destination.None?)
    modifies s
    ensures s.Valid() && old(s.trail) <= s.trail
    ensures forall i | |old(s.trail)| <= i < |s.trail| ::
              s.trail[i].target == old(s.disk).target && s.trail[i].destination == old(s.disk).destination
    ensures reply.Done? ==> Before(old(s.disk), s.disk)
    ensures !(old(s.disk).record.None? && old(s.disk).stage.None? && old(s.disk).backup.None?) ==>
              reply.Refused? && s.disk == old(s.disk)
    ensures reply.Done? ==> exists i | |old(s.trail)| <= i < |s.trail| :: Stranded(s.trail[i])
    ensures reply.Done? && !Overlooked(old(s.disk), q) ==>
              && PreparedView(s.disk) && Preparable(old(s.disk), q)
              && Requested(s.disk.record.value, q, token, old(s.disk).target)
    ensures reply.Done? && Overlooked(old(s.disk), q) ==> s.misread
    ensures reply.Done? && !Overlooked(old(s.disk), q) ==> StagedFor(old(s.disk), s.disk, q, token)
    ensures !s.fails ==> (reply.Done? <==> Admissible(old(s.disk), q))
    ensures !s.fails ==> (reply.Done? <==> Preparable(old(s.disk), q)) && (reply.Refused? ==> s.disk == old(s.disk))
  {
    s.misread := false;
    AdmissibleIsPreparable(s.disk, q);
    if (q.operation == Move) != q.destination.Some? {
      return Refused(InvalidArgument);
    }
    var ok := NamesAreFree(s);
    if !ok {
      return Refused(OperationExists);
    }
    var seen;
    ok, seen := Inspect(s, q);
    if !ok {
      return Refused(StaleTarget);
    }
    if IsDirectory(seen) && q.operation != MakeDirectory {
      return Refused(Unsupported);
    }
    if q.operation == Write && q.bytes.None? {
      return Refused(InvalidArgument);
    }
    reply := StageAndSave(s, q, token, seen);
    if reply.Done? && !Overlooked(old(s.disk), q) {
      PreparedIsStaged(old(s.disk), s.disk, q, token);
    }
  }

  /** Stage what is asked for, then save the record of it. */
  method StageAndSave(s: Session, q: Request, token: string, seen: Slot) returns (reply: Reply)
    requires s.Valid() && (q.destination.None? ==> s.disk.destination.None?)
    requires s.disk.record.None? && s.disk.stage.None? && s.disk.backup.None?
    requires q.operation == Write ==> q.bytes.Some?
    modifies s`disk, s`trail, s`nextIdentity
    ensures s.Valid() && old(s.trail) <= s.trail
    ensures forall i | |old(s.trail)| <= i < |s.trail| ::
              s.trail[i].target == old(s.disk).target && s.trail[i].destination == old(s.disk).destination
    ensures reply.Done? ==>
              && Before(old(s.disk), s.disk) && s.disk.record.Some?
              && Requested(s.disk.record.value, q, token, seen)
              && exists i | |old(s.trail)| <= i < |s.trail| :: Stranded(s.trail[i])
    ensures reply.Done? && Preparable(old(s.disk), q) ==> PreparedView(s.disk)
    ensures !s.fails ==> reply.Done?
  {
    var ok, record := StageRequest(s, q, token, seen);
    if !ok {
      return Refused(MutationIndeterminate);
    }
    ghost var staged := s.trail;
    ok := s.Save(record);
    assert ok ==> s.trail[|staged| - 1] == staged[|staged| - 1];
    reply := if ok then Done else Refused(MutationIndeterminate);
  }

  /** Something is staged, and no record tells of it: HandlePrepare stopped before it saved
      the record. */
  predicate Stranded(v: View) {
    v.record.None? && (v.stage.Some? || v.backup.Some?)
  }

  /** What is stranded stays so: every handler refuses, cleanup included, and changes
      nothing. */
  method CallsOnStranded(s: Session, q: Request, token: string)
    returns (prepared: Reply, committed: Reply, reconciled: Reconciliation, rolledBack: Reply, cleaned: Reply)
    requires s.Valid() && (q.destination.None? ==> s.disk.destination.None?) && Stranded(s.disk)
    modifies s
    ensures s.Valid() && s.disk == old(s.disk)
    ensures prepared.Refused? && committed.Refused? && reconciled.NotAnswered?
    ensures rolledBack.Refused? && cleaned.Refused?
  {
    prepared := HandlePrepare(s, q, token);
    committed := HandleCommit(s, token);
    reconciled := HandleReconcile(s, token);
    rolledBack := HandleRollback(s, token);
    cleaned := HandleCleanup(s, token);
  }

  /** Whatever a handler makes durable, a process that stops there leaves a good state:
      the next call starts from the invariant again. */
  lemma {:induction false} StepsStayGood(p: View, trail: seq<View>, first: nat, i: nat)
    requires PreparedView(p) && Steps(trail, first) && first <= i < |trail|
    requires Inv(p, trail[first])
    ensures Inv(p, trail[i])
    ensures Before(p, trail[i]) || After(p, trail[i])
  {
    if first < i {
      StepsStayGood(p, trail, first, i - 1);
      assert Next(trail[i - 1], trail[i - 1 + 1]);
      var e :| Permitted(trail[i - 1], e) && trail[i] == Apply(trail[i - 1], e);
      Inductive(p, trail[i - 1], e);
    }
  }

  /** The same for a handler whose reads may fail, a skipped undo being the one exception. */
  lemma {:induction false} LooseStepsStayGood(p: View, trail: seq<View>, first: nat, i: nat)
    requires PreparedView(p) && LooseSteps(trail, first) && first <= i < |trail|
    requires Inv(p, trail[first]) || Skipped(p, trail[first])
    ensures Inv(p, trail[i]) || Skipped(p, trail[i])
    ensures Before(p, trail[i]) || After(p, trail[i])
  {
    if first < i {
      LooseStepsStayGood(p, trail, first, i - 1);
      assert NextOrSkip(trail[i - 1], trail[i - 1 + 1]);
      LooseStep(p, trail[i - 1], trail[i]);
    }
  }

  /** What HandleReconcile answers about a reachable state is true even if reads fail;
      what it then loses is only the certainty. */
  lemma SupportedIsTrue(p: View, v: View, answer: Answer)
    requires PreparedView(p) && Inv(p, v) && v.record.Some? && Supported(v, answer)
    ensures answer == AnsweredCommitted ==> After(p, v)
    ensures answer in {AnsweredNotCommitted, AnsweredRolledBack} ==> Before(p, v)
  {
  }

  /** No reachable state blocks a cleanup, however often it was interrupted before. */
  lemma CleanupIsNeverBlocked(p: View, v: View)
    requires PreparedView(p) && Inv(p, v) && v.record.Some?
    ensures Cleanable(v)
    ensures Cleanable(v.(stage := None)) && Cleanable(v.(stage := None, backup := None))
  {
  }
}
