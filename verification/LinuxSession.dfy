/** The disk as one operation of the Linux runner sees it, and the durable steps its
    handlers take on it. */
module LinuxSession {
  import opened Records
  import opened Runners
  import opened Volumes
  import opened LinuxProtocol

  /** SaveOperationState refuses to replace a record of another token, and a phase that
      does not follow from the one on disk. */
  predicate MaySave(v: View, record: Record) {
    v.record.Some? ==>
      v.record.value.token == record.token && Forward(v.Phase(), record.phase)
  }

  /** Every pair of neighbours from `first` on is one effect of the operation. */
  ghost predicate Steps(trail: seq<View>, first: nat) {
    forall i | first <= i < |trail| - 1 :: Next(trail[i], trail[i + 1])
  }

  /** The same for a rollback whose reads may fail. */
  ghost predicate LooseSteps(trail: seq<View>, first: nat) {
    forall i | first <= i < |trail| - 1 :: NextOrSkip(trail[i], trail[i + 1])
  }

  lemma ExtendLoosely(before: seq<View>, first: nat, v: View)
    requires first < |before| && LooseSteps(before, first) && NextOrSkip(before[|before| - 1], v)
    ensures LooseSteps(before + [v], first)
  {
    var trail := before + [v];
    forall i | first <= i < |trail| - 1
      ensures NextOrSkip(trail[i], trail[i + 1])
    {
      if i < |before| - 1 {
        assert NextOrSkip(before[i], before[i + 1]);
      }
    }
  }

  lemma Extend(before: seq<View>, first: nat, v: View, effect: Effect)
    requires first < |before| && Steps(before, first)
    requires Permitted(before[|before| - 1], effect) && v == Apply(before[|before| - 1], effect)
    ensures Steps(before + [v], first)
  {
    var trail := before + [v];
    forall i | first <= i < |trail| - 1
      ensures Next(trail[i], trail[i + 1])
    {
      if i < |before| - 1 {
        assert Next(before[i], before[i + 1]);
      } else {
        assert trail[i + 1] == Apply(trail[i], effect);
      }
    }
  }

  predicate IdBelow(slot: Slot, bound: Identity) {
    slot.Some? ==> slot.value.id < bound
  }

  /** Identities from `bound` on are unused. */
  predicate IdsBelow(v: View, bound: Identity) {
    && IdBelow(v.target, bound) && IdBelow(v.destination, bound)
    && IdBelow(v.stage, bound) && IdBelow(v.backup, bound)
  }

  class Session {
    var disk: View

    /** An identity no entry has yet. */
    var nextIdentity: Identity

    /** Whether a read or a durable step can fail. */
    const fails: bool

    /** Whether this operation is the only writer while a handler runs. */
    const quiet: bool

    /** Every state that has been durable, the present one last: a process that stops
        leaves one of these. */
    ghost var trail: seq<View>

    /** Whether a read has failed to see what it was asked about. */
    ghost var misread: bool

    /** What is at the path as everybody else left it when the running handler last
        gave way. */
    ghost var theirs: Slot

    ghost predicate Valid()
      reads this
    {
      && trail != [] && trail[|trail| - 1] == disk
      && IdsBelow(disk, nextIdentity)
    }

    twostate predicate Became(v: View)
      reads this
    {
      disk == v && trail == old(trail) + [v]
    }

    twostate predicate Unchanged()
      reads this
    {
      disk == old(disk) && trail == old(trail)
    }

    constructor (disk: View, nextIdentity: Identity, fails: bool, quiet: bool)
      requires IdsBelow(disk, nextIdentity)
      ensures Valid() && this.disk == disk && trail == [disk]
      ensures this.fails == fails && this.quiet == quiet
    {
      this.disk, this.nextIdentity, this.fails, this.quiet := disk, nextIdentity, fails, quiet;
      trail, theirs, misread := [disk], disk.target, false;
    }

    /** A read, which may fail to see what is so. */
    method Confirm(fact: bool) returns (seen: bool)
      requires Valid()
      modifies this`misread
      ensures Valid() && (seen ==> fact)
      ensures misread == (old(misread) || seen != fact)
      ensures !fails ==> seen == fact
    {
      seen := Look(fact, fails);
      misread := misread || seen != fact;
    }

    /** OpenFileAt: only regular files open. */
    method OpenFile(entry: Entry) returns (slot: Slot)
      requires Valid()
      modifies this`misread
      ensures Valid() && (slot == disk.At(entry) || slot.None?) && (slot.Some? ==> IsFile(slot))
      ensures misread == (old(misread) || (slot.None? && IsFile(disk.At(entry))))
      ensures !fails ==> slot == if IsFile(disk.At(entry)) then disk.At(entry) else None
    {
      var isFile := Confirm(IsFile(disk.At(entry)));
      slot := if isFile then disk.At(entry) else None;
    }

    /** LoadOperationState refuses a record that carries another token. */
    function Load(token: string): (found: Option<Record>)
      reads this
      ensures found.Some? <==> disk.record.Some? && disk.record.value.token == token
      ensures found.Some? ==> found == disk.record
    {
      if disk.record.Some? && disk.record.value.token == token then disk.record else None
    }

    method LoadState(token: string) returns (found: Option<Record>)
      requires Valid()
      modifies this`misread
      ensures Valid() && found in {Load(token), None}
      ensures misread == (old(misread) || found != Load(token))
      ensures !fails ==> found == Load(token)
    {
      var loaded := Confirm(Load(token).Some?);
      found := if loaded then Load(token) else None;
    }

    /** SaveOperationState. A failed flush is reported although the record is in place. */
    method Save(record: Record) returns (ok: bool)
      requires Valid()
      modifies this`disk, this`trail
      ensures Valid()
      ensures Unchanged() || (MaySave(old(disk), record) && Became(old(disk).(record := Some(record))))
      ensures ok ==> !Unchanged()
      ensures !fails ==> ok == MaySave(old(disk), record) && (!ok ==> Unchanged())
    {
      ok := Attempt(fails);
      if !ok || !MaySave(disk, record) {
        return false;
      }
      disk := disk.(record := Some(record));
      trail := trail + [disk];
      ok := Attempt(fails);
    }

    /** renameat2 with RENAME_NOREPLACE. */
    method RenameNoReplace(from: Entry, to: Entry) returns (ok: bool)
      requires Valid()
      modifies this`disk, this`trail
      ensures Valid()
      ensures !ok ==> Unchanged()
      ensures ok ==> old(disk).At(from).Some? && old(disk).At(to).None?
      ensures ok ==> Became(old(disk).With(to, old(disk).At(from)).With(from, None))
      ensures !fails ==> ok == (old(disk).At(from).Some? && old(disk).At(to).None?)
    {
      ok := Attempt(fails);
      if !ok || disk.At(from).None? || disk.At(to).Some? {
        return false;
      }
      disk := disk.With(to, disk.At(from)).With(from, None);
      trail := trail + [disk];
    }

    /** renameat2 with RENAME_EXCHANGE. */
    method Exchange(a: Entry, b: Entry) returns (ok: bool)
      requires Valid()
      modifies this`disk, this`trail
      ensures Valid()
      ensures !ok ==> Unchanged()
      ensures ok ==> old(disk).At(a).Some? && old(disk).At(b).Some?
      ensures ok ==> Became(old(disk).With(a, old(disk).At(b)).With(b, old(disk).At(a)))
      ensures !fails ==> ok == (old(disk).At(a).Some? && old(disk).At(b).Some?)
    {
      ok := Attempt(fails);
      if !ok || disk.At(a).None? || disk.At(b).None? {
        return false;
      }
      disk := disk.With(a, disk.At(b)).With(b, disk.At(a));
      trail := trail + [disk];
    }

    /** unlinkat, for a file or, with `directory`, for an empty directory. */
    method Unlink(entry: Entry, directory: bool) returns (ok: bool)
      requires Valid()
      modifies this`disk, this`trail
      ensures Valid()
      ensures !ok ==> Unchanged()
      ensures ok ==> old(disk).At(entry).Some? && old(disk).At(entry).value.Directory? == directory
      ensures ok ==> Became(old(disk).With(entry, None))
      ensures !fails ==> ok == (old(disk).At(entry).Some? && old(disk).At(entry).value.Directory? == directory)
    {
      ok := Attempt(fails);
      if !ok || disk.At(entry).None? || disk.At(entry).value.Directory? != directory {
        return false;
      }
      disk := disk.With(entry, None);
      trail := trail + [disk];
    }

    /** DeleteOperationState. */
    method DeleteState() returns (ok: bool)
      requires Valid()
      modifies this`disk, this`trail
      ensures Valid()
      ensures Unchanged() || Became(old(disk).(record := None))
      ensures ok ==> disk.record.None?
      ensures !fails ==> ok && Became(old(disk).(record := None))
    {
      ok := Attempt(fails);
      if !ok {
        return;
      }
      disk := disk.(record := None);
      trail := trail + [disk];
      ok := Attempt(fails);
    }

    /** WriteExact creates a new file. A failed write leaves a file of any content. */
    method WriteExact(entry: Entry, digest: Digest) returns (ok: bool, node: Node)
      requires Valid()
      modifies this`disk, this`trail, this`nextIdentity
      ensures Valid()
      ensures node.File? && node.id == old(nextIdentity)
      ensures Unchanged() || (old(disk).At(entry).None? && Became(old(disk).With(entry, Some(node))))
      ensures ok ==> !Unchanged() && node.digest == digest
      ensures !fails ==> ok == old(disk).At(entry).None? && (!ok ==> Unchanged())
    {
      node := File(nextIdentity, digest);
      ok := Attempt(fails);
      if !ok || disk.At(entry).Some? {
        return false, node;
      }
      ok := Attempt(fails);
      if !ok {
        var torn: Digest := *;
        node := File(nextIdentity, torn);
      }
      nextIdentity := nextIdentity + 1;
      disk := disk.With(entry, Some(node));
      trail := trail + [disk];
    }

    /** mkdirat. */
    method MakeDirectoryAt(entry: Entry) returns (ok: bool, node: Node)
      requires Valid()
      modifies this`disk, this`trail, this`nextIdentity
      ensures Valid()
      ensures !ok ==> Unchanged()
      ensures ok ==> old(disk).At(entry).None? && node == Directory(old(nextIdentity))
      ensures ok ==> Became(old(disk).With(entry, Some(node)))
      ensures !fails ==> ok == old(disk).At(entry).None?
    {
      node := Directory(nextIdentity);
      ok := Attempt(fails);
      if !ok || disk.At(entry).Some? {
        return false, node;
      }
      nextIdentity := nextIdentity + 1;
      disk := disk.With(entry, Some(node));
      trail := trail + [disk];
    }

    /** Somebody else may replace, rewrite or remove what is at the path. */
    method GiveWay()
      requires Valid()
      modifies this
      ensures Valid()
      ensures quiet ==> Unchanged()
      ensures theirs == disk.target && disk == old(disk).With(Target, theirs)
      ensures old(trail) <= trail
    {
      if !quiet {
        var slot: Slot := *;
        disk := disk.With(Target, slot);
        trail := trail + [disk];
        if slot.Some? && nextIdentity <= slot.value.id {
          nextIdentity := slot.value.id + 1;
        }
      }
      theirs := disk.target;
    }
  }
}
