/** Many operations of one Linux session on one disk. Each touches its own entries only,
    so each keeps its promise whatever the others do in between. */
module LinuxInterleaving {
  import opened Records
  import opened RecordBytes
  import opened RelativePaths
  import opened Volumes
  import opened LinuxProtocol

  /** Where an entry is below the session directory, name by name. */
  type Place = seq<Text>

  datatype Disk = Disk(tree: map<Place, Node>, records: map<Place, Record>)

  predicate IdCharacter(c: Byte) {
    97 <= c <= 122 || 65 <= c <= 90 || 48 <= c <= 57 || c == 95 || c == 45
  }

  predicate SafeOperationId(id: Text) {
    |id| == 32 && forall i | 0 <= i < |id| :: IdCharacter(id[i])
  }

  /** The place of a name in the hidden directory. */
  function Hidden(name: Text): Place {
    [HIDDEN_NAME, name]
  }

  /** The place a path of a request stands for. */
  function Visible(path: Text): Place
    requires PartsOf(path, false).Some?
  {
    PartsOf(path, false).value
  }

  /** An operation's id and the paths in its record. */
  datatype Names = Names(id: Text, path: Text, destination: Option<Text>) {
    function StateName(): Text { id + [46, 115, 116, 97, 116, 101] }
    function StageName(): Text { id + [46, 115, 116, 97, 103, 101] }
    function BackupName(): Text { id + [46, 98, 97, 99, 107, 117, 112] }

    /** What HandlePrepare lets pass. */
    predicate Accepted() {
      && SafeOperationId(id) && PartsOf(path, false).Some?
      && (destination.Some? ==> PartsOf(destination.value, false).Some?)
    }

    predicate Uses(text: Text) {
      text == path || destination == Some(text)
    }

    /** The entries the operation may touch, its record aside. */
    predicate Owns(place: Place)
      requires Accepted()
    {
      || place == Visible(path) || (destination.Some? && place == Visible(destination.value))
      || place == Hidden(StageName()) || place == Hidden(BackupName())
    }
  }

  /** The part of the disk one operation reads and changes. */
  function ViewOf(d: Disk, n: Names): View
    requires n.Accepted()
  {
    View(
      At(d.records, Hidden(n.StateName())),
      At(d.tree, Visible(n.path)),
      if n.destination.Some? then At(d.tree, Visible(n.destination.value)) else None,
      At(d.tree, Hidden(n.StageName())),
      At(d.tree, Hidden(n.BackupName())))
  }

  ghost predicate SameElsewhere(n: Names, d: Disk, e: Disk)
    requires n.Accepted()
  {
    && (forall place | !n.Owns(place) :: At(d.tree, place) == At(e.tree, place))
    && (forall key | key != Hidden(n.StateName()) :: At(d.records, key) == At(e.records, key))
  }

  /** Distinct ids, and no path of one operation is a path of another. */
  ghost predicate Apart(m: Names, n: Names) {
    m.id != n.id && forall text | m.Uses(text) :: !n.Uses(text)
  }

  ghost predicate Independent(ops: seq<Names>) {
    && (forall k | 0 <= k < |ops| :: ops[k].Accepted())
    && (forall k, l | 0 <= k < |ops| && 0 <= l < |ops| && k != l :: Apart(ops[k], ops[l]))
  }

  /** A step of the operation: before its prepare is over anything it does to its own
      entries, from then on one durable effect, or the skipped undo of a rollback that
      failed to read something. */
  ghost predicate OwnStep(n: Names, d: Disk, e: Disk, prepared: bool)
    requires n.Accepted()
  {
    SameElsewhere(n, d, e) && (prepared ==> NextOrSkip(ViewOf(d, n), ViewOf(e, n)))
  }

  /** Anything done to entries that belong to none of the operations. */
  ghost predicate ForeignStep(ops: seq<Names>, d: Disk, e: Disk)
    requires Independent(ops)
  {
    forall k | 0 <= k < |ops| :: ViewOf(d, ops[k]) == ViewOf(e, ops[k])
  }

  /** Step `i` is taken by the operation `actors[i]`, or by nobody listed. */
  ghost predicate StepOf(ops: seq<Names>, starts: seq<nat>, run: seq<Disk>, actors: seq<Option<nat>>, i: nat)
    requires Independent(ops) && |starts| == |ops| && i < |actors| == |run| - 1
  {
    match actors[i]
    case None => ForeignStep(ops, run[i], run[i + 1])
    case Some(l) => l < |ops| && OwnStep(ops[l], run[i], run[i + 1], starts[l] <= i)
  }

  /** Any interleaving of calls, prepares included: operation `k` has been prepared when
      the run is in its state `starts[k]`. */
  ghost predicate Interleaved(ops: seq<Names>, starts: seq<nat>, run: seq<Disk>, actors: seq<Option<nat>>) {
    && Independent(ops) && |starts| == |ops| && |actors| == |run| - 1
    && forall i | 0 <= i < |actors| :: StepOf(ops, starts, run, actors, i)
  }

  // ---------------------------------------------------------------- names do not meet

  /** Different paths lead to different places. */
  lemma PathsDiffer(a: Text, b: Text)
    requires PartsOf(a, false).Some? && PartsOf(b, false).Some? && a != b
    ensures Visible(a) != Visible(b)
  {
    PartsExactlyWhen(a, false, Visible(a));
    PartsExactlyWhen(b, false, Visible(b));
  }

  /** No path of a request leads to a name in the hidden directory. */
  lemma NothingHiddenIsVisible(path: Text, name: Text)
    requires PartsOf(path, false).Some?
    ensures Visible(path) != Hidden(name)
  {
    HiddenIsUnreachable(path, false);
    assert HIDDEN_NAME in Hidden(name);
  }

  /** Ids of 32 characters keep the hidden names of two operations apart. */
  lemma HiddenNamesDiffer(m: Names, n: Names)
    requires |m.id| == |n.id| == 32 && m.id != n.id
    ensures Hidden(m.StateName()) != Hidden(n.StateName())
    ensures forall a, b | a in {m.StageName(), m.BackupName()} && b in {n.StageName(), n.BackupName()} ::
              Hidden(a) != Hidden(b)
  {
    assert m.StateName()[..32] == m.id && n.StateName()[..32] == n.id;
    assert m.StageName()[..32] == m.id && n.StageName()[..32] == n.id;
    assert m.BackupName()[..32] == m.id && n.BackupName()[..32] == n.id;
    forall a, b | a in {m.StageName(), m.BackupName()} && b in {n.StageName(), n.BackupName()}
      ensures Hidden(a) != Hidden(b)
    {
      assert Hidden(a)[1][..32] == m.id && Hidden(b)[1][..32] == n.id;
    }
  }

  lemma VisibleIsNotOwned(m: Names, n: Names, path: Text)
    requires m.Accepted() && n.Accepted() && Apart(m, n) && n.Uses(path)
    ensures !m.Owns(Visible(path))
  {
    assert !m.Uses(path);
    PathsDiffer(m.path, path);
    if m.destination.Some? {
      PathsDiffer(m.destination.value, path);
    }
    NothingHiddenIsVisible(path, m.StageName());
    NothingHiddenIsVisible(path, m.BackupName());
  }

  lemma HiddenIsNotOwned(m: Names, n: Names, name: Text)
    requires m.Accepted() && n.Accepted() && Apart(m, n) && name in {n.StageName(), n.BackupName()}
    ensures !m.Owns(Hidden(name))
  {
    HiddenNamesDiffer(m, n);
    NothingHiddenIsVisible(m.path, name);
    if m.destination.Some? {
      NothingHiddenIsVisible(m.destination.value, name);
    }
  }

  lemma OthersAreUntouched(m: Names, n: Names, d: Disk, e: Disk)
    requires m.Accepted() && n.Accepted() && Apart(m, n) && SameElsewhere(m, d, e)
    ensures ViewOf(d, n) == ViewOf(e, n)
  {
    HiddenNamesDiffer(m, n);
    HiddenIsNotOwned(m, n, n.StageName());
    HiddenIsNotOwned(m, n, n.BackupName());
    VisibleIsNotOwned(m, n, n.path);
    if n.destination.Some? {
      VisibleIsNotOwned(m, n, n.destination.value);
    }
  }

  // ---------------------------------------------------------------- every operation by itself

  /** For a prepared operation a step of the disk is a step of its own or none. */
  lemma StepSeen(ops: seq<Names>, starts: seq<nat>, run: seq<Disk>, actors: seq<Option<nat>>, i: nat, k: nat)
    requires Interleaved(ops, starts, run, actors) && i < |actors| && k < |ops| && starts[k] <= i
    ensures var v, w := ViewOf(run[i], ops[k]), ViewOf(run[i + 1], ops[k]); v == w || NextOrSkip(v, w)
  {
    assert StepOf(ops, starts, run, actors, i);
    if actors[i].Some? && actors[i] != Some(k) {
      OthersAreUntouched(ops[actors[i].value], ops[k], run[i], run[i + 1]);
    }
  }

  ghost predicate Good(p: View, v: View)
    requires PreparedView(p)
  {
    Inv(p, v) || Skipped(p, v)
  }

  lemma StepKeeps(ops: seq<Names>, starts: seq<nat>, run: seq<Disk>, actors: seq<Option<nat>>, p: View, i: nat, k: nat)
    requires Interleaved(ops, starts, run, actors) && i < |actors| && k < |ops| && starts[k] <= i
    requires PreparedView(p) && Good(p, ViewOf(run[i], ops[k]))
    ensures Good(p, ViewOf(run[i + 1], ops[k]))
  {
    StepSeen(ops, starts, run, actors, i, k);
    var v, w := ViewOf(run[i], ops[k]), ViewOf(run[i + 1], ops[k]);
    if v != w {
      LooseStep(p, v, w);
    }
  }

  lemma {:induction false} EachStaysGood(
      ops: seq<Names>, starts: seq<nat>, run: seq<Disk>, actors: seq<Option<nat>>, i: nat, k: nat)
    requires Interleaved(ops, starts, run, actors) && k < |ops| && starts[k] <= i < |run|
    requires PreparedView(ViewOf(run[starts[k]], ops[k]))
    ensures Good(ViewOf(run[starts[k]], ops[k]), ViewOf(run[i], ops[k]))
  {
    var p := ViewOf(run[starts[k]], ops[k]);
    if i == starts[k] {
      PreparedIsGood(p);
    } else {
      EachStaysGood(ops, starts, run, actors, i - 1, k);
      StepKeeps(ops, starts, run, actors, p, i - 1, k);
    }
  }

  /** Every operation stays atomic from its prepare on, under every interleaving with the
      calls of the others, their prepares included, and whatever reads fail: its tree is the
      old or the new one, and `prepared` and `committed` tell which. */
  lemma EachStaysAtomic(ops: seq<Names>, starts: seq<nat>, run: seq<Disk>, actors: seq<Option<nat>>, i: nat, k: nat)
    requires Interleaved(ops, starts, run, actors) && k < |ops| && starts[k] <= i < |run|
    requires PreparedView(ViewOf(run[starts[k]], ops[k]))
    ensures var p, v := ViewOf(run[starts[k]], ops[k]), ViewOf(run[i], ops[k]);
            && (Before(p, v) || After(p, v))
            && (v.record.Some? && v.Phase() == Prepared ==> Before(p, v))
            && (v.record.Some? && v.Phase() == Committed ==> After(p, v))
  {
    EachStaysGood(ops, starts, run, actors, i, k);
  }

  lemma {:induction false} UnskippedSoFar(
      ops: seq<Names>, starts: seq<nat>, run: seq<Disk>, actors: seq<Option<nat>>, i: nat, k: nat)
    requires Interleaved(ops, starts, run, actors) && k < |ops| && starts[k] <= i < |run|
    requires PreparedView(ViewOf(run[starts[k]], ops[k]))
    requires forall j | starts[k] <= j < i :: !Skips(ViewOf(run[j], ops[k]), ViewOf(run[j + 1], ops[k]))
    ensures Inv(ViewOf(run[starts[k]], ops[k]), ViewOf(run[i], ops[k]))
  {
    var p := ViewOf(run[starts[k]], ops[k]);
    if i == starts[k] {
      PreparedIsGood(p);
    } else {
      UnskippedSoFar(ops, starts, run, actors, i - 1, k);
      StepSeen(ops, starts, run, actors, i - 1, k);
      var v, w := ViewOf(run[i - 1], ops[k]), ViewOf(run[i - 1 + 1], ops[k]);
      if v != w {
        NextKeeps(p, v, w);
      }
    }
  }

  lemma NextKeeps(p: View, v: View, w: View)
    requires PreparedView(p) && Inv(p, v) && Next(v, w)
    ensures Inv(p, w)
  {
    var e :| Permitted(v, e) && w == Apply(v, e);
    Inductive(p, v, e);
  }

  /** And `rolledBack` means the old tree of the operation in every state exactly when no
      rollback of its own skipped an undo; what the others do makes no difference. */
  lemma EachIsTruthfulExactlyWhen(ops: seq<Names>, starts: seq<nat>, run: seq<Disk>, actors: seq<Option<nat>>, k: nat)
    requires Interleaved(ops, starts, run, actors) && k < |ops| && starts[k] < |run|
    requires PreparedView(ViewOf(run[starts[k]], ops[k]))
    ensures (forall i | starts[k] <= i < |run| :: SaysRolledBack(ViewOf(run[i], ops[k])) ==>
                                                    Before(ViewOf(run[starts[k]], ops[k]), ViewOf(run[i], ops[k])))
       <==> (forall i | starts[k] <= i < |actors| :: !Skips(ViewOf(run[i], ops[k]), ViewOf(run[i + 1], ops[k])))
  {
    var p := ViewOf(run[starts[k]], ops[k]);
    if i: nat :| starts[k] <= i < |actors| && Skips(ViewOf(run[i], ops[k]), ViewOf(run[i + 1], ops[k])) {
      EachStaysGood(ops, starts, run, actors, i, k);
      SkipLeads(p, ViewOf(run[i], ops[k]), ViewOf(run[i + 1], ops[k]));
      assert SaysRolledBack(ViewOf(run[i + 1], ops[k]));
    } else {
      forall i | starts[k] <= i < |run| && SaysRolledBack(ViewOf(run[i], ops[k]))
        ensures Before(p, ViewOf(run[i], ops[k]))
      {
        UnskippedSoFar(ops, starts, run, actors, i, k);
      }
    }
  }
}
